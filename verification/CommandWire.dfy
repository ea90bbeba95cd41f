/** Command packs and buffer handles byte by byte. */
module CommandWire {
  import opened Bytes
  import opened Wrappers
  import opened CommandPack
  import opened BufferHandle

  // ----- sections and packs -----

  function Longer(a: nat, b: nat): nat {
    if a < b then b else a
  }

  /** A section: the magic word, the command, its length with the header, and the payload. */
  lemma SectionWire(s: Section)
    ensures SecLen(s) == Longer(12 + |s.payload|, s.reserved)
    ensures SectionBytes(s) ==
            [0xB5, 0xB5, 0xB5, 0xB5] + Word(s.cmd) + Word(Low(Longer(12 + |s.payload|, s.reserved))) + s.payload
  {
    WordIs(SECTION_MAGIC);
    WordIs(s.cmd);
    WordOf(SecLen(s));
    MagicIs();
    hide LE32, ToLE, Word;
  }

  lemma MagicIs()
    ensures Word(SECTION_MAGIC) == [0xB5, 0xB5, 0xB5, 0xB5]
  {
  }

  /** Sections that reserve no room, one behind the other. */
  function Wire(ss: seq<Section>): seq<byte> {
    if ss == [] then []
    else
      [0xB5, 0xB5, 0xB5, 0xB5] + Word(ss[0].cmd) + Word(Low(12 + |ss[0].payload|)) + ss[0].payload + Wire(ss[1..])
  }

  predicate Unreserved(ss: seq<Section>) {
    forall i :: 0 <= i < |ss| ==> ss[i].reserved <= 12 + |ss[i].payload|
  }

  lemma WireFirst(ss: seq<Section>)
    requires ss != [] && Unreserved(ss)
    ensures Wire(ss) == SectionBytes(ss[0]) + Wire(ss[1..]) && |SectionBytes(ss[0])| == SecLen(ss[0])
    ensures Unreserved(ss[1..])
  {
    SectionWire(ss[0]);
    hide SectionBytes, Word;
    assert forall i :: 0 <= i < |ss[1..]| ==> ss[1..][i] == ss[i + 1];
  }

  lemma {:induction false} WireLength(ss: seq<Section>)
    requires Unreserved(ss)
    ensures |Wire(ss)| == Total(ss)
  {
    hide SectionBytes, SecLen;
    if ss == [] {
    } else {
      WireFirst(ss);
      WireLength(ss[1..]);
    }
  }

  lemma {:induction false} PackedIff(m: seq<byte>, pos: nat, ss: seq<Section>)
    requires Unreserved(ss) && pos <= |m|
    ensures PackedAt(m, pos, ss) <==> At(m, pos, Wire(ss))
    decreases |ss|
  {
    if ss == [] {
    } else {
      hide Wire, SectionBytes, SecLen, Unreserved;
      WireFirst(ss);
      var first, rest := SectionBytes(ss[0]), Wire(ss[1..]);
      if PackedAt(m, pos, ss) {
        PackedIff(m, pos + |first|, ss[1..]);
        AtJoin(m, pos, first, rest);
      }
      if At(m, pos, first + rest) {
        AtSplit(m, pos, first, rest);
        PackedIff(m, pos + |first|, ss[1..]);
      }
    }
  }

  /** A pack whose sections reserve no room is these bytes and no others. */
  lemma PackWire(m: seq<byte>, begin: uint32, ss: seq<Section>, end: uint32)
    requires Unreserved(ss)
    ensures Pack(m, begin, ss, end) <==>
            m == Word(begin) + Wire(ss) + Word(end) && |m| < 0x1_0000_0000 && |m| % 4 == 0
  {
    hide Wire, PackedAt, Unreserved, Word, LE32, Total, At;
    WordIs(begin);
    WordIs(end);
    WireLength(ss);
    if |m| >= 4 {
      PackedIff(m, 4, ss);
    }
    ThreeParts(m, Word(begin), Wire(ss), Word(end));
  }

  lemma ThreeParts(m: seq<byte>, a: seq<byte>, b: seq<byte>, c: seq<byte>)
    requires |a| == |c| == 4
    ensures m == a + b + c <==> |m| == 8 + |b| && At(m, 0, a) && At(m, 4, b) && At(m, |m| - 4, c)
  {
    if |m| == 8 + |b| {
      assert m == m[0..4] + m[4..4 + |b|] + m[|m| - 4..|m|];
    }
    if m == a + b + c {
      assert m[0..4] == a && m[4..4 + |b|] == b && m[|m| - 4..|m|] == c;
    }
  }

  // ----- handles -----

  /** A signed word, negative ones from the top. */
  function Signed(v: int32): seq<byte> {
    Word(if v < 0 then v + 0x1_0000_0000 else v)
  }

  function Long(v: uint64): seq<byte> {
    Word(v % 0x1_0000_0000) + Word(v / 0x1_0000_0000)
  }

  function SignedAll(vs: seq<int32>): seq<byte> {
    if vs == [] then [] else Signed(vs[0]) + SignedAll(vs[1..])
  }

  /** How many of these descriptors have an entry in the table. */
  function Sent(fds: seq<int32>): (n: nat)
    ensures n <= |fds|
  {
    if fds == [] then 0 else (if fds[0] < 0 then 0 else 1) + Sent(fds[1..])
  }

  /** Descriptors are numbered in order, each one more than the last; negative ones stand for themselves. */
  lemma {:induction false} NumbersCount(fds: seq<int32>, c: int32, i: nat)
    requires 0 <= c <= 0x7FFF_FFFF - |fds| && i < |fds|
    ensures Numbers(fds, c)[i] == if fds[i] < 0 then fds[i] else c + Sent(fds[..i]) + 1
    ensures CursorAfter(fds, c) == c + Sent(fds)
    ensures fds[i] >= 0 ==> HdifdInfo(c + Sent(fds[..i]) + 1, Some(fds[i])) in Entries(fds, c)
    decreases |fds|
  {
    var rest, next := fds[1..], if fds[0] < 0 then c else NextId(c);
    if rest == [] {
      assert CursorAfter(fds, c) == CursorAfter(rest, next) == next;
    } else {
      NumbersCount(rest, next, if i == 0 then 0 else i - 1);
    }
    if i > 0 {
      assert fds[..i][1..] == rest[..i - 1] && rest[i - 1] == fds[i];
      assert Numbers(fds, c)[1..] == Numbers(rest, next);
    }
  }

  lemma {:induction false} EntriesCount(fds: seq<int32>, c: int32)
    ensures |Entries(fds, c)| == Sent(fds)
    decreases |fds|
  {
    if fds == [] {
    } else {
      EntriesCount(fds[1..], if fds[0] < 0 then c else NextId(c));
    }
  }

  lemma SignedIs(v: int32)
    ensures I32(v) == Signed(v)
  {
    hide *;
    var u := SignedLow(v);
    WordIs(u);
    I32Is(v);
    SignedWord(v);
  }

  lemma SignedLow(v: int32) returns (u: uint32)
    ensures u == v % 0x1_0000_0000 == if v < 0 then v + 0x1_0000_0000 else v
  {
    u := if v < 0 then v + 0x1_0000_0000 else v;
  }

  lemma I32Is(v: int32)
    ensures I32(v) == LE32(v % 0x1_0000_0000)
  {
    hide LE32;
  }

  lemma SignedWord(v: int32)
    ensures Signed(v) == Word(if v < 0 then v + 0x1_0000_0000 else v)
  {
    hide Word;
  }

  lemma {:induction false} SignedAllIs(vs: seq<int32>)
    ensures IntBytes(vs) == SignedAll(vs)
  {
    hide I32, Signed;
    if vs == [] {
    } else {
      SignedIs(vs[0]);
      SignedAllIs(vs[1..]);
    }
  }

  lemma LongIs(v: uint64)
    ensures ToLE(v, 8) == Long(v)
  {
    hide *;
    LongOf(v);
    LongLow(v);
  }

  lemma LongLow(v: uint64)
    ensures Long(v) == Word(Low(v)) + Word(Low(v / 0x1_0000_0000))
  {
    hide Word;
    assert v / 0x1_0000_0000 < 0x1_0000_0000;
  }

  /** The fields of a handle in the pack: counts, descriptor number, dimensions, addresses, then its reserve array. */
  lemma HandleWire(v: Handle, c: int32)
    requires v.Valid()
    ensures var main, more := Numbers([v.fd], c), Numbers(v.reserve[..v.reserveFds], CursorAfter([v.fd], c));
            HandleBytes(Some(v), c) ==
            Word(v.reserveFds) + (Word(v.reserveInts) + (SignedAll(main)
            + ((Signed(v.width) + (Signed(v.stride) + (Signed(v.height) + (Signed(v.size) + (Signed(v.format)
                + (Long(v.usage) + Long(v.phyAddr)))))))
               + (SignedAll(more) + SignedAll(v.reserve[v.reserveFds..])))))
  {
    hide I32, LE32, ToLE, Word, Signed, Long, SignedAll, FdBytes, IntBytes, Numbers, CursorAfter;
    var c1 := CursorAfter([v.fd], c);
    WordIs(v.reserveFds);
    WordIs(v.reserveInts);
    FdBytesAre([v.fd], c);
    SignedAllIs(Numbers([v.fd], c));
    BasicWire(v);
    FdBytesAre(v.reserve[..v.reserveFds], c1);
    SignedAllIs(Numbers(v.reserve[..v.reserveFds], c1));
    SignedAllIs(v.reserve[v.reserveFds..]);
  }

  lemma BasicWire(v: Handle)
    ensures BasicBytes(v) ==
            Signed(v.width) + (Signed(v.stride) + (Signed(v.height) + (Signed(v.size) + (Signed(v.format)
            + (Long(v.usage) + Long(v.phyAddr))))))
  {
    hide I32, ToLE, Signed, Long;
    SignedIs(v.width);
    SignedIs(v.stride);
    SignedIs(v.height);
    SignedIs(v.size);
    SignedIs(v.format);
    LongIs(v.usage);
    LongIs(v.phyAddr);
  }

  /** A missing handle is two words of ones. */
  lemma NullWire(c: int32)
    ensures HandleBytes(None, c) == [0xFF, 0xFF, 0xFF, 0xFF, 0xFF, 0xFF, 0xFF, 0xFF]
  {
    WordIs(UINT32_MAX);
    hide LE32;
  }
}
