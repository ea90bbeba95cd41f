/**
 The display command buffer: a packer that back-patches section lengths into a buffer it may have
 to grow, and an unpacker that finds its way from section to section by them.
 */
module CommandPack {
  import opened Bytes

  const PAGE: nat := 1024
  const SECTION_MAGIC: uint32 := 0xB5B5_B5B5
  const WORDS: nat := 0x1_0000_0000

  /** What a caller packs: a command, the length it reserves (0 for none) and the payload. */
  datatype Section = Section(cmd: uint32, reserved: uint32, payload: seq<byte>)

  /** The length a section takes, header included. */
  function SecLen(s: Section): (n: nat)
    ensures n >= 12 + |s.payload| && n >= s.reserved
    ensures n == 12 + |s.payload| || n == s.reserved
  {
    if 12 + |s.payload| > s.reserved then 12 + |s.payload| else s.reserved
  }

  function Total(ss: seq<Section>): nat {
    if ss == [] then 0 else SecLen(ss[0]) + Total(ss[1..])
  }

  function SectionBytes(s: Section): (b: seq<byte>)
    ensures |b| == 12 + |s.payload|
  {
    LE32(SECTION_MAGIC) + (LE32(s.cmd) + (ToLE(SecLen(s), 4) + s.payload))
  }

  /** The sections stand one behind the other from `pos` on; reserved room may hold anything. */
  ghost predicate PackedAt(m: seq<byte>, pos: nat, ss: seq<Section>)
    decreases |ss|
  {
    ss == [] ||
    (&& pos + SecLen(ss[0]) <= |m|
     && At(m, pos, SectionBytes(ss[0]))
     && PackedAt(m, pos + SecLen(ss[0]), ss[1..]))
  }

  ghost function TailOf(ss: seq<Section>): nat {
    4 + Total(ss)
  }

  /** A buffer with an opening command and finished sections. */
  ghost predicate Holds(m: seq<byte>, begin: uint32, ss: seq<Section>) {
    TailOf(ss) <= |m| && TailOf(ss) % 4 == 0 && At(m, 0, LE32(begin)) && PackedAt(m, 4, ss)
  }

  lemma HoldsTail(m: seq<byte>, begin: uint32, ss: seq<Section>)
    requires Holds(m, begin, ss)
    ensures TailOf(ss) <= |m| && TailOf(ss) % 4 == 0
  {
  }

  lemma HoldsNone(m: seq<byte>, begin: uint32)
    requires At(m, 0, LE32(begin))
    ensures Holds(m, begin, []) && TailOf([]) == 4
  {
  }

  /** A complete pack. */
  ghost predicate Pack(m: seq<byte>, begin: uint32, ss: seq<Section>, end: uint32) {
    && |m| == 8 + Total(ss) < WORDS && |m| % 4 == 0
    && At(m, 0, LE32(begin)) && PackedAt(m, 4, ss) && At(m, |m| - 4, LE32(end))
  }

  /** A section whose length is not written yet. */
  ghost predicate OpenAt(m: seq<byte>, pos: nat, cmd: uint32, payload: seq<byte>) {
    && At(m, pos, LE32(SECTION_MAGIC)) && At(m, pos + 4, LE32(cmd))
    && (payload != [] ==> At(m, pos + 12, payload))
  }

  lemma OpenNew(m: seq<byte>, n: seq<byte>, pos: nat, cmd: uint32)
    requires At(m, pos, LE32(SECTION_MAGIC)) && pos + 4 <= |m| && pos + 4 <= |n| && m[..pos + 4] == n[..pos + 4]
    requires At(n, pos + 4, LE32(cmd))
    ensures OpenAt(n, pos, cmd, [])
  {
    hide LE32;
    AtFrame(m, n, pos, LE32(SECTION_MAGIC), pos + 4);
  }

  lemma OpenReach(m: seq<byte>, pos: nat, cmd: uint32, payload: seq<byte>)
    requires OpenAt(m, pos, cmd, payload)
    ensures pos + 8 <= |m| && (payload != [] ==> pos + 12 + |payload| <= |m|)
  {
  }

  /** One more value behind the payload. */
  lemma OpenMore(m: seq<byte>, n: seq<byte>, pos: nat, cmd: uint32, payload: seq<byte>, b: seq<byte>)
    requires OpenAt(m, pos, cmd, payload) && At(n, pos + 12 + |payload|, b)
    requires pos + 8 <= |m| && pos + 8 <= |n| && m[..pos + 8] == n[..pos + 8]
    requires payload != [] ==>
               (var end := pos + 12 + |payload|; end <= |m| && end <= |n| && m[..end] == n[..end])
    ensures OpenAt(n, pos, cmd, payload + b)
  {
    hide At, LE32;
    AtFrame(m, n, pos, LE32(SECTION_MAGIC), pos + 8);
    AtFrame(m, n, pos + 4, LE32(cmd), pos + 8);
    if payload != [] {
      AtFrame(m, n, pos + 12, payload, pos + 12 + |payload|);
    }
    AtJoin(n, pos + 12, payload, b);
  }

  lemma OpenGrown(m: seq<byte>, n: seq<byte>, pos: nat, cmd: uint32, payload: seq<byte>, b: seq<byte>)
    requires OpenAt(m, pos, cmd, payload) && At(n, pos + 12 + |payload|, b)
    requires SamePrefix(m, n, Least(pos + 12 + |payload|, |m|))
    ensures OpenAt(n, pos, cmd, payload + b)
  {
    hide At, LE32, OpenAt;
    OpenReach(m, pos, cmd, payload);
    var k := Least(pos + 12 + |payload|, |m|);
    assert n[..pos + 8] == n[..k][..pos + 8] == m[..k][..pos + 8] == m[..pos + 8];
    OpenMore(m, n, pos, cmd, payload, b);
  }

  lemma AtFrame(m: seq<byte>, n: seq<byte>, pos: nat, b: seq<byte>, upTo: nat)
    requires At(m, pos, b) && pos + |b| <= upTo <= |m| && upTo <= |n| && m[..upTo] == n[..upTo]
    ensures At(n, pos, b)
  {
    assert n[pos..pos + |b|] == n[..upTo][pos..pos + |b|] == m[..upTo][pos..pos + |b|] == m[pos..pos + |b|];
  }

  lemma {:induction false} PackedFrame(m: seq<byte>, n: seq<byte>, pos: nat, ss: seq<Section>)
    requires PackedAt(m, pos, ss) && pos + Total(ss) <= |m| && pos + Total(ss) <= |n|
    requires m[..pos + Total(ss)] == n[..pos + Total(ss)]
    ensures PackedAt(n, pos, ss)
    decreases |ss|
  {
    hide SectionBytes, At;
    if ss == [] {
    } else {
      AtFrame(m, n, pos, SectionBytes(ss[0]), pos + Total(ss));
      PackedFrame(m, n, pos + SecLen(ss[0]), ss[1..]);
    }
  }

  lemma {:induction false} TotalAppend(ss: seq<Section>, s: Section)
    ensures Total(ss + [s]) == Total(ss) + SecLen(s)
  {
    if ss == [] {
      assert [s][1..] == [];
      assert ss + [s] == [s];
    } else {
      assert (ss + [s])[1..] == ss[1..] + [s];
      TotalAppend(ss[1..], s);
    }
  }

  lemma {:induction false} PackedAppend(m: seq<byte>, pos: nat, ss: seq<Section>, s: Section)
    requires PackedAt(m, pos, ss)
    requires pos + Total(ss) + SecLen(s) <= |m| && At(m, pos + Total(ss), SectionBytes(s))
    ensures PackedAt(m, pos, ss + [s])
    decreases |ss|
  {
    hide SectionBytes, At;
    if ss == [] {
      assert ss + [s] == [s];
      assert PackedAt(m, pos + SecLen(s), [s][1..]);
    } else {
      assert (ss + [s])[1..] == ss[1..] + [s];
      PackedAppend(m, pos + SecLen(ss[0]), ss[1..], s);
    }
  }

  ghost predicate SamePrefix(m: seq<byte>, n: seq<byte>, k: nat) {
    k <= |m| && k <= |n| && m[..k] == n[..k]
  }

  function Least(a: nat, b: nat): nat {
    if a <= b then a else b
  }

  function PageUp(n: nat): (r: nat)
    ensures n <= r < n + PAGE && r % PAGE == 0
  {
    (n + PAGE - 1) / PAGE * PAGE
  }

  /** The buffer size after a write up to `need` succeeded; none if it cannot. */
  function Grown(size: nat, need: nat, adaptive: bool): nat {
    if need <= size then size
    else if adaptive && PageUp(need) < WORDS then PageUp(need)
    else 0
  }

  /** How far the writes reach for a section at `base` with `n` bytes of payload. */
  function Need(base: nat, n: nat): nat {
    if n == 0 then base + 8 else base + 12 + n
  }

  /** When a section can be packed: its length is aligned and it ends strictly inside the buffer. */
  predicate Admits(base: nat, s: Section, size: nat, adaptive: bool) {
    && s.reserved % 4 == 0
    && base + SecLen(s) < Grown(size, Need(base, |s.payload|), adaptive)
  }

  /** The buffer's size after `n` bytes, if any, are written behind the cursor `at`; none if they cannot be. */
  function Written(size: nat, at: nat, n: nat, adaptive: bool): nat {
    if n == 0 then size else Grown(size, at + n, adaptive)
  }

  /** `n` bytes behind the cursor `at` went into a buffer that had `size`, exactly if they could; it then has `now`. */
  predicate Wrote(ok: bool, now: nat, size: nat, at: nat, n: nat, adaptive: bool) {
    (ok <==> Written(size, at, n, adaptive) != 0) && (ok ==> now == Written(size, at, n, adaptive))
  }

  /** Some bytes and then some more, of `all` that are to be written: a failure is one of them all. */
  lemma WroteNext(size: nat, at: nat, n: nat, mid: nat, m: nat, ok: bool, now: nat, all: nat, adaptive: bool)
    requires 0 < size && size % PAGE == 0 && n + m <= all
    requires Wrote(true, mid, size, at, n, adaptive) && Wrote(ok, now, mid, at + n, m, adaptive)
    ensures Wrote(ok, now, size, at, n + m, adaptive) && (!ok ==> Wrote(ok, now, size, at, all, adaptive))
  {
    hide Grown;
    if n > 0 && m > 0 {
      GrownTwice(size, at + n, at + n + m, adaptive);
    }
    if n + m > 0 {
      GrownTwice(size, at + n + m, at + all, adaptive);
    }
  }

  /** How large the buffer gets while values are written from `at` on, up to the first that cannot be. */
  function Stretched(size: nat, at: nat, values: seq<seq<byte>>, adaptive: bool): nat
    decreases |values|
  {
    if values == [] then size
    else
      var now := Grown(size, at + |values[0]|, adaptive);
      if now == 0 then size else Stretched(now, at + |values[0]|, values[1..], adaptive)
  }

  /** The buffer's size after the first two words of a section at `base` were tried. */
  function HeaderSize(base: nat, size: nat, adaptive: bool): nat {
    var first, second := Grown(size, base + 4, adaptive), Grown(size, base + 8, adaptive);
    if first == 0 then size else if second == 0 then first else second
  }

  lemma HeaderGrown(base: nat, size: nat, adaptive: bool)
    requires size % PAGE == 0
    ensures var first := Grown(size, base + 4, adaptive);
            && (first == 0 ==> HeaderSize(base, size, adaptive) == size && Grown(size, base + 8, adaptive) == 0)
            && (first != 0 ==>
                  && Grown(first, base + 8, adaptive) == Grown(size, base + 8, adaptive)
                  && HeaderSize(base, size, adaptive) ==
                     if Grown(first, base + 8, adaptive) == 0 then first else Grown(first, base + 8, adaptive))
  {
    GrownTwice(size, base + 4, base + 8, adaptive);
  }

  /** The buffer's size once a section at `base` was tried, whether it could be packed or not. */
  function SizeAfter(base: nat, reserved: uint32, values: seq<seq<byte>>, size: nat, adaptive: bool): nat {
    if reserved % 4 != 0 then size
    else if Grown(size, base + 8, adaptive) == 0 then HeaderSize(base, size, adaptive)
    else Stretched(HeaderSize(base, size, adaptive), base + 12, values, adaptive)
  }

  lemma SizeAfterGrows(base: nat, reserved: uint32, values: seq<seq<byte>>, size: nat, adaptive: bool)
    ensures SizeAfter(base, reserved, values, size, adaptive) >= size
    ensures !adaptive ==> SizeAfter(base, reserved, values, size, adaptive) == size
  {
    hide Stretched;
    StretchedGrows(Grown(size, base + 8, adaptive), base + 12, values, adaptive);
  }

  lemma {:induction false} StretchedGrows(size: nat, at: nat, values: seq<seq<byte>>, adaptive: bool)
    ensures Stretched(size, at, values, adaptive) >= size
    ensures !adaptive ==> Stretched(size, at, values, adaptive) == size
    decreases |values|
  {
    if values == [] {
    } else {
      StretchedGrows(Grown(size, at + |values[0]|, adaptive), at + |values[0]|, values[1..], adaptive);
    }
  }

  /** Growing for one write and then for a later one is growing for the later one. */
  lemma GrownTwice(size: nat, first: nat, second: nat, adaptive: bool)
    requires 0 < first <= second && size % PAGE == 0
    ensures Grown(size, second, adaptive) ==
            if Grown(size, first, adaptive) == 0 then 0 else Grown(Grown(size, first, adaptive), second, adaptive)
  {
  }

  /** A section some write of which cannot grow the buffer is not admitted. */
  lemma NoRoom(base: nat, s: Section, n: nat, size: nat, adaptive: bool)
    requires n <= |s.payload| && Grown(size, Need(base, n), adaptive) == 0
    ensures !Admits(base, s, size, adaptive)
  {
    var need := Need(base, |s.payload|);
    assert Need(base, n) <= need;
    assert PageUp(Need(base, n)) <= PageUp(need);
  }

  /**
   With growth on, a section that some write of cannot reach is refused; otherwise it must end
   strictly inside the page its last write reaches, so that room reserved past that page and past
   the buffer is never admitted. A payload that fills its section up is refused exactly when the
   length is misaligned or the end is a page boundary at or past the end of the buffer.
   */
  lemma AdaptiveAdmits(base: nat, s: Section, size: nat)
    requires size % PAGE == 0
    ensures var reach, end := Need(base, |s.payload|), base + SecLen(s);
            && (Grown(size, reach, true) == 0 ==> !Admits(base, s, size, true))
            && (Admits(base, s, size, true) ==> end < size || end < PageUp(reach))
            && (Grown(size, reach, true) != 0 && end == reach ==>
                  (Admits(base, s, size, true) <==> s.reserved % 4 == 0 && (end < size || end % PAGE != 0)))
  {
    hide SecLen, Need;
    PageEnd(base + SecLen(s));
  }

  lemma PageEnd(end: nat)
    ensures end < PageUp(end) <==> end % PAGE != 0
  {
  }

  /** Whether the closing command ends strictly inside the buffer, grown if need be. */
  predicate Closes(tail: nat, size: nat, adaptive: bool) {
    tail + 4 < Grown(size, tail + 4, adaptive)
  }

  /** Whether a new buffer takes the opening command, this one section and the closing command. */
  predicate SendsAlone(s: Section, size: nat, adaptive: bool) {
    var room := Grown(PageUp(size) % WORDS, 4, adaptive);
    && room != 0 && Admits(4, s, room, adaptive)
    && Closes(4 + SecLen(s), Grown(room, Need(4, |s.payload|), adaptive), adaptive)
  }

  /** Whether something can end at `end`: strictly inside the buffer, or short of a page boundary behind it. */
  predicate Within(end: nat, size: nat, adaptive: bool) {
    end < size || (adaptive && end % PAGE != 0 && PageUp(end) < WORDS)
  }

  /** Something that is written up to its end. */
  lemma WrittenWithin(end: nat, size: nat, adaptive: bool)
    requires size % PAGE == 0
    ensures end < Grown(size, end, adaptive) <==> Within(end, size, adaptive)
  {
  }

  /** The buffer the opening command leaves is as good as the one asked for. */
  lemma WithinOpened(end: nat, size: nat, adaptive: bool)
    requires size % PAGE == 0 && 0 < end
    ensures Within(end, size, adaptive) <==>
            Grown(size, 4, adaptive) != 0 && Within(end, Grown(size, 4, adaptive), adaptive)
  {
  }

  /** One section of plain payload can be sent exactly when it and the whole pack can end where they do. */
  lemma SendsAloneIff(s: Section, size: nat, adaptive: bool)
    requires s.reserved == 0 && |s.payload| % 4 == 0
    ensures var start, end := PageUp(size) % WORDS, 16 + |s.payload|;
            SendsAlone(s, size, adaptive) <==> Within(end, start, adaptive) && Within(end + 4, start, adaptive)
  {
    var start, end := PageUp(size) % WORDS, 16 + |s.payload|;
    GrownPages(start, 4, adaptive);
    hide PageUp, Within, Grown;
    WithinOpened(end, start, adaptive);
    WithinOpened(end + 4, start, adaptive);
    var room := Grown(start, 4, adaptive);
    if room != 0 {
      SectionWithin(s, room, adaptive);
      if Admits(4, s, room, adaptive) {
        GrownTwice(room, Need(4, |s.payload|), end + 4, adaptive);
        WrittenWithin(end + 4, room, adaptive);
      }
    }
  }

  lemma GrownPages(size: nat, need: nat, adaptive: bool)
    requires size % PAGE == 0
    ensures Grown(size, need, adaptive) % PAGE == 0
  {
  }

  lemma SectionWithin(s: Section, size: nat, adaptive: bool)
    requires s.reserved == 0 && 0 < size && size % PAGE == 0
    ensures Admits(4, s, size, adaptive) <==> Within(16 + |s.payload|, size, adaptive)
  {
    WrittenWithin(16 + |s.payload|, size, adaptive);
    hide PageUp;
  }

  class CommandDataPacker {
    var packSize: nat
    var writePos: nat
    var curSecOffset: nat
    var settingSecLen: uint32
    var curSecLenPos: nat
    var data: array<byte>
    var isAdaptiveGrowth: bool
    ghost var begin: uint32
    ghost var sections: seq<Section>

    /** The buffer and the finished sections are in order, wherever the cursor is. */
    ghost predicate Base()
      reads this`packSize, this`data, this`begin, this`sections, data
    {
      packSize == data.Length < WORDS && packSize % PAGE == 0 && Holds(data[..], begin, sections)
    }

    /** Between sections. */
    ghost predicate Clean()
      reads this, data
    {
      Base() && writePos == TailOf(sections)
    }

    /** Inside a section with `payload` written so far. */
    ghost predicate InSection(cmd: uint32, payload: seq<byte>)
      reads this, data
    {
      && Base() && curSecOffset == TailOf(sections) && curSecLenPos == curSecOffset + 8 <= packSize
      && writePos == curSecOffset + 12 + |payload| && |payload| % 4 == 0
      && OpenAt(data[..], curSecOffset, cmd, payload)
    }

    constructor ()
      ensures packSize == 0 && data.Length == 0 && fresh(data) && !isAdaptiveGrowth
    {
      packSize, writePos, curSecOffset, settingSecLen, curSecLenPos := 0, 0, 0, 0, 0;
      data := new byte[0];
      isAdaptiveGrowth := false;
      sections := [];
    }

    method Init(size: nat, adaptive: bool)
      modifies this
      ensures fresh(data) && packSize == data.Length == PageUp(size) % WORDS && packSize % PAGE == 0
      ensures writePos == 0 && isAdaptiveGrowth == adaptive
    {
      writePos, curSecOffset, settingSecLen, curSecLenPos := 0, 0, 0, 0;
      packSize := PageUp(size) % WORDS;
      data := new byte[packSize];
      isAdaptiveGrowth := adaptive;
    }

    /** Make room for a write up to `need`, keeping the contents. */
    method Grow(need: nat) returns (ok: bool)
      requires packSize == data.Length < WORDS && packSize % PAGE == 0 && packSize < need <= packSize + 12
      modifies this`data, this`packSize
      ensures ok <==> isAdaptiveGrowth && PageUp(need) < WORDS
      ensures !ok ==> data == old(data) && packSize == old(packSize)
      ensures ok ==> fresh(data) && packSize == data.Length == PageUp(need) && data[..old(packSize)] == old(data[..])
    {
      if !isAdaptiveGrowth {
        return false;
      }
      var newSize := PageUp(need) % WORDS;
      var newData := new byte[newSize];
      if newSize < packSize {
        return false;
      }
      forall i | 0 <= i < packSize {
        newData[i] := data[i];
      }
      assert newData[..packSize] == data[..];
      data, packSize := newData, newSize;
      ok := true;
    }

    /** One value of 4 or 8 bytes at the cursor. */
    method Write(b: seq<byte>) returns (ok: bool)
      requires |b| == 4 || |b| == 8
      requires packSize == data.Length < WORDS && packSize % PAGE == 0 && writePos <= packSize + 4
      modifies this`data, this`packSize, this`writePos, data
      ensures packSize == data.Length < WORDS && packSize % PAGE == 0 && fresh({data} - {old(data)})
      ensures ok <==> old(writePos) + |b| <= old(packSize) || (isAdaptiveGrowth && PageUp(old(writePos) + |b|) < WORDS)
      ensures packSize == if ok then Grown(old(packSize), old(writePos) + |b|, isAdaptiveGrowth) else old(packSize)
      ensures !ok ==> writePos == old(writePos) && data == old(data) && data[..] == old(data[..])
      ensures ok ==> writePos == old(writePos) + |b| <= packSize && At(data[..], old(writePos), b)
      ensures SamePrefix(old(data[..]), data[..], Least(old(writePos), old(packSize)))
    {
      hide At, Overwrite, PageUp;
      ghost var was, kept := data[..], Least(writePos, packSize);
      var newSize := writePos + |b|;
      if newSize > packSize {
        ok := Grow(newSize);
        if !ok {
          return;
        }
      }
      ghost var grown := data[..];
      Store(data, writePos, b);
      assert grown[..kept] == was[..kept];
      OverwriteBefore(grown, writePos, b, 0, kept);
      writePos := newSize;
      ok := true;
    }

    /** Start a pack. */
    method PackBegin(cmd: uint32) returns (ok: bool)
      requires packSize == data.Length < WORDS && packSize % PAGE == 0
      modifies this, data
      ensures fresh({data} - {old(data)})
      ensures isAdaptiveGrowth == old(isAdaptiveGrowth)
      ensures ok <==> old(packSize) > 0 || isAdaptiveGrowth
      ensures packSize == Grown(old(packSize), 4, isAdaptiveGrowth) && (ok <==> packSize > 0)
      ensures ok ==> Clean() && begin == cmd && sections == []
    {
      writePos, settingSecLen, curSecLenPos := 0, 4, 0;
      curSecOffset := writePos;
      begin, sections := cmd, [];
      ok := Write(LE32(cmd));
      if ok {
        HoldsNone(data[..], begin);
      }
    }

    /** A write behind the finished sections. */
    method Append(b: seq<byte>) returns (ok: bool)
      requires (|b| == 4 || |b| == 8) && Base() && TailOf(sections) <= writePos <= packSize + 4
      modifies this`data, this`packSize, this`writePos, data
      ensures fresh({data} - {old(data)})
      ensures Base() && packSize == data.Length
      ensures ok <==> Grown(old(packSize), old(writePos) + |b|, isAdaptiveGrowth) != 0
      ensures packSize == if ok then Grown(old(packSize), old(writePos) + |b|, isAdaptiveGrowth) else old(packSize)
      ensures !ok ==> writePos == old(writePos)
      ensures ok ==> writePos == old(writePos) + |b| <= packSize && At(data[..], old(writePos), b)
      ensures SamePrefix(old(data[..]), data[..], Least(old(writePos), old(packSize)))
    {
      hide Holds, TailOf, At, PageUp;
      ghost var was := data[..];
      HoldsTail(was, begin, sections);
      ok := Write(b);
      StillHolds(was, data[..], begin, sections);
    }

    /** The two words known when a section starts. */
    method AppendHeader(cmd: uint32) returns (ok: bool)
      requires Clean()
      modifies this`data, this`packSize, this`writePos, data
      ensures fresh({data} - {old(data)})
      ensures Base()
      ensures ok <==> Grown(old(packSize), TailOf(sections) + 8, isAdaptiveGrowth) != 0
      ensures ok ==> packSize == Grown(old(packSize), TailOf(sections) + 8, isAdaptiveGrowth)
      ensures !ok ==> packSize == HeaderSize(TailOf(sections), old(packSize), isAdaptiveGrowth)
      ensures ok ==> writePos == TailOf(sections) + 8 <= packSize && OpenAt(data[..], TailOf(sections), cmd, [])
    {
      CleanBase();
      hide *;
      HeaderGrown(TailOf(sections), packSize, isAdaptiveGrowth);
      ok := Append(LE32(SECTION_MAGIC));
      if !ok {
        return;
      }
      ok := AppendCommand(cmd);
    }

    /** The command word, right behind the magic one. */
    method AppendCommand(cmd: uint32) returns (ok: bool)
      requires Base() && writePos == TailOf(sections) + 4 <= packSize == data.Length
      requires At(data[..], TailOf(sections), LE32(SECTION_MAGIC))
      modifies this`data, this`packSize, this`writePos, data
      ensures fresh({data} - {old(data)})
      ensures Base()
      ensures ok <==> Grown(old(packSize), TailOf(sections) + 8, isAdaptiveGrowth) != 0
      ensures packSize == if ok then Grown(old(packSize), TailOf(sections) + 8, isAdaptiveGrowth) else old(packSize)
      ensures ok ==> writePos == TailOf(sections) + 8 <= packSize && OpenAt(data[..], TailOf(sections), cmd, [])
    {
      hide Base, Clean, At, LE32, TailOf, Grown, OpenAt, PageUp;
      ghost var was, tail := data[..], TailOf(sections);
      ok := Append(LE32(cmd));
      if ok {
        OpenNew(was, data[..], tail, cmd);
      }
    }

    /** Start a section: magic and command now, the length when the section ends. */
    method BeginSection(cmd: uint32, len: uint32) returns (ok: bool)
      requires Clean()
      modifies this`data, this`packSize, this`writePos, this`curSecOffset, this`settingSecLen, this`curSecLenPos, data
      ensures fresh({data} - {old(data)})
      ensures Base()
      ensures ok <==> len % 4 == 0 && Grown(old(packSize), TailOf(sections) + 8, isAdaptiveGrowth) != 0
      ensures ok ==> packSize == Grown(old(packSize), TailOf(sections) + 8, isAdaptiveGrowth)
      ensures !ok ==> packSize == SizeAfter(TailOf(sections), len, [], old(packSize), isAdaptiveGrowth)
      ensures ok ==> InSection(cmd, []) && settingSecLen == len
    {
      hide Base, TailOf, Grown, OpenAt, HeaderSize;
      if len % 4 != 0 {
        return false;
      }
      curSecOffset := writePos;
      ok := AppendHeader(cmd);
      if ok {
        curSecLenPos := writePos;
        settingSecLen := len;
        writePos := writePos + 4;
      }
    }

    /** Payload of the open section. */
    method WriteValue(b: seq<byte>, ghost cmd: uint32, ghost payload: seq<byte>) returns (ok: bool)
      requires InSection(cmd, payload) && (|b| == 4 || |b| == 8)
      modifies this`data, this`packSize, this`writePos, data
      ensures fresh({data} - {old(data)})
      ensures Base()
      ensures ok <==> Grown(old(packSize), old(writePos) + |b|, isAdaptiveGrowth) != 0
      ensures packSize == if ok then Grown(old(packSize), old(writePos) + |b|, isAdaptiveGrowth) else old(packSize)
      ensures Wrote(ok, packSize, old(packSize), old(writePos), |b|, isAdaptiveGrowth)
      ensures ok ==> InSection(cmd, payload + b) && writePos == old(writePos) + |b|
    {
      hide Holds, At, LE32, TailOf, Grown, OpenAt, SamePrefix, Least, PageUp;
      OpenReach(data[..], curSecOffset, cmd, payload);
      ghost var was, tail := data[..], curSecOffset;
      ok := Append(b);
      if ok {
        OpenGrown(was, data[..], tail, cmd, payload, b);
      }
    }

    /** Finish the section: patch its length in, and skip to its reserved end. */
    method EndSection(ghost s: Section) returns (ok: bool)
      requires InSection(s.cmd, s.payload) && settingSecLen == s.reserved && s.reserved % 4 == 0
      modifies this`writePos, this`sections, data
      ensures Base()
      ensures ok <==> TailOf(old(sections)) + SecLen(s) < packSize
      ensures sections == if ok then old(sections) + [s] else old(sections)
      ensures ok ==> Clean()
    {
      hide Holds, TailOf, LE32, ToLE, At, OpenAt, Overwrite, SectionBytes;
      ghost var was := data[..];
      var actualLen := writePos - curSecOffset;
      var updatedLen := if actualLen > settingSecLen then actualLen else settingSecLen;
      if curSecLenPos + 4 > packSize {
        return false;
      }
      Store(data, curSecLenPos, ToLE(updatedLen, 4));
      LengthPatched(was, begin, sections, s);
      writePos := curSecOffset + updatedLen;
      ok := writePos < packSize;
      if ok {
        sections := sections + [s];
      }
    }

    /** Finish the pack; the closing command must end strictly inside the buffer. */
    method PackEnd(cmd: uint32) returns (ok: bool)
      requires Clean()
      modifies this`data, this`packSize, this`writePos, data
      ensures fresh({data} - {old(data)})
      ensures ok <==> Closes(TailOf(sections), old(packSize), isAdaptiveGrowth)
      ensures ok ==> writePos <= data.Length && Pack(data[..writePos], begin, sections, cmd)
      ensures Base() && sections == old(sections)
    {
      hide Holds, TailOf, LE32, Pack;
      ghost var was := data[..];
      HoldsTail(was, begin, sections);
      ok := Write(LE32(cmd));
      StillHolds(was, data[..], begin, sections);
      if !ok {
        return;
      }
      ok := writePos < packSize;
      if ok {
        PackDone(data[..], begin, sections, cmd);
      }
    }

    /** Go back to an earlier cursor: what was finished before it stays. */
    method RollBack(pos: nat)
      requires Base() && pos == TailOf(sections)
      modifies this`writePos
      ensures Clean()
    {
      writePos := pos;
    }

    /** One section as a caller packs it, abandoned as a whole if any step fails. */
    method PackSection(s: Section, values: seq<seq<byte>>) returns (ok: bool)
      requires Clean() && s.payload == Joined(values) && forall v :: v in values ==> |v| == 4 || |v| == 8
      modifies this`data, this`packSize, this`writePos, this`curSecOffset, this`settingSecLen, this`curSecLenPos,
               this`sections, data
      ensures fresh({data} - {old(data)})
      ensures Clean()
      ensures ok <==> Admits(TailOf(old(sections)), s, old(packSize), isAdaptiveGrowth)
      ensures packSize == SizeAfter(TailOf(old(sections)), s.reserved, values, old(packSize), isAdaptiveGrowth)
      ensures ok ==> packSize == Grown(old(packSize), Need(TailOf(old(sections)), |s.payload|), isAdaptiveGrowth)
      ensures sections == if ok then old(sections) + [s] else old(sections)
    {
      hide Base, InSection, TailOf, Grown, Need, Admits, Joined, SecLen, Stretched, SizeAfter;
      var start := writePos;
      ghost var size, base, done := packSize, TailOf(sections), 0;
      CleanBase();
      ghost var after := SizeAfter(base, s.reserved, values, size, isAdaptiveGrowth);
      ok := BeginSection(s.cmd, s.reserved);
      FirstNeed(base, s, size, isAdaptiveGrowth);
      SizeOpened(base, s.reserved, values, size, isAdaptiveGrowth);
      var i := 0;
      assert values[0..] == values;
      if ok { SectionCursor(s.cmd, []); }
      assert Joined(values[..0]) == [] by { JoinedNone(values); }
      while ok && i < |values|
        invariant 0 <= i <= |values| && done == |Joined(values[..i])|
        invariant fresh({data} - {old(data)})
        invariant Base() && sections == old(sections)
        invariant ok ==> InSection(s.cmd, Joined(values[..i])) && settingSecLen == s.reserved && s.reserved % 4 == 0
        invariant ok ==> 0 != Grown(size, Need(base, done), isAdaptiveGrowth) == packSize
        invariant !ok ==> !Admits(base, s, size, isAdaptiveGrowth) && after == packSize
        invariant ok ==> after == Stretched(packSize, base + 12 + done, values[i..], isAdaptiveGrowth)
      {
        StretchedNext(packSize, base + 12 + done, values, i, isAdaptiveGrowth);
        JoinedNext(values, i);
        SectionCursor(s.cmd, Joined(values[..i]));
        NextNeed(base, s, done, done + |values[i]|, size, isAdaptiveGrowth);
        ok := WriteValue(values[i], s.cmd, Joined(values[..i]));
        done := done + |values[i]|;
        i := i + 1;
      }
      if ok {
        assert values[..i] == values;
        StretchedAll(packSize, base + 12 + done, values, isAdaptiveGrowth);
        LastNeed(base, s, size, isAdaptiveGrowth);
        ok := EndSection(s);
      }
      if !ok {
        RollBack(start);
      }
    }

    lemma CleanBase()
      requires Clean()
      ensures Base() && writePos == TailOf(sections) <= packSize == data.Length && packSize % PAGE == 0
    {
    }

    lemma SectionCursor(cmd: uint32, payload: seq<byte>)
      requires InSection(cmd, payload)
      ensures writePos == TailOf(sections) + 12 + |payload| && packSize % PAGE == 0 && 0 < packSize
    {
    }
  }

  lemma FirstNeed(base: nat, s: Section, size: nat, adaptive: bool)
    ensures Need(base, 0) == base + 8
    ensures Grown(size, base + 8, adaptive) == 0 || s.reserved % 4 != 0 ==> !Admits(base, s, size, adaptive)
  {
    if Grown(size, base + 8, adaptive) == 0 {
      NoRoom(base, s, 0, size, adaptive);
    }
  }

  lemma NextNeed(base: nat, s: Section, n: nat, m: nat, size: nat, adaptive: bool)
    requires size % PAGE == 0 && n < m <= |s.payload| && Grown(size, Need(base, n), adaptive) != 0
    ensures Need(base, m) == base + 12 + m
    ensures Grown(size, Need(base, m), adaptive) == Grown(Grown(size, Need(base, n), adaptive), Need(base, m), adaptive)
    ensures Grown(size, Need(base, m), adaptive) == 0 ==> !Admits(base, s, size, adaptive)
  {
    hide Grown, Admits;
    GrownTwice(size, Need(base, n), Need(base, m), adaptive);
    if Grown(size, Need(base, m), adaptive) == 0 {
      NoRoom(base, s, m, size, adaptive);
    }
  }

  lemma LastNeed(base: nat, s: Section, size: nat, adaptive: bool)
    requires s.reserved % 4 == 0
    ensures Admits(base, s, size, adaptive) <==> base + SecLen(s) < Grown(size, Need(base, |s.payload|), adaptive)
  {
  }

  lemma SizeOpened(base: nat, reserved: uint32, values: seq<seq<byte>>, size: nat, adaptive: bool)
    ensures SizeAfter(base, reserved, values, size, adaptive) ==
            if reserved % 4 != 0 || Grown(size, base + 8, adaptive) == 0
            then SizeAfter(base, reserved, [], size, adaptive)
            else Stretched(Grown(size, base + 8, adaptive), base + 12, values, adaptive)
  {
    assert PageUp(base + 4) <= PageUp(base + 8);
  }

  lemma StretchedNext(size: nat, at: nat, values: seq<seq<byte>>, i: nat, adaptive: bool)
    requires i < |values|
    ensures Stretched(size, at, values[i..], adaptive) ==
            var now := Grown(size, at + |values[i]|, adaptive);
            if now == 0 then size else Stretched(now, at + |values[i]|, values[i + 1..], adaptive)
  {
    hide Grown;
    assert values[i..][1..] == values[i + 1..];
  }

  lemma StretchedAll(size: nat, at: nat, values: seq<seq<byte>>, adaptive: bool)
    ensures Stretched(size, at, values[|values|..], adaptive) == size
  {
  }

  lemma JoinedNone(values: seq<seq<byte>>)
    ensures Joined(values[..0]) == []
  {
  }

  function Joined(values: seq<seq<byte>>): seq<byte> {
    if values == [] then [] else values[0] + Joined(values[1..])
  }

  method Store(a: array<byte>, off: nat, b: seq<byte>)
    requires off + |b| <= a.Length
    modifies a
    ensures a[..] == Overwrite(old(a[..]), off, b)
    ensures At(a[..], off, b)
  {
    forall i | 0 <= i < |b| {
      a[off + i] := b[i];
    }
  }

  lemma StillHolds(m: seq<byte>, n: seq<byte>, begin: uint32, ss: seq<Section>)
    requires Holds(m, begin, ss) && TailOf(ss) <= |n| && m[..TailOf(ss)] == n[..TailOf(ss)]
    ensures Holds(n, begin, ss)
  {
    hide At, LE32, PackedAt, Total;
    AtFrame(m, n, 0, LE32(begin), TailOf(ss));
    PackedFrame(m, n, 4, ss);
  }

  /** Patching the length completes the section's bytes. */
  lemma HeaderComplete(m: seq<byte>, n: seq<byte>, pos: nat, s: Section)
    requires OpenAt(m, pos, s.cmd, s.payload)
    requires pos + 12 <= |m| && n == Overwrite(m, pos + 8, ToLE(SecLen(s), 4))
    ensures At(n, pos, SectionBytes(s))
  {
    hide ToLE, LE32, SecLen;
    var len := ToLE(SecLen(s), 4);
    AtFrame(m, n, pos, LE32(SECTION_MAGIC), pos + 8);
    AtFrame(m, n, pos + 4, LE32(s.cmd), pos + 8);
    if s.payload != [] {
      OverwriteAfter(m, pos + 8, len, pos + 12, pos + 12 + |s.payload|);
    } else {
      assert len + s.payload == len;
    }
    AtJoin(n, pos + 8, len, s.payload);
    AtJoin(n, pos + 4, LE32(s.cmd), len + s.payload);
    AtJoin(n, pos, LE32(SECTION_MAGIC), LE32(s.cmd) + (len + s.payload));
  }

  lemma SectionDone(m: seq<byte>, begin: uint32, ss: seq<Section>, s: Section)
    requires Holds(m, begin, ss) && s.reserved % 4 == 0 && |s.payload| % 4 == 0
    requires TailOf(ss) + SecLen(s) <= |m| && At(m, TailOf(ss), SectionBytes(s))
    ensures Holds(m, begin, ss + [s]) && TailOf(ss + [s]) == TailOf(ss) + SecLen(s)
  {
    hide At, SectionBytes, PackedAt, Total;
    PackedAppend(m, 4, ss, s);
    TotalAppend(ss, s);
  }

  /** Patching the length leaves the finished sections alone and finishes the open one. */
  lemma LengthPatched(m: seq<byte>, begin: uint32, ss: seq<Section>, s: Section)
    requires Holds(m, begin, ss) && OpenAt(m, TailOf(ss), s.cmd, s.payload) && TailOf(ss) + 12 <= |m|
    requires s.reserved % 4 == 0 && |s.payload| % 4 == 0
    ensures var tail := TailOf(ss);
            var n := Overwrite(m, tail + 8, ToLE(SecLen(s), 4));
            && Holds(n, begin, ss)
            && (tail + SecLen(s) <= |m| ==> Holds(n, begin, ss + [s]) && TailOf(ss + [s]) == tail + SecLen(s))
  {
    hide Holds, TailOf, At, OpenAt, SectionBytes, ToLE, SecLen;
    var tail := TailOf(ss);
    var n := Overwrite(m, tail + 8, ToLE(SecLen(s), 4));
    OverwriteBefore(m, tail + 8, ToLE(SecLen(s), 4), 0, tail);
    StillHolds(m, n, begin, ss);
    HeaderComplete(m, n, tail, s);
    if tail + SecLen(s) <= |m| {
      SectionDone(n, begin, ss, s);
    }
  }

  lemma PackDone(m: seq<byte>, begin: uint32, ss: seq<Section>, end: uint32)
    requires Holds(m, begin, ss) && At(m, TailOf(ss), LE32(end)) && TailOf(ss) + 4 < WORDS
    ensures TailOf(ss) + 4 <= |m| && Pack(m[..TailOf(ss) + 4], begin, ss, end)
  {
    hide PackedAt, LE32, Total;
    var n := m[..TailOf(ss) + 4];
    StillHolds(m, n, begin, ss);
    AtFrame(m, n, TailOf(ss), LE32(end), TailOf(ss) + 4);
  }

  lemma {:induction false} JoinedConcat(a: seq<seq<byte>>, b: seq<seq<byte>>)
    ensures Joined(a + b) == Joined(a) + Joined(b)
  {
    if a == [] {
      assert a + b == b;
    } else {
      assert (a + b)[1..] == a[1..] + b;
      JoinedConcat(a[1..], b);
      ConcatAssoc(a[0], Joined(a[1..]), Joined(b));
    }
  }

  lemma JoinedNext(values: seq<seq<byte>>, i: nat)
    requires i < |values|
    ensures Joined(values[..i + 1]) == Joined(values[..i]) + values[i]
    ensures |Joined(values[..i + 1])| <= |Joined(values)|
  {
    JoinedConcat(values[..i], [values[i]]);
    assert values[..i + 1] == values[..i] + [values[i]];
    var last := [values[i]];
    assert last[1..] == [];
    assert Joined(last) == values[i] + [];
    JoinedConcat(values[..i + 1], values[i + 1..]);
    assert values == values[..i + 1] + values[i + 1..];
  }
}
