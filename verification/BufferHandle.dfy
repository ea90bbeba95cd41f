/**
 Buffer handles in command sections. Descriptors travel beside the pack, in a table of numbered
 entries; the pack holds their numbers.
 */
module BufferHandle {
  import opened Bytes
  import opened Wrappers
  import opened CommandPack
  import opened CommandUnpack

  type uint64 = x: int | 0 <= x < 0x1_0000_0000_0000_0000

  const MAX_INT: int32 := 0x7fff_ffff
  const UINT32_MAX: uint32 := 0xffff_ffff

  /** `reserve` holds the extra descriptors, then the extra integers. */
  datatype Handle = Handle(reserveFds: uint32, reserveInts: uint32, fd: int32, width: int32, stride: int32,
                           height: int32, size: int32, format: int32, usage: uint64, phyAddr: uint64,
                           reserve: seq<int32>)
  {
    predicate Valid() {
      |reserve| == reserveFds + reserveInts < 0x1_0000_0000
    }
  }

  /** One descriptor sent along: its number, and the descriptor unless it got lost on the way. */
  datatype HdifdInfo = HdifdInfo(id: int32, hdiFd: Option<int32>)

  // ----- numbering -----

  /**
   The counter's successor. The source's test of the 32-bit counter against the largest integer
   always holds, so it increments that one too; C++ leaves the result undefined, here it wraps.
   */
  function NextId(c: int32): (id: int32) {
    if c == MAX_INT then -0x8000_0000 else c + 1
  }

  function CursorAfter(fds: seq<int32>, c: int32): int32 {
    if fds == [] then c else CursorAfter(fds[1..], if fds[0] < 0 then c else NextId(c))
  }

  /** What stands in the pack for descriptors. */
  function FdBytes(fds: seq<int32>, c: int32): seq<byte> {
    if fds == [] then []
    else if fds[0] < 0 then I32(fds[0]) + FdBytes(fds[1..], c)
    else I32(NextId(c)) + FdBytes(fds[1..], NextId(c))
  }

  /** The table entries created for them. */
  function Entries(fds: seq<int32>, c: int32): seq<HdifdInfo> {
    if fds == [] then []
    else if fds[0] < 0 then Entries(fds[1..], c)
    else [HdifdInfo(NextId(c), Some(fds[0]))] + Entries(fds[1..], NextId(c))
  }

  function IntBytes(ints: seq<int32>): seq<byte> {
    if ints == [] then [] else I32(ints[0]) + IntBytes(ints[1..])
  }

  function BasicBytes(h: Handle): seq<byte> {
    I32(h.width) + (I32(h.stride) + (I32(h.height) + (I32(h.size) + (I32(h.format)
    + (ToLE(h.usage, 8) + ToLE(h.phyAddr, 8))))))
  }

  /** The descriptors of a handle in the order they are packed. */
  function Fds(h: Option<Handle>): seq<int32>
    requires h.Some? ==> h.value.Valid()
  {
    if h.None? then [] else [h.value.fd] + h.value.reserve[..h.value.reserveFds]
  }

  function HandleBytes(h: Option<Handle>, c: int32): seq<byte>
    requires h.Some? ==> h.value.Valid()
  {
    match h
    case None => LE32(UINT32_MAX) + LE32(UINT32_MAX)
    case Some(v) =>
      LE32(v.reserveFds) + (LE32(v.reserveInts) + (FdBytes([v.fd], c) + (BasicBytes(v)
      + (FdBytes(v.reserve[..v.reserveFds], CursorAfter([v.fd], c)) + IntBytes(v.reserve[v.reserveFds..])))))
  }

  // ----- matching -----

  /** The descriptor of the first usable entry with a number. */
  function FindFd(hdiFds: seq<HdifdInfo>, id: int32): Option<int32> {
    if hdiFds == [] then None
    else if hdiFds[0].hdiFd.Some? && hdiFds[0].id == id then hdiFds[0].hdiFd
    else FindFd(hdiFds[1..], id)
  }

  /** The first usable entry with this number holds this descriptor, whatever stands before it. */
  ghost predicate Leads(hdiFds: seq<HdifdInfo>, id: int32, fd: int32) {
    exists i ::
      && 0 <= i < |hdiFds| && hdiFds[i].id == id && hdiFds[i].hdiFd == Some(fd)
      && forall j :: 0 <= j < i ==> !(hdiFds[j].hdiFd.Some? && hdiFds[j].id == id)
  }

  /** Entries that are lost are passed over. */
  lemma {:induction false} LostPassedOver(hdiFds: seq<HdifdInfo>, id: int32)
    ensures FindFd(hdiFds, id).Some? <==> exists i :: 0 <= i < |hdiFds| && hdiFds[i].hdiFd.Some? && hdiFds[i].id == id
    ensures forall fd: int32 :: FindFd(hdiFds, id) == Some(fd) <==> Leads(hdiFds, id, fd)
  {
    if hdiFds == [] {
    } else {
      var rest := hdiFds[1..];
      LostPassedOver(rest, id);
      assert forall i :: 0 <= i < |rest| ==> rest[i] == hdiFds[i + 1];
      if hdiFds[0].hdiFd.Some? && hdiFds[0].id == id {
      } else {
        forall fd: int32 ensures Leads(rest, id, fd) <==> Leads(hdiFds, id, fd) {
          LeadsBehind(hdiFds, id, fd);
        }
      }
    }
  }

  /** An unusable entry, or one with another number, makes no difference in front. */
  lemma LeadsBehind(hdiFds: seq<HdifdInfo>, id: int32, fd: int32)
    requires hdiFds != [] && !(hdiFds[0].hdiFd.Some? && hdiFds[0].id == id)
    ensures Leads(hdiFds[1..], id, fd) <==> Leads(hdiFds, id, fd)
  {
    var rest := hdiFds[1..];
    if Leads(rest, id, fd) {
      var i :| 0 <= i < |rest| && rest[i].id == id && rest[i].hdiFd == Some(fd)
            && forall j :: 0 <= j < i ==> !(rest[j].hdiFd.Some? && rest[j].id == id);
      forall j | 0 <= j < i + 1 ensures !(hdiFds[j].hdiFd.Some? && hdiFds[j].id == id) {
        assert j > 0 ==> hdiFds[j] == rest[j - 1];
      }
      assert hdiFds[i + 1] == rest[i];
    }
    if Leads(hdiFds, id, fd) {
      var i :| 0 <= i < |hdiFds| && hdiFds[i].id == id && hdiFds[i].hdiFd == Some(fd)
            && forall j :: 0 <= j < i ==> !(hdiFds[j].hdiFd.Some? && hdiFds[j].id == id);
      assert rest[i - 1] == hdiFds[i];
    }
  }

  /** Entries numbered upwards from at least 1 to at most `c`, none lost. */
  ghost predicate Table(hdiFds: seq<HdifdInfo>, c: int32) {
    && (forall i :: 0 <= i < |hdiFds| ==> 0 < hdiFds[i].id <= c && hdiFds[i].hdiFd.Some? && hdiFds[i].hdiFd.value >= 0)
    && (forall i, j :: 0 <= i < j < |hdiFds| ==> hdiFds[i].id < hdiFds[j].id)
  }

  /** In a table every number leads to its own entry. */
  lemma {:induction false} FindsItself(hdiFds: seq<HdifdInfo>, c: int32, i: nat)
    requires Table(hdiFds, c) && i < |hdiFds|
    ensures FindFd(hdiFds, hdiFds[i].id) == hdiFds[i].hdiFd
  {
    if i == 0 {
    } else {
      assert hdiFds[0].id < hdiFds[i].id;
      FindsItself(hdiFds[1..], c, i - 1);
    }
  }

  /** New entries extend a table, as long as the counter does not pass its maximum. */
  lemma {:induction false} TableGrows(hdiFds: seq<HdifdInfo>, fds: seq<int32>, c: int32)
    requires Table(hdiFds, c) && 0 <= c <= MAX_INT - |fds|
    ensures Table(hdiFds + Entries(fds, c), CursorAfter(fds, c))
    ensures c <= CursorAfter(fds, c) <= c + |fds|
    decreases |fds|
  {
    if fds == [] {
      assert hdiFds + [] == hdiFds;
    } else if fds[0] < 0 {
      TableGrows(hdiFds, fds[1..], c);
    } else {
      var e := HdifdInfo(NextId(c), Some(fds[0]));
      TableGrows(hdiFds + [e], fds[1..], NextId(c));
      assert hdiFds + ([e] + Entries(fds[1..], NextId(c))) == (hdiFds + [e]) + Entries(fds[1..], NextId(c));
    }
  }

  function Norm(fd: int32): int32 {
    if fd < 0 then -1 else fd
  }

  function NormAll(fds: seq<int32>): (r: seq<int32>)
    ensures |r| == |fds| && forall i :: 0 <= i < |fds| ==> r[i] == Norm(fds[i])
  {
    seq(|fds|, i requires 0 <= i < |fds| => Norm(fds[i]))
  }

  /** What comes out for a handle: negative descriptors are all the same. */
  function Restored(h: Handle): Handle
    requires h.Valid()
  {
    h.(fd := Norm(h.fd), reserve := NormAll(h.reserve[..h.reserveFds]) + h.reserve[h.reserveFds..])
  }

  /** Each of these descriptors arrived: its number leads to it, whatever became of the rest of the table. */
  ghost predicate Serves(hdiFds: seq<HdifdInfo>, fds: seq<int32>, c: int32) {
    forall e :: e in Entries(fds, c) ==> e.hdiFd.Some? && e.id >= 0 && Leads(hdiFds, e.id, e.hdiFd.value)
  }

  /** Where numbers are distinct, it is enough that the entries of these descriptors are not lost. */
  lemma OthersLost(hdiFds: seq<HdifdInfo>, fds: seq<int32>, c: int32)
    requires forall i, j :: 0 <= i < j < |hdiFds| ==> hdiFds[i].id != hdiFds[j].id
    requires forall e :: e in Entries(fds, c) ==> e.hdiFd.Some? && e.id >= 0 && e in hdiFds
    ensures Serves(hdiFds, fds, c)
  {
    forall e | e in Entries(fds, c) ensures e.hdiFd.Some? && e.id >= 0 && Leads(hdiFds, e.id, e.hdiFd.value) {
      var i :| 0 <= i < |hdiFds| && hdiFds[i] == e;
      assert hdiFds[i].hdiFd == Some(e.hdiFd.value);
    }
  }

  lemma {:induction false} EntriesConcat(a: seq<int32>, b: seq<int32>, c: int32)
    ensures Entries(a + b, c) == Entries(a, c) + Entries(b, CursorAfter(a, c))
    ensures FdBytes(a + b, c) == FdBytes(a, c) + FdBytes(b, CursorAfter(a, c))
    ensures CursorAfter(a + b, c) == CursorAfter(b, CursorAfter(a, c))
    decreases |a|
  {
    hide I32;
    if a == [] {
      assert a + b == b;
    } else {
      assert (a + b)[1..] == a[1..] + b;
      var next := if a[0] < 0 then c else NextId(c);
      EntriesConcat(a[1..], b, next);
      ConcatAssoc(if a[0] < 0 then I32(a[0]) else I32(NextId(c)), FdBytes(a[1..], next),
                  FdBytes(b, CursorAfter(a[1..], next)));
      if a[0] >= 0 {
        ConcatAssoc([HdifdInfo(NextId(c), Some(a[0]))], Entries(a[1..], next), Entries(b, CursorAfter(a[1..], next)));
      }
    }
  }

  /** The static counter behind descriptor numbers. */
  class SeqIds {
    var cursor: int32

    constructor ()
      ensures cursor == 0
    {
      cursor := 0;
    }

    method GenerateHdifdSeqid() returns (id: int32)
      modifies this
      ensures id == cursor == NextId(old(cursor))
    {
      // The test of the cursor against the largest integer holds for every 32-bit value; see `NextId`.
      cursor := if cursor == MAX_INT then -0x8000_0000 else cursor + 1;
      id := cursor;
    }
  }

  // ----- packing -----

  /** `payload` went into the open section, whose buffer had `size` when it was opened. */
  ghost predicate Going(packer: CommandDataPacker, cmd: uint32, payload: seq<byte>, size: nat)
    reads packer, packer.data
  {
    && packer.InSection(cmd, payload) && 0 < size && size % PAGE == 0
    && Wrote(true, packer.packSize, size, packer.curSecOffset + 12, |payload|, packer.isAdaptiveGrowth)
  }

  /** `all` bytes of payload cannot go into the open section, but the buffer is still in order. */
  ghost predicate Stuck(packer: CommandDataPacker, size: nat, all: nat)
    reads packer, packer.data
  {
    packer.Base() && Wrote(false, packer.packSize, size, packer.curSecOffset + 12, all, packer.isAdaptiveGrowth)
  }

  /** One value, of `all` bytes' worth of payload; that it cannot be packed means that they all cannot. */
  method WriteNext(b: seq<byte>, packer: CommandDataPacker, ghost cmd: uint32, ghost payload: seq<byte>,
                   ghost size: nat, ghost all: nat)
    returns (ok: bool)
    requires Going(packer, cmd, payload, size) && (|b| == 4 || |b| == 8) && |payload| + |b| <= all
    modifies packer`data, packer`packSize, packer`writePos, packer.data
    ensures fresh({packer.data} - {old(packer.data)})
    ensures if ok then Going(packer, cmd, payload + b, size) else Stuck(packer, size, all)
  {
    hide CommandDataPacker.Base, CommandDataPacker.InSection, Wrote, Grown;
    CursorIs(packer, cmd, payload);
    ghost var mid, at := packer.packSize, packer.curSecOffset + 12;
    ok := packer.WriteValue(b, cmd, payload);
    WroteNext(size, at, |payload|, mid, |b|, ok, packer.packSize, all, packer.isAdaptiveGrowth);
  }

  lemma CursorIs(packer: CommandDataPacker, cmd: uint32, payload: seq<byte>)
    requires packer.InSection(cmd, payload)
    ensures packer.writePos == packer.curSecOffset + 12 + |payload|
  {
  }

  /** A descriptor: its number in the pack, and itself in the table; a negative one as it is. */
  method FileDescriptorPack(fd: int32, packer: CommandDataPacker, ids: SeqIds, hdiFds: seq<HdifdInfo>,
                            ghost cmd: uint32, ghost payload: seq<byte>, ghost size: nat, ghost all: nat)
    returns (ok: bool, fdsNow: seq<HdifdInfo>)
    requires Going(packer, cmd, payload, size) && |payload| + 4 <= all
    modifies packer`data, packer`packSize, packer`writePos, packer.data, ids
    ensures fresh({packer.data} - {old(packer.data)})
    ensures ids.cursor == CursorAfter([fd], old(ids.cursor)) && fdsNow == hdiFds + Entries([fd], old(ids.cursor))
    ensures if ok then Going(packer, cmd, payload + FdBytes([fd], old(ids.cursor)), size) else Stuck(packer, size, all)
  {
    hide Going, Stuck;
    OneFd(fd, ids.cursor);
    fdsNow := hdiFds;
    if fd < 0 {
      ok := WriteNext(I32(fd), packer, cmd, payload, size, all);
      return;
    }
    var id := ids.GenerateHdifdSeqid();
    fdsNow := fdsNow + [HdifdInfo(id, Some(fd))];
    ok := WriteNext(I32(id), packer, cmd, payload, size, all);
  }

  lemma OneFd(fd: int32, c: int32)
    ensures FdBytes([fd], c) == if fd < 0 then I32(fd) else I32(NextId(c))
    ensures Entries([fd], c) == if fd < 0 then [] else [HdifdInfo(NextId(c), Some(fd))]
    ensures CursorAfter([fd], c) == if fd < 0 then c else NextId(c)
  {
    hide I32;
    assert [fd][1..] == [];
    assert I32(fd) + [] == I32(fd) && I32(NextId(c)) + [] == I32(NextId(c));
  }

  /** The fields between the counts and the reserve array. */
  method BasicPack(h: Handle, packer: CommandDataPacker, ghost cmd: uint32, ghost payload: seq<byte>,
                   ghost size: nat, ghost all: nat)
    returns (ok: bool)
    requires Going(packer, cmd, payload, size) && |payload| + 36 <= all
    modifies packer`data, packer`packSize, packer`writePos, packer.data
    ensures fresh({packer.data} - {old(packer.data)})
    ensures if ok then Going(packer, cmd, payload + BasicBytes(h), size) else Stuck(packer, size, all)
  {
    hide I32, ToLE, BasicBytes, Going, Stuck;
    ghost var p := payload;
    ok := WriteNext(I32(h.width), packer, cmd, p, size, all);
    if !ok { return; }
    p := p + I32(h.width);
    ok := WriteNext(I32(h.stride), packer, cmd, p, size, all);
    if !ok { return; }
    p := p + I32(h.stride);
    ok := WriteNext(I32(h.height), packer, cmd, p, size, all);
    if !ok { return; }
    p := p + I32(h.height);
    ok := WriteNext(I32(h.size), packer, cmd, p, size, all);
    if !ok { return; }
    p := p + I32(h.size);
    ok := WriteNext(I32(h.format), packer, cmd, p, size, all);
    if !ok { return; }
    p := p + I32(h.format);
    ok := WriteNext(ToLE(h.usage, 8), packer, cmd, p, size, all);
    if !ok { return; }
    p := p + ToLE(h.usage, 8);
    ok := WriteNext(ToLE(h.phyAddr, 8), packer, cmd, p, size, all);
    BasicInOrder(h, payload);
  }

  lemma BasicInOrder(h: Handle, p: seq<byte>)
    ensures p + I32(h.width) + I32(h.stride) + I32(h.height) + I32(h.size) + I32(h.format)
              + ToLE(h.usage, 8) + ToLE(h.phyAddr, 8)
         == p + BasicBytes(h)
  {
    hide I32, ToLE;
    var a, b, c, d, e, f, g := I32(h.width), I32(h.stride), I32(h.height), I32(h.size), I32(h.format),
                               ToLE(h.usage, 8), ToLE(h.phyAddr, 8);
    ConcatAssoc(p + a + b + c + d + e, f, g);
    ConcatAssoc(p + a + b + c + d, e, f + g);
    ConcatAssoc(p + a + b + c, d, e + (f + g));
    ConcatAssoc(p + a + b, c, d + (e + (f + g)));
    ConcatAssoc(p + a, b, c + (d + (e + (f + g))));
    ConcatAssoc(p, a, b + (c + (d + (e + (f + g)))));
  }

  /** How many bytes a handle takes. */
  function HandleSize(h: Option<Handle>): nat {
    if h.None? then 8 else 48 + 4 * |h.value.reserve|
  }

  lemma HandleLength(h: Option<Handle>, c: int32)
    requires h.Some? ==> h.value.Valid()
    ensures |HandleBytes(h, c)| == HandleSize(h)
  {
    hide FdBytes, IntBytes, BasicBytes, CursorAfter;
    if h.Some? {
      var v := h.value;
      FdBytesLength([v.fd], c);
      FdBytesLength(v.reserve[..v.reserveFds], CursorAfter([v.fd], c));
      IntBytesLength(v.reserve[v.reserveFds..]);
      BasicLength(v);
    }
  }

  /** A handle, or the mark of a missing one. */
  method BufferHandlePack(h: Option<Handle>, packer: CommandDataPacker, ids: SeqIds, hdiFds: seq<HdifdInfo>,
                          ghost cmd: uint32, ghost payload: seq<byte>, ghost size: nat, ghost all: nat)
    returns (ok: bool, fdsNow: seq<HdifdInfo>)
    requires Going(packer, cmd, payload, size) && |payload| + HandleSize(h) <= all && (h.Some? ==> h.value.Valid())
    modifies packer`data, packer`packSize, packer`writePos, packer.data, ids
    ensures fresh({packer.data} - {old(packer.data)})
    ensures if ok then Going(packer, cmd, payload + HandleBytes(h, old(ids.cursor)), size) else Stuck(packer, size, all)
    ensures ok ==> fdsNow == hdiFds + Entries(Fds(h), old(ids.cursor))
    ensures ok ==> ids.cursor == CursorAfter(Fds(h), old(ids.cursor))
  {
    hide LE32, HandleBytes, FdBytes, Entries, CursorAfter, BasicBytes, Going, Stuck;
    ghost var p, c := payload, ids.cursor;
    fdsNow := hdiFds;
    ok := WriteNext(LE32(if h.None? then UINT32_MAX else h.value.reserveFds), packer, cmd, p, size, all);
    if !ok { return; }
    p := p + LE32(if h.None? then UINT32_MAX else h.value.reserveFds);
    ok := WriteNext(LE32(if h.None? then UINT32_MAX else h.value.reserveInts), packer, cmd, p, size, all);
    if !ok { return; }
    p := p + LE32(if h.None? then UINT32_MAX else h.value.reserveInts);
    if h.None? {
      NoneInOrder(payload, c, hdiFds);
      return;
    }
    var v := h.value;
    FdBytesLength([v.fd], c);
    BasicLength(v);
    ok, fdsNow := FileDescriptorPack(v.fd, packer, ids, fdsNow, cmd, p, size, all);
    if !ok { return; }
    p := p + FdBytes([v.fd], c);
    ok := BasicPack(v, packer, cmd, p, size, all);
    if !ok { return; }
    p := p + BasicBytes(v);
    ok, fdsNow := ReservePack(v, packer, ids, fdsNow, cmd, p, size, all);
    if ok {
      SomeInOrder(v, payload, c, hdiFds);
    }
  }

  lemma NoneInOrder(p: seq<byte>, c: int32, hdiFds: seq<HdifdInfo>)
    ensures p + LE32(UINT32_MAX) + LE32(UINT32_MAX) == p + HandleBytes(None, c)
    ensures hdiFds + Entries(Fds(None), c) == hdiFds && CursorAfter(Fds(None), c) == c
  {
    hide LE32;
    ConcatAssoc(p, LE32(UINT32_MAX), LE32(UINT32_MAX));
    assert hdiFds + [] == hdiFds;
  }

  lemma SomeInOrder(v: Handle, p: seq<byte>, c: int32, hdiFds: seq<HdifdInfo>)
    requires v.Valid()
    ensures var first, rest, c1 := [v.fd], v.reserve[..v.reserveFds], CursorAfter([v.fd], c);
            && p + LE32(v.reserveFds) + LE32(v.reserveInts) + FdBytes(first, c) + BasicBytes(v)
                 + (FdBytes(rest, c1) + IntBytes(v.reserve[v.reserveFds..]))
               == p + HandleBytes(Some(v), c)
            && (hdiFds + Entries(first, c)) + Entries(rest, c1) == hdiFds + Entries(Fds(Some(v)), c)
            && CursorAfter(rest, c1) == CursorAfter(Fds(Some(v)), c)
  {
    hide LE32, FdBytes, Entries, CursorAfter, BasicBytes, IntBytes;
    var first, rest, c1 := [v.fd], v.reserve[..v.reserveFds], CursorAfter([v.fd], c);
    EntriesConcat(first, rest, c);
    ConcatAssoc(hdiFds, Entries(first, c), Entries(rest, c1));
    var a, b, d, e, f := LE32(v.reserveFds), LE32(v.reserveInts), FdBytes(first, c), BasicBytes(v),
                         FdBytes(rest, c1) + IntBytes(v.reserve[v.reserveFds..]);
    ConcatAssoc(p + a + b + d, e, f);
    ConcatAssoc(p + a + b, d, e + f);
    ConcatAssoc(p + a, b, d + (e + f));
    ConcatAssoc(p, a, b + (d + (e + f)));
  }

  /** The reserve array: descriptors through the table, integers as they are. */
  method ReservePack(h: Handle, packer: CommandDataPacker, ids: SeqIds, hdiFds: seq<HdifdInfo>,
                     ghost cmd: uint32, ghost payload: seq<byte>, ghost size: nat, ghost all: nat)
    returns (ok: bool, fdsNow: seq<HdifdInfo>)
    requires Going(packer, cmd, payload, size) && |payload| + 4 * |h.reserve| <= all && h.Valid()
    modifies packer`data, packer`packSize, packer`writePos, packer.data, ids
    ensures fresh({packer.data} - {old(packer.data)})
    ensures var fds, ints, c := h.reserve[..h.reserveFds], h.reserve[h.reserveFds..], old(ids.cursor);
            && (if ok then Going(packer, cmd, payload + (FdBytes(fds, c) + IntBytes(ints)), size)
                else Stuck(packer, size, all))
            && (ok ==> fdsNow == hdiFds + Entries(fds, c) && ids.cursor == CursorAfter(fds, c))
  {
    hide FdBytes, Entries, CursorAfter, IntBytes, I32, Going, Stuck;
    ghost var fds, ints, c, p := h.reserve[..h.reserveFds], h.reserve[h.reserveFds..], ids.cursor, payload;
    fdsNow := hdiFds;
    ok := true;
    PackNothing(payload, hdiFds, c);
    var i := 0;
    while i < h.reserveFds
      invariant 0 <= i <= h.reserveFds && ok && fresh({packer.data} - {old(packer.data)})
      invariant Going(packer, cmd, p, size) && p == payload + FdBytes(fds[..i], c) && |p| == |payload| + 4 * i
      invariant fdsNow == hdiFds + Entries(fds[..i], c) && ids.cursor == CursorAfter(fds[..i], c)
    {
      NextFd(fds, i, c, payload, hdiFds);
      ghost var b := FdBytes([h.reserve[i]], ids.cursor);
      FdBytesLength([h.reserve[i]], ids.cursor);
      ok, fdsNow := FileDescriptorPack(h.reserve[i], packer, ids, fdsNow, cmd, p, size, all);
      if !ok { return; }
      i, p := i + 1, p + b;
    }
    assert fds[..i] == fds;
    NoInts(ints, p);
    var j := 0;
    while j < h.reserveInts
      invariant 0 <= j <= h.reserveInts && ok && i == h.reserveFds + j && fresh({packer.data} - {old(packer.data)})
      invariant Going(packer, cmd, p, size) && |p| == |payload| + 4 * i
      invariant p == (payload + FdBytes(fds, c)) + IntBytes(ints[..j])
      invariant fdsNow == hdiFds + Entries(fds, c) && ids.cursor == CursorAfter(fds, c)
    {
      NextInt(ints, j, payload + FdBytes(fds, c));
      ok := WriteNext(I32(h.reserve[i]), packer, cmd, p, size, all);
      if !ok { return; }
      p := p + I32(h.reserve[i]);
      i, j := i + 1, j + 1;
    }
    assert ints[..j] == ints;
    ConcatAssoc(payload, FdBytes(fds, c), IntBytes(ints));
  }

  lemma PackNothing(p: seq<byte>, hdiFds: seq<HdifdInfo>, c: int32)
    ensures forall fds: seq<int32> {:trigger fds[..0]} ::
              (&& p + FdBytes(fds[..0], c) == p
               && hdiFds + Entries(fds[..0], c) == hdiFds && CursorAfter(fds[..0], c) == c)
  {
    assert p + [] == p && hdiFds + [] == hdiFds;
  }

  lemma NextFd(fds: seq<int32>, i: nat, c: int32, p: seq<byte>, hdiFds: seq<HdifdInfo>)
    requires i < |fds|
    ensures var now := CursorAfter(fds[..i], c);
            && p + FdBytes(fds[..i + 1], c) == (p + FdBytes(fds[..i], c)) + FdBytes([fds[i]], now)
            && hdiFds + Entries(fds[..i + 1], c) == (hdiFds + Entries(fds[..i], c)) + Entries([fds[i]], now)
            && CursorAfter(fds[..i + 1], c) == CursorAfter([fds[i]], now)
  {
    hide FdBytes, Entries, CursorAfter;
    assert fds[..i + 1] == fds[..i] + [fds[i]];
    EntriesConcat(fds[..i], [fds[i]], c);
    ConcatAssoc(p, FdBytes(fds[..i], c), FdBytes([fds[i]], CursorAfter(fds[..i], c)));
    ConcatAssoc(hdiFds, Entries(fds[..i], c), Entries([fds[i]], CursorAfter(fds[..i], c)));
  }

  lemma NoInts(ints: seq<int32>, p: seq<byte>)
    ensures p + IntBytes(ints[..0]) == p
  {
  }

  lemma {:induction false} IntBytesConcat(a: seq<int32>, b: seq<int32>)
    ensures IntBytes(a + b) == IntBytes(a) + IntBytes(b)
  {
    hide I32;
    if a == [] {
      assert a + b == b;
    } else {
      assert (a + b)[1..] == a[1..] + b;
      IntBytesConcat(a[1..], b);
      ConcatAssoc(I32(a[0]), IntBytes(a[1..]), IntBytes(b));
    }
  }

  lemma NextInt(ints: seq<int32>, j: nat, p: seq<byte>)
    requires j < |ints|
    ensures p + IntBytes(ints[..j + 1]) == (p + IntBytes(ints[..j])) + I32(ints[j])
  {
    hide I32;
    assert ints[..j + 1] == ints[..j] + [ints[j]];
    IntBytesConcat(ints[..j], [ints[j]]);
    OneInt(ints[j]);
    ConcatAssoc(p, IntBytes(ints[..j]), I32(ints[j]));
  }

  // ----- unpacking -----

  method MatchHdiFd(id: int32, hdiFds: seq<HdifdInfo>) returns (ok: bool, fd: int32)
    ensures ok <==> exists i :: 0 <= i < |hdiFds| && hdiFds[i].hdiFd.Some? && hdiFds[i].id == id
    ensures ok ==> exists i ::
              && 0 <= i < |hdiFds| && hdiFds[i].id == id && hdiFds[i].hdiFd == Some(fd)
              && forall j :: 0 <= j < i ==> !(hdiFds[j].hdiFd.Some? && hdiFds[j].id == id)
    ensures ok <==> FindFd(hdiFds, id).Some?
    ensures ok ==> Some(fd) == FindFd(hdiFds, id)
  {
    var i := 0;
    LostPassedOver(hdiFds, id);
    while i < |hdiFds|
      invariant 0 <= i <= |hdiFds| && forall j :: 0 <= j < i ==> !(hdiFds[j].hdiFd.Some? && hdiFds[j].id == id)
    {
      if hdiFds[i].hdiFd.Some? && hdiFds[i].id == id {
        assert Leads(hdiFds, id, hdiFds[i].hdiFd.value);
        return true, hdiFds[i].hdiFd.value;
      }
      i := i + 1;
    }
    return false, -1;
  }

  method ReadInt32(u: CommandDataUnpacker) returns (ok: bool, v: int32)
    modifies u`readPos
    ensures ok <==> old(u.readPos) + 4 <= |u.data|
    ensures ok ==> u.readPos == old(u.readPos) + 4 && v == ToInt32(FromLE(u.data[old(u.readPos)..u.readPos]))
    ensures !ok ==> u.readPos == old(u.readPos)
  {
    hide FromLE;
    var b;
    ok, b := u.Read(4);
    v := if ok then ToInt32(FromLE(b)) else 0;
  }

  /** The signed word at a position. */
  function IntAtPos(m: seq<byte>, pos: nat): int32
    requires pos + 4 <= |m|
  {
    ToInt32(FromLE(m[pos..pos + 4]))
  }

  /** The descriptor received for a number: none for a negative one, else the table's; nothing if it is lost. */
  function Received(word: int32, hdiFds: seq<HdifdInfo>): Option<int32> {
    if word < 0 then Some(-1) else FindFd(hdiFds, word)
  }

  /** The descriptor a word stands for: none for a negative number, else the table's; nothing if it is lost. */
  function DecodeFd(m: seq<byte>, pos: nat, hdiFds: seq<HdifdInfo>): Option<int32> {
    if pos + 4 > |m| then None else Received(IntAtPos(m, pos), hdiFds)
  }

  method FileDescriptorUnpack(u: CommandDataUnpacker, hdiFds: seq<HdifdInfo>) returns (ok: bool, fd: int32)
    modifies u`readPos
    ensures ok <==> DecodeFd(u.data, old(u.readPos), hdiFds).Some?
    ensures fd == if ok then DecodeFd(u.data, old(u.readPos), hdiFds).value else -1
    ensures u.readPos == if old(u.readPos) + 4 <= |u.data| then old(u.readPos) + 4 else old(u.readPos)
  {
    hide FromLE;
    var id;
    ok, id := ReadInt32(u);
    fd := -1;
    if !ok || id < 0 {
      return;
    }
    ok, fd := MatchHdiFd(id, hdiFds);
    if !ok {
      fd := -1;
    }
  }

  /** The fields between the counts and the reserve array; they are all there or the handle is refused. */
  method UnpackBasicInfo(u: CommandDataUnpacker, hdiFds: seq<HdifdInfo>)
    returns (ok: bool, fd: int32, width: int32, stride: int32, height: int32, size: int32, format: int32,
             usage: uint64, phyAddr: uint64)
    modifies u`readPos
    ensures var m, pos := u.data, old(u.readPos);
            && (ok <==> DecodeFd(m, pos, hdiFds).Some? && pos + 40 <= |m|)
            && (ok ==>
                  && u.readPos == pos + 40 && Some(fd) == DecodeFd(m, pos, hdiFds)
                  && BasicIs(m, pos + 4, width, stride, height, size, format, usage, phyAddr))
  {
    hide FromLE, ToInt32, FindFd;
    width, stride, height, size, format, usage, phyAddr := 0, 0, 0, 0, 0, 0, 0;
    ok, fd := FileDescriptorUnpack(u, hdiFds);
    if ok { ok, width := ReadInt32(u); }
    if ok { ok, stride := ReadInt32(u); }
    if ok { ok, height := ReadInt32(u); }
    if ok { ok, size := ReadInt32(u); }
    if ok { ok, format := ReadInt32(u); }
    if ok { ok, usage := ReadUint64(u); }
    if ok { ok, phyAddr := ReadUint64(u); }
  }

  method ReadUint64(u: CommandDataUnpacker) returns (ok: bool, v: uint64)
    modifies u`readPos
    ensures ok <==> old(u.readPos) + 8 <= |u.data|
    ensures ok ==> u.readPos == old(u.readPos) + 8 && v == FromLE(u.data[old(u.readPos)..u.readPos])
    ensures !ok ==> u.readPos == old(u.readPos)
  {
    hide FromLE;
    var b;
    v := 0;
    ok, b := u.Read(8);
    if ok {
      Pow256Values();
      FromLEBound(b);
      v := FromLE(b);
    }
  }

  predicate BasicIs(m: seq<byte>, pos: nat, width: int32, stride: int32, height: int32, size: int32, format: int32,
                    usage: uint64, phyAddr: uint64)
    requires pos + 36 <= |m|
  {
    && width == IntAtPos(m, pos) && stride == IntAtPos(m, pos + 4) && height == IntAtPos(m, pos + 8)
    && size == IntAtPos(m, pos + 12) && format == IntAtPos(m, pos + 16)
    && usage == FromLE(m[pos + 20..pos + 28]) && phyAddr == FromLE(m[pos + 28..pos + 36])
  }

  /** Where word `i` of a list stands. */
  function Slot(pos: nat, i: nat): nat {
    pos + 4 * i
  }

  /** How many of `n` descriptors are found before the first one that is lost. */
  function Found(m: seq<byte>, pos: nat, n: nat, hdiFds: seq<HdifdInfo>): (k: nat)
    ensures k <= n && (k < n ==> DecodeFd(m, Slot(pos, k), hdiFds).None?)
    decreases n
  {
    if n == 0 || DecodeFd(m, pos, hdiFds).None? then 0 else 1 + Found(m, pos + 4, n - 1, hdiFds)
  }

  lemma {:induction false} FoundEach(m: seq<byte>, pos: nat, n: nat, hdiFds: seq<HdifdInfo>, i: nat)
    requires i < Found(m, pos, n, hdiFds)
    ensures DecodeFd(m, Slot(pos, i), hdiFds).Some?
    decreases n
  {
    if i == 0 {
    } else {
      FoundEach(m, pos + 4, n - 1, hdiFds, i - 1);
      assert Slot(pos + 4, i - 1) == Slot(pos, i);
    }
  }

  /** Where the extra integers are read from: behind the descriptors, or behind the first lost one. */
  function IntsFrom(m: seq<byte>, pos: nat, n: nat, hdiFds: seq<HdifdInfo>): nat {
    var k := Found(m, pos, n, hdiFds);
    if k < n && pos + 4 * k + 4 <= |m| then pos + 4 * k + 4 else pos + 4 * k
  }

  /** When the reserve array is taken for good: a lost descriptor goes unnoticed once an integer was read. */
  predicate ExtraOk(m: seq<byte>, pos: nat, n: nat, ints: nat, hdiFds: seq<HdifdInfo>) {
    if ints == 0 then Found(m, pos, n, hdiFds) == n else IntsFrom(m, pos, n, hdiFds) + 4 * ints <= |m|
  }

  /** The array then holds the descriptors found, and the integers right behind them. */
  predicate ExtraIs(m: seq<byte>, pos: nat, n: nat, ints: nat, hdiFds: seq<HdifdInfo>, reserve: seq<int32>)
    requires ExtraOk(m, pos, n, ints, hdiFds)
  {
    var k := Found(m, pos, n, hdiFds);
    && |reserve| == n + ints
    && (forall i :: 0 <= i < k ==> Some(reserve[i]) == DecodeFd(m, Slot(pos, i), hdiFds))
    && (forall j :: 0 <= j < ints ==> reserve[k + j] == IntAtPos(m, Slot(IntsFrom(m, pos, n, hdiFds), j)))
  }

  /** Fill the reserve array: descriptors through the table, then integers as they are. */
  method UnpackExtraInfo(u: CommandDataUnpacker, hdiFds: seq<HdifdInfo>, fdsNum: uint32, intsNum: uint32,
                         reserve: array<int32>)
    returns (ok: bool)
    requires reserve.Length == fdsNum + intsNum
    modifies u`readPos, reserve
    ensures ok <==> ExtraOk(u.data, old(u.readPos), fdsNum, intsNum, hdiFds)
    ensures ok ==> ExtraIs(u.data, old(u.readPos), fdsNum, intsNum, hdiFds, reserve[..])
    ensures ok ==> u.readPos == IntsFrom(u.data, old(u.readPos), fdsNum, hdiFds) + 4 * intsNum
  {
    hide IntAtPos, DecodeFd, Found, FindFd;
    ghost var m, pos := u.data, u.readPos;
    ghost var k := Found(m, pos, fdsNum, hdiFds);
    ok := true;
    var i := 0;
    while i < fdsNum
      invariant 0 <= i <= k && ok && u.readPos == pos + 4 * i && u.data == m
      invariant forall l :: 0 <= l < i ==> Some(reserve[l]) == DecodeFd(m, Slot(pos, l), hdiFds)
    {
      if i < k {
        FoundEach(m, pos, fdsNum, hdiFds, i);
      }
      ok, reserve[i] := FileDescriptorUnpack(u, hdiFds);
      if !ok {
        break;
      }
      FdReadable(m, pos + 4 * i, hdiFds);
      i := i + 1;
    }
    assert i == k && u.readPos == IntsFrom(m, pos, fdsNum, hdiFds) && (ok <==> k == fdsNum);
    ok := UnpackInts(u, ok, i, intsNum, reserve);
  }

  /** The loop over the integers: its reads alone decide, if there are any. */
  method UnpackInts(u: CommandDataUnpacker, was: bool, k: nat, intsNum: uint32, reserve: array<int32>)
    returns (ok: bool)
    requires k + intsNum <= reserve.Length
    modifies u`readPos, reserve
    ensures ok <==> if intsNum == 0 then was else old(u.readPos) + 4 * intsNum <= |u.data|
    ensures ok ==> u.readPos == old(u.readPos) + 4 * intsNum
    ensures forall l :: 0 <= l < k ==> reserve[l] == old(reserve[l])
    ensures ok ==> u.readPos <= |u.data| || intsNum == 0
    ensures ok ==> forall l :: 0 <= l < intsNum ==> reserve[k + l] == IntAtPos(u.data, Slot(old(u.readPos), l))
  {
    hide IntAtPos;
    ghost var m, from := u.data, u.readPos;
    ok := was;
    var j := 0;
    while j < intsNum
      invariant 0 <= j <= intsNum && u.data == m && u.readPos == from + 4 * j
      invariant if j == 0 then ok == was else ok && from + 4 * j <= |m|
      invariant forall l :: 0 <= l < k ==> reserve[l] == old(reserve[l])
      invariant forall l :: 0 <= l < j ==> reserve[k + l] == IntAtPos(m, Slot(from, l))
    {
      var v;
      ok, v := ReadInt32(u);
      reserve[k + j] := v;
      if !ok {
        break;
      }
      IntAtIs(m, from + 4 * j);
      j := j + 1;
    }
  }

  lemma FdReadable(m: seq<byte>, pos: nat, hdiFds: seq<HdifdInfo>)
    requires DecodeFd(m, pos, hdiFds).Some?
    ensures pos + 4 <= |m|
  {
  }

  lemma IntAtIs(m: seq<byte>, pos: nat)
    requires pos + 4 <= |m|
    ensures IntAtPos(m, pos) == ToInt32(FromLE(m[pos..pos + 4]))
  {
  }

  /** The mark of a missing handle. */
  predicate IsNull(m: seq<byte>, pos: nat)
    requires pos + 8 <= |m|
  {
    WordAt(m, pos) == UINT32_MAX && WordAt(m, pos + 4) == UINT32_MAX
  }

  /** When a handle, or the mark of a missing one, is unpacked. */
  predicate UnpackOk(m: seq<byte>, pos: nat, hdiFds: seq<HdifdInfo>) {
    && pos + 8 <= |m|
    && (IsNull(m, pos)
        || (&& DecodeFd(m, pos + 8, hdiFds).Some? && pos + 48 <= |m|
            && ExtraOk(m, pos + 48, WordAt(m, pos), WordAt(m, pos + 4), hdiFds)))
  }

  /** What is then unpacked. */
  predicate UnpackIs(m: seq<byte>, pos: nat, hdiFds: seq<HdifdInfo>, buffer: Option<Handle>)
    requires UnpackOk(m, pos, hdiFds)
  {
    if IsNull(m, pos) then buffer.None?
    else
      && buffer.Some?
      && var h := buffer.value;
      && h.reserveFds == WordAt(m, pos) && h.reserveInts == WordAt(m, pos + 4)
      && Some(h.fd) == DecodeFd(m, pos + 8, hdiFds)
      && BasicIs(m, pos + 12, h.width, h.stride, h.height, h.size, h.format, h.usage, h.phyAddr)
      && ExtraIs(m, pos + 48, h.reserveFds, h.reserveInts, hdiFds, h.reserve)
  }

  /** Where the next value starts. */
  function UnpackNext(m: seq<byte>, pos: nat, hdiFds: seq<HdifdInfo>): nat
    requires UnpackOk(m, pos, hdiFds)
  {
    if IsNull(m, pos) then pos + 8
    else IntsFrom(m, pos + 48, WordAt(m, pos), hdiFds) + 4 * WordAt(m, pos + 4)
  }

  method BufferHandleUnpack(u: CommandDataUnpacker, hdiFds: seq<HdifdInfo>) returns (ok: bool, buffer: Option<Handle>)
    modifies u`readPos
    ensures ok <==> UnpackOk(u.data, old(u.readPos), hdiFds)
    ensures ok ==> UnpackIs(u.data, old(u.readPos), hdiFds, buffer)
    ensures ok ==> u.readPos == UnpackNext(u.data, old(u.readPos), hdiFds)
    ensures !ok ==> buffer.None?
  {
    hide FromLE, DecodeFd, ExtraOk, ExtraIs, BasicIs, IntsFrom;
    buffer := None;
    var fdsNum, intsNum;
    ok, fdsNum := ReadUint32(u);
    if !ok {
      return;
    }
    ok, intsNum := ReadUint32(u);
    if !ok {
      return;
    }
    if fdsNum == UINT32_MAX && intsNum == UINT32_MAX {
      return;
    }
    var fd, width, stride, height, size, format, usage, phyAddr;
    ok, fd, width, stride, height, size, format, usage, phyAddr := UnpackBasicInfo(u, hdiFds);
    if ok {
      var slots := (fdsNum as nat) + (intsNum as nat);
      var reserve := new int32[slots];
      ok := UnpackExtraInfo(u, hdiFds, fdsNum, intsNum, reserve);
      if ok {
        buffer := Some(Handle(fdsNum, intsNum, fd, width, stride, height, size, format, usage, phyAddr, reserve[..]));
      }
    }
  }

  method ReadUint32(u: CommandDataUnpacker) returns (ok: bool, v: uint32)
    modifies u`readPos
    ensures ok <==> old(u.readPos) + 4 <= |u.data|
    ensures ok ==> u.readPos == old(u.readPos) + 4 && v == WordAt(u.data, old(u.readPos))
  {
    hide FromLE;
    var b;
    v := 0;
    ok, b := u.Read(4);
    if ok {
      Pow256Values();
      FromLEBound(b);
      v := FromLE(b);
    }
  }

  // ----- what was packed unpacks -----

  lemma FdDecodes(m: seq<byte>, pos: nat, fd: int32, c: int32, hdiFds: seq<HdifdInfo>)
    requires At(m, pos, FdBytes([fd], c)) && Serves(hdiFds, [fd], c)
    ensures DecodeFd(m, pos, hdiFds) == Some(Norm(fd)) && pos + 4 <= |m|
  {
    FdReadsBack(m, pos, fd, c, hdiFds);
  }

  /** All descriptors of a packed list are found. */
  lemma {:induction false} AllFound(m: seq<byte>, pos: nat, n: nat, hdiFds: seq<HdifdInfo>)
    requires forall i :: 0 <= i < n ==> DecodeFd(m, Slot(pos, i), hdiFds).Some?
    ensures Found(m, pos, n, hdiFds) == n
    decreases n
  {
    if n == 0 {
    } else {
      assert Slot(pos, 0) == pos;
      var next := pos + 4;
      forall i | 0 <= i < n - 1 ensures DecodeFd(m, Slot(next, i), hdiFds).Some? {
        assert Slot(next, i) == Slot(pos, i + 1);
      }
      AllFound(m, next, n - 1, hdiFds);
    }
  }

  lemma ExtraUnpacks(m: seq<byte>, pos: nat, fds: seq<int32>, ints: seq<int32>, c: int32, hdiFds: seq<HdifdInfo>)
    requires At(m, pos, FdBytes(fds, c) + IntBytes(ints)) && Serves(hdiFds, fds, c)
    ensures ExtraOk(m, pos, |fds|, |ints|, hdiFds) && IntsFrom(m, pos, |fds|, hdiFds) == pos + 4 * |fds|
    ensures forall r :: ExtraIs(m, pos, |fds|, |ints|, hdiFds, r) ==> r == NormAll(fds) + ints
  {
    hide FdBytes, IntBytes, Serves, At, FromLE, ToInt32, FindFd;
    AtSplit(m, pos, FdBytes(fds, c), IntBytes(ints));
    FdBytesLength(fds, c);
    IntBytesLength(ints);
    var from := pos + 4 * |fds|;
    AtEnd(m, from, IntBytes(ints));
    forall i | 0 <= i < |fds| ensures DecodeFd(m, Slot(pos, i), hdiFds) == Some(Norm(fds[i])) {
      FdAt(m, pos, fds, c, i, hdiFds);
    }
    AllFound(m, pos, |fds|, hdiFds);
    forall j | 0 <= j < |ints| ensures Slot(from, j) + 4 <= |m| && IntAtPos(m, Slot(from, j)) == ints[j] {
      IntAt(m, from, ints, j);
    }
    forall r | ExtraIs(m, pos, |fds|, |ints|, hdiFds, r) ensures r == NormAll(fds) + ints {
      ReserveIs(m, pos, from, fds, ints, hdiFds, r);
    }
  }

  lemma ReserveIs(m: seq<byte>, pos: nat, from: nat, fds: seq<int32>, ints: seq<int32>, hdiFds: seq<HdifdInfo>,
                  r: seq<int32>)
    requires ExtraOk(m, pos, |fds|, |ints|, hdiFds) && ExtraIs(m, pos, |fds|, |ints|, hdiFds, r)
    requires Found(m, pos, |fds|, hdiFds) == |fds| && IntsFrom(m, pos, |fds|, hdiFds) == from
    requires forall i :: 0 <= i < |fds| ==> DecodeFd(m, Slot(pos, i), hdiFds) == Some(Norm(fds[i]))
    requires forall j :: 0 <= j < |ints| ==> Slot(from, j) + 4 <= |m| && IntAtPos(m, Slot(from, j)) == ints[j]
    ensures r == NormAll(fds) + ints
  {
    hide DecodeFd, IntAtPos, Found, IntsFrom, ExtraOk, NormAll, Norm, Slot;
    var n, all := |fds|, NormAll(fds);
    forall i | 0 <= i < n ensures r[i] == all[i] {
      assert Some(r[i]) == DecodeFd(m, Slot(pos, i), hdiFds);
    }
    assert r[..n] == all;
    var tail := r[n..];
    forall j | 0 <= j < |ints| ensures tail[j] == ints[j] {
      assert r[n + j] == IntAtPos(m, Slot(from, j));
    }
    assert r == r[..n] + r[n..];
  }

  lemma AtEnd(m: seq<byte>, pos: nat, b: seq<byte>)
    requires At(m, pos, b)
    ensures pos + |b| <= |m|
  {
  }

  lemma BasicReads(m: seq<byte>, pos: nat, h: Handle)
    requires At(m, pos, BasicBytes(h))
    ensures pos + 36 <= |m| && BasicIs(m, pos, h.width, h.stride, h.height, h.size, h.format, h.usage, h.phyAddr)
  {
    hide FromLE, ToInt32, BasicBytes;
    BasicSplits(m, pos, h);
  }

  /**
   Unpacking a packed handle restores it and ends behind it, if its own descriptors arrived; whatever
   else the table lost.
   */
  lemma PackedUnpacks(m: seq<byte>, pos: nat, h: Option<Handle>, c: int32, hdiFds: seq<HdifdInfo>)
    requires h.Some? ==> h.value.Valid() && !(h.value.reserveFds == UINT32_MAX && h.value.reserveInts == UINT32_MAX)
    requires At(m, pos, HandleBytes(h, c)) && Serves(hdiFds, Fds(h), c)
    ensures UnpackOk(m, pos, hdiFds) && UnpackNext(m, pos, hdiFds) == pos + |HandleBytes(h, c)|
    ensures forall b :: UnpackIs(m, pos, hdiFds, b) ==> b == if h.None? then None else Some(Restored(h.value))
  {
    hide FdBytes, IntBytes, BasicBytes, Serves, At, FromLE, HandleBytes, DecodeFd, ExtraOk, ExtraIs, BasicIs,
      IntsFrom, Fds;
    HandleSplits(m, pos, h, c, hdiFds);
    if h.Some? {
      var v := h.value;
      AtSplit(m, pos + 8, FdBytes([v.fd], c), BasicBytes(v));
      FdBytesLength([v.fd], c);
      FdDecodes(m, pos + 8, v.fd, c, hdiFds);
      BasicReads(m, pos + 12, v);
      ExtraUnpacks(m, pos + 48, v.reserve[..v.reserveFds], v.reserve[v.reserveFds..], CursorAfter([v.fd], c),
                   hdiFds);
      forall b | UnpackIs(m, pos, hdiFds, b) ensures b == Some(Restored(v)) {
        SameBasic(m, pos + 12, v, b.value);
      }
    }
  }

  lemma SameBasic(m: seq<byte>, pos: nat, v: Handle, w: Handle)
    requires pos + 36 <= |m| && BasicIs(m, pos, v.width, v.stride, v.height, v.size, v.format, v.usage, v.phyAddr)
    requires BasicIs(m, pos, w.width, w.stride, w.height, w.size, w.format, w.usage, w.phyAddr)
    ensures (v.width, v.stride, v.height, v.size, v.format) == (w.width, w.stride, w.height, w.size, w.format)
    ensures v.usage == w.usage && v.phyAddr == w.phyAddr
  {
  }

  /** What one packed descriptor unpacks to. */
  lemma FdReadsBack(m: seq<byte>, pos: nat, fd: int32, c: int32, hdiFds: seq<HdifdInfo>)
    requires At(m, pos, FdBytes([fd], c)) && Serves(hdiFds, [fd], c)
    ensures pos + 4 <= |m|
    ensures var id := ToInt32(FromLE(m[pos..pos + 4]));
            && (id < 0 <==> fd < 0)
            && (fd >= 0 ==> FindFd(hdiFds, id) == Some(fd))
  {
    OneFd(fd, c);
    hide I32, FromLE, ToInt32;
    I32RoundTrip(if fd < 0 then fd else NextId(c));
    if fd >= 0 {
      var e := HdifdInfo(NextId(c), Some(fd));
      assert e in Entries([fd], c);
      LostPassedOver(hdiFds, e.id);
    }
  }

  lemma IntReadsBack(m: seq<byte>, pos: nat, v: int32)
    requires At(m, pos, I32(v))
    ensures pos + 4 <= |m| && ToInt32(FromLE(m[pos..pos + 4])) == v
  {
    I32RoundTrip(v);
  }

  lemma LongReadsBack(m: seq<byte>, pos: nat, v: uint64)
    requires At(m, pos, ToLE(v, 8))
    ensures pos + 8 <= |m| && FromLE(m[pos..pos + 8]) == v
  {
    Pow256Values();
    FromToLE(v, 8);
  }

  lemma BasicLength(h: Handle)
    ensures |BasicBytes(h)| == 36
  {
  }

  lemma BasicSplits(m: seq<byte>, pos: nat, h: Handle)
    requires At(m, pos, BasicBytes(h))
    ensures pos + 36 <= |m|
    ensures ToInt32(FromLE(m[pos..pos + 4])) == h.width && ToInt32(FromLE(m[pos + 4..pos + 8])) == h.stride
    ensures ToInt32(FromLE(m[pos + 8..pos + 12])) == h.height && ToInt32(FromLE(m[pos + 12..pos + 16])) == h.size
    ensures ToInt32(FromLE(m[pos + 16..pos + 20])) == h.format
    ensures FromLE(m[pos + 20..pos + 28]) == h.usage && FromLE(m[pos + 28..pos + 36]) == h.phyAddr
  {
    hide I32, ToLE, At, FromLE, ToInt32;
    var c, d, e, f, g := I32(h.height), I32(h.size), I32(h.format), ToLE(h.usage, 8), ToLE(h.phyAddr, 8);
    AtSplit(m, pos, I32(h.width), I32(h.stride) + (c + (d + (e + (f + g)))));
    AtSplit(m, pos + 4, I32(h.stride), c + (d + (e + (f + g))));
    AtSplit(m, pos + 8, c, d + (e + (f + g)));
    AtSplit(m, pos + 12, d, e + (f + g));
    AtSplit(m, pos + 16, e, f + g);
    AtSplit(m, pos + 20, f, g);
    IntReadsBack(m, pos, h.width);
    IntReadsBack(m, pos + 4, h.stride);
    IntReadsBack(m, pos + 8, h.height);
    IntReadsBack(m, pos + 12, h.size);
    IntReadsBack(m, pos + 16, h.format);
    LongReadsBack(m, pos + 20, h.usage);
    LongReadsBack(m, pos + 28, h.phyAddr);
  }

  lemma {:induction false} FdBytesLength(fds: seq<int32>, c: int32)
    ensures |FdBytes(fds, c)| == 4 * |fds|
    decreases |fds|
  {
    hide I32;
    if fds == [] {
    } else {
      FdBytesLength(fds[1..], if fds[0] < 0 then c else NextId(c));
    }
  }

  lemma {:induction false} IntBytesLength(ints: seq<int32>)
    ensures |IntBytes(ints)| == 4 * |ints|
  {
    hide I32;
    if ints == [] {
    } else {
      IntBytesLength(ints[1..]);
    }
  }

  /** Descriptor `i` of a list stands four bytes per descriptor further on, with its own entry. */
  lemma FdAt(m: seq<byte>, pos: nat, fds: seq<int32>, c: int32, i: nat, hdiFds: seq<HdifdInfo>)
    requires At(m, pos, FdBytes(fds, c)) && Serves(hdiFds, fds, c) && i < |fds|
    ensures pos + 4 * i + 4 <= |m|
    ensures var id := ToInt32(FromLE(m[pos + 4 * i..pos + 4 * i + 4]));
            (id < 0 <==> fds[i] < 0) && (fds[i] >= 0 ==> FindFd(hdiFds, id) == Some(fds[i]))
  {
    hide FdBytes, Entries, CursorAfter, At, FromLE, ToInt32, FindFd, Table;
    var now := CursorAfter(fds[..i], c);
    assert fds == fds[..i] + ([fds[i]] + fds[i + 1..]);
    EntriesConcat(fds[..i], [fds[i]] + fds[i + 1..], c);
    EntriesConcat([fds[i]], fds[i + 1..], now);
    AtSplit(m, pos, FdBytes(fds[..i], c), FdBytes([fds[i]] + fds[i + 1..], now));
    FdBytesLength(fds[..i], c);
    AtSplit(m, pos + 4 * i, FdBytes([fds[i]], now), FdBytes(fds[i + 1..], CursorAfter([fds[i]], now)));
    FdReadsBack(m, pos + 4 * i, fds[i], now, hdiFds);
  }

  lemma IntAt(m: seq<byte>, pos: nat, ints: seq<int32>, i: nat)
    requires At(m, pos, IntBytes(ints)) && i < |ints|
    ensures pos + 4 * i + 4 <= |m| && ToInt32(FromLE(m[pos + 4 * i..pos + 4 * i + 4])) == ints[i]
  {
    hide At, FromLE, ToInt32, I32, IntBytes;
    assert ints == ints[..i] + ([ints[i]] + ints[i + 1..]);
    IntBytesConcat(ints[..i], [ints[i]] + ints[i + 1..]);
    IntBytesConcat([ints[i]], ints[i + 1..]);
    OneInt(ints[i]);
    AtSplit(m, pos, IntBytes(ints[..i]), IntBytes([ints[i]] + ints[i + 1..]));
    IntBytesLength(ints[..i]);
    AtSplit(m, pos + 4 * i, I32(ints[i]), IntBytes(ints[i + 1..]));
    IntReadsBack(m, pos + 4 * i, ints[i]);
  }

  lemma OneInt(v: int32)
    ensures IntBytes([v]) == I32(v)
  {
    hide I32;
    var one := [v];
    assert one[1..] == [];
    assert IntBytes(one) == I32(v) + IntBytes(one[1..]) == I32(v);
  }

  lemma HandleSplits(m: seq<byte>, pos: nat, h: Option<Handle>, c: int32, hdiFds: seq<HdifdInfo>)
    requires h.Some? ==> h.value.Valid()
    requires At(m, pos, HandleBytes(h, c)) && Serves(hdiFds, Fds(h), c)
    ensures pos + 8 <= |m|
    ensures h.None? ==> FromLE(m[pos..pos + 4]) == FromLE(m[pos + 4..pos + 8]) == UINT32_MAX && |HandleBytes(h, c)| == 8
    ensures h.Some? ==>
              (var v := h.value;
               var rest, ints, c1 := v.reserve[..v.reserveFds], v.reserve[v.reserveFds..], CursorAfter([v.fd], c);
               && FromLE(m[pos..pos + 4]) == v.reserveFds && FromLE(m[pos + 4..pos + 8]) == v.reserveInts
               && At(m, pos + 8, FdBytes([v.fd], c) + BasicBytes(v)) && Serves(hdiFds, [v.fd], c)
               && At(m, pos + 48, FdBytes(rest, c1) + IntBytes(ints)) && Serves(hdiFds, rest, c1)
               && |HandleBytes(h, c)| == 48 + 4 * |v.reserve|)
  {
    hide FdBytes, IntBytes, BasicBytes, At, FromLE, LE32, Table, CursorAfter;
    if h.None? {
      AtSplit(m, pos, LE32(UINT32_MAX), LE32(UINT32_MAX));
      WordReadsBack(m, pos, UINT32_MAX);
      WordReadsBack(m, pos + 4, UINT32_MAX);
    } else {
      var v := h.value;
      var rest, ints, c1 := v.reserve[..v.reserveFds], v.reserve[v.reserveFds..], CursorAfter([v.fd], c);
      EntriesConcat([v.fd], rest, c);
      HandleParts(m, pos, v, c);
    }
  }

  lemma HandleParts(m: seq<byte>, pos: nat, v: Handle, c: int32)
    requires v.Valid() && At(m, pos, HandleBytes(Some(v), c))
    ensures var rest, ints, c1 := v.reserve[..v.reserveFds], v.reserve[v.reserveFds..], CursorAfter([v.fd], c);
            && pos + 8 <= |m|
            && FromLE(m[pos..pos + 4]) == v.reserveFds && FromLE(m[pos + 4..pos + 8]) == v.reserveInts
            && At(m, pos + 8, FdBytes([v.fd], c) + BasicBytes(v))
            && At(m, pos + 48, FdBytes(rest, c1) + IntBytes(ints))
            && |HandleBytes(Some(v), c)| == 48 + 4 * |v.reserve|
  {
    hide FdBytes, IntBytes, BasicBytes, At, FromLE, LE32, CursorAfter;
    var rest, ints, c1 := v.reserve[..v.reserveFds], v.reserve[v.reserveFds..], CursorAfter([v.fd], c);
    HandleLength(Some(v), c);
    FdBytesLength([v.fd], c);
    BasicLength(v);
    var a, b, d, e, f := LE32(v.reserveFds), LE32(v.reserveInts), FdBytes([v.fd], c), BasicBytes(v),
                         FdBytes(rest, c1) + IntBytes(ints);
    AtSplit(m, pos, a, b + (d + (e + f)));
    AtSplit(m, pos + 4, b, d + (e + f));
    ConcatAssoc(d, e, f);
    AtSplit(m, pos + 8, d + e, f);
    WordReadsBack(m, pos, v.reserveFds);
    WordReadsBack(m, pos + 4, v.reserveInts);
  }

  lemma WordReadsBack(m: seq<byte>, pos: nat, v: uint32)
    requires At(m, pos, LE32(v))
    ensures pos + 4 <= |m| && FromLE(m[pos..pos + 4]) == v
  {
    LE32RoundTrip(v);
  }

  // ----- descriptors that are lost -----

  /** The words that stand in the pack for descriptors. */
  function Numbers(fds: seq<int32>, c: int32): (r: seq<int32>)
    ensures |r| == |fds|
  {
    if fds == [] then []
    else if fds[0] < 0 then [fds[0]] + Numbers(fds[1..], c)
    else [NextId(c)] + Numbers(fds[1..], NextId(c))
  }

  lemma {:induction false} FdBytesAre(fds: seq<int32>, c: int32)
    ensures FdBytes(fds, c) == IntBytes(Numbers(fds, c))
    decreases |fds|
  {
    hide I32;
    if fds == [] {
    } else {
      var next := if fds[0] < 0 then c else NextId(c);
      FdBytesAre(fds[1..], next);
      assert Numbers(fds, c)[1..] == Numbers(fds[1..], next);
    }
  }

  /** How many of these words are received before the first whose descriptor is lost. */
  function Arrived(words: seq<int32>, hdiFds: seq<HdifdInfo>): (k: nat)
    ensures k <= |words|
  {
    if words == [] || Received(words[0], hdiFds).None? then 0 else 1 + Arrived(words[1..], hdiFds)
  }

  lemma {:induction false} FoundArrived(m: seq<byte>, pos: nat, words: seq<int32>, hdiFds: seq<HdifdInfo>)
    requires forall i :: 0 <= i < |words| ==> Slot(pos, i) + 4 <= |m| && IntAtPos(m, Slot(pos, i)) == words[i]
    ensures Found(m, pos, |words|, hdiFds) == Arrived(words, hdiFds)
    decreases |words|
  {
    hide IntAtPos, Received;
    if words == [] {
    } else {
      assert Slot(pos, 0) == pos;
      var next, rest := pos + 4, words[1..];
      forall i | 0 <= i < |rest| ensures Slot(next, i) + 4 <= |m| && IntAtPos(m, Slot(next, i)) == rest[i] {
        assert Slot(next, i) == Slot(pos, i + 1);
      }
      FoundArrived(m, next, rest, hdiFds);
    }
  }

  /** The words of a packed list, each in its slot. */
  lemma WordsStand(m: seq<byte>, pos: nat, words: seq<int32>)
    requires At(m, pos, IntBytes(words))
    ensures pos + 4 * |words| <= |m|
    ensures forall i :: 0 <= i < |words| ==> Slot(pos, i) + 4 <= |m| && IntAtPos(m, Slot(pos, i)) == words[i]
  {
    hide IntBytes, FromLE, ToInt32, At;
    IntBytesLength(words);
    AtEnd(m, pos, IntBytes(words));
    forall i | 0 <= i < |words| ensures Slot(pos, i) + 4 <= |m| && IntAtPos(m, Slot(pos, i)) == words[i] {
      IntAt(m, pos, words, i);
    }
  }

  /** What an array holds whose integers are read from behind the first lost descriptor. */
  ghost predicate Shifted(words: seq<int32>, ints: seq<int32>, hdiFds: seq<HdifdInfo>, reserve: seq<int32>)
    requires Arrived(words, hdiFds) < |words|
  {
    var k := Arrived(words, hdiFds);
    && |reserve| == |words| + |ints|
    && (forall i :: 0 <= i < k ==> Some(reserve[i]) == Received(words[i], hdiFds))
    && reserve[k..k + |ints|] == (words + ints)[k + 1..k + 1 + |ints|]
  }

  /** Reading from behind the first lost descriptor. */
  lemma FromArrived(m: seq<byte>, pos: nat, words: seq<int32>, n: nat, hdiFds: seq<HdifdInfo>)
    requires pos + 4 * n <= |m| && |words| == n && Found(m, pos, n, hdiFds) == Arrived(words, hdiFds)
    ensures var k := Arrived(words, hdiFds);
            IntsFrom(m, pos, n, hdiFds) == pos + 4 * (if k < n then k + 1 else n)
  {
    hide Found, Arrived;
  }

  /** A packed reserve array against any table. */
  lemma ExtraArrives(m: seq<byte>, pos: nat, words: seq<int32>, ints: seq<int32>, hdiFds: seq<HdifdInfo>)
    requires At(m, pos, IntBytes(words + ints))
    ensures ExtraOk(m, pos, |words|, |ints|, hdiFds) <==> Arrived(words, hdiFds) == |words| || ints != []
    ensures Arrived(words, hdiFds) < |words| ==>
              && IntsFrom(m, pos, |words|, hdiFds) == pos + 4 * (Arrived(words, hdiFds) + 1)
              && (ints != [] ==>
                    forall r :: ExtraIs(m, pos, |words|, |ints|, hdiFds, r) ==> Shifted(words, ints, hdiFds, r))
  {
    var all, n, k := words + ints, |words|, Arrived(words, hdiFds);
    hide IntBytes, At, IntAtPos, Arrived, Found, IntsFrom, ExtraIs, Shifted;
    WordsStand(m, pos, all);
    assert forall i :: 0 <= i < n ==> words[i] == all[i];
    FoundArrived(m, pos, words, hdiFds);
    FromArrived(m, pos, words, n, hdiFds);
    if k < n && ints != [] {
      forall r | ExtraIs(m, pos, n, |ints|, hdiFds, r) ensures Shifted(words, ints, hdiFds, r) {
        ShiftedIs(m, pos, words, ints, hdiFds, r);
      }
    }
  }

  lemma ShiftedIs(m: seq<byte>, pos: nat, words: seq<int32>, ints: seq<int32>, hdiFds: seq<HdifdInfo>, r: seq<int32>)
    requires ExtraOk(m, pos, |words|, |ints|, hdiFds) && ExtraIs(m, pos, |words|, |ints|, hdiFds, r)
    requires var k := Arrived(words, hdiFds);
             Found(m, pos, |words|, hdiFds) == k < |words| && IntsFrom(m, pos, |words|, hdiFds) == pos + 4 * (k + 1)
    requires var all := words + ints;
             forall i :: 0 <= i < |all| ==> Slot(pos, i) + 4 <= |m| && IntAtPos(m, Slot(pos, i)) == all[i]
    ensures Shifted(words, ints, hdiFds, r)
  {
    hide IntAtPos, Found, IntsFrom, ExtraOk, Arrived, Received;
    var all, k := words + ints, Arrived(words, hdiFds);
    var from, here := pos + 4 * (k + 1), r[k..k + |ints|];
    forall i | 0 <= i < k ensures Some(r[i]) == Received(words[i], hdiFds) {
      assert IntAtPos(m, Slot(pos, i)) == all[i];
    }
    forall j | 0 <= j < |ints| ensures here[j] == all[k + 1..][j] {
      assert Slot(from, j) == Slot(pos, k + 1 + j);
      assert r[k + j] == IntAtPos(m, Slot(from, j));
    }
    assert here == all[k + 1..k + 1 + |ints|];
  }

  /**
   A packed handle is accepted, whatever became of the table, exactly when its main descriptor
   arrived and either all the others did or there are integers to read behind them. So the loss of
   one of the others is noticed exactly when the handle has no integers. When it is not, the
   integers are those behind the first lost descriptor's number: numbers of later descriptors
   first, and as many of the real ones are missing at the end; the next value is then read from
   inside this handle, unless only the last descriptor was lost.
   */
  lemma LossNoticedIff(m: seq<byte>, pos: nat, v: Handle, c: int32, hdiFds: seq<HdifdInfo>)
    requires v.Valid() && !(v.reserveFds == UINT32_MAX && v.reserveInts == UINT32_MAX)
    requires At(m, pos, HandleBytes(Some(v), c))
    ensures var words := Numbers(v.reserve[..v.reserveFds], CursorAfter([v.fd], c));
            var main, lost := Received(Numbers([v.fd], c)[0], hdiFds), Arrived(words, hdiFds) < v.reserveFds;
            && (UnpackOk(m, pos, hdiFds) <==> main.Some? && (lost ==> v.reserveInts > 0))
            && (UnpackOk(m, pos, hdiFds) && lost ==>
                  && UnpackNext(m, pos, hdiFds) ==
                     pos + |HandleBytes(Some(v), c)| - 4 * (v.reserveFds - Arrived(words, hdiFds) - 1)
                  && forall b :: UnpackIs(m, pos, hdiFds, b) ==>
                       b.Some? && Shifted(words, v.reserve[v.reserveFds..], hdiFds, b.value.reserve))
  {
    hide FdBytes, IntBytes, BasicBytes, At, FromLE, ToInt32, HandleBytes, ExtraOk, ExtraIs, BasicIs, IntsFrom, Shifted,
      Arrived, Received;
    var rest, ints, c1 := v.reserve[..v.reserveFds], v.reserve[v.reserveFds..], CursorAfter([v.fd], c);
    var words := Numbers(rest, c1);
    HandleWords(m, pos, v, c);
    WordsStand(m, pos + 8, Numbers([v.fd], c));
    assert Slot(pos + 8, 0) == pos + 8;
    ExtraArrives(m, pos + 48, words, ints, hdiFds);
  }

  /** Where the parts of a packed handle stand, its descriptors as words. */
  lemma HandleWords(m: seq<byte>, pos: nat, v: Handle, c: int32)
    requires v.Valid() && At(m, pos, HandleBytes(Some(v), c))
    ensures var rest, ints, c1 := v.reserve[..v.reserveFds], v.reserve[v.reserveFds..], CursorAfter([v.fd], c);
            && pos + 48 <= |m| && WordAt(m, pos) == v.reserveFds && WordAt(m, pos + 4) == v.reserveInts
            && At(m, pos + 8, IntBytes(Numbers([v.fd], c))) && At(m, pos + 48, IntBytes(Numbers(rest, c1) + ints))
            && |HandleBytes(Some(v), c)| == 48 + 4 * |v.reserve|
  {
    hide FdBytes, IntBytes, BasicBytes, At, FromLE, LE32, CursorAfter, Numbers;
    var rest, ints, c1 := v.reserve[..v.reserveFds], v.reserve[v.reserveFds..], CursorAfter([v.fd], c);
    HandleParts(m, pos, v, c);
    FdBytesLength([v.fd], c);
    BasicLength(v);
    AtSplit(m, pos + 8, FdBytes([v.fd], c), BasicBytes(v));
    AtEnd(m, pos + 12, BasicBytes(v));
    FdBytesAre([v.fd], c);
    FdBytesAre(rest, c1);
    IntBytesConcat(Numbers(rest, c1), ints);
  }

  /** A handle with no descriptor of its own, one extra descriptor 5 and one extra integer 7. */
  function OneAndOne(): (v: Handle)
    ensures v.Valid() && v.fd == -1 && v.reserveFds == v.reserveInts == 1 && v.reserve == [5, 7]
  {
    Handle(1, 1, -1, 0, 0, 0, 0, 0, 0, 0, [5, 7])
  }

  /**
   Its extra descriptor is packed as number 1. With an empty table that descriptor is lost, yet the
   handle is accepted, with 7 in the descriptor's place.
   */
  lemma LossHidden()
    ensures UnpackOk(HandleBytes(Some(OneAndOne()), 0), 0, [])
    ensures forall b :: UnpackIs(HandleBytes(Some(OneAndOne()), 0), 0, [], b) ==>
              b.Some? && |b.value.reserve| == 2 && b.value.reserve[0] == 7 && b != Some(Restored(OneAndOne()))
  {
    hide OneAndOne, HandleBytes, UnpackOk, UnpackIs, UnpackNext;
    var v := OneAndOne();
    var m := HandleBytes(Some(v), 0);
    NumbersOfOne(v);
    LossNoticedIff(m, 0, v, 0, []);
    forall b | UnpackIs(m, 0, [], b)
      ensures b.Some? && |b.value.reserve| == 2 && b.value.reserve[0] == 7 && b != Some(Restored(v))
    {
      ShiftedOne(b.value.reserve);
      assert Restored(v).reserve[0] == 5;
    }
  }

  lemma ShiftedOne(r: seq<int32>)
    requires Arrived([1], []) == 0 && Shifted([1], [7], [], r)
    ensures |r| == 2 && r[0] == 7
  {
    assert r[0..1] == ([1] + [7])[1..2];
    assert r[0..1][0] == 7;
  }

  lemma NumbersOfOne(v: Handle)
    requires v == OneAndOne()
    ensures Numbers([v.fd], 0)[0] == -1 && CursorAfter([v.fd], 0) == 0
    ensures v.reserve[..v.reserveFds] == [5] && v.reserve[v.reserveFds..] == [7]
    ensures Numbers(v.reserve[..v.reserveFds], 0) == [1] && Arrived([1], []) == 0
  {
    hide OneAndOne;
    assert v.reserve[..1] == [5] && v.reserve[1..] == [7];
    assert Numbers([5], 0) == [1] + Numbers([], 1);
  }
}
