/** Any number of buffer handles through a command section and back. */
module HandleSession {
  import opened Bytes
  import opened Wrappers
  import opened CommandPack
  import opened CommandUnpack
  import opened BufferHandle

  predicate Sendable(h: Option<Handle>) {
    h.Some? ==> h.value.Valid() && !(h.value.reserveFds == UINT32_MAX && h.value.reserveInts == UINT32_MAX)
  }

  predicate AllSendable(hs: seq<Option<Handle>>) {
    forall i :: 0 <= i < |hs| ==> Sendable(hs[i])
  }

  function AllFds(hs: seq<Option<Handle>>): seq<int32>
    requires AllSendable(hs)
  {
    if hs == [] then [] else Fds(hs[0]) + AllFds(hs[1..])
  }

  function AllBytes(hs: seq<Option<Handle>>, c: int32): seq<byte>
    requires AllSendable(hs)
  {
    if hs == [] then [] else HandleBytes(hs[0], c) + AllBytes(hs[1..], CursorAfter(Fds(hs[0]), c))
  }

  function RestoredOrNull(h: Option<Handle>): Option<Handle>
    requires Sendable(h)
  {
    if h.None? then None else Some(Restored(h.value))
  }

  lemma {:induction false} AllConcat(a: seq<Option<Handle>>, b: seq<Option<Handle>>, c: int32)
    requires AllSendable(a) && AllSendable(b) && AllSendable(a + b)
    ensures AllFds(a + b) == AllFds(a) + AllFds(b)
    ensures AllBytes(a + b, c) == AllBytes(a, c) + AllBytes(b, CursorAfter(AllFds(a), c))
    decreases |a|
  {
    hide HandleBytes, Fds, CursorAfter, FdBytes, Entries;
    if a == [] {
      assert a + b == b;
      EntriesConcat([], [], c);
      NoFds(c);
    } else {
      assert (a + b)[1..] == a[1..] + b;
      var c1 := CursorAfter(Fds(a[0]), c);
      AllConcat(a[1..], b, c1);
      EntriesConcat(Fds(a[0]), AllFds(a[1..]), c);
      ConcatAssoc(Fds(a[0]), AllFds(a[1..]), AllFds(b));
      ConcatAssoc(HandleBytes(a[0], c), AllBytes(a[1..], c1), AllBytes(b, CursorAfter(AllFds(a[1..]), c1)));
    }
  }

  lemma NoFds(c: int32)
    ensures CursorAfter([], c) == c && Entries([], c) == []
  {
  }

  lemma One(h: Option<Handle>, c: int32)
    requires Sendable(h)
    ensures AllFds([h]) == Fds(h) && AllBytes([h], c) == HandleBytes(h, c)
  {
    hide HandleBytes, Fds, CursorAfter;
    var one := [h];
    assert one[1..] == [];
    assert AllFds(one) == Fds(h) + [] && AllBytes(one, c) == HandleBytes(h, c) + [];
  }

  /** How handle `i` continues the ones before it. */
  lemma NextHandle(hs: seq<Option<Handle>>, i: nat, c: int32)
    requires AllSendable(hs) && i < |hs|
    ensures var before, now := hs[..i], CursorAfter(AllFds(hs[..i]), c);
            && AllBytes(hs[..i + 1], c) == AllBytes(before, c) + HandleBytes(hs[i], now)
            && Entries(AllFds(hs[..i + 1]), c) == Entries(AllFds(before), c) + Entries(Fds(hs[i]), now)
            && CursorAfter(AllFds(hs[..i + 1]), c) == CursorAfter(Fds(hs[i]), now)
  {
    hide HandleBytes, Fds, CursorAfter, AllBytes, AllFds, FdBytes, Entries;
    assert hs[..i + 1] == hs[..i] + [hs[i]];
    AllConcat(hs[..i], [hs[i]], c);
    One(hs[i], CursorAfter(AllFds(hs[..i]), c));
    EntriesConcat(AllFds(hs[..i]), Fds(hs[i]), c);
  }

  /** Handle `i` in the middle of all of them, with its share of the entries. */
  lemma HandleAt(m: seq<byte>, pos: nat, hs: seq<Option<Handle>>, i: nat, c: int32, hdiFds: seq<HdifdInfo>)
    requires AllSendable(hs) && i < |hs| && At(m, pos, AllBytes(hs, c)) && Serves(hdiFds, AllFds(hs), c)
    ensures var now := CursorAfter(AllFds(hs[..i]), c);
            && At(m, pos + |AllBytes(hs[..i], c)|, HandleBytes(hs[i], now))
            && Serves(hdiFds, Fds(hs[i]), now)
  {
    hide HandleBytes, Fds, CursorAfter, AllBytes, AllFds, FdBytes, Entries, At, Table;
    var rest, now := hs[i + 1..], CursorAfter(AllFds(hs[..i + 1]), c);
    assert hs == hs[..i + 1] + rest;
    AllConcat(hs[..i + 1], rest, c);
    EntriesConcat(AllFds(hs[..i + 1]), AllFds(rest), c);
    NextHandle(hs, i, c);
    AtSplit(m, pos, AllBytes(hs[..i + 1], c), AllBytes(rest, now));
    AtSplit(m, pos, AllBytes(hs[..i], c), HandleBytes(hs[i], CursorAfter(AllFds(hs[..i]), c)));
  }

  /** Pack handles one after the other into the open section. */
  method PackHandles(hs: seq<Option<Handle>>, packer: CommandDataPacker, ids: SeqIds,
                     ghost cmd: uint32, ghost size: nat)
    returns (ok: bool, hdiFds: seq<HdifdInfo>)
    requires AllSendable(hs) && Going(packer, cmd, [], size)
    modifies packer`data, packer`packSize, packer`writePos, packer.data, ids
    ensures fresh({packer.data} - {old(packer.data)})
    ensures var b := AllBytes(hs, old(ids.cursor));
            if ok then Going(packer, cmd, b, size) && hdiFds == Entries(AllFds(hs), old(ids.cursor))
            else Stuck(packer, size, |b|)
  {
    hide HandleBytes, AllBytes, AllFds, Entries, CursorAfter, Fds, Going, Stuck, HandleSize;
    ghost var c, all := ids.cursor, |AllBytes(hs, ids.cursor)|;
    Nothing(hs, c);
    hdiFds, ok := [], true;
    var i := 0;
    while i < |hs|
      invariant 0 <= i <= |hs| && ok && fresh({packer.data} - {old(packer.data)})
      invariant Going(packer, cmd, AllBytes(hs[..i], c), size)
      invariant hdiFds == Entries(AllFds(hs[..i]), c) && ids.cursor == CursorAfter(AllFds(hs[..i]), c)
    {
      NextHandle(hs, i, c);
      NextFits(hs, i, c);
      assert Sendable(hs[i]);
      ok, hdiFds := BufferHandlePack(hs[i], packer, ids, hdiFds, cmd, AllBytes(hs[..i], c), size, all);
      if !ok { return; }
      i := i + 1;
    }
    assert hs[..i] == hs;
  }

  lemma NextFits(hs: seq<Option<Handle>>, i: nat, c: int32)
    requires AllSendable(hs) && i < |hs|
    ensures |AllBytes(hs[..i], c)| + HandleSize(hs[i]) <= |AllBytes(hs, c)|
  {
    hide HandleBytes, AllBytes, AllFds, HandleSize, CursorAfter;
    NextHandle(hs, i, c);
    HandleLength(hs[i], CursorAfter(AllFds(hs[..i]), c));
    assert hs == hs[..i + 1] + hs[i + 1..];
    AllConcat(hs[..i + 1], hs[i + 1..], c);
  }

  lemma Nothing(hs: seq<Option<Handle>>, c: int32)
    ensures AllBytes(hs[..0], c) == [] && AllFds(hs[..0]) == [] && Entries([], c) == [] && CursorAfter([], c) == c
  {
  }

  /** Unpack as many handles as were packed. */
  method UnpackHandles(u: CommandDataUnpacker, hdiFds: seq<HdifdInfo>, count: nat,
                       ghost hs: seq<Option<Handle>>, ghost c: int32)
    returns (ok: bool, out: seq<Option<Handle>>)
    requires AllSendable(hs) && count == |hs|
    requires At(u.data, u.readPos, AllBytes(hs, c)) && Serves(hdiFds, AllFds(hs), c)
    modifies u`readPos
    ensures ok && |out| == count && u.readPos == old(u.readPos) + |AllBytes(hs, c)|
    ensures forall i :: 0 <= i < count ==> out[i] == RestoredOrNull(hs[i])
  {
    hide HandleBytes, AllBytes, AllFds, Entries, CursorAfter, Fds, Serves, At, Restored, UnpackOk, UnpackIs, UnpackNext;
    ghost var pos := u.readPos;
    Nothing(hs, c);
    ok, out := true, [];
    while |out| < count
      invariant |out| <= count && ok && u.readPos == pos + |AllBytes(hs[..|out|], c)|
      invariant forall i :: 0 <= i < |out| ==> out[i] == RestoredOrNull(hs[i])
    {
      ghost var i := |out|;
      assert Sendable(hs[i]);
      HandleAt(u.data, pos, hs, i, c, hdiFds);
      NextHandle(hs, i, c);
      var h;
      PackedUnpacks(u.data, u.readPos, hs[i], CursorAfter(AllFds(hs[..i]), c), hdiFds);
      ok, h := BufferHandleUnpack(u, hdiFds);
      if !ok { return; }
      out := out + [h];
    }
    assert hs[..|out|] == hs;
  }

  /** The entries created for a pack serve all its handles. */
  lemma TableServes(hs: seq<Option<Handle>>, c: int32)
    requires AllSendable(hs) && 0 <= c <= MAX_INT - |AllFds(hs)|
    ensures Serves(Entries(AllFds(hs), c), AllFds(hs), c)
  {
    TableGrows([], AllFds(hs), c);
    assert [] + Entries(AllFds(hs), c) == Entries(AllFds(hs), c);
    OthersLost(Entries(AllFds(hs), c), AllFds(hs), c);
  }

  /** A section of handles behind the finished sections, rolled back if anything fails. */
  method PackSectionOf(hs: seq<Option<Handle>>, packer: CommandDataPacker, ids: SeqIds, cmd: uint32, ghost s: Section)
    returns (ok: bool, hdiFds: seq<HdifdInfo>)
    requires AllSendable(hs) && s == Section(cmd, 0, AllBytes(hs, ids.cursor)) && packer.Clean()
    modifies packer`data, packer`packSize, packer`writePos, packer`curSecOffset, packer`settingSecLen,
             packer`curSecLenPos, packer`sections, packer.data, ids
    ensures fresh({packer.data} - {old(packer.data)})
    ensures packer.Clean()
    ensures ok <==> Admits(TailOf(old(packer.sections)), s, old(packer.packSize), packer.isAdaptiveGrowth)
    ensures packer.sections == if ok then old(packer.sections) + [s] else old(packer.sections)
    ensures ok ==> packer.packSize == Grown(old(packer.packSize), Need(TailOf(old(packer.sections)), |s.payload|),
                                            packer.isAdaptiveGrowth)
    ensures ok ==> hdiFds == Entries(AllFds(hs), old(ids.cursor))
  {
    hide *;
    packer.CleanBase();
    ghost var tail, size := TailOf(packer.sections), packer.packSize;
    var start := packer.writePos;
    hdiFds := [];
    FirstNeed(tail, s, size, packer.isAdaptiveGrowth);
    ok := packer.BeginSection(cmd, 0);
    if ok {
      ok, hdiFds := FillSection(hs, packer, ids, s, tail, size);
    }
    if !ok {
      packer.RollBack(start);
    }
  }

  /** The handles of an opened section, and its end. */
  method FillSection(hs: seq<Option<Handle>>, packer: CommandDataPacker, ids: SeqIds,
                     ghost s: Section, ghost tail: nat, ghost size: nat)
    returns (ok: bool, hdiFds: seq<HdifdInfo>)
    requires AllSendable(hs) && s == Section(s.cmd, 0, AllBytes(hs, ids.cursor)) && size % PAGE == 0
    requires packer.InSection(s.cmd, []) && packer.settingSecLen == 0 && tail == TailOf(packer.sections)
    requires packer.packSize == Grown(size, tail + 8, packer.isAdaptiveGrowth) != 0
    modifies packer`data, packer`packSize, packer`writePos, packer`sections, packer.data, ids
    ensures fresh({packer.data} - {old(packer.data)})
    ensures packer.Base() && (ok ==> packer.Clean())
    ensures packer.sections == if ok then old(packer.sections) + [s] else old(packer.sections)
    ensures ok <==> Admits(tail, s, size, packer.isAdaptiveGrowth)
    ensures ok ==> packer.packSize == Grown(size, Need(tail, |s.payload|), packer.isAdaptiveGrowth)
    ensures ok ==> hdiFds == Entries(AllFds(hs), old(ids.cursor))
  {
    GoingOpen(packer, s.cmd);
    hide AllBytes, AllFds, Entries, Going, Stuck, Admits, Grown, Written, Need, SecLen, TailOf,
      CommandDataPacker.Base, CommandDataPacker.Clean, CommandDataPacker.InSection;
    ghost var first := packer.packSize;
    ok, hdiFds := PackHandles(hs, packer, ids, s.cmd, first);
    if !ok {
      StuckFits(packer, s, size, first);
      return;
    }
    GoingFits(packer, s, size, first);
    ok := packer.EndSection(s);
  }

  lemma GoingOpen(packer: CommandDataPacker, cmd: uint32)
    requires packer.InSection(cmd, [])
    ensures Going(packer, cmd, [], packer.packSize) && packer.curSecOffset == TailOf(packer.sections)
  {
  }

  /** A payload that went in is admitted exactly if the section ends inside what the buffer is now. */
  lemma GoingFits(packer: CommandDataPacker, s: Section, size: nat, first: nat)
    requires s.reserved == 0 && size % PAGE == 0 && Going(packer, s.cmd, s.payload, first)
    requires first == Grown(size, packer.curSecOffset + 8, packer.isAdaptiveGrowth) != 0
    ensures packer.InSection(s.cmd, s.payload)
    ensures packer.packSize == Grown(size, Need(packer.curSecOffset, |s.payload|), packer.isAdaptiveGrowth)
    ensures Admits(packer.curSecOffset, s, size, packer.isAdaptiveGrowth) <==>
            packer.curSecOffset + SecLen(s) < packer.packSize
  {
    hide CommandDataPacker.InSection, CommandDataPacker.Base, Grown;
    SectionFits(packer.curSecOffset, s, size, first, packer.isAdaptiveGrowth);
  }

  lemma StuckFits(packer: CommandDataPacker, s: Section, size: nat, first: nat)
    requires s.reserved == 0 && size % PAGE == 0 && Stuck(packer, first, |s.payload|)
    requires first == Grown(size, packer.curSecOffset + 8, packer.isAdaptiveGrowth) != 0
    ensures packer.Base() && !Admits(packer.curSecOffset, s, size, packer.isAdaptiveGrowth)
  {
    hide CommandDataPacker.Base, Grown;
    SectionFits(packer.curSecOffset, s, size, first, packer.isAdaptiveGrowth);
  }

  /** Whether the payload goes in is what decides, together with where the section ends. */
  lemma SectionFits(base: nat, s: Section, size: nat, first: nat, adaptive: bool)
    requires s.reserved == 0 && size % PAGE == 0 && first == Grown(size, base + 8, adaptive) != 0
    ensures var last := Written(first, base + 12, |s.payload|, adaptive);
            && last == Grown(size, Need(base, |s.payload|), adaptive)
            && (Admits(base, s, size, adaptive) <==> base + SecLen(s) < last)
  {
    hide Grown;
    if s.payload != [] {
      GrownTwice(size, base + 8, base + 12 + |s.payload|, adaptive);
    }
  }

  /** Pack the handles into the one section of a new pack and close it. */
  method SendHandles(size: nat, adaptive: bool, begin: uint32, cmd: uint32, hs: seq<Option<Handle>>, end: uint32,
                     ids: SeqIds)
    returns (ok: bool, m: seq<byte>, hdiFds: seq<HdifdInfo>)
    requires AllSendable(hs)
    modifies ids
    ensures var c := old(ids.cursor);
            var s := Section(cmd, 0, AllBytes(hs, c));
            && (ok <==> SendsAlone(s, size, adaptive))
            && (ok ==> Pack(m, begin, [s], end) && hdiFds == Entries(AllFds(hs), c))
  {
    hide LE32, AllBytes, AllFds, Entries, Grown, PageUp, Need, Pack, Admits, SecLen, Closes, CommandDataPacker.Base;
    ghost var s := Section(cmd, 0, AllBytes(hs, ids.cursor));
    m, hdiFds := [], [];
    var packer := new CommandDataPacker();
    packer.Init(size, adaptive);
    ok := packer.PackBegin(begin);
    if !ok { return; }
    ok, hdiFds := PackSectionOf(hs, packer, ids, cmd, s);
    if !ok { return; }
    OneTail(s);
    assert packer.sections == [s];
    ok := packer.PackEnd(end);
    if ok {
      m := packer.data[..packer.writePos];
    }
  }

  lemma OneTail(s: Section)
    ensures TailOf([s]) == 4 + SecLen(s)
  {
    var ss := [s];
    assert ss[1..] == [];
    assert Total(ss) == SecLen(ss[0]) + Total(ss[1..]);
  }

  /**
   Handles packed into a section of a command pack come out as they went in, null ones included:
   every field, every extra integer, and for every descriptor the very one sent, with negative
   ones normalised; exactly if the buffer takes the section they make, provided the descriptor
   counter does not run past its maximum.
   */
  method HandlesThroughPack(size: nat, adaptive: bool, begin: uint32, cmd: uint32, hs: seq<Option<Handle>>, end: uint32,
                            ids: SeqIds)
    returns (ok: bool, out: seq<Option<Handle>>)
    requires AllSendable(hs) && 0 <= ids.cursor <= MAX_INT - |AllFds(hs)|
    modifies ids
    ensures ok <==> SendsAlone(Section(cmd, 0, AllBytes(hs, old(ids.cursor))), size, adaptive)
    ensures ok ==> |out| == |hs| && forall i :: 0 <= i < |out| ==> out[i] == RestoredOrNull(hs[i])
  {
    hide AllBytes, AllFds, Entries, Serves, Restored, CursorAfter, Pack, SendsAlone;
    ghost var c := ids.cursor;
    TableServes(hs, c);
    var m, hdiFds;
    out := [];
    ok, m, hdiFds := SendHandles(size, adaptive, begin, cmd, hs, end, ids);
    if ok {
      var u := new CommandDataUnpacker(m);
      ok, out := ReceiveHandles(u, hdiFds, |hs|, begin, Section(cmd, 0, AllBytes(hs, c)), end, hs, c);
    }
  }

  /** The receiving side: one section, its handles, and the end of the pack. */
  method ReceiveHandles(u: CommandDataUnpacker, hdiFds: seq<HdifdInfo>, count: nat,
                        ghost begin: uint32, ghost s: Section, ghost end: uint32, ghost hs: seq<Option<Handle>>,
                        ghost c: int32)
    returns (ok: bool, out: seq<Option<Handle>>)
    requires Pack(u.data, begin, [s], end) && AllSendable(hs) && s.payload == AllBytes(hs, c) && count == |hs|
    requires Serves(hdiFds, AllFds(hs), c)
    modifies u
    ensures ok && |out| == |hs| && u.readPos == |u.data|
    ensures forall i :: 0 <= i < |out| ==> out[i] == RestoredOrNull(hs[i])
  {
    hide LE32, AllBytes, AllFds, Serves, Restored, CursorAfter, FromLE, Pack, PackedAt, SecLen;
    ghost var ss := [s];
    PackOpens(u.data, begin, ss, end);
    SectionAtIndex(u.data, begin, ss, end, 0);
    TotalGrows(ss, 0);
    out := [];
    var word;
    ok, word := u.PackBegin();
    if !ok { return; }
    ok := u.NextSection();
    if !ok { return; }
    ok, word := u.BeginSection();
    if !ok { return; }
    ok, out := UnpackHandles(u, hdiFds, count, hs, c);
    if !ok { return; }
    var more := u.NextSection();
    if !more {
      ok, word := u.PackEnd();
    }
  }
}
