/** Writing a sized tree as byte code, in a dummy pass that only learns offsets and a real one. */
module ByteCodeWrite {
  import opened Bytes
  import opened HcsTree
  import opened TreeWalk
  import opened HcsOffsets
  import opened AstHeap
  import opened ByteCodeGen
  import opened Decompile

  /** The offset of every object of `u` in its file. */
  ghost function FileOffset(u: Obj, align: bool): AstObject -> nat {
    o => Position(Pre(u), o, FILE_HEADER, align)
  }

  /** References lead to objects of the tree itself. */
  ghost predicate RefsInside(u: Obj) {
    forall x :: x in Pre(u) && x.lab.Ref? ==> exists i :: 0 <= i < |Pre(u)| && Pre(u)[i].id == x.lab.target
  }

  /** Arrays know how many elements they have. */
  ghost predicate Counted(u: Obj, objs: set<AstObject>)
    reads objs`arraySize
  {
    forall x :: x in Pre(u) && x.lab.Arr? ==> x.id in objs && x.id.arraySize == |x.kids|
  }

  /** The first `n` objects in pre-order have their offsets as hashes. */
  ghost predicate HashedBelow(u: Obj, objs: set<AstObject>, n: nat, align: bool)
    requires n <= |Pre(u)|
    reads objs`hash
  {
    forall i :: 0 <= i < n ==> Pre(u)[i].id in objs && Pre(u)[i].id.hash == FileOffset(u, align)(Pre(u)[i].id)
  }

  /** What a pass has put out behind `before`: nothing, if it is the dummy one. */
  ghost predicate OutIs(dummy: bool, out: seq<byte>, before: seq<byte>, done: seq<byte>) {
    out == if dummy then before else before + done
  }

  lemma OutNone(dummy: bool, before: seq<byte>, done: seq<byte>)
    requires done == []
    ensures OutIs(dummy, before, before, done)
  {
  }

  lemma OutNext(dummy: bool, was: seq<byte>, out: seq<byte>, before: seq<byte>, done: seq<byte>, more: seq<byte>)
    requires OutIs(dummy, was, before, done) && out == if dummy then was else was + more
    ensures OutIs(dummy, out, before, done + more)
  {
    ConcatAssoc(before, done, more);
  }

  lemma OutEnd(dummy: bool, out: seq<byte>, before: seq<byte>, done: seq<byte>)
    requires OutIs(dummy, out, before, done)
    ensures out == if dummy then before else before + done
  {
  }

  lemma HeaderIs(size: nat, align: bool, major: uint32, minor: uint32)
    requires size <= 0x8000_0000
    ensures var header := LE32(HCB_MAGIC) + LE32(major) + LE32(minor) + LE32(0) + LE32(TotalWord(size, align));
            && header == FileHeader(size, align, major, minor)
            && Align4(|header|, align) == FILE_HEADER && Padded(header, align) == header
  {
    hide LE32, TotalWord;
    var header := FileHeader(size, align, major, minor);
    assert header + [] == header;
  }

  class ByteCodeWriter {
    const align: bool
    var dummy: bool
    var writeSize: uint32
    var out: seq<byte>

    constructor (a: bool)
      ensures align == a && out == [] && writeSize == 0
    {
      align, dummy, writeSize, out := a, false, 0, [];
    }

    /** One padded write; only the real pass outputs it. */
    method Write(data: seq<byte>)
      requires writeSize + Align4(|data|, align) < WORD
      modifies this`writeSize, this`out
      ensures writeSize == old(writeSize) + Align4(|data|, align)
      ensures out == if dummy then old(out) else old(out) + Padded(data, align)
    {
      if !dummy {
        out := out + data;
        var stub := Align4(|data|, align) - |data|;
        if stub != 0 {
          out := out + seq(stub, _ => 0);
        }
      }
      writeSize := writeSize + Align4(|data|, align);
    }

    /** What an object puts in the file behind its op code. */
    method WriteBody(cur: AstObject, ghost x: Obj, ghost offset: AstObject -> nat)
      requires cur.lab == x.lab && cur.subSize == SizeAll(x.kids, align)
      requires x.lab.Arr? ==> cur.arraySize == |x.kids|
      requires writeSize + BodySize(x.lab, align) < WORD
      requires !dummy && x.lab.Ref? ==> x.lab.target.hash == offset(x.lab.target)
      modifies this`writeSize, this`out
      ensures writeSize == old(writeSize) + BodySize(x.lab, align)
      ensures out == if dummy then old(out)
                     else old(out) + Body(x.lab, SizeAll(x.kids, align), |x.kids|, offset, align)
    {
      hide Padded, Align4, ToLE, SizeAll;
      ghost var before := out;
      match cur.lab {
        case Num(w, v) =>
          Write(ToLE(v, w));
        case Str(text) =>
          Write(text + [0]);
        case Term(name) =>
          Write(name + [0]);
        case Node(name, kind) =>
          Write(name + [0]);
          Write(ToLE(cur.subSize, 4));
          ConcatAssoc(before, Padded(name + [0], align), Padded(ToLE(cur.subSize, 4), align));
        case Arr =>
          ToLE2(cur.arraySize);
          Write(ToLE(cur.arraySize % 0x1_0000, 2));
        case Ref(target) =>
          Write(ToLE(target.hash, 4));
        case Del =>
          assert before + [] == before;
      }
    }

    /** The callback of the writing walk: note the object's offset, then write its head. */
    method WriteOne(cur: AstObject, ghost x: Obj, ghost offset: AstObject -> nat)
      requires cur == x.id && cur.lab == x.lab && cur.opCode == OpCode(x.lab) != 0
      requires cur.subSize == SizeAll(x.kids, align) && (x.lab.Arr? ==> cur.arraySize == |x.kids|)
      requires writeSize + HeadSize(x.lab, align) < WORD
      requires !dummy && x.lab.Ref? ==> x.lab.target.hash == offset(x.lab.target)
      requires offset(cur) == writeSize
      modifies this`writeSize, this`out, cur`hash
      ensures writeSize == old(writeSize) + HeadSize(x.lab, align)
      ensures out == if dummy then old(out) else old(out) + Head(x, offset, align)
      ensures cur.hash == old(writeSize)
    {
      hide Padded, Align4, BodySize, Body, SizeAll;
      ghost var before := out;
      cur.hash := writeSize;
      Write([cur.opCode]);
      WriteBody(cur, x, offset);
      ConcatAssoc(before, Padded([cur.opCode], align), Body(x.lab, SizeAll(x.kids, align), |x.kids|, offset, align));
    }

    /** Write the next object in pre-order. */
    method WriteNext(cur: AstObject, ghost u: Obj, ghost live: set<AstObject>, ghost n: nat)
      requires Distinct(u) && live == Ids(u) && n < |Pre(u)| && cur == Pre(u)[n].id && cur in live
      requires Labelled(u) && Sized(u, live, align) && Counted(u, live) && RefsInside(u) && Coded(u)
      requires writeSize == FILE_HEADER + HeadSizes(Pre(u)[..n], align) && FILE_HEADER + Size(u, align) < WORD
      requires HashedBelow(u, live, if dummy then n else |Pre(u)|, align)
      modifies this`writeSize, this`out, cur`hash
      ensures writeSize == FILE_HEADER + HeadSizes(Pre(u)[..n + 1], align)
      ensures out == if dummy then old(out) else old(out) + Head(Pre(u)[n], FileOffset(u, align), align)
      ensures HashedBelow(u, live, if dummy then n + 1 else |Pre(u)|, align)
    {
      ghost var x, offset := Pre(u)[n], FileOffset(u, align);
      hide *;
      NextFacts(u, live, align, n, dummy);
      ghost var was := map o | o in live :: o.hash;
      HashedNow(u, live, if dummy then n else |Pre(u)|, align);
      WriteOne(cur, x, offset);
      HashedStill(u, live, align, n, if dummy then n else |Pre(u)|, was);
    }

    /** The forward walk over the tree: every object is written when it is entered. */
    method WriteWalk(root: AstObject, ghost u: Obj, ghost live: set<AstObject>)
      requires root == u.id && Distinct(u) && live == Ids(u) && Wired(u, {}) && Labelled(u)
      requires Sized(u, live, align) && Counted(u, live) && RefsInside(u) && Coded(u)
      requires writeSize == FILE_HEADER && FILE_HEADER + Size(u, align) < WORD
      requires !dummy ==> HashedBelow(u, live, |Pre(u)|, align)
      modifies this`writeSize, this`out, live`hash
      ensures writeSize == FILE_HEADER + Size(u, align)
      ensures HashedBelow(u, live, |Pre(u)|, align)
      ensures out == if dummy then old(out) else old(out) + Emit(u, FileOffset(u, align), align)
    {
      hide *;
      var cur: AstObject? := root;
      var preVisited := false;
      ghost var k, n, evs := 0, 0, Events(u);
      ghost var before := out;
      WalkBegins(u, live, align);
      OutNone(dummy, before, Heads(Pre(u)[..0], FileOffset(u, align), align));
      while cur != null
        invariant k < |evs| && cur == evs[k].tree.id && preVisited == evs[k].up
        invariant n == |Entered(evs[..k])| <= |Pre(u)|
        invariant writeSize == FILE_HEADER + HeadSizes(Pre(u)[..n], align)
        invariant OutIs(dummy, out, before, Heads(Pre(u)[..n], FileOffset(u, align), align))
        invariant HashedBelow(u, live, if dummy then n else |Pre(u)|, align)
        invariant Wired(u, {}) && dummy == old(dummy)
        decreases |evs| - k
      {
        NothingGone(u, k);
        ghost var p, i := AtEvent(u, live, Nothing, k);
        EnteredPrefix(u, k);
        if !preVisited {
          ghost var was := out;
          WriteNext(cur, u, live, n);
          HeadsPrefix(u, n, FileOffset(u, align), align);
          OutNext(dummy, was, out, before, Heads(Pre(u)[..n], FileOffset(u, align), align),
                  Head(Pre(u)[n], FileOffset(u, align), align));
          n := n + 1;
          if cur.child != null {
            cur := cur.child;
            k := k + 1;
            continue;
          }
        }
        if cur == root {
          break;
        }
        if cur.next != null {
          cur, preVisited := cur.next, false;
        } else {
          cur, preVisited := cur.parent, true;
        }
        k := k + 1;
      }
      HeadsArePreEmit(u, FileOffset(u, align), align);
      assert Pre(u)[..n] == Pre(u);
      OutEnd(dummy, out, before, Emit(u, FileOffset(u, align), align));
    }

    /** One pass: the header, then the objects. */
    method ByteCodeWrite(dummyPass: bool, root: AstObject, major: uint32, minor: uint32,
                         ghost u: Obj, ghost live: set<AstObject>)
      requires root == u.id && Distinct(u) && live == Ids(u) && Wired(u, {}) && Labelled(u)
      requires Sized(u, live, align) && Counted(u, live) && RefsInside(u) && Coded(u)
      requires Size(u, align) < 0x8000_0000
      requires !dummyPass ==> HashedBelow(u, live, |Pre(u)|, align)
      modifies this`dummy, this`writeSize, this`out, live`hash
      ensures HashedBelow(u, live, |Pre(u)|, align) && writeSize == FILE_HEADER + Size(u, align)
      ensures out == if dummyPass then old(out) else old(out) + FileBytes(u, FileOffset(u, align), align, major, minor)
    {
      hide Wired, Labelled, Sized, Counted, RefsInside, Coded, HashedBelow, FileOffset, Pre, Ids, Distinct, Size,
        Emit, LE32, FileHeader, Padded, Align4, TotalWord;
      RootSized(u, live, align);
      dummy, writeSize := dummyPass, 0;
      var header := LE32(HCB_MAGIC) + LE32(major) + LE32(minor) + LE32(0) + LE32(TotalWord(root.size, align));
      HeaderIs(root.size, align, major, minor);
      Write(header);
      WriteWalk(root, u, live);
      ConcatAssoc(old(out), header, Emit(u, FileOffset(u, align), align));
    }

    /**
     The whole generator: sizes without templates, a pass to learn the offsets, a pass to write.
     The file written is the one every object's final offset asks for.
     */
    method Output(root: AstObject, major: uint32, minor: uint32, ghost t: Obj, ghost objs: set<AstObject>)
      returns (ok: bool)
      requires root == t.id && Distinct(t) && objs == Ids(t) && Wired(t, {}) && Labelled(t) && !IsTemplate(t)
      requires var u := Prune(t, IsTemplate); Counted(u, objs) && RefsInside(u) && Size(u, align) < 0x8000_0000
      requires out == []
      modifies this`dummy, this`writeSize, this`out
      modifies objs`child, objs`next, objs`opCode, objs`size, objs`subSize, objs`hash
      ensures ok <==> AllCoded(t)
      ensures ok ==> var u := Prune(t, IsTemplate);
                     out == FileBytes(u, FileOffset(u, align), align, major, minor)
      ensures !ok ==> out == []
    {
      hide Wired, Labelled, Sized, Counted, RefsInside, HashedBelow, FileOffset, Pre, Ids, Distinct, Size,
        FileBytes, AllCoded, IsTemplate, Coded;
      ghost var u := Prune(t, IsTemplate);
      ok := ByteCodeConvert(root, align, t, objs);
      if ok {
        ghost var live := Ids(u);
        Narrow(t, u, objs, align);
        ByteCodeWrite(true, root, major, minor, u, live);
        ByteCodeWrite(false, root, major, minor, u, live);
        ghost var file := FileBytes(u, FileOffset(u, align), align, major, minor);
        assert [] + file == file;
      }
    }
  }

  lemma RootSized(u: Obj, live: set<AstObject>, align: bool)
    requires Sized(u, live, align) && Size(u, align) < WORD
    ensures u.id.size == Size(u, align)
  {
  }

  lemma Narrow(t: Obj, u: Obj, objs: set<AstObject>, align: bool)
    requires u == Prune(t, IsTemplate) && !IsTemplate(t) && AllCoded(t) && Ids(u) <= objs
    requires Sized(u, objs, align) && Counted(u, objs)
    ensures Sized(u, Ids(u), align) && Counted(u, Ids(u)) && Coded(u)
  {
    forall x | x in Pre(u) ensures x.id in Ids(u) && OpCode(x.lab) != 0 {
      IdsOfPre(u, x);
      var p := PruneOrigin(t, IsTemplate, x);
    }
  }

  ghost predicate Coded(u: Obj) {
    forall x :: x in Pre(u) ==> OpCode(x.lab) != 0
  }

  predicate Nothing(x: Obj) {
    false
  }

  lemma ToLE2(v: nat)
    ensures ToLE(v % 0x1_0000, 2) == ToLE(v, 2)
  {
    var w, q := v % 0x1_0000, v / 0x1_0000;
    var c := w / 256;
    assert v == 256 * (256 * q + c) + w % 256;
    assert v / 256 == 256 * q + c && c < 256;
    assert w % 256 == v % 256 && (w / 256) % 256 == (v / 256) % 256;
    assert ToLE(v, 2) == [v % 256] + ToLE(v / 256, 1) && ToLE(v / 256, 1) == [(v / 256) % 256] + ToLE(v / 256 / 256, 0);
    assert ToLE(w, 2) == [w % 256] + ToLE(w / 256, 1) && ToLE(w / 256, 1) == [(w / 256) % 256] + ToLE(w / 256 / 256, 0);
  }

  lemma WalkBegins(u: Obj, live: set<AstObject>, align: bool)
    ensures Heads(Pre(u)[..0], FileOffset(u, align), align) == [] && HeadSizes(Pre(u)[..0], align) == 0
    ensures Entered(Events(u)[..0]) == [] && HashedBelow(u, live, 0, align)
  {
  }

  lemma NothingGone(u: Obj, k: nat)
    requires k <= |Events(u)|
    ensures Gone(u, Nothing, k) == {}
  {
  }

  /** The objects entered so far are a prefix of the pre-order, and the one entered now is the next. */
  lemma EnteredPrefix(u: Obj, k: nat)
    requires k < |Events(u)|
    ensures var n, e := |Entered(Events(u)[..k])|, Events(u)[k];
            && n <= |Pre(u)|
            && |Entered(Events(u)[..k + 1])| == n + (if e.up then 0 else 1)
            && (!e.up ==> n < |Pre(u)| && Pre(u)[n] == e.tree)
            && (k + 1 == |Events(u)| ==> |Pre(u)| == n + (if e.up then 0 else 1))
  {
    var evs := Events(u);
    WalkOrders(u);
    WalkStep(evs, k);
    LeftConcat(evs[..k + 1], evs[k + 1..]);
    assert evs == evs[..k + 1] + evs[k + 1..];
    if k + 1 == |evs| {
      assert evs[..k + 1] == evs;
    }
  }

  lemma {:induction false} SizeBelow<Id>(t: Tree<Id>, x: Tree<Id>, align: bool)
    requires x in Pre(t)
    ensures Size(x, align) <= Size(t, align)
  {
    hide HeadSize;
    if x != t {
      SizeBelowAll(t.kids, x, align);
    }
  }

  lemma {:induction false} SizeBelowAll<Id>(ts: seq<Tree<Id>>, x: Tree<Id>, align: bool)
    requires x in PreAll(ts)
    ensures Size(x, align) <= SizeAll(ts, align)
  {
    hide HeadSize;
    if x in Pre(ts[0]) {
      SizeBelow(ts[0], x, align);
    } else {
      SizeBelowAll(ts[1..], x, align);
    }
  }

  /** Everything the write of object `n` relies on. */
  lemma NextFacts(u: Obj, live: set<AstObject>, align: bool, n: nat, dummy: bool)
    requires Distinct(u) && live == Ids(u) && n < |Pre(u)|
    requires Labelled(u) && Sized(u, live, align) && Counted(u, live) && RefsInside(u) && Coded(u)
    requires FILE_HEADER + Size(u, align) < WORD
    requires HashedBelow(u, live, if dummy then n else |Pre(u)|, align)
    ensures var x := Pre(u)[n];
            && x.id.lab == x.lab && x.id.opCode == OpCode(x.lab) != 0
            && x.id.subSize == SizeAll(x.kids, align) && (x.lab.Arr? ==> x.id.arraySize == |x.kids|)
            && FileOffset(u, align)(x.id) == FILE_HEADER + HeadSizes(Pre(u)[..n], align)
            && HeadSizes(Pre(u)[..n + 1], align) == HeadSizes(Pre(u)[..n], align) + HeadSize(x.lab, align)
            && FILE_HEADER + HeadSizes(Pre(u)[..n + 1], align) < WORD
            && (!dummy && x.lab.Ref? ==> x.lab.target.hash == FileOffset(u, align)(x.lab.target))
  {
    var x := Pre(u)[n];
    assert x in Pre(u);
    hide HeadSizes, Size, SizeAll, Pre, Ids, HeadSize, Distinct, Position, HashedBelow, RefsInside, Labelled,
      Counted, Coded, Sized;
    SizeBelow(u, x, align);
    SizeSplits(x, align);
    StoredIn(u, live, x, align);
    OffsetOf(u, n, align);
    HeadSizesPrefix(u, n, align);
    if !dummy && x.lab.Ref? {
      TargetHashed(u, live, align, x);
    }
  }

  lemma OffsetOf(u: Obj, n: nat, align: bool)
    requires Distinct(u) && n < |Pre(u)|
    ensures FileOffset(u, align)(Pre(u)[n].id) == FILE_HEADER + HeadSizes(Pre(u)[..n], align)
  {
    hide HeadSizes, Pre, Position;
    PositionAt(u, n, FILE_HEADER, align);
  }

  lemma StoredIn(u: Obj, live: set<AstObject>, x: Obj, align: bool)
    requires x in Pre(u) && Labelled(u) && Sized(u, live, align) && Counted(u, live) && Coded(u)
    requires SizeAll(x.kids, align) < WORD
    ensures x.id.lab == x.lab && x.id.opCode == OpCode(x.lab) != 0
    ensures x.id.subSize == SizeAll(x.kids, align) && (x.lab.Arr? ==> x.id.arraySize == |x.kids|)
  {
    hide Pre, Ids, Size, SizeAll;
    KidsWithin(u, x);
  }

  lemma TargetHashed(u: Obj, live: set<AstObject>, align: bool, x: Obj)
    requires x in Pre(u) && x.lab.Ref? && RefsInside(u) && HashedBelow(u, live, |Pre(u)|, align)
    ensures x.lab.target.hash == FileOffset(u, align)(x.lab.target)
  {
    hide FileOffset, Pre;
    var i :| 0 <= i < |Pre(u)| && Pre(u)[i].id == x.lab.target;
    assert Pre(u)[i].id.hash == FileOffset(u, align)(Pre(u)[i].id);
  }

  lemma HeadsPrefix(u: Obj, n: nat, offset: AstObject -> nat, align: bool)
    requires n < |Pre(u)|
    ensures Heads(Pre(u)[..n + 1], offset, align) == Heads(Pre(u)[..n], offset, align) + Head(Pre(u)[n], offset, align)
  {
    hide Pre, Head, HeadSize;
    var ts := Pre(u);
    HeadsConcat(ts[..n], [ts[n]], offset, align);
    assert ts[..n + 1] == ts[..n] + [ts[n]];
    assert [ts[n]][1..] == [];
    assert Heads([ts[n]], offset, align) == Head(ts[n], offset, align) + Heads([ts[n]][1..], offset, align);
  }

  lemma SizeSplits<Id>(x: Tree<Id>, align: bool)
    ensures SizeAll(x.kids, align) < Size(x, align)
  {
  }

  lemma HeadSizesPrefix(u: Obj, n: nat, align: bool)
    requires n < |Pre(u)|
    ensures HeadSizes(Pre(u)[..n + 1], align) == HeadSizes(Pre(u)[..n], align) + HeadSize(Pre(u)[n].lab, align)
    ensures HeadSizes(Pre(u)[..n + 1], align) <= Size(u, align)
  {
    var ts := Pre(u);
    var f := (o: AstObject) => 0;
    hide HeadSize, Pre, Head;
    HeadsArePreEmit(u, f, align);
    HeadsConcat(ts[..n], [ts[n]], f, align);
    assert ts[..n + 1] == ts[..n] + [ts[n]];
    HeadsConcat(ts[..n + 1], ts[n + 1..], f, align);
    assert ts == ts[..n + 1] + ts[n + 1..];
    assert [ts[n]][1..] == [];
    assert HeadSizes([ts[n]], align) == HeadSize(ts[n].lab, align) + HeadSizes([ts[n]][1..], align);
  }

  lemma HashedNow(u: Obj, live: set<AstObject>, m: nat, align: bool)
    requires m <= |Pre(u)| && HashedBelow(u, live, m, align)
    ensures forall i :: 0 <= i < m ==> Pre(u)[i].id in live && Pre(u)[i].id.hash == FileOffset(u, align)(Pre(u)[i].id)
  {
  }

  /** Setting the hash of object `n` to its offset completes, and never spoils, the others. */
  lemma HashedStill(u: Obj, live: set<AstObject>, align: bool, n: nat, m: nat, was: map<AstObject, uint32>)
    requires n < |Pre(u)| && n <= m <= |Pre(u)| && Pre(u)[n].id in live
    requires Pre(u)[n].id.hash == FileOffset(u, align)(Pre(u)[n].id)
    requires forall o :: o in live ==> o in was && (o != Pre(u)[n].id ==> o.hash == was[o])
    requires forall i :: 0 <= i < m ==> Pre(u)[i].id in live && was[Pre(u)[i].id] == FileOffset(u, align)(Pre(u)[i].id)
    ensures HashedBelow(u, live, if m == n then n + 1 else m, align)
  {
  }
}
