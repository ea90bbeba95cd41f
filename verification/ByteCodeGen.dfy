/**
 The byte code generator over linked trees: sizes computed while templates are unlinked, then two
 passes, the first only to learn every object's offset.
 */
module ByteCodeGen {
  import opened Bytes
  import opened HcsTree
  import opened TreeWalk
  import opened AstHeap

  const WORD: nat := 0x1_0000_0000

  predicate IsTemplate(x: Obj) {
    x.lab.Node? && x.lab.kind == Template
  }

  /** The part of an object's size its type fixes. */
  function FixedSize(l: Label<AstObject>): nat {
    match l
    case Node(_, _) => 4
    case Ref(_) => 4
    case Arr => 2
    case Num(w, _) => w
    case _ => 0
  }

  /** Sizes and op code as they should be once the walk is done with `x`. */
  ghost predicate SizedAt(x: Obj, align: bool)
    reads x.id`size, x.id`subSize, x.id`opCode
  {
    var u := Prune(x, IsTemplate);
    && x.id.size == Size(u, align) % WORD
    && x.id.subSize == SizeAll(u.kids, align) % WORD
    && x.id.opCode == OpCode(x.lab)
  }

  /** Every object left in the first `k` events is sized, templates excepted. */
  ghost predicate SizedBefore(t: Obj, objs: set<AstObject>, k: nat, align: bool)
    requires k <= |Events(t)|
    reads objs`size, objs`subSize, objs`opCode
  {
    forall j :: 0 <= j < k && Leaves(Events(t)[j]) && !IsTemplate(Events(t)[j].tree) ==>
                  Events(t)[j].tree.id in objs && SizedAt(Events(t)[j].tree, align)
  }

  /** The op codes and sizes of a whole tree. */
  ghost predicate Sized(u: Obj, objs: set<AstObject>, align: bool)
    reads objs`size, objs`subSize, objs`opCode
  {
    forall x :: x in Pre(u) ==>
      (&& x.id in objs && x.id.opCode == OpCode(x.lab)
       && x.id.size == Size(x, align) % WORD && x.id.subSize == SizeAll(x.kids, align) % WORD)
  }

  /** What has been added up in 32 bits and what is to come make the total. */
  ghost predicate SumsTo(s: nat, rest: nat, total: nat) {
    (s + rest) % WORD == total % WORD
  }

  lemma SumsStep(s: nat, z: nat, rest: nat, total: nat)
    requires SumsTo(s, z + rest, total)
    ensures SumsTo((s + z % WORD) % WORD, rest, total)
  {
    assert ((s + z % WORD) % WORD + rest) % WORD == (s + (z + rest)) % WORD;
  }

  lemma SumsEnds(s: uint32, total: nat)
    ensures SumsTo(0, total, total) && (SumsTo(s, 0, total) ==> s == total % WORD)
  {
  }

  lemma {:induction false} LiveNext(ts: seq<Obj>, a: nat, gone: set<AstObject>) returns (b: nat)
    requires NextLive(ts, a, gone) != null
    ensures a <= b < |ts| && NextLive(ts, a, gone) == ts[b].id && ts[b].id !in gone
    ensures forall c :: a <= c < b ==> ts[c].id in gone
    decreases |ts| - a
  {
    b := a;
    if ts[a].id in gone {
      b := LiveNext(ts, a + 1, gone);
    }
  }

  lemma {:induction false} PruneSkip(ts: seq<Obj>, a: nat, b: nat, doomed: Obj -> bool)
    requires a <= b < |ts| && !doomed(ts[b]) && forall c :: a <= c < b ==> doomed(ts[c])
    ensures PruneAll(ts[a..], doomed) == [Prune(ts[b], doomed)] + PruneAll(ts[b + 1..], doomed)
    decreases b - a
  {
    assert ts[a..][0] == ts[a] && ts[a..][1..] == ts[a + 1..];
    if a < b {
      PruneSkip(ts, a + 1, b, doomed);
    }
  }

  lemma {:induction false} PruneNone(ts: seq<Obj>, a: nat, doomed: Obj -> bool, gone: set<AstObject>)
    requires a <= |ts| && NextLive(ts, a, gone) == null
    requires forall i :: 0 <= i < |ts| ==> (ts[i].id in gone <==> doomed(ts[i]))
    ensures PruneAll(ts[a..], doomed) == []
    decreases |ts| - a
  {
    if a < |ts| {
      assert ts[a..][0] == ts[a] && ts[a..][1..] == ts[a + 1..];
      PruneNone(ts, a + 1, doomed, gone);
    }
  }

  /** When an object is left, which of its children are unlinked is decided. */
  lemma KidsDecided(t: Obj, doomed: Obj -> bool, k: nat)
    requires Distinct(t) && k < |Events(t)| && Leaves(Events(t)[k])
    ensures var x := Events(t)[k].tree;
            forall i :: 0 <= i < |x.kids| ==> (x.kids[i].id in Gone(t, doomed, k) <==> doomed(x.kids[i]))
  {
    var x := Events(t)[k].tree;
    EventsInPre(t, k);
    forall i | 0 <= i < |x.kids| ensures x.kids[i].id in Gone(t, doomed, k) <==> doomed(x.kids[i]) {
      var j := KidLeft(t, k, i);
      PreTrans(t, x, i);
      NotRoot(t, x, i);
      if x.kids[i].id in Gone(t, doomed, k) {
        OnlyDoomedGone(t, doomed, k, x.kids[i]);
      }
    }
  }

  /** Sum up the sizes of the children still linked, in 32-bit arithmetic. */
  method SumChildren(cur: AstObject, align: bool, ghost t: Obj, ghost objs: set<AstObject>, ghost k: nat)
    returns (subSize: uint32)
    requires Distinct(t) && objs == Ids(t) && k < |Events(t)| && Leaves(Events(t)[k]) && cur == Events(t)[k].tree.id
    requires Wired(t, Gone(t, IsTemplate, k)) && SizedBefore(t, objs, k, align)
    ensures subSize == SizeAll(Prune(Events(t)[k].tree, IsTemplate).kids, align) % WORD
  {
    hide Events, Gone, Wired, Pre, Ids, Size, SizeAll, NextLive, SizedBefore, SizedAt, PruneAll, IsTemplate, Distinct,
      SumsTo;
    ghost var x, gone := Events(t)[k].tree, Gone(t, IsTemplate, k);
    StillLinked(t, IsTemplate, k);
    KidsDecided(t, IsTemplate, k);
    ghost var total := SizeAll(PruneAll(x.kids, IsTemplate), align);
    WiredHere(t, gone, x);
    var child := cur.child;
    subSize := 0;
    SumsEnds(0, total);
    ghost var a := 0;
    assert x.kids[0..] == x.kids;
    while child != null
      invariant a <= |x.kids| && child == NextLive(x.kids, a, gone)
      invariant SumsTo(subSize, SizeAll(PruneAll(x.kids[a..], IsTemplate), align), total)
      decreases |x.kids| - a
    {
      ghost var b := LiveNext(x.kids, a, gone);
      PruneSkip(x.kids, a, b, IsTemplate);
      KidSized(t, objs, k, b, align);
      ghost var rest := PruneAll(x.kids[b + 1..], IsTemplate);
      SizeAllCons(Prune(x.kids[b], IsTemplate), rest, align);
      SumsStep(subSize, Size(Prune(x.kids[b], IsTemplate), align), SizeAll(rest, align), total);
      subSize := (subSize + child.size) % WORD;
      KidIdIn(x, b);
      child := child.next;
      a := b + 1;
    }
    PruneNone(x.kids, a, IsTemplate, gone);
    SizeAllNil<AstObject>(align);
    SumsEnds(subSize, total);
  }

  lemma WiredHere(t: Obj, gone: set<AstObject>, x: Obj)
    requires Wired(t, gone) && x in Pre(t)
    ensures WiredAt(x, gone) && x.id in Ids(t)
  {
    KidsWithin(t, x);
  }

  lemma KidSized(t: Obj, objs: set<AstObject>, k: nat, i: nat, align: bool)
    requires k < |Events(t)| && Leaves(Events(t)[k]) && i < |Events(t)[k].tree.kids|
    requires SizedBefore(t, objs, k, align) && !IsTemplate(Events(t)[k].tree.kids[i])
    ensures SizedAt(Events(t)[k].tree.kids[i], align)
    ensures Events(t)[k].tree.kids[i].id.size == Size(Prune(Events(t)[k].tree.kids[i], IsTemplate), align) % WORD
  {
    var j := KidLeft(t, k, i);
    assert SizedAt(Events(t)[j].tree, align);
  }

  lemma SizeAllCons<Id>(x: Tree<Id>, rest: seq<Tree<Id>>, align: bool)
    ensures SizeAll([x] + rest, align) == Size(x, align) + SizeAll(rest, align)
  {
    assert ([x] + rest)[1..] == rest;
  }

  lemma SizeAllNil<Id>(align: bool)
    ensures SizeAll<Id>([], align) == 0
  {
  }

  function NameSize(l: Label<AstObject>, align: bool): nat {
    match l
    case Node(name, _) => Align4(|name| + 1, align)
    case Term(name) => Align4(|name| + 1, align)
    case Str(text) => Align4(|text| + 1, align)
    case _ => 0
  }

  lemma FixedAndName(l: Label<AstObject>, align: bool)
    requires OpCode(l) != 0
    ensures Align4(1, align) + Align4(FixedSize(l), align) + NameSize(l, align) == HeadSize(l, align)
  {
  }

  /** Set op code and sizes of an object whose children are done. */
  method CalculateSize(cur: AstObject, align: bool, ghost t: Obj, ghost objs: set<AstObject>, ghost k: nat)
    requires Distinct(t) && objs == Ids(t) && k < |Events(t)| && Leaves(Events(t)[k]) && cur == Events(t)[k].tree.id
    requires Wired(t, Gone(t, IsTemplate, k)) && SizedBefore(t, objs, k, align)
    requires cur.lab == Events(t)[k].tree.lab && OpCode(cur.lab) != 0
    modifies cur`opCode, cur`size, cur`subSize
    ensures SizedAt(Events(t)[k].tree, align)
  {
    hide Events, Gone, Wired, Size, SizeAll, HeadSize, Align4, NameSize, FixedSize;
    var own := Align4(1, align) + Align4(FixedSize(cur.lab), align) + NameSize(cur.lab, align);
    FixedAndName(cur.lab, align);
    var subSize := SumChildren(cur, align, t, objs, k);
    SizeIs(Prune(Events(t)[k].tree, IsTemplate), align);
    cur.opCode := OpCode(cur.lab);
    cur.size := (subSize + own) % WORD;
    cur.subSize := subSize;
  }

  lemma SizeIs<Id>(t: Tree<Id>, align: bool)
    ensures Size(t, align) % WORD == (SizeAll(t.kids, align) % WORD + HeadSize(t.lab, align)) % WORD
  {
    hide HeadSize, SizeAll;
    assert Size(t, align) == SizeAll(t.kids, align) + HeadSize(t.lab, align);
  }

  /** Every object that is not a template has an op code. */
  ghost predicate AllCoded(t: Obj) {
    forall x :: x in Pre(t) && !IsTemplate(x) ==> OpCode(x.lab) != 0
  }

  lemma SizedStep(t: Obj, objs: set<AstObject>, k: nat, align: bool)
    requires Distinct(t) && objs == Ids(t) && k < |Events(t)| && SizedBefore(t, objs, k, align)
    requires Leaves(Events(t)[k]) && !IsTemplate(Events(t)[k].tree) ==> SizedAt(Events(t)[k].tree, align)
    ensures SizedBefore(t, objs, k + 1, align)
  {
    EventsInPre(t, k);
    KidsWithin(t, Events(t)[k].tree);
  }

  /** Writing the sizes of the object being left leaves those of the earlier ones alone. */
  lemma OthersStaySized(t: Obj, objs: set<AstObject>, k: nat, align: bool, was: map<AstObject, (uint32, uint32, byte)>)
    requires Distinct(t) && objs == Ids(t) && k < |Events(t)| && Leaves(Events(t)[k])
    requires forall o :: o in objs ==> o in was
    requires forall j :: 0 <= j < k && Leaves(Events(t)[j]) && !IsTemplate(Events(t)[j].tree) ==>
               Events(t)[j].tree.id in objs && SizedThen(Events(t)[j].tree, align, was)
    requires forall o :: o in objs && o != Events(t)[k].tree.id ==> was[o] == (o.size, o.subSize, o.opCode)
    ensures SizedBefore(t, objs, k, align)
  {
    forall j | 0 <= j < k && Leaves(Events(t)[j]) && !IsTemplate(Events(t)[j].tree)
      ensures Events(t)[j].tree.id in objs && SizedAt(Events(t)[j].tree, align)
    {
      LeaveOnce(t, j, k);
    }
  }

  ghost predicate SizedThen(x: Obj, align: bool, was: map<AstObject, (uint32, uint32, byte)>) {
    x.id in was &&
    var u := Prune(x, IsTemplate);
    was[x.id] == (Size(u, align) % WORD, SizeAll(u.kids, align) % WORD, OpCode(x.lab))
  }

  ghost function Sizes(objs: set<AstObject>): map<AstObject, (uint32, uint32, byte)>
    reads objs`size, objs`subSize, objs`opCode
  {
    map o | o in objs :: (o.size, o.subSize, o.opCode)
  }

  lemma SizedNow(t: Obj, objs: set<AstObject>, k: nat, align: bool)
    requires k <= |Events(t)| && SizedBefore(t, objs, k, align)
    ensures forall j :: 0 <= j < k && Leaves(Events(t)[j]) && !IsTemplate(Events(t)[j].tree) ==>
              Events(t)[j].tree.id in objs && SizedThen(Events(t)[j].tree, align, Sizes(objs))
  {
    forall j | 0 <= j < k && Leaves(Events(t)[j]) && !IsTemplate(Events(t)[j].tree)
      ensures Events(t)[j].tree.id in objs && SizedThen(Events(t)[j].tree, align, Sizes(objs))
    {
      assert SizedAt(Events(t)[j].tree, align);
    }
  }

  /** The callback of the sizing walk. */
  method ConvertOne(cur: AstObject, align: bool, ghost t: Obj, ghost objs: set<AstObject>, ghost k: nat,
                    ghost p: Obj, ghost i: nat)
    returns (ok: bool)
    requires Distinct(t) && objs == Ids(t) && !IsTemplate(t) && Labelled(t)
    requires k < |Events(t)| && Leaves(Events(t)[k]) && cur == Events(t)[k].tree.id && cur in objs
    requires Events(t)[k].tree in Pre(t) && cur !in Gone(t, IsTemplate, k)
    requires Wired(t, Gone(t, IsTemplate, k)) && SizedBefore(t, objs, k, align)
    requires k + 1 < |Events(t)| ==>
               && p in Pre(t) && i < |p.kids| && p.kids[i] == Events(t)[k].tree && p.kids[i] != t
               && p.id !in Gone(t, IsTemplate, k) && p.id in objs
    requires k + 1 == |Events(t)| ==> Events(t)[k].tree == t
    modifies objs`child, objs`next, objs`opCode, objs`size, objs`subSize
    ensures ok <==> IsTemplate(Events(t)[k].tree) || OpCode(Events(t)[k].tree.lab) != 0
    ensures ok ==> Wired(t, Gone(t, IsTemplate, k + 1)) && SizedBefore(t, objs, k + 1, align)
  {
    ghost var x := Events(t)[k].tree;
    assert cur.lab == x.lab by { KidsWithin(t, x); }
    GoneGrows(t, IsTemplate, k);
    hide Wired, SizedBefore, Gone, Events, Ids, Pre, Labelled, SizedAt, SizedThen;
    if cur.lab.Node? && cur.lab.kind == Template {
      SeparateWithin(cur, t, objs, Gone(t, IsTemplate, k), p, i);
      SizedStep(t, objs, k, align);
      return true;
    }
    if OpCode(cur.lab) == 0 {
      return false;
    }
    SizedNow(t, objs, k, align);
    ghost var was := Sizes(objs);
    CalculateSize(cur, align, t, objs, k);
    OthersStaySized(t, objs, k, align, was);
    SizedStep(t, objs, k, align);
    ok := true;
  }

  /** Which objects the generator keeps. */
  lemma Untemplated(t: Obj)
    requires Distinct(t) && !IsTemplate(t)
    ensures var u := Prune(t, IsTemplate);
            && (forall x :: x in Pre(u) && x != u ==> !(x.lab.Node? && x.lab.kind == Template))
            && (forall x :: x in Pre(t) ==>
                  (x.id in Ids(u) <==>
                   forall y :: y in Pre(t) && y != t && x in Pre(y) ==> !(y.lab.Node? && y.lab.kind == Template)))
  {
    var u := Prune(t, IsTemplate);
    assert forall y :: y in Pre(t) ==> (IsTemplate(y) <==> y.lab.Node? && y.lab.kind == Template);
    hide PruneAll, Pre, Ids;
    forall x | x in Pre(u) && x != u ensures !(x.lab.Node? && x.lab.kind == Template) {
      var p := PruneOrigin(t, IsTemplate, x);
    }
    forall x | x in Pre(t)
      ensures x.id in Ids(u) <==>
              forall y :: y in Pre(t) && y != t && x in Pre(y) ==> !(y.lab.Node? && y.lab.kind == Template)
    {
      PruneKeepsIff(t, IsTemplate, x);
    }
  }

  /** Unlink templates and compute every remaining object's sizes, bottom up. */
  method ByteCodeConvert(root: AstObject, align: bool, ghost t: Obj, ghost objs: set<AstObject>) returns (ok: bool)
    requires root == t.id && Distinct(t) && objs == Ids(t) && !IsTemplate(t)
    requires Wired(t, {}) && Labelled(t)
    modifies objs`child, objs`next, objs`opCode, objs`size, objs`subSize
    ensures ok <==> AllCoded(t)
    ensures ok ==> var u := Prune(t, IsTemplate);
                   && Wired(u, {}) && Labelled(u) && Distinct(u) && Ids(u) <= objs && Sized(u, objs, align)
                   && (forall x :: x in Pre(u) && x != u ==> !(x.lab.Node? && x.lab.kind == Template))
                   && (forall x :: x in Pre(t) ==>
                         (x.id in Ids(u) <==>
                          forall y :: y in Pre(t) && y != t && x in Pre(y) ==>
                            !(y.lab.Node? && y.lab.kind == Template)))
  {
    hide Wired, Labelled, Gone, Events, Ids, Pre, Distinct, SizedBefore, IsTemplate, AllCoded;
    var cur: AstObject? := root;
    var next: AstObject?, parent: AstObject?, preVisited := null, null, false;
    ghost var k, evs := 0, Events(t);
    WalkStart(t, IsTemplate);
    SizedNone(t, objs, align);
    while cur != null
      invariant k < |evs| && cur == evs[k].tree.id && preVisited == evs[k].up
      invariant Wired(t, Gone(t, IsTemplate, k)) && SizedBefore(t, objs, k, align) && Labelled(t)
      invariant forall j :: 0 <= j < k && Leaves(evs[j]) ==> IsTemplate(evs[j].tree) || OpCode(evs[j].tree.lab) != 0
      decreases |evs| - k
    {
      ghost var p, i := AtEvent(t, objs, IsTemplate, k);
      GoneGrows(t, IsTemplate, k);
      if cur.child == null || preVisited {
        next, parent := cur.next, cur.parent;
        ok := ConvertOne(cur, align, t, objs, k, p, i);
        if !ok {
          NotAllCoded(t, evs[k].tree);
          return;
        }
      } else {
        SizedStep(t, objs, k, align);
        cur := cur.child;
        k := k + 1;
        continue;
      }
      if cur == root {
        break;
      }
      if next != null {
        cur, preVisited := next, false;
      } else {
        cur, preVisited := parent, true;
      }
      k := k + 1;
    }
    ok := true;
    AllLeftCoded(t);
    PrunedWired(t, IsTemplate);
    PrunedLabelled(t, IsTemplate);
    PrunedDistinct(t, IsTemplate);
    Untemplated(t);
    AllSized(t, objs, align);
  }

  lemma SizedNone(t: Obj, objs: set<AstObject>, align: bool)
    ensures SizedBefore(t, objs, 0, align)
  {
  }

  lemma NotAllCoded(t: Obj, x: Obj)
    requires x in Pre(t) && !IsTemplate(x) && OpCode(x.lab) == 0
    ensures !AllCoded(t)
  {
  }

  lemma AllLeftCoded(t: Obj)
    requires forall j :: 0 <= j < |Events(t)| && Leaves(Events(t)[j]) ==>
               IsTemplate(Events(t)[j].tree) || OpCode(Events(t)[j].tree.lab) != 0
    ensures AllCoded(t)
  {
    forall x | x in Pre(t) && !IsTemplate(x) ensures OpCode(x.lab) != 0 {
      var j := LeftSomewhere(t, x);
    }
  }

  lemma AllSized(t: Obj, objs: set<AstObject>, align: bool)
    requires !IsTemplate(t) && SizedBefore(t, objs, |Events(t)|, align)
    ensures Sized(Prune(t, IsTemplate), objs, align)
  {
    forall x | x in Pre(Prune(t, IsTemplate))
      ensures x.id in objs && x.id.opCode == OpCode(x.lab)
              && x.id.size == Size(x, align) % WORD && x.id.subSize == SizeAll(x.kids, align) % WORD
    {
      var p := PruneOrigin(t, IsTemplate, x);
      var j := LeftSomewhere(t, p);
      assert SizedAt(p, align);
    }
  }
}
