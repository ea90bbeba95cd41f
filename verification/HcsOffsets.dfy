/** File offsets of the objects of a tree, and what a reference to an offset reads back as. */
module HcsOffsets {
  import opened HcsTree
  import opened TreeWalk
  import opened Decompile

  /** Where in the file the object `o` starts, when the first of `ts` starts at `base`. */
  ghost function Position<Id>(ts: seq<Tree<Id>>, o: Id, base: nat, align: bool): nat {
    if ts == [] then 0
    else if ts[0].id == o then base
    else Position(ts[1..], o, base + HeadSize(ts[0].lab, align), align)
  }

  ghost predicate Occurs<Id>(ts: seq<Tree<Id>>, o: Id) {
    exists i :: 0 <= i < |ts| && ts[i].id == o
  }

  lemma {:induction false} PositionConcat<Id>(a: seq<Tree<Id>>, b: seq<Tree<Id>>, o: Id, base: nat, align: bool)
    ensures Position(a + b, o, base, align) ==
            if Occurs(a, o) then Position(a, o, base, align)
            else Position(b, o, base + HeadSizes(a, align), align)
  {
    hide HeadSize;
    if a == [] {
      assert a + b == b;
    } else {
      assert (a + b)[1..] == a[1..] + b;
      PositionConcat(a[1..], b, o, base + HeadSize(a[0].lab, align), align);
      if a[0].id != o {
        if Occurs(a, o) {
          var i :| 0 <= i < |a| && a[i].id == o;
          assert a[1..][i - 1].id == o;
        }
        if Occurs(a[1..], o) {
          var i :| 0 <= i < |a[1..]| && a[1..][i].id == o;
          assert a[i + 1].id == o;
        }
      }
    }
  }

  lemma {:induction false} PreDistinct<Id>(t: Tree<Id>, i: nat, j: nat)
    requires Distinct(t) && i < j < |Pre(t)|
    ensures Pre(t)[i].id != Pre(t)[j].id
  {
    if i == 0 {
      IdsOfPreAll(t.kids, Pre(t)[j]);
    } else {
      PreAllDistinct(t.kids, i - 1, j - 1);
    }
  }

  lemma {:induction false} PreAllDistinct<Id>(ts: seq<Tree<Id>>, i: nat, j: nat)
    requires DistinctAll(ts) && i < j < |PreAll(ts)|
    ensures PreAll(ts)[i].id != PreAll(ts)[j].id
  {
    var first, rest := Pre(ts[0]), PreAll(ts[1..]);
    if j < |first| {
      PreDistinct(ts[0], i, j);
    } else if i >= |first| {
      PreAllDistinct(ts[1..], i - |first|, j - |first|);
    } else {
      IdsOfPre(ts[0], first[i]);
      IdsOfPreAll(ts[1..], rest[j - |first|]);
    }
  }

  /** In pre-order an object starts where the heads before it end. */
  lemma PositionAt<Id>(t: Tree<Id>, n: nat, base: nat, align: bool)
    requires Distinct(t) && n < |Pre(t)|
    ensures Position(Pre(t), Pre(t)[n].id, base, align) == base + HeadSizes(Pre(t)[..n], align)
  {
    var ts := Pre(t);
    forall i | 0 <= i < n ensures ts[i].id != ts[n].id {
      PreDistinct(t, i, n);
    }
    assert ts == ts[..n] + ts[n..];
    PositionConcat(ts[..n], ts[n..], ts[n].id, base, align);
  }

  lemma InIsOccurs<Id>(ts: seq<Tree<Id>>, x: Tree<Id>)
    requires x in ts
    ensures Occurs(ts, x.id)
  {
    var i :| 0 <= i < |ts| && ts[i] == x;
  }

  /**
   A decompiled tree holds every object at its position in the file: following a reference's
   offset finds the image of its target.
   */
  lemma {:induction false} LocatedAt<Id>(t: Tree<Id>, base: nat, x: Tree<Id>, offset: Id -> nat, align: bool)
    requires Distinct(t) && x in Pre(t)
    ensures Located(x, Position(Pre(t), x.id, base, align), offset, align) in Pre(Located(t, base, offset, align))
    decreases t, 1
  {
    if x != t {
      IdsOfPreAll(t.kids, x);
      LocatedAtAll(t.kids, base + HeadSize(t.lab, align), x, offset, align);
    }
  }

  lemma {:induction false} LocatedAtAll<Id>(ts: seq<Tree<Id>>, base: nat, x: Tree<Id>, offset: Id -> nat, align: bool)
    requires DistinctAll(ts) && x in PreAll(ts)
    ensures Located(x, Position(PreAll(ts), x.id, base, align), offset, align)
            in PreAll(LocatedAll(ts, base, offset, align))
    decreases ts, 0
  {
    hide Located, HeadSize, Size, Pre, Position;
    PositionSplit(ts, base, x, align);
    LocatedAllCons(ts, base, offset, align);
    if x in Pre(ts[0]) {
      LocatedAt(ts[0], base, x, offset, align);
    } else {
      LocatedAtAll(ts[1..], base + Size(ts[0], align), x, offset, align);
    }
  }

  lemma LocatedAllCons<Id>(ts: seq<Tree<Id>>, base: nat, offset: Id -> nat, align: bool)
    requires ts != []
    ensures PreAll(LocatedAll(ts, base, offset, align)) ==
            Pre(Located(ts[0], base, offset, align))
            + PreAll(LocatedAll(ts[1..], base + Size(ts[0], align), offset, align))
  {
    hide Located, Size, Pre;
    var located := LocatedAll(ts, base, offset, align);
    assert located[1..] == LocatedAll(ts[1..], base + Size(ts[0], align), offset, align);
  }

  lemma PositionSplit<Id>(ts: seq<Tree<Id>>, base: nat, x: Tree<Id>, align: bool)
    requires DistinctAll(ts) && x in PreAll(ts)
    ensures Position(PreAll(ts), x.id, base, align) ==
            if x in Pre(ts[0]) then Position(Pre(ts[0]), x.id, base, align)
            else Position(PreAll(ts[1..]), x.id, base + Size(ts[0], align), align)
  {
    hide Size, Position, HeadSizes, HeadSize, Pre, Ids, Distinct;
    var first, rest := Pre(ts[0]), PreAll(ts[1..]);
    PositionConcat(first, rest, x.id, base, align);
    HeadsArePreEmit<Id>(ts[0], o => 0, align);
    if x in first {
      InIsOccurs(first, x);
    } else {
      IdsOfPreAll(ts[1..], x);
      forall i | 0 <= i < |first| ensures first[i].id != x.id {
        IdsOfPre(ts[0], first[i]);
      }
    }
  }
}
