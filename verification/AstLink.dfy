/** Linked trees put together from linked trees: what an operation on one place of a tree leaves alone. */
module AstLink {
  import opened HcsTree
  import opened TreeWalk
  import opened AstHeap

  /** The objects below the roots of some trees. */
  ghost function InnerAll(ts: seq<Obj>): set<AstObject> {
    if ts == [] then {} else IdsAll(ts[0].kids) + InnerAll(ts[1..])
  }

  lemma {:induction false} InnerIn(ts: seq<Obj>)
    ensures InnerAll(ts) <= IdsAll(ts)
  {
    if ts == [] {
    } else {
      InnerIn(ts[1..]);
    }
  }

  lemma KidIdsIn(p: Obj)
    ensures KidIds(p) <= IdsAll(p.kids)
  {
    forall i | 0 <= i < |p.kids| ensures p.kids[i].id in IdsAll(p.kids) {
      IdAt(p.kids, i);
    }
  }

  /** The objects hold the tree. The root's own peers and parent do not matter. */
  ghost predicate Holds(t: Obj)
    reads Ids(t)`lab, Ids(t)`child, IdsAll(t.kids)`next, IdsAll(t.kids)`parent
  {
    KidIdsIn(t);
    InnerIn(t.kids);
    t.id.lab == t.lab && WiredAt(t, {}) && HoldsAll(t.kids)
  }

  ghost predicate HoldsAll(ts: seq<Obj>)
    reads IdsAll(ts)`lab, IdsAll(ts)`child, InnerAll(ts)`next, InnerAll(ts)`parent
  {
    ts == [] || (Holds(ts[0]) && HoldsAll(ts[1..]))
  }

  /** Holding a tree is being wired and labelled as it, object by object. */
  lemma {:induction false} HoldsIff(t: Obj)
    ensures Holds(t) <==> Wired(t, {}) && Labelled(t)
  {
    hide WiredAt, Holds, HoldsAll;
    if Holds(t) {
      forall p | p in Pre(t) ensures (KidsWithin(t, p); WiredAt(p, {}) && p.id.lab == p.lab) {
        KidsWithin(t, p);
        HoldsBelow(t, p);
      }
    }
    if Wired(t, {}) && Labelled(t) {
      forall p | p in Pre(t) ensures WiredAt(p, {}) && p.id.lab == p.lab {
        KidsWithin(t, p);
      }
      HoldsFrom(t);
    }
  }

  lemma {:induction false} HoldsBelow(t: Obj, p: Obj)
    requires Holds(t) && p in Pre(t)
    ensures WiredAt(p, {}) && p.id.lab == p.lab
  {
    hide WiredAt;
    if p != t {
      HoldsBelowAll(t.kids, p);
    }
  }

  lemma {:induction false} HoldsBelowAll(ts: seq<Obj>, p: Obj)
    requires HoldsAll(ts) && p in PreAll(ts)
    ensures WiredAt(p, {}) && p.id.lab == p.lab
  {
    hide WiredAt, Holds;
    if p in Pre(ts[0]) {
      HoldsBelow(ts[0], p);
    } else {
      HoldsBelowAll(ts[1..], p);
    }
  }

  lemma {:induction false} HoldsFrom(t: Obj)
    requires forall p :: p in Pre(t) ==> WiredAt(p, {}) && p.id.lab == p.lab
    ensures Holds(t)
  {
    hide WiredAt;
    assert t in Pre(t);
    HoldsFromAll(t.kids);
  }

  lemma {:induction false} HoldsFromAll(ts: seq<Obj>)
    requires forall p :: p in PreAll(ts) ==> WiredAt(p, {}) && p.id.lab == p.lab
    ensures HoldsAll(ts)
  {
    hide WiredAt, Holds;
    if ts == [] {
    } else {
      HoldsFrom(ts[0]);
      HoldsFromAll(ts[1..]);
    }
  }

  // ----- lists of trees -----

  lemma {:induction false} ConcatIds(a: seq<Obj>, b: seq<Obj>)
    ensures IdsAll(a + b) == IdsAll(a) + IdsAll(b) && InnerAll(a + b) == InnerAll(a) + InnerAll(b)
    ensures DistinctAll(a + b) <==> DistinctAll(a) && DistinctAll(b) && IdsAll(a) !! IdsAll(b)
  {
    hide Ids, Distinct;
    if a == [] {
      assert a + b == b;
    } else {
      assert (a + b)[1..] == a[1..] + b;
      ConcatIds(a[1..], b);
    }
  }

  lemma {:induction false} ConcatHolds(a: seq<Obj>, b: seq<Obj>)
    ensures HoldsAll(a + b) <==> HoldsAll(a) && HoldsAll(b)
  {
    hide Holds;
    if a == [] {
      assert a + b == b;
    } else {
      assert (a + b)[1..] == a[1..] + b;
      ConcatHolds(a[1..], b);
    }
  }

  lemma OneOf(u: Obj)
    ensures IdsAll([u]) == Ids(u) && InnerAll([u]) == IdsAll(u.kids)
    ensures (DistinctAll([u]) <==> Distinct(u)) && (HoldsAll([u]) <==> Holds(u))
  {
    hide Ids, Holds, Distinct;
    var one := [u];
    assert one[1..] == [];
    assert IdsAll(one) == Ids(u) + IdsAll(one[1..]) && InnerAll(one) == IdsAll(u.kids) + InnerAll(one[1..]);
    assert HoldsAll(one) <==> Holds(u) && HoldsAll(one[1..]);
  }

  /** A list around one of its trees. */
  lemma Around(ts: seq<Obj>, p: nat)
    requires p < |ts|
    ensures IdsAll(ts) == IdsAll(ts[..p]) + (Ids(ts[p]) + IdsAll(ts[p + 1..]))
    ensures HoldsAll(ts) <==> HoldsAll(ts[..p]) && Holds(ts[p]) && HoldsAll(ts[p + 1..])
  {
    hide Ids, Holds, Distinct, IdsAll, HoldsAll, DistinctAll, InnerAll;
    var a, u, b := ts[..p], [ts[p]], ts[p + 1..];
    var tail := u + b;
    assert ts == a + tail;
    OneOf(ts[p]);
    ConcatIds(u, b);
    ConcatIds(a, tail);
    ConcatHolds(u, b);
    ConcatHolds(a, tail);
  }

  lemma AroundDistinct(ts: seq<Obj>, p: nat)
    requires p < |ts|
    ensures DistinctAll(ts) <==> && DistinctAll(ts[..p]) && Distinct(ts[p]) && DistinctAll(ts[p + 1..])
                                 && Ids(ts[p]) !! IdsAll(ts[..p]) && Ids(ts[p]) !! IdsAll(ts[p + 1..])
                                 && IdsAll(ts[..p]) !! IdsAll(ts[p + 1..])
  {
    hide Ids, Holds, Distinct, IdsAll, HoldsAll, DistinctAll, InnerAll;
    var a, u, b := ts[..p], [ts[p]], ts[p + 1..];
    var tail := u + b;
    assert ts == a + tail;
    OneOf(ts[p]);
    ConcatIds(u, b);
    ConcatIds(a, tail);
  }

  /** Roots of distinct trees are not inside any of them. */
  lemma {:induction false} RootsOutside(p: Obj)
    requires DistinctAll(p.kids) && p.id !in IdsAll(p.kids)
    ensures KidIds(p) !! InnerAll(p.kids) && KidsDistinct(p)
  {
    forall i | 0 <= i < |p.kids| ensures p.kids[i].id !in InnerAll(p.kids) && p.kids[i].id != p.id {
      RootOutside(p.kids, i);
      IdAt(p.kids, i);
    }
    forall i, j | 0 <= i < j < |p.kids| ensures p.kids[i].id != p.kids[j].id {
      DistinctAt(p.kids, i, j);
    }
  }

  lemma {:induction false} RootOutside(ts: seq<Obj>, i: nat)
    requires DistinctAll(ts) && i < |ts|
    ensures ts[i].id !in InnerAll(ts)
  {
    InnerIn(ts[1..]);
    if i == 0 {
    } else {
      RootOutside(ts[1..], i - 1);
      IdAt(ts[1..], i - 1);
    }
  }

  // ----- chains of children -----

  /** Only the objects of the roots matter to a chain. */
  lemma SameRoots(p: Obj, q: Obj)
    requires p.id == q.id && |p.kids| == |q.kids| && forall i :: 0 <= i < |p.kids| ==> p.kids[i].id == q.kids[i].id
    ensures KidIds(p) == KidIds(q) && (WiredAt(p, {}) <==> WiredAt(q, {}))
  {
    forall a: nat | a <= |p.kids| ensures NextLive(p.kids, a, {}) == NextLive(q.kids, a, {}) {
      NextLiveNoneGone(p.kids, a);
      NextLiveNoneGone(q.kids, a);
    }
    forall i | 0 <= i < |p.kids| ensures p.kids[i].id in KidIds(q) && q.kids[i].id in KidIds(p) {
      KidIdIn(p, i);
      KidIdIn(q, i);
    }
  }

  /** A chain without the object that was taken out of it. */
  lemma Skipped(p: Obj, i: nat)
    requires KidsDistinct(p) && i < |p.kids| && WiredAt(p, {p.kids[i].id})
    ensures WiredAt(Tree(p.id, p.lab, p.kids[..i] + p.kids[i + 1..]), {})
  {
    var c := p.kids[i].id;
    var q := Tree(p.id, p.lab, p.kids[..i] + p.kids[i + 1..]);
    assert p.id != c && forall b :: 0 <= b < |p.kids| && b != i ==> p.kids[b].id != c;
    SkippedFirst(p, i);
    SkippedNext(p, i, 0);
    hide NextLive;
    forall a | 0 <= a < |q.kids|
      ensures q.kids[a].id.parent == q.id && q.kids[a].id.next == NextLive(q.kids, a + 1, {})
    {
      SkippedLink(p, i, a);
    }
  }

  lemma SkippedLink(p: Obj, i: nat, a: nat)
    requires KidsDistinct(p) && i < |p.kids| && WiredAt(p, {p.kids[i].id}) && a + 1 < |p.kids|
    ensures var ts := p.kids[..i] + p.kids[i + 1..];
            ts[a].id.parent == p.id && ts[a].id.next == NextLive(ts, a + 1, {})
  {
    hide NextLive, KidsDistinct;
    var ts := p.kids[..i] + p.kids[i + 1..];
    var b := if a < i then a else a + 1;
    assert ts[a] == p.kids[b];
    KidsDiffer(p, b, i);
    KidIdIn(p, b);
    assert ts[a].id.next == NextLive(p.kids, b + 1, {p.kids[i].id});
    hide WiredAt;
    SkippedFirst(p, i);
    SkippedNext(p, i, a + 1);
  }

  lemma KidsDiffer(p: Obj, a: nat, b: nat)
    requires KidsDistinct(p) && a < |p.kids| && b < |p.kids| && a != b
    ensures p.kids[a].id != p.kids[b].id
  {
  }

  lemma SkippedNext(p: Obj, i: nat, a: nat)
    requires KidsDistinct(p) && i < |p.kids| && a <= |p.kids| - 1
    ensures NextLive(p.kids[..i] + p.kids[i + 1..], a, {}) ==
            NextLive(p.kids, if a < i then a else a + 1, {p.kids[i].id})
  {
    var ts := p.kids[..i] + p.kids[i + 1..];
    var b := if a < i then a else a + 1;
    if a < |ts| {
      assert ts[a] == p.kids[b];
    }
  }

  lemma SkippedFirst(p: Obj, i: nat)
    requires i < |p.kids|
    ensures NextLive(p.kids, i, {p.kids[i].id}) == NextLive(p.kids, i + 1, {p.kids[i].id})
  {
  }

  // ----- a node and the trees below it -----

  /** An object with these children; its label does not matter here. */
  function Under(o: AstObject, ts: seq<Obj>): Obj {
    Tree(o, Arr, ts)
  }

  /** A node whose children hold these trees. */
  ghost predicate Target(node: AstObject, ts: seq<Obj>)
    reads node`child, IdsAll(ts)`lab, IdsAll(ts)`child, IdsAll(ts)`next, IdsAll(ts)`parent
  {
    KidIdsIn(Under(node, ts));
    InnerIn(ts);
    node !in IdsAll(ts) && DistinctAll(ts) && HoldsAll(ts) && WiredAt(Under(node, ts), {})
  }

  lemma FirstLink(p: Obj)
    requires WiredAt(p, {})
    ensures p.id.child == FirstId(p.kids)
  {
  }

  lemma NothingUnder(o: AstObject)
    requires o.child == null
    ensures Target(o, []) && KidIds(Under(o, [])) == {} && IdsAll<AstObject>([]) == {}
  {
  }

  lemma TargetHolds(o: AstObject, lab: Label<AstObject>, ts: seq<Obj>)
    requires Target(o, ts) && o.lab == lab
    ensures Holds(Tree(o, lab, ts)) && Distinct(Tree(o, lab, ts))
  {
    SameRoots(Tree(o, lab, ts), Under(o, ts));
  }

  lemma SplitIds(t: Obj)
    ensures Ids(t) == {t.id} + IdsAll(t.kids) && InnerAll(t.kids) <= IdsAll(t.kids)
    ensures IdsAll(t.kids) <= InnerAll([t]) && (Distinct(t) ==> t.id !in IdsAll(t.kids))
  {
    InnerIn(t.kids);
    OneOf(t);
  }

  lemma InnerAround(ts: seq<Obj>, p: nat)
    requires p < |ts|
    ensures IdsAll(ts[p].kids) <= InnerAll(ts)
  {
    hide Ids, Distinct, InnerAll, IdsAll;
    var a, u, b := ts[..p], [ts[p]], ts[p + 1..];
    assert ts == a + (u + b);
    OneOf(ts[p]);
    ConcatIds(u, b);
    ConcatIds(a, u + b);
  }

  /** Link an object behind the children of a node. */
  method LinkIn(dst: AstObject, c: AstObject, ghost ts: seq<Obj>, ghost u: Obj, ghost objs: set<AstObject>)
    requires IdsAll(ts) + Ids(u) <= objs
    requires c == u.id && c.next == null && Target(dst, ts) && Holds(u)
    requires Distinct(u) && Ids(u) !! IdsAll(ts) && dst !in Ids(u)
    modifies dst`child, KidIds(Under(dst, ts))`next, c`parent
    ensures Target(dst, ts + [u])
  {
    hide Ids, Holds, Distinct, IdsAll, HoldsAll, DistinctAll, InnerAll, WiredAt, KidIds, KidsDistinct;
    ghost var p, now := Under(dst, ts), ts + [u];
    OneOf(u);
    ConcatIds(ts, [u]);
    ConcatHolds(ts, [u]);
    RootsOutside(p);
    RootsOutside(Under(dst, now));
    KidIdIn(Under(dst, now), |ts|);
    RootOf(u);
    SplitIds(u);
    InnerIn(ts);
    KidIdsIn(p);
    dst.AddChild(c, p, u);
    OneOf(u);
    ConcatHolds(ts, [u]);
  }

  lemma RootOf(u: Obj)
    ensures u.id in Ids(u) && (Distinct(u) ==> u.id !in IdsAll(u.kids))
  {
  }
}
