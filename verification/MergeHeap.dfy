/** Merging linked trees in place: children are taken out of the source and linked into the tree that stays. */
module MergeHeap {
  import opened HcsTree
  import opened TreeWalk
  import opened TreeMerge
  import opened AstHeap
  import opened AstLink

  /** An object of which only the place among its peers still matters. */
  function Stub(o: AstObject): Obj {
    Tree(o, Arr, [])
  }

  /** A node whose children are some that are done with and then these trees. */
  ghost predicate Source(node: AstObject, left: seq<Obj>, us: seq<Obj>)
    reads node`child, KidIds(Under(node, left + us))`next, KidIds(Under(node, left + us))`parent
    reads IdsAll(us)`lab, IdsAll(us)`child, IdsAll(us)`next, IdsAll(us)`parent
  {
    InnerIn(us);
    node !in IdsAll(left + us) && DistinctAll(left + us) && HoldsAll(us) && WiredAt(Under(node, left + us), {})
  }

  /** What is separate while children move from one node to the other. */
  ghost predicate Apart(dst: AstObject, src: AstObject, ts: seq<Obj>, us: seq<Obj>) {
    dst != src && dst !in IdsAll(us) && src !in IdsAll(ts) && IdsAll(ts) !! IdsAll(us)
  }

  /** The first child with this name and kind of object, if there is one. */
  method Find(node: AstObject, k: Key, ghost ts: seq<Obj>) returns (found: AstObject?, ghost i: nat)
    requires WiredAt(Under(node, ts), {}) && AllConfig(ts) && forall j :: 0 <= j < |ts| ==> ts[j].id.lab == ts[j].lab
    ensures i == Lookup(ts, k) && found == if i < |ts| then ts[i].id else null
  {
    hide WiredAt, Config, NextLive;
    ConfigLabels(ts);
    i := 0;
    found := node.child;
    FirstLink(Under(node, ts));
    AllLinks(Under(node, ts));
    while found != null
      invariant i <= |ts| && (forall j :: 0 <= j < i ==> KeyOf(ts[j]) != k)
      invariant found == if i < |ts| then ts[i].id else null
      decreases |ts| - i
    {
      if (found.lab.Node? && k == Key(found.lab.name, true)) || (found.lab.Term? && k == Key(found.lab.name, false)) {
        LookupIs(ts, k, i);
        return;
      }
      i := i + 1;
      found := found.next;
    }
    LookupIs(ts, k, i);
  }

  lemma ConfigLabels(ts: seq<Obj>)
    requires AllConfig(ts)
    ensures forall i :: 0 <= i < |ts| ==> ts[i].lab.Node? || ts[i].lab.Term?
  {
  }

  // ----- one child -----

  /** Take the first of the remaining children out of the source. */
  method TakeOut(src: AstObject, childSrc: AstObject, ghost left: seq<Obj>, ghost us: seq<Obj>,
                 ghost objs: set<AstObject>)
    requires IdsAll(left + us) <= objs
    requires us != [] && childSrc == us[0].id && Source(src, left, us)
    modifies src`child, KidIds(Under(src, left + us))`next
    ensures Source(src, left, us[1..]) && Holds(us[0]) && childSrc.next == null
  {
    hide Ids, Holds, Distinct, IdsAll, HoldsAll, DistinctAll, InnerAll, WiredAt, KidIds, KidsDistinct;
    ghost var p, u, rest := Under(src, left + us), us[0], us[1..];
    RootsOutside(p);
    ListOne(left, us);
    InnerIn(us);
    KidIdsIn(p);
    childSrc.Separate(p, |left|, {});
    assert {} + {childSrc} == {childSrc};
    Skipped(p, |left|);
    assert p.kids[..|left|] + p.kids[|left| + 1..] == left + rest;
    SameRoots(Tree(src, p.lab, left + rest), Under(src, left + rest));
    OneOf(u);
    ConcatHolds([u], rest);
    assert us == [u] + rest;
  }

  /** What there is to a list of trees behind some others when its first is singled out. */
  lemma ListOne(left: seq<Obj>, us: seq<Obj>)
    requires us != []
    ensures var u, rest := us[0], us[1..];
            && (left + us)[|left|] == u
            && IdsAll(left + us) == IdsAll(left) + IdsAll(us) && IdsAll(us) == Ids(u) + IdsAll(rest)
            && IdsAll(left + rest) == IdsAll(left) + IdsAll(rest)
            && InnerAll(us) <= InnerAll(left + us)
            && (DistinctAll(left + us) ==>
                  && DistinctAll(left + rest) && DistinctAll(left) && DistinctAll(rest) && Distinct(u)
                  && Ids(u) !! IdsAll(left + rest))
  {
    hide Ids, Distinct, InnerAll;
    ConcatIds(left, us);
    ConcatIds(left, us[1..]);
  }

  /** A child without a counterpart moves over. */
  method MoveChild(dst: AstObject, src: AstObject, childSrc: AstObject,
                   ghost ts: seq<Obj>, ghost left: seq<Obj>, ghost us: seq<Obj>, ghost objs: set<AstObject>)
    requires IdsAll(ts) + IdsAll(left + us) <= objs
    requires us != [] && childSrc == us[0].id
    requires Target(dst, ts) && Source(src, left, us) && Apart(dst, src, ts, left + us)
    modifies dst`child, KidIds(Under(dst, ts))`next, src`child, KidIds(Under(src, left + us))`next, childSrc`parent
    ensures var rest := us[1..];
            && Target(dst, ts + [us[0]]) && Source(src, left, rest) && Apart(dst, src, ts + [us[0]], left + rest)
            && IdsAll(ts + [us[0]]) + IdsAll(left + rest) == IdsAll(ts) + IdsAll(left + us)
  {
    hide Ids, Holds, Distinct, IdsAll, HoldsAll, DistinctAll, InnerAll, WiredAt, KidIds, KidsDistinct;
    ghost var u, rest := us[0], us[1..];
    ListOne(left, us);
    KidIdsIn(Under(dst, ts));
    KidIdsIn(Under(src, left + us));
    KidIdsIn(Under(src, left + rest));
    RootOf(u);
    TakeOut(src, childSrc, left, us, objs);
    LinkIn(dst, childSrc, ts, u, objs);
    OneOf(u);
    ConcatIds(ts, [u]);
  }

  /** A child with a counterpart is merged into it and stays behind, emptied. */
  method MergeChild(dst: AstObject, src: AstObject, childDst: AstObject, childSrc: AstObject, ghost p: nat,
                    ghost ts: seq<Obj>, ghost left: seq<Obj>, ghost us: seq<Obj>, ghost objs: set<AstObject>)
    requires IdsAll(ts) + IdsAll(left + us) <= objs
    requires us != [] && childSrc == us[0].id && p < |ts| && childDst == ts[p].id
    requires Target(dst, ts) && Source(src, left, us) && Apart(dst, src, ts, left + us)
    requires Config(ts[p]) && Config(us[0]) && KeyOf(ts[p]) == KeyOf(us[0])
    modifies Ids(ts[p])`lab, Ids(ts[p])`child, IdsAll(ts[p].kids)`next, IdsAll(ts[p].kids)`parent
    modifies Ids(us[0])`lab, Ids(us[0])`child, IdsAll(us[0].kids)`next, IdsAll(us[0].kids)`parent
    ensures var now, done := ts[p := Merge(ts[p], us[0])], left + [Stub(us[0].id)];
            && Target(dst, now) && Source(src, done, us[1..]) && Apart(dst, src, now, done + us[1..])
            && IdsAll(now) + IdsAll(done + us[1..]) <= IdsAll(ts) + IdsAll(left + us)
    decreases us[0], 3
  {
    hide Ids, Holds, Distinct, IdsAll, HoldsAll, DistinctAll, InnerAll, WiredAt, KidIds, KidsDistinct, Merge, Config;
    ghost var t, u, rest := ts[p], us[0], us[1..];
    ghost var m := Merge(t, u);
    ghost var before, behind, now := ts[..p], ts[p + 1..], ts[p := m];
    ListOne(left, us);
    RootOf(t);
    RootOf(u);
    Around(ts, p);
    AroundDistinct(ts, p);
    OneOf(u);
    ConcatHolds([u], rest);
    assert us == [u] + rest;
    SplitIds(t);
    SplitIds(u);
    RootsOutside(Under(dst, ts));
    RootsOutside(Under(src, left + us));
    KidIdsIn(Under(dst, ts));
    KidIdsIn(Under(src, left + us));
    InnerAround(ts, p);
    InnerAround(left + us, |left|);
    InnerIn(rest);
    InnerIn(before);
    InnerIn(behind);
    MergeInto(childDst, childSrc, t, u, objs);
    assert now[..p] == before && now[p] == m && now[p + 1..] == behind;
    Around(now, p);
    AroundDistinct(now, p);
    SplitIds(m);
    SameRoots(Under(dst, ts), Under(dst, now));
    StubIn(src, left, us);
  }

  /** The emptied child keeps its place in the source's chain. */
  lemma StubIn(src: AstObject, left: seq<Obj>, us: seq<Obj>)
    requires us != [] && src !in IdsAll(left + us) && DistinctAll(left + us) && HoldsAll(us[1..])
    requires WiredAt(Under(src, left + us), {})
    ensures var done := left + [Stub(us[0].id)];
            && Source(src, done, us[1..]) && IdsAll(done + us[1..]) <= IdsAll(left + us)
            && IdsAll(done + us[1..]) == IdsAll(left) + {us[0].id} + IdsAll(us[1..])
  {
    hide Ids, Holds, Distinct, IdsAll, HoldsAll, DistinctAll, InnerAll, WiredAt, KidIds, KidsDistinct;
    var u, rest, stub := us[0], us[1..], Stub(us[0].id);
    ListOne(left, us);
    RootOf(u);
    StubIds(u.id);
    OneOf(stub);
    ConcatIds(left, [stub]);
    ConcatIds(left, rest);
    ConcatIds(left + [stub], rest);
    SameRoots(Under(src, left + us), Under(src, left + [stub] + rest));
  }

  lemma StubIds(o: AstObject)
    ensures Ids(Stub(o)) == {o} && Distinct(Stub(o))
  {
  }

  // ----- whole trees -----

  /** Merge `src` into `dst`; `src` is left without the children it gave away. */
  method MergeInto(dst: AstObject, src: AstObject, ghost a: Obj, ghost b: Obj, ghost objs: set<AstObject>)
    requires Ids(a) + Ids(b) <= objs
    requires dst == a.id && src == b.id && Holds(a) && Holds(b) && Distinct(a) && Distinct(b) && Ids(a) !! Ids(b)
    requires Config(a) && Config(b) && KeyOf(a) == KeyOf(b)
    modifies Ids(a)`lab, Ids(a)`child, IdsAll(a.kids)`next, IdsAll(a.kids)`parent
    modifies Ids(b)`lab, Ids(b)`child, IdsAll(b.kids)`next, IdsAll(b.kids)`parent
    ensures Holds(Merge(a, b)) && Distinct(Merge(a, b))
    ensures IdsAll(Merge(a, b).kids) <= IdsAll(a.kids) + IdsAll(b.kids)
    decreases b, 2
  {
    if dst.lab.Term? {
      TakeValue(dst, src, a, b, objs);
      return;
    }
    AsTarget(a);
    AsSource(b);
    SplitIds(a);
    SplitIds(b);
    MergedNode(a, b);
    assert [] + b.kids == b.kids;
    assert Apart(dst, src, a.kids, b.kids);
    hide *;
    dst.lab := dst.lab.(kind := src.lab.kind);
    MergeChildren(dst, src, a, b, objs);
    TargetHolds(dst, dst.lab, MergeKids(a.kids, b.kids));
  }

  /** A term gives up its value and takes over the source's. */
  method TakeValue(dst: AstObject, src: AstObject, ghost a: Obj, ghost b: Obj, ghost objs: set<AstObject>)
    requires Ids(a) + Ids(b) <= objs
    requires dst == a.id && src == b.id && Holds(a) && Holds(b) && Distinct(a) && Distinct(b) && Ids(a) !! Ids(b)
    requires Config(a) && Config(b) && a.lab.Term? && b.lab.Term?
    modifies dst`child, src`child, IdsAll(b.kids)`next, IdsAll(b.kids)`parent
    ensures Holds(Tree(dst, a.lab, b.kids)) && Distinct(Tree(dst, a.lab, b.kids))
  {
    hide Ids, Holds, Distinct, IdsAll, HoldsAll, DistinctAll, InnerAll, WiredAt, KidIds, KidsDistinct;
    ghost var v := b.kids[0];
    AsTarget(a);
    AsSource(b);
    SplitIds(a);
    SplitIds(b);
    OneOf(v);
    RootOf(v);
    assert b.kids == [v] == [] + [v] == [] + b.kids;
    SourceFirst(src, [], b.kids);
    var value := src.child;
    TakeOut(src, value, [], b.kids, objs);
    dst.child := null;
    NothingUnder(dst);
    LinkIn(dst, value, [], v, objs);
    TargetHolds(dst, a.lab, b.kids);
  }

  lemma AsTarget(a: Obj)
    requires Holds(a) && Distinct(a)
    ensures Target(a.id, a.kids) && a.id.lab == a.lab
  {
    SameRoots(a, Under(a.id, a.kids));
  }

  lemma AsSource(b: Obj)
    requires Holds(b) && Distinct(b)
    ensures Source(b.id, [], b.kids) && KidIds(Under(b.id, [] + b.kids)) <= IdsAll(b.kids)
  {
    assert [] + b.kids == b.kids;
    KidIdsIn(Under(b.id, b.kids));
    SameRoots(b, Under(b.id, b.kids));
  }

  lemma MergedNode(a: Obj, b: Obj)
    requires Config(a) && Config(b) && KeyOf(a) == KeyOf(b) && a.lab.Node?
    ensures b.lab.Node? && AllConfig(a.kids) && AllConfig(b.kids)
    ensures Merge(a, b) == Tree(a.id, Node(a.lab.name, b.lab.kind), MergeKids(a.kids, b.kids))
  {
  }

  /** The loop over the children of the source. */
  method MergeChildren(dst: AstObject, src: AstObject, ghost a: Obj, ghost b: Obj, ghost objs: set<AstObject>)
    requires Ids(a) + Ids(b) <= objs
    requires Config(a) && Config(b) && a.lab.Node? && b.lab.Node?
    requires dst == a.id && src == b.id && Target(dst, a.kids) && Source(src, [], b.kids)
             && Apart(dst, src, a.kids, [] + b.kids)
    modifies dst`child, IdsAll(a.kids)`lab, IdsAll(a.kids)`child, IdsAll(a.kids)`next, IdsAll(a.kids)`parent
    modifies src`child, IdsAll(b.kids)`lab, IdsAll(b.kids)`child, IdsAll(b.kids)`next, IdsAll(b.kids)`parent
    ensures Target(dst, MergeKids(a.kids, b.kids))
            && IdsAll(MergeKids(a.kids, b.kids)) <= IdsAll(a.kids) + IdsAll(b.kids)
    decreases b, 1
  {
    hide Target, Source, Apart, IdsAll, HoldsAll, DistinctAll, Merge, Config, WiredAt, KidIds;
    ghost var ts, left, us := a.kids, [], b.kids;
    ghost var all := IdsAll(ts) + IdsAll(us);
    assert left + us == us;
    Kids(a, b);
    SourceFirst(src, left, us);
    var childSrc := src.child;
    while childSrc != null
      invariant Target(dst, ts) && Source(src, left, us) && Apart(dst, src, ts, left + us)
      invariant childSrc == FirstId(us)
      invariant AllConfig(ts) && AllConfig(us) && MergeKids(ts, us) == MergeKids(a.kids, b.kids)
      invariant forall u :: u in us ==> u in b.kids
      invariant IdsAll(ts) + IdsAll(left + us) <= all <= objs
      decreases |us|
    {
      ghost var u := us[0];
      assert u in us;
      ghost var n :| 0 <= n < |b.kids| && b.kids[n] == u;
      Cursor(dst, src, ts, left, us);
      var childSrcNext := childSrc.next;
      var childDst, p := Find(dst, Key(childSrc.lab.name, childSrc.lab.Node?), ts);
      if childDst == null {
        MoveChild(dst, src, childSrc, ts, left, us, objs);
        ts, us := ts + [u], us[1..];
      } else {
        MergeChild(dst, src, childDst, childSrc, p, ts, left, us, objs);
        ts, left, us := ts[p := Merge(ts[p], u)], left + [Stub(u.id)], us[1..];
      }
      childSrc := childSrcNext;
    }
    assert us == [];
  }

  lemma Kids(a: Obj, b: Obj)
    requires Config(a) && Config(b) && a.lab.Node? && b.lab.Node?
    ensures AllConfig(a.kids) && AllConfig(b.kids)
    ensures IdsAll(a.kids) <= Ids(a) && IdsAll(b.kids) <= Ids(b)
  {
  }

  lemma SourceFirst(src: AstObject, left: seq<Obj>, us: seq<Obj>)
    requires Source(src, left, us)
    ensures left == [] ==> src.child == FirstId(us)
    ensures left + us != [] ==> src.child != null
  {
    hide IdsAll, HoldsAll, DistinctAll, WiredAt;
    FirstLink(Under(src, left + us));
    if left == [] {
      assert left + us == us;
    }
  }

  /** The child at hand, what it is linked to, and what the target's children look like. */
  lemma Cursor(dst: AstObject, src: AstObject, ts: seq<Obj>, left: seq<Obj>, us: seq<Obj>)
    requires us != [] && Target(dst, ts) && Source(src, left, us) && AllConfig(us)
    ensures us[0].id.lab == us[0].lab && (us[0].lab.Node? || us[0].lab.Term?) && us[0].id.next == FirstId(us[1..])
    ensures WiredAt(Under(dst, ts), {}) && forall k :: 0 <= k < |ts| ==> ts[k].id.lab == ts[k].lab
    ensures Config(us[0]) && Inside(us[0], IdsAll(us)) && forall k :: 0 <= k < |ts| ==> Inside(ts[k], IdsAll(ts))
    ensures IdsAll(us) <= IdsAll(left + us)
    ensures KidIds(Under(dst, ts)) <= IdsAll(ts) && KidIds(Under(src, left + us)) <= IdsAll(left + us)
  {
    hide WiredAt, IdsAll;
    ListOne(left, us);
    KidIdsIn(Under(dst, ts));
    KidIdsIn(Under(src, left + us));
    var p := Under(src, left + us);
    assert (left + us)[|left|] == us[0];
    LinkOf(p, |left|);
    if |us| > 1 {
      assert (left + us)[|left| + 1] == us[1];
    }
    forall k | 0 <= k < |ts| ensures ts[k].id.lab == ts[k].lab && Inside(ts[k], IdsAll(ts)) {
      Around(ts, k);
      SplitIds(ts[k]);
    }
    Around(us, 0);
    SplitIds(us[0]);
  }

  /** A tree's objects are among these. */
  ghost predicate Inside(t: Obj, objs: set<AstObject>) {
    t.id in objs && Ids(t) <= objs && IdsAll(t.kids) <= objs
  }

  /** Two linked trees become the merged tree, linked up and labelled throughout. */
  method MergeTrees(dst: AstObject, src: AstObject, ghost a: Obj, ghost b: Obj, ghost objs: set<AstObject>)
    requires dst == a.id && src == b.id && Distinct(a) && Distinct(b) && Ids(a) !! Ids(b) && objs == Ids(a) + Ids(b)
    requires Wired(a, {}) && Labelled(a) && Wired(b, {}) && Labelled(b)
    requires Config(a) && Config(b) && KeyOf(a) == KeyOf(b)
    modifies objs`lab, objs`child, objs`next, objs`parent
    ensures var m := Merge(a, b); Wired(m, {}) && Labelled(m) && Distinct(m) && Ids(m) <= objs
  {
    hide *;
    HoldsIff(a);
    HoldsIff(b);
    SplitIds(a);
    SplitIds(b);
    MergeInto(dst, src, a, b, objs);
    HoldsIff(Merge(a, b));
    SplitIds(Merge(a, b));
  }
}
