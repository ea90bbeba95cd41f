/**
 Configuration trees in memory: objects linked by parent, first-child and next-sibling
 references, walked iteratively and pruned while being walked.
 */
module AstHeap {
  import opened Bytes
  import opened HcsTree
  import opened TreeWalk

  class AstObject {
    var lab: Label<AstObject>
    var parent: AstObject?
    var next: AstObject?
    var child: AstObject?
    var opCode: byte
    var size: uint32
    var subSize: uint32
    var hash: uint32
    var arraySize: uint32

    constructor (l: Label<AstObject>)
      ensures lab == l && parent == null && next == null && child == null && arraySize == 0
    {
      lab, parent, next, child := l, null, null, null;
      opCode, size, subSize, hash, arraySize := 0, 0, 0, 0, 0;
    }

    /**
     Unlink this object from its parent's children. `p` is the parent's place in the tree and
     `gone` what was unlinked before.
     */
    method Separate(ghost p: Obj, ghost i: nat, ghost gone: set<AstObject>)
      requires i < |p.kids| && p.kids[i].id == this && this !in gone && p.id !in gone
      requires KidsDistinct(p) && WiredAt(p, gone)
      modifies p.id`child, KidIds(p)`next
      ensures WiredAt(p, gone + {this})
      ensures next == null
    {
      KidIdIn(p, i);
      var up := parent;
      ghost var a := LiveIndex(p.kids, 0, i, gone);
      if up.child == this {
        up.child := next;
        SkipRewires(p, i, gone, -1);
      } else {
        var pre;
        pre, a := up.Previous(this, p, i, gone);
        pre.next := next;
        SkipRewires(p, i, gone, a);
      }
      next := null;
    }

    /** The linked child of this object right before `c`, which is linked but not the first. */
    method Previous(c: AstObject, ghost p: Obj, ghost i: nat, ghost gone: set<AstObject>)
      returns (pre: AstObject, ghost a: nat)
      requires p.id == this && this !in gone && i < |p.kids| && p.kids[i].id == c && c !in gone && child != c
      requires KidsDistinct(p) && WiredAt(p, gone)
      ensures a < i && pre == p.kids[a].id && pre in KidIds(p) && pre !in gone
      ensures pre.next == NextLive(p.kids, a + 1, gone) == c
    {
      a := LiveIndex(p.kids, 0, i, gone);
      pre := child;
      while pre.next != c
        invariant 0 <= a < i && pre == p.kids[a].id && pre !in gone
        decreases i - a
      {
        KidIdIn(p, a);
        assert pre.next == NextLive(p.kids, a + 1, gone);
        a := LiveIndex(p.kids, a + 1, i, gone);
        pre := pre.next;
      }
      KidIdIn(p, a);
    }

    /** Link an object without peers, new or separated, behind the children of this one. */
    method AddChild(c: AstObject, ghost p: Obj, ghost u: Obj)
      requires p.id == this && u.id == c && WiredAt(p, {}) && KidsDistinct(Grown(p, u)) && c.next == null
      modifies this`child, KidIds(p)`next, c`parent
      ensures WiredAt(Grown(p, u), {})
    {
      hide KidsDistinct;
      GrownDistinct(p, u);
      if child == null {
        child := c;
        c.parent := this;
        assert p.kids == [];
      } else {
        LinkOf(p, 0);
        child.AddPeer(c, p, u);
      }
    }

    /** Link it behind the last peer of this object, which is the first child. */
    method AddPeer(c: AstObject, ghost p: Obj, ghost u: Obj)
      requires p.kids != [] && p.kids[0].id == this && u.id == c && WiredAt(p, {}) && c.next == null
      requires KidsDistinct(Grown(p, u))
      modifies KidIds(p)`next, c`parent
      ensures WiredAt(Grown(p, u), {})
    {
      hide WiredAt, KidsDistinct, Grown, NextLive;
      GrownDistinct(p, u);
      var last := LastPeer(p);
      AllLinks(p);
      LinkOf(p, 0);
      last.next := c;
      c.parent := parent;
      GrownLinks(p, u);
    }

    method LastPeer(ghost p: Obj) returns (last: AstObject)
      requires p.kids != [] && p.kids[0].id == this && WiredAt(p, {}) && KidsDistinct(p)
      ensures last == p.kids[|p.kids| - 1].id && last in KidIds(p)
      ensures forall j :: 0 <= j < |p.kids| - 1 ==> p.kids[j].id != last
    {
      hide WiredAt, KidsDistinct, NextLive;
      DistinctLast(p);
      last := this;
      ghost var i := 0;
      LinkOf(p, 0);
      while last.next != null
        invariant i < |p.kids| && last == p.kids[i].id && last in KidIds(p)
        invariant last.next == if i + 1 < |p.kids| then p.kids[i + 1].id else null
        decreases |p.kids| - i
      {
        i := i + 1;
        last := last.next;
        LinkOf(p, i);
      }
    }
  }

  type Obj = Tree<AstObject>

  /** `p` with one more child behind the others. */
  function Grown(p: Obj, u: Obj): Obj {
    Tree(p.id, p.lab, p.kids + [u])
  }

  ghost function KidIds(p: Obj): set<AstObject> {
    set i | 0 <= i < |p.kids| :: p.kids[i].id
  }

  lemma KidIdIn(p: Obj, i: nat)
    requires i < |p.kids|
    ensures p.kids[i].id in KidIds(p)
  {
  }

  ghost predicate KidsDistinct(p: Obj) {
    && (forall i :: 0 <= i < |p.kids| ==> p.kids[i].id != p.id)
    && (forall i, j :: 0 <= i < j < |p.kids| ==> p.kids[i].id != p.kids[j].id)
  }

  /** The first object from position `a` on that is still linked. */
  ghost function NextLive(ts: seq<Obj>, a: nat, gone: set<AstObject>): AstObject?
    decreases |ts| - a
  {
    if a >= |ts| then null
    else if ts[a].id in gone then NextLive(ts, a + 1, gone)
    else ts[a].id
  }

  /** The links of `p` and its children, with the children in `gone` skipped. */
  ghost predicate WiredAt(p: Obj, gone: set<AstObject>)
    reads p.id`child, KidIds(p)`next, KidIds(p)`parent
  {
    && (p.id !in gone ==> p.id.child == NextLive(p.kids, 0, gone))
    && (forall i :: 0 <= i < |p.kids| ==>
          (KidIdIn(p, i);
           && p.kids[i].id.parent == p.id
           && (p.kids[i].id !in gone ==> p.kids[i].id.next == NextLive(p.kids, i + 1, gone))))
  }

  lemma {:induction false} NextLiveWithout(p: Obj, a: nat, i: nat, gone: set<AstObject>)
    requires KidsDistinct(p) && a <= |p.kids| && i < |p.kids| && p.kids[i].id !in gone
    ensures var c := p.kids[i].id;
            NextLive(p.kids, a, gone + {c}) ==
            if NextLive(p.kids, a, gone) == c then NextLive(p.kids, i + 1, gone) else NextLive(p.kids, a, gone)
    decreases |p.kids| - a
  {
    if a < |p.kids| {
      NextLiveWithout(p, a + 1, i, gone);
      if a == i {
        NextLiveAfter(p, i + 1, i, gone);
      }
    }
  }

  lemma {:induction false} NextLiveAfter(p: Obj, a: nat, i: nat, gone: set<AstObject>)
    requires KidsDistinct(p) && i < a <= |p.kids|
    ensures NextLive(p.kids, a, gone) != p.kids[i].id
    decreases |p.kids| - a
  {
    if a < |p.kids| {
      NextLiveAfter(p, a + 1, i, gone);
    }
  }

  lemma {:induction false} LiveIndex(ts: seq<Obj>, a: nat, i: nat, gone: set<AstObject>) returns (b: nat)
    requires a <= i < |ts| && ts[i].id !in gone
    ensures a <= b <= i && ts[b].id !in gone && NextLive(ts, a, gone) == ts[b].id
    ensures forall c :: a <= c < b ==> ts[c].id in gone
    decreases |ts| - a
  {
    b := a;
    if ts[a].id in gone {
      b := LiveIndex(ts, a + 1, i, gone);
    }
  }

  /** At most one live child leads to child `i`. */
  lemma OtherRoutes(p: Obj, i: nat, gone: set<AstObject>, a: int, j: nat)
    requires KidsDistinct(p) && i < |p.kids| && p.kids[i].id !in gone && -1 <= a < i
    requires a >= 0 ==> p.kids[a].id !in gone
    requires NextLive(p.kids, a + 1, gone) == p.kids[i].id
    requires j < |p.kids| && p.kids[j].id !in gone && j != a && j != i
    ensures NextLive(p.kids, j + 1, gone) != p.kids[i].id
  {
    var first := LiveIndex(p.kids, a + 1, i, gone);
    if j > i {
      NextLiveAfter(p, j + 1, i, gone);
    } else if j < a {
      var b := LiveIndex(p.kids, j + 1, a, gone);
    }
  }

  /** Only the live child right before child `i` (or the parent, when there is none) leads to it. */
  lemma SkipRewires(p: Obj, i: nat, gone: set<AstObject>, a: int)
    requires KidsDistinct(p) && i < |p.kids| && p.kids[i].id !in gone && -1 <= a < i
    requires a >= 0 ==> p.kids[a].id !in gone
    requires NextLive(p.kids, a + 1, gone) == p.kids[i].id
    ensures var c := p.kids[i].id;
            && NextLive(p.kids, a + 1, gone + {c}) == NextLive(p.kids, i + 1, gone)
            && (a >= 0 ==> NextLive(p.kids, 0, gone + {c}) == NextLive(p.kids, 0, gone))
            && forall j :: 0 <= j < |p.kids| && p.kids[j].id !in gone && j != a && j != i ==>
                 NextLive(p.kids, j + 1, gone + {c}) == NextLive(p.kids, j + 1, gone)
  {
    NextLiveWithout(p, a + 1, i, gone);
    NextLiveWithout(p, 0, i, gone);
    if a >= 0 {
      var b := LiveIndex(p.kids, 0, a, gone);
    }
    forall j | 0 <= j < |p.kids| && p.kids[j].id !in gone && j != a && j != i
      ensures NextLive(p.kids, j + 1, gone + {p.kids[i].id}) == NextLive(p.kids, j + 1, gone)
    {
      NextLiveWithout(p, j + 1, i, gone);
      OtherRoutes(p, i, gone, a, j);
    }
  }

  lemma LinkOf(p: Obj, i: nat)
    requires WiredAt(p, {}) && i < |p.kids|
    ensures p.id.child == p.kids[0].id && p.kids[i].id in KidIds(p) && p.kids[i].id.parent == p.id
    ensures p.kids[i].id.next == if i + 1 < |p.kids| then p.kids[i + 1].id else null
  {
    KidIdIn(p, i);
  }

  lemma GrownDistinct(p: Obj, u: Obj)
    requires KidsDistinct(Grown(p, u))
    ensures KidsDistinct(p) && u.id != p.id && u.id !in KidIds(p) && p.id !in KidIds(p)
  {
    var g := Grown(p, u);
    assert g.kids[|p.kids|] == u;
    forall i | 0 <= i < |p.kids| ensures g.kids[i] == p.kids[i] {
    }
  }

  lemma DistinctLast(p: Obj)
    requires KidsDistinct(p) && p.kids != []
    ensures forall j :: 0 <= j < |p.kids| - 1 ==> p.kids[j].id != p.kids[|p.kids| - 1].id
  {
  }

  lemma AllLinks(p: Obj)
    requires WiredAt(p, {})
    ensures forall j :: 0 <= j < |p.kids| ==>
              && p.kids[j].id in KidIds(p) && p.kids[j].id.parent == p.id
              && p.kids[j].id.next == if j + 1 < |p.kids| then p.kids[j + 1].id else null
  {
    forall j | 0 <= j < |p.kids|
      ensures p.kids[j].id in KidIds(p) && p.kids[j].id.parent == p.id
      ensures p.kids[j].id.next == if j + 1 < |p.kids| then p.kids[j + 1].id else null
    {
      LinkOf(p, j);
    }
  }

  /** A chain of children with one more behind the last. */
  lemma GrownLinks(p: Obj, u: Obj)
    requires p.id.child == if p.kids == [] then u.id else p.kids[0].id
    requires forall j :: 0 <= j < |p.kids| ==>
               && p.kids[j].id.parent == p.id
               && p.kids[j].id.next == if j + 1 < |p.kids| then p.kids[j + 1].id else u.id
    requires u.id.parent == p.id && u.id.next == null
    ensures WiredAt(Grown(p, u), {})
  {
    var g := Grown(p, u);
    assert g.kids[0] == if p.kids == [] then u else p.kids[0];
    forall i | 0 <= i < |g.kids|
      ensures g.kids[i].id.parent == g.id && g.kids[i].id.next == NextLive(g.kids, i + 1, {})
    {
      if i == |p.kids| {
        assert g.kids[i] == u;
      } else {
        assert g.kids[i] == p.kids[i];
        assert g.kids[i + 1] == if i + 1 < |p.kids| then p.kids[i + 1] else u;
        assert NextLive(g.kids, i + 1, {}) == g.kids[i + 1].id;
      }
    }
  }

  // ----- whole trees -----

  lemma {:induction false} KidsWithin(t: Obj, p: Obj)
    requires p in Pre(t)
    ensures p.id in Ids(t) && KidIds(p) <= Ids(t)
  {
    IdsOfPre(t, p);
    forall i | 0 <= i < |p.kids| ensures p.kids[i].id in Ids(t) {
      PreTrans(t, p, i);
      IdsOfPre(t, p.kids[i]);
    }
  }

  /** The links of every object of `t`, skipping the unlinked ones in `gone`. */
  ghost predicate Wired(t: Obj, gone: set<AstObject>)
    reads Ids(t)`child, Ids(t)`next, Ids(t)`parent
  {
    forall p :: p in Pre(t) ==> (KidsWithin(t, p); WiredAt(p, gone))
  }

  ghost predicate Labelled(t: Obj)
    reads Ids(t)`lab
  {
    forall p :: p in Pre(t) ==> (KidsWithin(t, p); p.id.lab == p.lab)
  }

  lemma DistinctKids(t: Obj, p: Obj)
    requires Distinct(t) && p in Pre(t)
    ensures KidsDistinct(p)
  {
    DistinctBelow(t, p);
    forall i | 0 <= i < |p.kids| ensures p.kids[i].id != p.id {
      IdAt(p.kids, i);
    }
    forall i, j | 0 <= i < j < |p.kids| ensures p.kids[i].id != p.kids[j].id {
      DistinctAt(p.kids, i, j);
    }
  }

  lemma {:induction false} DistinctBelow(t: Obj, p: Obj)
    requires Distinct(t) && p in Pre(t)
    ensures Distinct(p)
  {
    if p != t {
      DistinctBelowAll(t.kids, p);
    }
  }

  lemma {:induction false} DistinctBelowAll(ts: seq<Obj>, p: Obj)
    requires DistinctAll(ts) && p in PreAll(ts)
    ensures Distinct(p)
  {
    if p in Pre(ts[0]) {
      DistinctBelow(ts[0], p);
    } else {
      DistinctBelowAll(ts[1..], p);
    }
  }

  lemma {:induction false} IdAt(ts: seq<Obj>, i: nat)
    requires i < |ts|
    ensures ts[i].id in IdsAll(ts)
  {
    if i == 0 {
    } else {
      IdAt(ts[1..], i - 1);
    }
  }

  lemma {:induction false} DistinctAt(ts: seq<Obj>, i: nat, j: nat)
    requires i < j < |ts| && DistinctAll(ts)
    ensures ts[i].id != ts[j].id
  {
    if i == 0 {
      IdAt(ts[1..], j - 1);
    } else {
      DistinctAt(ts[1..], i - 1, j - 1);
    }
  }

  lemma {:induction false} NextLiveSame(ts: seq<Obj>, a: nat, gone: set<AstObject>, c: AstObject)
    requires a <= |ts| && forall i :: 0 <= i < |ts| ==> ts[i].id != c
    ensures NextLive(ts, a, gone + {c}) == NextLive(ts, a, gone)
    decreases |ts| - a
  {
    if a < |ts| {
      NextLiveSame(ts, a + 1, gone, c);
    }
  }

  datatype Links = Links(parent: AstObject?, next: AstObject?, child: AstObject?)

  /** The links of a set of objects at one moment. */
  ghost function Snapshot(objs: set<AstObject>): map<AstObject, Links>
    reads objs`parent, objs`next, objs`child
  {
    map o | o in objs :: Links(o.parent, o.next, o.child)
  }

  /** `WiredAt`, said of a snapshot. */
  ghost predicate WiredThen(p: Obj, gone: set<AstObject>, was: map<AstObject, Links>) {
    && p.id in was && (p.id !in gone ==> was[p.id].child == NextLive(p.kids, 0, gone))
    && (forall i :: 0 <= i < |p.kids| ==>
          && p.kids[i].id in was && was[p.kids[i].id].parent == p.id
          && (p.kids[i].id !in gone ==> was[p.kids[i].id].next == NextLive(p.kids, i + 1, gone)))
  }

  lemma WiredNow(t: Obj, gone: set<AstObject>, objs: set<AstObject>, p: Obj)
    requires objs == Ids(t) && Wired(t, gone) && p in Pre(t)
    ensures WiredThen(p, gone, Snapshot(objs))
  {
    KidsWithin(t, p);
    assert WiredAt(p, gone);
    forall i | 0 <= i < |p.kids| ensures p.kids[i].id in objs {
      KidIdIn(p, i);
    }
  }

  /** Nothing but the links around child `i` of `p` changed since the snapshot. */
  ghost predicate OnlyUnlinked(objs: set<AstObject>, was: map<AstObject, Links>, p: Obj, i: nat)
    requires i < |p.kids|
    reads objs`parent, objs`child, objs`next
  {
    forall o :: o in objs ==>
      && o in was && o.parent == was[o].parent
      && (o != p.id && o != p.kids[i].id ==> o.child == was[o].child)
      && (o !in KidIds(p) ==> o.next == was[o].next)
  }

  /** Unlinking a child of `p` leaves the links of every other object as they were. */
  lemma SeparateKeeps(t: Obj, objs: set<AstObject>, p: Obj, i: nat, gone: set<AstObject>, was: map<AstObject, Links>)
    requires Distinct(t) && objs == Ids(t) && p in Pre(t) && i < |p.kids|
    requires OnlyUnlinked(objs, was, p, i)
    requires forall q :: q in Pre(t) ==> WiredThen(q, gone, was)
    requires WiredAt(p, gone + {p.kids[i].id})
    ensures Wired(t, gone + {p.kids[i].id})
  {
    forall q | q in Pre(t) ensures (KidsWithin(t, q); WiredAt(q, gone + {p.kids[i].id})) {
      KidsWithin(t, q);
      if q != p {
        OthersKeep(t, objs, p, i, gone, was, q);
      }
    }
  }

  lemma OthersKeep(t: Obj, objs: set<AstObject>, p: Obj, i: nat, gone: set<AstObject>, was: map<AstObject, Links>,
                   q: Obj)
    requires Distinct(t) && objs == Ids(t) && p in Pre(t) && i < |p.kids|
    requires OnlyUnlinked(objs, was, p, i)
    requires q in Pre(t) && q != p && WiredThen(p, gone, was) && WiredThen(q, gone, was)
    ensures WiredAt(q, gone + {p.kids[i].id})
  {
    var c := p.kids[i].id;
    KidsWithin(t, q);
    if q.id == p.id {
      IdUnique(t, p, q);
    }
    KidIdIn(p, i);
    forall j | 0 <= j < |q.kids| ensures q.kids[j].id in objs && q.kids[j].id !in KidIds(p) {
      KidIdIn(q, j);
    }
    forall a: nat | a <= |q.kids| ensures NextLive(q.kids, a, gone + {c}) == NextLive(q.kids, a, gone) {
      NextLiveSame(q.kids, a, gone, c);
    }
  }

  // ----- what is left after pruning -----

  ghost function FirstId(ts: seq<Obj>): AstObject? {
    if ts == [] then null else ts[0].id
  }

  lemma {:induction false} NextLivePruned(ts: seq<Obj>, a: nat, doomed: Obj -> bool, gone: set<AstObject>)
    requires a <= |ts| && forall i :: 0 <= i < |ts| ==> (ts[i].id in gone <==> doomed(ts[i]))
    ensures FirstId(PruneAll(ts[a..], doomed)) == NextLive(ts, a, gone)
    decreases |ts| - a
  {
    if a < |ts| {
      NextLivePruned(ts, a + 1, doomed, gone);
      assert ts[a..][0] == ts[a] && ts[a..][1..] == ts[a + 1..];
    }
  }

  lemma NextLiveNoneGone(ts: seq<Obj>, b: nat)
    requires b <= |ts|
    ensures NextLive(ts, b, {}) == FirstId(ts[b..])
  {
  }

  /** Once the walk is over, the surviving objects are linked as the pruned tree. */
  lemma PrunedWired(t: Obj, doomed: Obj -> bool)
    requires Distinct(t) && Wired(t, Gone(t, doomed, |Events(t)|))
    ensures Wired(Prune(t, doomed), {})
  {
    forall q | q in Pre(Prune(t, doomed)) ensures (KidsWithin(Prune(t, doomed), q); WiredAt(q, {})) {
      var p := PruneOrigin(t, doomed, q);
      PrunedWiredAt(t, doomed, p);
    }
  }

  lemma PrunedWiredAt(t: Obj, doomed: Obj -> bool, p: Obj)
    requires Distinct(t) && Wired(t, Gone(t, doomed, |Events(t)|)) && p in Pre(t) && (p == t || !doomed(p))
    ensures WiredAt(Prune(p, doomed), {})
  {
    hide Gone, Events, Prune, NextLive;
    var gone := Gone(t, doomed, |Events(t)|);
    GoneAtEnd(t, doomed, p);
    KidsWithin(t, p);
    assert WiredAt(p, gone);
    forall i | 0 <= i < |p.kids| ensures p.kids[i].id in gone <==> doomed(p.kids[i]) {
      PreTrans(t, p, i);
      GoneAtEnd(t, doomed, p.kids[i]);
      NotRoot(t, p, i);
    }
    PrunedLinks(p, doomed, gone);
  }

  lemma PrunedLinks(p: Obj, doomed: Obj -> bool, gone: set<AstObject>)
    requires WiredAt(p, gone) && p.id !in gone
    requires forall i :: 0 <= i < |p.kids| ==> (p.kids[i].id in gone <==> doomed(p.kids[i]))
    ensures WiredAt(Prune(p, doomed), {})
  {
    var q := Prune(p, doomed);
    assert p.kids[0..] == p.kids && q.kids[0..] == q.kids;
    NextLivePruned(p.kids, 0, doomed, gone);
    NextLiveNoneGone(q.kids, 0);
    forall b | 0 <= b < |q.kids|
      ensures q.kids[b].id.parent == q.id && q.kids[b].id.next == NextLive(q.kids, b + 1, {})
    {
      PrunedLink(p, doomed, gone, b);
    }
  }

  lemma PrunedLink(p: Obj, doomed: Obj -> bool, gone: set<AstObject>, b: nat)
    requires WiredAt(p, gone) && b < |PruneAll(p.kids, doomed)|
    requires forall i :: 0 <= i < |p.kids| ==> (p.kids[i].id in gone <==> doomed(p.kids[i]))
    ensures var c := PruneAll(p.kids, doomed)[b].id;
            c.parent == p.id && c.next == NextLive(PruneAll(p.kids, doomed), b + 1, {})
  {
    hide NextLive, PruneAll;
    var a := PruneIndex(p.kids, doomed, b);
    KidIdIn(p, a);
    NextLivePruned(p.kids, a + 1, doomed, gone);
    NextLiveNoneGone(PruneAll(p.kids, doomed), b + 1);
  }

  lemma NotRoot(t: Obj, p: Obj, i: nat)
    requires Distinct(t) && p in Pre(t) && i < |p.kids|
    ensures p.kids[i] != t
  {
    if p.kids[i] == t {
      DistinctBelow(t, p);
      IdAt(p.kids, i);
      IdsOfPre(t, p);
      IdsOfKid(p, i);
    }
  }

  lemma IdsOfKid(p: Obj, i: nat)
    requires i < |p.kids|
    ensures Ids(p.kids[i]) <= IdsAll(p.kids)
  {
    InPreSelf(p.kids, i);
    IdsOfPreAll(p.kids, p.kids[i]);
  }

  lemma InPreSelf(ts: seq<Obj>, i: nat)
    requires i < |ts|
    ensures ts[i] in PreAll(ts)
  {
    InPreAll(ts, i, ts[i]);
  }

  lemma PrunedLabelled(t: Obj, doomed: Obj -> bool)
    requires Labelled(t)
    ensures Labelled(Prune(t, doomed))
  {
    forall q | q in Pre(Prune(t, doomed)) ensures (KidsWithin(Prune(t, doomed), q); q.id.lab == q.lab) {
      var p := PruneOrigin(t, doomed, q);
      KidsWithin(t, p);
    }
  }

  // ----- deleting while walking -----

  /** A deleted node, or a term whose value is the deletion mark. */
  predicate Deleted(x: Obj) {
    (x.lab.Node? && x.lab.kind == Delete) || (x.lab.Term? && |x.kids| == 1 && x.kids[0].lab.Del?)
  }

  /** Terms have one value, which is neither node nor term. */
  ghost predicate TermsOk(t: Obj) {
    forall x :: x in Pre(t) && x.lab.Term? ==> |x.kids| == 1 && !x.kids[0].lab.Node? && !x.kids[0].lab.Term?
  }

  /** Which objects the deletion keeps, and that none of them calls for another one. */
  lemma Undeleted(t: Obj)
    requires Distinct(t) && TermsOk(t) && !Deleted(t)
    ensures var left := Prune(t, Deleted);
            && (forall x :: x in Pre(left) && x != left ==>
                  && !(x.lab.Node? && x.lab.kind == Delete)
                  && !(x.lab.Term? && exists v :: v in x.kids && v.lab.Del?))
            && (forall x :: x in Pre(t) ==>
                  (x.id in Ids(left) <==>
                   forall y :: y in Pre(t) && y != t && x in Pre(y) ==>
                     && !(y.lab.Node? && y.lab.kind == Delete)
                     && !(y.lab.Term? && exists v :: v in y.kids && v.lab.Del?)))
  {
    var left := Prune(t, Deleted);
    forall y | y in Pre(t)
      ensures Deleted(y) <==> || (y.lab.Node? && y.lab.kind == Delete)
                              || (y.lab.Term? && exists v :: v in y.kids && v.lab.Del?)
    {
      assert y.lab.Term? ==> y.kids == [y.kids[0]];
    }
    hide Deleted, Prune, PruneAll, Pre, Ids;
    forall x | x in Pre(left) && x != left
      ensures !(x.lab.Node? && x.lab.kind == Delete) && !(x.lab.Term? && exists v :: v in x.kids && v.lab.Del?)
    {
      var p := PruneOrigin(t, Deleted, x);
      PrunedValue(t, p);
    }
    forall x | x in Pre(t)
      ensures x.id in Ids(left) <==>
              forall y :: y in Pre(t) && y != t && x in Pre(y) ==>
                && !(y.lab.Node? && y.lab.kind == Delete)
                && !(y.lab.Term? && exists v :: v in y.kids && v.lab.Del?)
    {
      PruneKeepsIff(t, Deleted, x);
    }
  }

  /** A term that is kept keeps its value. */
  lemma PrunedValue(t: Obj, p: Obj)
    requires TermsOk(t) && p in Pre(t)
    ensures var x := Prune(p, Deleted);
            x.lab == p.lab && (p.lab.Term? ==> forall v :: v in x.kids ==> exists w :: w in p.kids && w.lab == v.lab)
  {
    if p.lab.Term? {
      var ks := p.kids;
      assert ks[1..] == [];
      assert PruneAll(ks, Deleted) == (if Deleted(ks[0]) then [] else [Prune(ks[0], Deleted)]) + [];
    }
  }

  /** What the links at event `k` of a pruning walk are, and so where the walk goes. */
  lemma AtEvent(t: Obj, objs: set<AstObject>, doomed: Obj -> bool, k: nat) returns (p: Obj, i: nat)
    requires Distinct(t) && objs == Ids(t) && k < |Events(t)| && Wired(t, Gone(t, doomed, k))
    ensures var evs := Events(t);
            var x := evs[k].tree;
            && x in Pre(t) && x.id in objs && x.id !in Gone(t, doomed, k)
            && (Leaves(evs[k]) <==> evs[k].up || x.id.child == null)
            && (!Leaves(evs[k]) ==>
                  k + 1 < |evs| && x.id.child == evs[k + 1].tree.id && !evs[k + 1].up)
            && (Leaves(evs[k]) && k + 1 < |evs| ==>
                  && p in Pre(t) && i < |p.kids| && p.kids[i] == x && x != t && x.id != t.id
                  && p.id !in Gone(t, doomed, k) && p.id in objs && x.id.parent == p.id
                  && evs[k + 1] == (if i + 1 < |p.kids| then Event(p.kids[i + 1], false) else Event(p, true))
                  && x.id.next == if i + 1 < |p.kids| then p.kids[i + 1].id else null)
            && (Leaves(evs[k]) && k + 1 == |evs| ==> x == t)
  {
    var evs, gone := Events(t), Gone(t, doomed, k);
    var x := evs[k].tree;
    StillLinked(t, doomed, k);
    GoneGrows(t, doomed, k);
    LastEvent(t);
    KidsWithin(t, x);
    assert WiredAt(x, gone);
    p, i := t, 0;
    if Leaves(evs[k]) && k + 1 < |evs| {
      p, i := OnFrom(t, doomed, k);
      KidsWithin(t, p);
      KidIdIn(p, i);
      assert WiredAt(p, gone);
    }
  }

  /** Unlink child `i` of `p` within the whole tree. */
  method SeparateWithin(cur: AstObject, ghost t: Obj, ghost objs: set<AstObject>, ghost gone: set<AstObject>,
                        ghost p: Obj, ghost i: nat)
    requires Distinct(t) && objs == Ids(t) && Wired(t, gone) && cur !in gone
    requires p in Pre(t) && i < |p.kids| && p.kids[i].id == cur && p.id !in gone && p.id in objs
    modifies objs`child, objs`next
    ensures Wired(t, gone + {cur}) && cur.next == null
  {
    ghost var was := Snapshot(objs);
    forall q | q in Pre(t) ensures WiredThen(q, gone, was) {
      WiredNow(t, gone, objs, q);
    }
    DistinctKids(t, p);
    KidsWithin(t, p);
    assert WiredAt(p, gone);
    hide Wired, WiredAt, WiredThen, Pre, Ids, NextLive;
    cur.Separate(p, i, gone);
    SeparateKeeps(t, objs, p, i, gone, was);
  }

  /** An unlinked object may also let go of its own children. */
  lemma CutOffKeeps(t: Obj, objs: set<AstObject>, gone: set<AstObject>, was: map<AstObject, Links>)
    requires objs == Ids(t) && forall q :: q in Pre(t) ==> WiredThen(q, gone, was)
    requires forall o :: o in objs ==> o in was && o.parent == was[o].parent && o.next == was[o].next
                                       && (o !in gone ==> o.child == was[o].child)
    ensures Wired(t, gone)
  {
    forall q | q in Pre(t) ensures (KidsWithin(t, q); WiredAt(q, gone)) {
      KidsWithin(t, q);
      forall i | 0 <= i < |q.kids| ensures q.kids[i].id in objs {
        KidIdIn(q, i);
      }
    }
  }

  method Remove(cur: AstObject, ghost t: Obj, ghost objs: set<AstObject>, ghost gone: set<AstObject>,
                ghost p: Obj, ghost i: nat)
    requires Distinct(t) && objs == Ids(t) && Wired(t, gone) && cur !in gone && cur in objs
    requires p in Pre(t) && i < |p.kids| && p.kids[i].id == cur && p.id !in gone && p.id in objs
    modifies objs`child, objs`next
    ensures Wired(t, gone + {cur})
  {
    SeparateWithin(cur, t, objs, gone, p, i);
    ghost var was := Snapshot(objs);
    forall q | q in Pre(t) ensures WiredThen(q, gone + {cur}, was) {
      WiredNow(t, gone + {cur}, objs, q);
    }
    hide Wired, WiredAt, WiredThen, Pre, Ids, NextLive;
    cur.child := null;
    cur.next := null;
    CutOffKeeps(t, objs, gone + {cur}, was);
  }

  /** What the walk's callback looks at to decide whether the object being left is deleted. */
  method CheckDeleted(cur: AstObject, ghost t: Obj, ghost objs: set<AstObject>, ghost k: nat) returns (dead: bool)
    requires Distinct(t) && objs == Ids(t) && TermsOk(t) && Labelled(t)
    requires k < |Events(t)| && cur == Events(t)[k].tree.id && cur in objs && Wired(t, Gone(t, Deleted, k))
    ensures dead == Deleted(Events(t)[k].tree)
  {
    ghost var x, gone := Events(t)[k].tree, Gone(t, Deleted, k);
    StillLinked(t, Deleted, k);
    KidsWithin(t, x);
    assert WiredAt(x, gone) && cur.lab == x.lab;
    dead := false;
    if cur.lab.Node? {
      dead := cur.lab.kind == Delete;
    } else if cur.lab.Term? {
      ghost var v := x.kids[0];
      PreTrans(t, x, 0);
      KidsWithin(t, v);
      if v.id in gone {
        OnlyDoomedGone(t, Deleted, k, v);
      }
      assert cur.child == v.id && v.id.lab == v.lab;
      dead := cur.child.lab.Del?;
    }
  }

  /**
   The walk that drops deleted nodes and terms: backwards, with the next sibling and the parent
   saved before the current object is removed.
   */
  method NodeExpandDelete(root: AstObject, ghost t: Obj, ghost objs: set<AstObject>) returns (ghost visited: seq<Obj>)
    requires root == t.id && Distinct(t) && objs == Ids(t) && TermsOk(t) && !Deleted(t)
    requires Wired(t, {}) && Labelled(t)
    modifies objs`child, objs`next
    ensures visited == Post(t)
    ensures var left := Prune(t, Deleted);
            && Wired(left, {}) && Labelled(left) && Distinct(left) && Ids(left) <= objs
            && (forall x :: x in Pre(left) && x != left ==>
                  && !(x.lab.Node? && x.lab.kind == Delete)
                  && !(x.lab.Term? && exists v :: v in x.kids && v.lab.Del?))
            && (forall x :: x in Pre(t) ==>
                  (x.id in Ids(left) <==>
                   forall y :: y in Pre(t) && y != t && x in Pre(y) ==>
                     && !(y.lab.Node? && y.lab.kind == Delete)
                     && !(y.lab.Term? && exists v :: v in y.kids && v.lab.Del?)))
  {
    hide Wired, Labelled, TermsOk, Gone, Left, Entered, Events, Post, Deleted, Ids, Pre, Distinct;
    var cur: AstObject? := root;
    var next: AstObject?, parent: AstObject?, preVisited := null, null, false;
    ghost var k, evs := 0, Events(t);
    WalkStart(t, Deleted);
    visited := [];
    while cur != null
      invariant k < |evs| && cur == evs[k].tree.id && preVisited == evs[k].up
      invariant Wired(t, Gone(t, Deleted, k))
      invariant visited == Left(evs[..k])
      decreases |evs| - k
    {
      ghost var p, i := AtEvent(t, objs, Deleted, k);
      WalkStep(evs, k);
      GoneGrows(t, Deleted, k);
      if cur.child == null || preVisited {
        next, parent := cur.next, cur.parent;
        visited := visited + [evs[k].tree];
        var dead := CheckDeleted(cur, t, objs, k);
        if dead {
          Remove(cur, t, objs, Gone(t, Deleted, k), p, i);
        }
      } else {
        cur := cur.child;
        k := k + 1;
        continue;
      }
      if cur == root {
        break;
      }
      if next != null {
        cur, preVisited := next, false;
      } else {
        cur, preVisited := parent, true;
      }
      k := k + 1;
    }
    WalkEnd(t);
    PrunedWired(t, Deleted);
    PrunedLabelled(t, Deleted);
    PrunedDistinct(t, Deleted);
    Undeleted(t);
  }
}
