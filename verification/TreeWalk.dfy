/**
 The itinerary of the iterative tree walks: the sequence of (object, coming back up?) pairs the
 loop variables go through, and what the next pair is.
 */
module TreeWalk {
  import opened Bytes
  import opened HcsTree

  datatype Event<Id> = Event(tree: Tree<Id>, up: bool)

  function Events<Id>(t: Tree<Id>): (r: seq<Event<Id>>)
    ensures r != [] && r[0] == Event(t, false)
    decreases t, |t.kids| + 1
  {
    [Event(t, false)] + if t.kids == [] then [] else KidEvents(t, 0)
  }

  /** From entering child `a` of `p` until coming back up to `p`. */
  function KidEvents<Id>(p: Tree<Id>, a: nat): (r: seq<Event<Id>>)
    requires a <= |p.kids|
    ensures r != [] && r[0] == if a < |p.kids| then Event(p.kids[a], false) else Event(p, true)
    decreases p, |p.kids| - a
  {
    if a == |p.kids| then [Event(p, true)] else Events(p.kids[a]) + KidEvents(p, a + 1)
  }

  /** The event at which a walk is done with an object: the only one of a leaf, the second of a parent. */
  predicate Leaves<Id>(e: Event<Id>) {
    e.up || e.tree.kids == []
  }

  lemma {:induction false} LastEvent<Id>(t: Tree<Id>)
    ensures Events(t)[|Events(t)| - 1] == Event(t, t.kids != [])
  {
    if t.kids == [] {
    } else {
      LastKidEvent(t, 0);
    }
  }

  lemma {:induction false} LastKidEvent<Id>(p: Tree<Id>, a: nat)
    requires a <= |p.kids|
    ensures KidEvents(p, a)[|KidEvents(p, a)| - 1] == Event(p, true)
    decreases |p.kids| - a
  {
    if a < |p.kids| {
      LastKidEvent(p, a + 1);
    }
  }

  /** Where a walk goes from an event: down to the first child, or on to the next child of a parent. */
  datatype Move<Id> = Down | On(parent: Tree<Id>, index: nat)

  ghost predicate MoveOk<Id>(root: Tree<Id>, evs: seq<Event<Id>>, k: nat, m: Move<Id>)
    requires k < |evs|
  {
    match m
    case Down => !Leaves(evs[k]) && KidEvents(evs[k].tree, 0) <= evs[k + 1..]
    case On(p, i) =>
      && Leaves(evs[k]) && p in Pre(root) && i < |p.kids| && p.kids[i] == evs[k].tree
      && KidEvents(p, i + 1) <= evs[k + 1..]
  }

  lemma {:induction false} InPre<Id>(t: Tree<Id>, x: Tree<Id>, i: nat, y: Tree<Id>)
    requires i < |t.kids| && y in Pre(t.kids[i])
    ensures y in Pre(t)
  {
    InPreAll(t.kids, i, y);
  }

  lemma {:induction false} InPreAll<Id>(ts: seq<Tree<Id>>, i: nat, y: Tree<Id>)
    requires i < |ts| && y in Pre(ts[i])
    ensures y in PreAll(ts)
  {
    if i == 0 {
    } else {
      InPreAll(ts[1..], i - 1, y);
    }
  }

  lemma SuffixRight<T>(a: seq<T>, b: seq<T>, k: nat, x: seq<T>)
    requires k < |b| && x <= b[k + 1..]
    ensures x <= (a + b)[|a| + k + 1..]
  {
    assert (a + b)[|a| + k + 1..] == b[k + 1..];
  }

  /** Every event but the last has a next one, reached by one of the two moves. */
  lemma {:induction false} NextMove<Id>(t: Tree<Id>, k: nat) returns (m: Move<Id>)
    requires k + 1 < |Events(t)|
    ensures MoveOk(t, Events(t), k, m)
    decreases t, |t.kids| + 1
  {
    if k == 0 {
      m := Down;
      assert Events(t)[1..] == KidEvents(t, 0);
    } else {
      m := NextKidMove(t, 0, k - 1);
      SuffixRight([Event(t, false)], KidEvents(t, 0), k - 1,
                  if m.Down? then KidEvents(Events(t)[k].tree, 0) else KidEvents(m.parent, m.index + 1));
    }
  }

  lemma {:induction false} NextKidMove<Id>(p: Tree<Id>, a: nat, k: nat) returns (m: Move<Id>)
    requires a <= |p.kids| && k + 1 < |KidEvents(p, a)|
    ensures MoveOk(p, KidEvents(p, a), k, m)
    decreases p, |p.kids| - a
  {
    var first, rest := Events(p.kids[a]), KidEvents(p, a + 1);
    if k + 1 < |first| {
      m := NextMove(p.kids[a], k);
      MoveInFirst(p, a, k, m);
    } else if k + 1 == |first| {
      LastEvent(p.kids[a]);
      m := On(p, a);
      assert (first + rest)[k + 1..] == rest;
    } else {
      m := NextKidMove(p, a + 1, k - |first|);
      MoveInRest(p, a, k, m);
    }
  }

  lemma KidEventsFrom<Id>(p: Tree<Id>, a: nat)
    requires a < |p.kids|
    ensures KidEvents(p, a) == Events(p.kids[a]) + KidEvents(p, a + 1)
  {
  }

  /** A move stays good when the events get company before and behind. */
  lemma MoveStays<Id>(root: Tree<Id>, evs: seq<Event<Id>>, k: nat, m: Move<Id>,
                      root': Tree<Id>, evs': seq<Event<Id>>, k': nat, more: seq<Event<Id>>)
    requires k < |evs| && MoveOk(root, evs, k, m)
    requires k' < |evs'| && evs'[k'] == evs[k] && evs'[k' + 1..] == evs[k + 1..] + more
    requires m.On? ==> m.parent in Pre(root')
    ensures MoveOk(root', evs', k', m)
  {
    hide Pre, KidEvents;
  }

  lemma MoveParent<Id>(root: Tree<Id>, evs: seq<Event<Id>>, k: nat, m: Move<Id>)
    requires k < |evs| && MoveOk(root, evs, k, m)
    ensures m.On? ==> m.parent in Pre(root)
  {
    hide Pre, KidEvents;
  }

  lemma MoveInFirst<Id>(p: Tree<Id>, a: nat, k: nat, m: Move<Id>)
    requires a < |p.kids| && k + 1 < |Events(p.kids[a])| && MoveOk(p.kids[a], Events(p.kids[a]), k, m)
    ensures MoveOk(p, KidEvents(p, a), k, m)
  {
    hide *;
    KidEventsFrom(p, a);
    MoveParent(p.kids[a], Events(p.kids[a]), k, m);
    if m.On? {
      InPre(p, p, a, m.parent);
    }
    var first, rest := Events(p.kids[a]), KidEvents(p, a + 1);
    assert (first + rest)[k + 1..] == first[k + 1..] + rest;
    MoveStays(p.kids[a], first, k, m, p, first + rest, k, rest);
  }

  lemma MoveInRest<Id>(p: Tree<Id>, a: nat, k: nat, m: Move<Id>)
    requires a < |p.kids| && |Events(p.kids[a])| <= k && k - |Events(p.kids[a])| + 1 < |KidEvents(p, a + 1)|
    requires MoveOk(p, KidEvents(p, a + 1), k - |Events(p.kids[a])|, m)
    ensures k < |KidEvents(p, a)| && MoveOk(p, KidEvents(p, a), k, m)
  {
    hide *;
    KidEventsFrom(p, a);
    var first, rest := Events(p.kids[a]), KidEvents(p, a + 1);
    var n := k - |first|;
    MoveParent(p, rest, n, m);
    assert (first + rest)[k + 1..] == rest[n + 1..] + [];
    MoveStays(p, rest, n, m, p, first + rest, k, []);
  }

  // ----- identities -----

  ghost function Ids<Id>(t: Tree<Id>): set<Id> {
    {t.id} + IdsAll(t.kids)
  }

  ghost function IdsAll<Id>(ts: seq<Tree<Id>>): set<Id> {
    if ts == [] then {} else Ids(ts[0]) + IdsAll(ts[1..])
  }

  /** No object occurs twice in the tree. */
  ghost predicate Distinct<Id>(t: Tree<Id>) {
    t.id !in IdsAll(t.kids) && DistinctAll(t.kids)
  }

  ghost predicate DistinctAll<Id>(ts: seq<Tree<Id>>) {
    ts == [] || (Distinct(ts[0]) && DistinctAll(ts[1..]) && Ids(ts[0]) !! IdsAll(ts[1..]))
  }

  lemma {:induction false} IdsOfPre<Id>(t: Tree<Id>, x: Tree<Id>)
    requires x in Pre(t)
    ensures x.id in Ids(t) && Ids(x) <= Ids(t)
  {
    if x != t {
      IdsOfPreAll(t.kids, x);
    }
  }

  lemma {:induction false} IdsOfPreAll<Id>(ts: seq<Tree<Id>>, x: Tree<Id>)
    requires x in PreAll(ts)
    ensures x.id in IdsAll(ts) && Ids(x) <= IdsAll(ts)
  {
    if x in Pre(ts[0]) {
      IdsOfPre(ts[0], x);
    } else {
      IdsOfPreAll(ts[1..], x);
    }
  }

  /** In a tree without repetition an object stands at one place. */
  lemma {:induction false} IdUnique<Id>(t: Tree<Id>, x: Tree<Id>, y: Tree<Id>)
    requires Distinct(t) && x in Pre(t) && y in Pre(t) && x.id == y.id
    ensures x == y
  {
    if x == t || y == t {
      if x != t { IdsOfPreAll(t.kids, x); }
      if y != t { IdsOfPreAll(t.kids, y); }
    } else {
      IdUniqueAll(t.kids, x, y);
    }
  }

  lemma {:induction false} IdUniqueAll<Id>(ts: seq<Tree<Id>>, x: Tree<Id>, y: Tree<Id>)
    requires DistinctAll(ts) && x in PreAll(ts) && y in PreAll(ts) && x.id == y.id
    ensures x == y
  {
    var first, rest := Pre(ts[0]), PreAll(ts[1..]);
    if x in first { IdsOfPre(ts[0], x); } else { IdsOfPreAll(ts[1..], x); }
    if y in first { IdsOfPre(ts[0], y); } else { IdsOfPreAll(ts[1..], y); }
    if x in first && y in first {
      IdUnique(ts[0], x, y);
    } else if x !in first && y !in first {
      IdUniqueAll(ts[1..], x, y);
    }
  }

  lemma {:induction false} PreTrans<Id>(t: Tree<Id>, x: Tree<Id>, i: nat)
    requires x in Pre(t) && i < |x.kids|
    ensures x.kids[i] in Pre(t)
  {
    if x == t {
      InPre(t, x, i, x.kids[i]);
    } else {
      PreTransAll(t.kids, x, i);
    }
  }

  lemma {:induction false} PreTransAll<Id>(ts: seq<Tree<Id>>, x: Tree<Id>, i: nat)
    requires x in PreAll(ts) && i < |x.kids|
    ensures x.kids[i] in PreAll(ts)
  {
    if x in Pre(ts[0]) {
      PreTrans(ts[0], x, i);
    } else {
      PreTransAll(ts[1..], x, i);
    }
  }

  // ----- every object is left exactly once, children before parents -----

  lemma {:induction false} EventsInPre<Id>(t: Tree<Id>, k: nat)
    requires k < |Events(t)|
    ensures Events(t)[k].tree in Pre(t)
    decreases t, |t.kids| + 1
  {
    if k == 0 {
    } else {
      KidEventsInPre(t, 0, k - 1);
    }
  }

  lemma {:induction false} KidEventsInPre<Id>(p: Tree<Id>, a: nat, k: nat)
    requires a <= |p.kids| && k < |KidEvents(p, a)|
    ensures KidEvents(p, a)[k].tree in Pre(p)
    ensures KidEvents(p, a)[k] == Event(p, true) || KidEvents(p, a)[k].tree.id in IdsAll(p.kids[a..])
    decreases p, |p.kids| - a
  {
    if a < |p.kids| {
      var first := Events(p.kids[a]);
      if k < |first| {
        EventsInPre(p.kids[a], k);
        InPre(p, p, a, first[k].tree);
        IdsOfPre(p.kids[a], first[k].tree);
      } else {
        KidEventsInPre(p, a + 1, k - |first|);
        assert p.kids[a..][1..] == p.kids[a + 1..];
      }
    }
  }

  lemma {:induction false} LeaveOnce<Id>(t: Tree<Id>, j: nat, k: nat)
    requires Distinct(t) && j < k < |Events(t)| && Leaves(Events(t)[j]) && Leaves(Events(t)[k])
    ensures Events(t)[j].tree.id != Events(t)[k].tree.id
    decreases t, |t.kids| + 1
  {
    if j == 0 {
    } else {
      assert t.kids[0..] == t.kids;
      LeaveOnceKids(t, 0, j - 1, k - 1);
    }
  }

  lemma {:induction false} LeaveOnceKids<Id>(p: Tree<Id>, a: nat, j: nat, k: nat)
    requires a <= |p.kids| && p.id !in IdsAll(p.kids[a..]) && DistinctAll(p.kids[a..])
    requires j < k < |KidEvents(p, a)| && Leaves(KidEvents(p, a)[j]) && Leaves(KidEvents(p, a)[k])
    ensures KidEvents(p, a)[j].tree.id != KidEvents(p, a)[k].tree.id
    decreases p, |p.kids| - a
  {
    var first, rest := Events(p.kids[a]), KidEvents(p, a + 1);
    assert p.kids[a..][1..] == p.kids[a + 1..];
    if k < |first| {
      LeaveOnce(p.kids[a], j, k);
    } else if j < |first| {
      EventsInPre(p.kids[a], j);
      IdsOfPre(p.kids[a], first[j].tree);
      KidEventsInPre(p, a + 1, k - |first|);
    } else {
      LeaveOnceKids(p, a + 1, j - |first|, k - |first|);
    }
  }

  /** The objects a walk is done with, in the order it is. */
  ghost function Left<Id>(evs: seq<Event<Id>>): seq<Tree<Id>> {
    if evs == [] then [] else LeftAt(evs[0]) + Left(evs[1..])
  }

  ghost function LeftAt<Id>(e: Event<Id>): seq<Tree<Id>> {
    if Leaves(e) then [e.tree] else []
  }

  ghost function EnteredAt<Id>(e: Event<Id>): seq<Tree<Id>> {
    if e.up then [] else [e.tree]
  }

  /** The objects a walk enters, in the order it does. */
  ghost function Entered<Id>(evs: seq<Event<Id>>): seq<Tree<Id>> {
    if evs == [] then [] else EnteredAt(evs[0]) + Entered(evs[1..])
  }

  function Post<Id>(t: Tree<Id>): seq<Tree<Id>> {
    PostAll(t.kids) + [t]
  }

  function PostAll<Id>(ts: seq<Tree<Id>>): seq<Tree<Id>> {
    if ts == [] then [] else Post(ts[0]) + PostAll(ts[1..])
  }

  lemma {:induction false} LeftConcat<Id>(a: seq<Event<Id>>, b: seq<Event<Id>>)
    ensures Left(a + b) == Left(a) + Left(b) && Entered(a + b) == Entered(a) + Entered(b)
  {
    if a == [] {
      assert a + b == b;
    } else {
      hide Leaves, LeftAt, EnteredAt;
      assert (a + b)[1..] == a[1..] + b;
      LeftConcat(a[1..], b);
      ConcatAssoc(LeftAt(a[0]), Left(a[1..]), Left(b));
      ConcatAssoc(EnteredAt(a[0]), Entered(a[1..]), Entered(b));
    }
  }

  /** A walk enters every object in pre-order and is done with every object in post-order. */
  lemma {:induction false} WalkOrders<Id>(t: Tree<Id>)
    ensures Left(Events(t)) == Post(t) && Entered(Events(t)) == Pre(t)
    decreases t, |t.kids| + 1
  {
    if t.kids == [] {
      assert Events(t) == [Event(t, false)];
      assert Events(t)[1..] == [];
    } else {
      WalkOrdersKids(t, 0);
      assert t.kids[0..] == t.kids;
      assert Events(t)[1..] == KidEvents(t, 0);
    }
  }

  lemma {:induction false} WalkOrdersKids<Id>(p: Tree<Id>, a: nat)
    requires a <= |p.kids|
    ensures Left(KidEvents(p, a)) == PostAll(p.kids[a..]) + [p]
    ensures Entered(KidEvents(p, a)) == PreAll(p.kids[a..])
    decreases p, |p.kids| - a
  {
    if a == |p.kids| {
      assert KidEvents(p, a) == [Event(p, true)];
      assert KidEvents(p, a)[1..] == [];
    } else {
      WalkOrders(p.kids[a]);
      WalkOrdersKids(p, a + 1);
      LeftConcat(Events(p.kids[a]), KidEvents(p, a + 1));
      assert p.kids[a..][1..] == p.kids[a + 1..];
      ConcatAssoc(Post(p.kids[a]), PostAll(p.kids[a + 1..]), [p]);
    }
  }

  // ----- pruning while walking -----

  /** The doomed objects a walk is already done with, after its first `k` events; never the root. */
  ghost function Gone<Id>(t: Tree<Id>, doomed: Tree<Id> -> bool, k: nat): set<Id>
    requires k <= |Events(t)|
  {
    set j | 0 <= j < k && Leaves(Events(t)[j]) && doomed(Events(t)[j].tree) && Events(t)[j].tree != t
      :: Events(t)[j].tree.id
  }

  lemma NotGoneYet<Id>(t: Tree<Id>, doomed: Tree<Id> -> bool, k: nat, j: nat)
    requires Distinct(t) && k <= j < |Events(t)| && Leaves(Events(t)[j])
    ensures Events(t)[j].tree.id !in Gone(t, doomed, k)
  {
    forall i | 0 <= i < k && Leaves(Events(t)[i]) ensures Events(t)[i].tree.id != Events(t)[j].tree.id {
      LeaveOnce(t, i, j);
    }
  }

  lemma GoneGrows<Id>(t: Tree<Id>, doomed: Tree<Id> -> bool, k: nat)
    requires k < |Events(t)|
    ensures var e := Events(t)[k];
            Gone(t, doomed, k + 1) ==
            if Leaves(e) && doomed(e.tree) && e.tree != t then Gone(t, doomed, k) + {e.tree.id} else Gone(t, doomed, k)
  {
    assert Gone(t, doomed, k) <= Gone(t, doomed, k + 1);
  }

  lemma OnlyDoomedGone<Id>(t: Tree<Id>, doomed: Tree<Id> -> bool, k: nat, x: Tree<Id>)
    requires Distinct(t) && x in Pre(t) && k <= |Events(t)| && x.id in Gone(t, doomed, k)
    ensures doomed(x) && x != t
  {
    var j :| 0 <= j < k && Leaves(Events(t)[j]) && doomed(Events(t)[j].tree) && Events(t)[j].tree != t
             && Events(t)[j].tree.id == x.id;
    EventsInPre(t, j);
    IdUnique(t, x, Events(t)[j].tree);
  }

  /** The walk will still leave `p`, and the child it comes to, after event `k`. */
  lemma StillAhead<Id>(t: Tree<Id>, doomed: Tree<Id> -> bool, k: nat, p: Tree<Id>, a: nat)
    requires Distinct(t) && k < |Events(t)| && a <= |p.kids| && KidEvents(p, a) <= Events(t)[k + 1..]
    ensures k + 1 < |Events(t)| && Events(t)[k + 1] == if a < |p.kids| then Event(p.kids[a], false) else Event(p, true)
    ensures p.id !in Gone(t, doomed, k + 1)
    ensures a < |p.kids| ==> p.kids[a].id !in Gone(t, doomed, k + 1)
  {
    var tour := KidEvents(p, a);
    assert forall i :: 0 <= i < |tour| ==> tour[i] == Events(t)[k + 1..][i] == Events(t)[k + 1 + i];
    LastKidEvent(p, a);
    NotGoneYet(t, doomed, k + 1, k + |tour|);
    if a < |p.kids| {
      LastEvent(p.kids[a]);
      NotGoneYet(t, doomed, k + 1, k + |Events(p.kids[a])|);
    }
  }

  /** An event's object is still linked, and so is the child a walk goes down to. */
  lemma StillLinked<Id>(t: Tree<Id>, doomed: Tree<Id> -> bool, k: nat)
    requires Distinct(t) && k < |Events(t)|
    ensures Events(t)[k].tree in Pre(t) && Events(t)[k].tree.id !in Gone(t, doomed, k)
    ensures !Leaves(Events(t)[k]) ==> Events(t)[k].tree.kids[0].id !in Gone(t, doomed, k)
    ensures !Leaves(Events(t)[k]) ==>
              k + 1 < |Events(t)| && Events(t)[k + 1] == Event(Events(t)[k].tree.kids[0], false)
  {
    EventsInPre(t, k);
    LastEvent(t);
    GoneGrows(t, doomed, k);
    if Leaves(Events(t)[k]) {
      NotGoneYet(t, doomed, k, k);
    } else {
      var m := NextMove(t, k);
      StillAhead(t, doomed, k, Events(t)[k].tree, 0);
    }
  }

  /** An object being left before the end of the walk is some child; the walk goes on from there. */
  lemma OnFrom<Id>(t: Tree<Id>, doomed: Tree<Id> -> bool, k: nat) returns (p: Tree<Id>, i: nat)
    requires Distinct(t) && k + 1 < |Events(t)| && Leaves(Events(t)[k])
    ensures p in Pre(t) && i < |p.kids| && p.kids[i] == Events(t)[k].tree && Events(t)[k].tree != t
    ensures Events(t)[k].tree.id != t.id
    ensures p.id !in Gone(t, doomed, k + 1)
    ensures Events(t)[k + 1] == if i + 1 < |p.kids| then Event(p.kids[i + 1], false) else Event(p, true)
    ensures i + 1 < |p.kids| ==> p.kids[i + 1].id !in Gone(t, doomed, k + 1)
  {
    var m := NextMove(t, k);
    p, i := m.parent, m.index;
    StillAhead(t, doomed, k, p, i + 1);
    LastEvent(t);
    LeaveOnce(t, k, |Events(t)| - 1);
  }

  /** At the end exactly the doomed objects below the root are gone. */
  lemma GoneAtEnd<Id>(t: Tree<Id>, doomed: Tree<Id> -> bool, x: Tree<Id>)
    requires Distinct(t) && x in Pre(t)
    ensures x.id in Gone(t, doomed, |Events(t)|) <==> doomed(x) && x != t
  {
    if doomed(x) && x != t {
      var j := LeftSomewhere(t, x);
    } else if x.id in Gone(t, doomed, |Events(t)|) {
      OnlyDoomedGone(t, doomed, |Events(t)|, x);
    }
  }

  lemma {:induction false} LeftSomewhere<Id>(t: Tree<Id>, x: Tree<Id>) returns (j: nat)
    requires x in Pre(t)
    ensures j < |Events(t)| && Events(t)[j].tree == x && Leaves(Events(t)[j])
    decreases t, |t.kids| + 1
  {
    if x == t {
      LastEvent(t);
      j := |Events(t)| - 1;
    } else {
      assert t.kids[0..] == t.kids;
      j := LeftSomewhereKids(t, 0, x);
      j := j + 1;
    }
  }

  lemma {:induction false} LeftSomewhereKids<Id>(p: Tree<Id>, a: nat, x: Tree<Id>) returns (j: nat)
    requires a <= |p.kids| && x in PreAll(p.kids[a..])
    ensures j < |KidEvents(p, a)| && KidEvents(p, a)[j].tree == x && Leaves(KidEvents(p, a)[j])
    decreases p, |p.kids| - a
  {
    assert p.kids[a..][1..] == p.kids[a + 1..];
    if x in Pre(p.kids[a]) {
      j := LeftSomewhere(p.kids[a], x);
    } else {
      j := LeftSomewhereKids(p, a + 1, x);
      j := j + |Events(p.kids[a])|;
    }
  }

  /** The tree without its doomed subtrees. */
  ghost function Prune<Id>(t: Tree<Id>, doomed: Tree<Id> -> bool): Tree<Id> {
    Tree(t.id, t.lab, PruneAll(t.kids, doomed))
  }

  ghost function PruneAll<Id>(ts: seq<Tree<Id>>, doomed: Tree<Id> -> bool): seq<Tree<Id>> {
    if ts == [] then []
    else (if doomed(ts[0]) then [] else [Prune(ts[0], doomed)]) + PruneAll(ts[1..], doomed)
  }

  /** Every node of the pruned tree is a surviving node of the original, pruned. */
  lemma {:induction false} PruneOrigin<Id>(t: Tree<Id>, doomed: Tree<Id> -> bool, q: Tree<Id>) returns (p: Tree<Id>)
    requires q in Pre(Prune(t, doomed))
    ensures p in Pre(t) && q == Prune(p, doomed) && (p == t || !doomed(p))
  {
    if q == Prune(t, doomed) {
      p := t;
    } else {
      p := PruneOriginAll(t.kids, doomed, q);
    }
  }

  lemma {:induction false} PruneOriginAll<Id>(ts: seq<Tree<Id>>, doomed: Tree<Id> -> bool, q: Tree<Id>)
    returns (p: Tree<Id>)
    requires q in PreAll(PruneAll(ts, doomed))
    ensures p in PreAll(ts) && q == Prune(p, doomed) && !doomed(p)
  {
    var rest := PruneAll(ts[1..], doomed);
    if doomed(ts[0]) {
      assert PruneAll(ts, doomed) == rest;
      p := PruneOriginAll(ts[1..], doomed, q);
    } else {
      assert PruneAll(ts, doomed)[1..] == rest;
      if q in Pre(Prune(ts[0], doomed)) {
        p := PruneOrigin(ts[0], doomed, q);
      } else {
        p := PruneOriginAll(ts[1..], doomed, q);
      }
    }
  }

  lemma {:induction false} PrunedDistinct<Id>(t: Tree<Id>, doomed: Tree<Id> -> bool)
    requires Distinct(t)
    ensures Distinct(Prune(t, doomed)) && Ids(Prune(t, doomed)) <= Ids(t)
  {
    PrunedDistinctAll(t.kids, doomed);
  }

  lemma {:induction false} PrunedDistinctAll<Id>(ts: seq<Tree<Id>>, doomed: Tree<Id> -> bool)
    requires DistinctAll(ts)
    ensures DistinctAll(PruneAll(ts, doomed)) && IdsAll(PruneAll(ts, doomed)) <= IdsAll(ts)
  {
    if ts == [] {
    } else {
      PrunedDistinctAll(ts[1..], doomed);
      var rest := PruneAll(ts[1..], doomed);
      if doomed(ts[0]) {
        assert PruneAll(ts, doomed) == rest;
      } else {
        PrunedDistinct(ts[0], doomed);
        assert PruneAll(ts, doomed)[1..] == rest;
      }
    }
  }

  /** An object survives exactly if neither it nor any ancestor of it below the root is doomed. */
  lemma {:induction false} PruneKeepsIff<Id>(t: Tree<Id>, doomed: Tree<Id> -> bool, x: Tree<Id>)
    requires Distinct(t) && x in Pre(t)
    ensures x.id in Ids(Prune(t, doomed)) <==> forall y :: y in Pre(t) && y != t && x in Pre(y) ==> !doomed(y)
  {
    PrunedDistinctAll(t.kids, doomed);
    forall y | y in PreAll(t.kids) ensures y != t && t !in Pre(y) {
      IdsOfPreAll(t.kids, y);
      if t in Pre(y) {
        IdsOfPre(y, t);
      }
    }
    if x != t {
      IdsOfPreAll(t.kids, x);
      PruneKeepsIffAll(t.kids, doomed, x);
    }
  }

  lemma {:induction false} PruneKeepsIffAll<Id>(ts: seq<Tree<Id>>, doomed: Tree<Id> -> bool, x: Tree<Id>)
    requires DistinctAll(ts) && x in PreAll(ts)
    ensures x.id in IdsAll(PruneAll(ts, doomed)) <==> forall y :: y in PreAll(ts) && x in Pre(y) ==> !doomed(y)
  {
    var first, rest := ts[0], ts[1..];
    PruneAllIds(ts, doomed);
    PrunedDistinct(first, doomed);
    PrunedDistinctAll(rest, doomed);
    if x in Pre(first) {
      IdsOfPre(first, x);
      forall y | y in PreAll(rest) ensures x !in Pre(y) {
        IdsOfPreAll(rest, y);
        if x in Pre(y) {
          IdsOfPre(y, x);
        }
      }
      PruneKeepsIff(first, doomed, x);
    } else {
      IdsOfPreAll(rest, x);
      forall y | y in Pre(first) ensures x !in Pre(y) {
        IdsOfPre(first, y);
        if x in Pre(y) {
          IdsOfPre(y, x);
        }
      }
      PruneKeepsIffAll(rest, doomed, x);
    }
  }

  lemma PruneAllIds<Id>(ts: seq<Tree<Id>>, doomed: Tree<Id> -> bool)
    requires ts != []
    ensures IdsAll(PruneAll(ts, doomed)) ==
            (if doomed(ts[0]) then {} else Ids(Prune(ts[0], doomed))) + IdsAll(PruneAll(ts[1..], doomed))
  {
    var rest := PruneAll(ts[1..], doomed);
    if doomed(ts[0]) {
      assert PruneAll(ts, doomed) == rest;
    } else {
      assert PruneAll(ts, doomed)[1..] == rest;
    }
  }

  /** Every child of a pruned node stands for a surviving child, with the same ones behind it. */
  lemma {:induction false} PruneIndex<Id>(ts: seq<Tree<Id>>, doomed: Tree<Id> -> bool, b: nat) returns (a: nat)
    requires b < |PruneAll(ts, doomed)|
    ensures a < |ts| && !doomed(ts[a]) && PruneAll(ts, doomed)[b] == Prune(ts[a], doomed)
    ensures PruneAll(ts, doomed)[b + 1..] == PruneAll(ts[a + 1..], doomed)
  {
    var rest := PruneAll(ts[1..], doomed);
    if doomed(ts[0]) {
      assert PruneAll(ts, doomed) == rest;
      a := PruneIndex(ts[1..], doomed, b);
      assert ts[1..][a + 1..] == ts[a + 2..];
      a := a + 1;
    } else if b == 0 {
      a := 0;
    } else {
      a := PruneIndex(ts[1..], doomed, b - 1);
      assert ts[1..][a + 1..] == ts[a + 2..];
      assert PruneAll(ts, doomed)[b + 1..] == rest[b..];
      a := a + 1;
    }
  }

  lemma WalkStart<Id>(t: Tree<Id>, doomed: Tree<Id> -> bool)
    ensures Gone(t, doomed, 0) == {} && Left(Events(t)[..0]) == [] && Entered(Events(t)[..0]) == []
  {
  }

  lemma WalkStep<Id>(evs: seq<Event<Id>>, k: nat)
    requires k < |evs|
    ensures Left(evs[..k + 1]) == Left(evs[..k]) + LeftAt(evs[k])
    ensures Entered(evs[..k + 1]) == Entered(evs[..k]) + EnteredAt(evs[k])
  {
    LeftConcat(evs[..k], [evs[k]]);
    assert evs[..k + 1] == evs[..k] + [evs[k]];
    assert [evs[k]][1..] == [];
    assert Left([evs[k]]) == LeftAt(evs[k]) + [] && Entered([evs[k]]) == EnteredAt(evs[k]) + [];
  }

  lemma WalkEnd<Id>(t: Tree<Id>)
    ensures Left(Events(t)[..|Events(t)|]) == Post(t) && Entered(Events(t)[..|Events(t)|]) == Pre(t)
  {
    WalkOrders(t);
    assert Events(t)[..|Events(t)|] == Events(t);
  }

  // ----- children are left before their parent -----

  lemma {:induction false} KidLeft<Id>(t: Tree<Id>, k: nat, i: nat) returns (j: nat)
    requires k < |Events(t)| && Leaves(Events(t)[k]) && i < |Events(t)[k].tree.kids|
    ensures j < k && Leaves(Events(t)[j]) && Events(t)[j].tree == Events(t)[k].tree.kids[i]
    decreases t, |t.kids| + 1
  {
    j := KidLeftKids(t, 0, k - 1, i);
    j := j + 1;
  }

  lemma {:induction false} KidLeftKids<Id>(p: Tree<Id>, a: nat, k: nat, i: nat) returns (j: nat)
    requires a <= |p.kids| && k < |KidEvents(p, a)| && Leaves(KidEvents(p, a)[k])
    requires i < |KidEvents(p, a)[k].tree.kids| && (k + 1 == |KidEvents(p, a)| ==> a <= i)
    ensures j < k && Leaves(KidEvents(p, a)[j]) && KidEvents(p, a)[j].tree == KidEvents(p, a)[k].tree.kids[i]
    decreases p, |p.kids| - a
  {
    LastKidEvent(p, a);
    var first, rest := Events(p.kids[a]), KidEvents(p, a + 1);
    LastEvent(p.kids[a]);
    if k < |first| {
      j := KidLeft(p.kids[a], k, i);
    } else if k + 1 == |first| + |rest| && i == a {
      j := |first| - 1;
    } else {
      j := KidLeftKids(p, a + 1, k - |first|, i);
      j := j + |first|;
    }
  }
}
