/** Linked objects for a tree that is read: each object is made and then linked to its parent, in order. */
module HcsBuild {
  import opened HcsTree
  import opened TreeWalk
  import opened AstHeap
  import opened AstLink

  /** The label of an object made for a label that was read; a reference waits for its target. */
  function LabelOf<Id>(l: Label<Id>, self: AstObject): Label<AstObject> {
    match l
    case Num(w, v) => Num(w, v)
    case Str(text) => Str(text)
    case Arr => Arr
    case Ref(_) => Ref(self)
    case Del => Del
    case Term(name) => Term(name)
    case Node(name, kind) => Node(name, kind)
  }

  /** The objects' tree says what the tree that was read says, and arrays know how many elements they have. */
  ghost predicate Built<Id>(t: Tree<Id>, u: Obj)
    reads Ids(u)`arraySize
  {
    && u.lab == LabelOf(t.lab, u.id) && (u.lab.Arr? ==> u.id.arraySize == |u.kids| % 0x1_0000)
    && BuiltAll(t.kids, u.kids)
  }

  ghost predicate BuiltAll<Id>(ts: seq<Tree<Id>>, us: seq<Obj>)
    reads IdsAll(us)`arraySize
  {
    if ts == [] then us == [] else us != [] && Built(ts[0], us[0]) && BuiltAll(ts[1..], us[1..])
  }

  lemma {:induction false} BuiltMore<Id>(ts: seq<Tree<Id>>, us: seq<Obj>, t: Tree<Id>, u: Obj)
    requires BuiltAll(ts, us) && Built(t, u)
    ensures BuiltAll(ts + [t], us + [u])
  {
    hide Built;
    if ts == [] {
      assert us == [] && ([t] + [])[1..] == [] && ts + [t] == [t] && us + [u] == [u];
    } else {
      assert (ts + [t])[1..] == ts[1..] + [t] && (us + [u])[1..] == us[1..] + [u];
      BuiltMore(ts[1..], us[1..], t, u);
    }
  }

  // ----- an object that is being made -----

  /** The object for a label, with objects for the children read so far linked below it. */
  ghost predicate Growing<Id>(o: AstObject, lab: Label<Id>, ts: seq<Tree<Id>>, us: seq<Obj>, objs: set<AstObject>)
    reads o`lab, o`child, o`next, o`arraySize
    reads IdsAll(us)`lab, IdsAll(us)`child, IdsAll(us)`next, IdsAll(us)`parent, IdsAll(us)`arraySize
  {
    && Target(o, us) && BuiltAll(ts, us) && objs == {o} + IdsAll(us)
    && o.next == null && o.lab == LabelOf(lab, o) && (o.lab.Arr? ==> o.arraySize == |us| % 0x1_0000)
  }

  /** A finished object and all those below it. */
  ghost predicate Made<Id>(t: Tree<Id>, o: AstObject, u: Obj, objs: set<AstObject>)
    reads o`next, Ids(u)`lab, Ids(u)`child, Ids(u)`next, Ids(u)`parent, Ids(u)`arraySize
  {
    SplitIds(u);
    o == u.id && objs == Ids(u) && o.next == null && Holds(u) && Distinct(u) && Built(t, u)
  }

  method New<Id>(lab: Label<Id>) returns (o: AstObject)
    ensures fresh(o) && Growing(o, lab, [], [], {o})
  {
    o := new AstObject(Arr);
    o.lab := LabelOf(lab, o);
    NothingUnder(o);
  }

  /** Link one more object below another; an array counts its elements in 16 bits. */
  method Attach<Id>(o: AstObject, kid: AstObject, ghost lab: Label<Id>, ghost ts: seq<Tree<Id>>, ghost us: seq<Obj>,
                    ghost objs: set<AstObject>, ghost t: Tree<Id>, ghost u: Obj, ghost more: set<AstObject>)
    requires Growing(o, lab, ts, us, objs) && Made(t, kid, u, more) && objs !! more
    modifies o`child, o`arraySize, objs`next, kid`parent
    ensures Growing(o, lab, ts + [t], us + [u], objs + more)
  {
    hide *;
    GrowingIs(o, lab, ts, us, objs);
    MadeIs(t, kid, u, more);
    OneOf(u);
    ConcatIds(us, [u]);
    LinkIn(o, kid, us, u, objs + more);
    if o.lab.Arr? {
      o.arraySize := (o.arraySize + 1) % 0x1_0000;
    }
    BuiltMore(ts, us, t, u);
    GrowingFrom(o, lab, ts + [t], us + [u], objs + more);
  }

  lemma GrowingIs<Id>(o: AstObject, lab: Label<Id>, ts: seq<Tree<Id>>, us: seq<Obj>, objs: set<AstObject>)
    requires Growing(o, lab, ts, us, objs)
    ensures Target(o, us) && BuiltAll(ts, us) && objs == {o} + IdsAll(us) && o !in IdsAll(us)
    ensures o.next == null && o.lab == LabelOf(lab, o) && (o.lab.Arr? ==> o.arraySize == |us| % 0x1_0000)
    ensures KidIds(Under(o, us)) <= IdsAll(us)
  {
    KidIdsIn(Under(o, us));
  }

  lemma MadeIs<Id>(t: Tree<Id>, o: AstObject, u: Obj, objs: set<AstObject>)
    requires Made(t, o, u, objs)
    ensures o == u.id && o in objs && objs == Ids(u) && o.next == null && Holds(u) && Distinct(u) && Built(t, u)
  {
    RootOf(u);
  }

  lemma GrowingFrom<Id>(o: AstObject, lab: Label<Id>, ts: seq<Tree<Id>>, us: seq<Obj>, objs: set<AstObject>)
    requires Target(o, us) && BuiltAll(ts, us) && objs == {o} + IdsAll(us)
    requires o.next == null && o.lab == LabelOf(lab, o) && (o.lab.Arr? ==> o.arraySize == |us| % 0x1_0000)
    ensures Growing(o, lab, ts, us, objs)
  {
  }

  /** With the last child linked the object is finished. */
  lemma Finished<Id>(o: AstObject, t: Tree<Id>, us: seq<Obj>, objs: set<AstObject>) returns (u: Obj)
    requires Growing(o, t.lab, t.kids, us, objs)
    ensures u == Tree(o, o.lab, us) && Made(t, o, u, objs)
  {
    u := Tree(o, o.lab, us);
    TargetHolds(o, o.lab, us);
    SplitIds(u);
  }

  /** The objects of a tree that was made, if one was. */
  ghost function MadeIds(us: seq<Obj>): set<AstObject> {
    if us == [] then {} else Ids(us[0])
  }

  /** An object that was made, if one was: itself, and the tree of what is linked below it. */
  ghost predicate MadeOne<Id>(t: Tree<Id>, o: AstObject?, us: seq<Obj>)
    reads MadeIds(us)`lab, MadeIds(us)`child, MadeIds(us)`next, MadeIds(us)`parent, MadeIds(us)`arraySize
  {
    |us| == 1 && o == us[0].id && (RootOf(us[0]); Made(t, us[0].id, us[0], Ids(us[0])))
  }

  lemma MadeObjects(us: seq<Obj>) returns (objs: set<AstObject>)
    ensures objs == MadeIds(us)
  {
    objs := MadeIds(us);
  }

  /** A childless object. */
  method Leaf<Id>(t: Tree<Id>) returns (o: AstObject, ghost us: seq<Obj>)
    requires t.kids == []
    ensures MadeOne(t, o, us) && fresh(MadeIds(us))
  {
    hide Growing, Made;
    o := New(t.lab);
    ghost var u := Finished(o, t, [], {o});
    MadeIs(t, o, u, {o});
    us := [u];
  }

  /** Attach the object made last, if it is not among those that were there before. */
  method AttachOne<Id>(o: AstObject, kid: AstObject, ghost lab: Label<Id>, ghost ts: seq<Tree<Id>>,
                       ghost us: seq<Obj>, ghost objs: set<AstObject>, ghost t: Tree<Id>, ghost vs: seq<Obj>)
    requires Growing(o, lab, ts, us, objs) && MadeOne(t, kid, vs) && objs !! MadeIds(vs)
    modifies o`child, o`arraySize, objs`next, kid`parent
    ensures Growing(o, lab, ts + [t], us + vs, objs + MadeIds(vs))
  {
    hide Growing, Made, Ids;
    Attach(o, kid, lab, ts, us, objs, t, vs[0], Ids(vs[0]));
    assert us + vs == us + [vs[0]];
  }

  lemma FinishedOne<Id>(o: AstObject, t: Tree<Id>, us: seq<Obj>, objs: set<AstObject>) returns (vs: seq<Obj>)
    requires Growing(o, t.lab, t.kids, us, objs)
    ensures MadeOne(t, o, vs) && MadeIds(vs) == objs
  {
    hide Growing, Made;
    var u := Finished(o, t, us, objs);
    MadeIs(t, o, u, objs);
    vs := [u];
  }

  lemma MadeOneIs<Id>(t: Tree<Id>, o: AstObject?, us: seq<Obj>)
    requires MadeOne(t, o, us)
    ensures o != null && o in MadeIds(us)
  {
    hide Made;
    MadeIs(t, o, us[0], Ids(us[0]));
  }

  /** Give a node that was made another kind. */
  method Relabel<Id>(o: AstObject, kind: NodeKind, ghost t: Tree<Id>, ghost us: seq<Obj>)
    returns (ghost vs: seq<Obj>)
    requires MadeOne(t, o, us) && t.lab.Node?
    modifies o`lab
    ensures MadeOne(Tree(t.id, Node(t.lab.name, kind), t.kids), o, vs) && MadeIds(vs) == MadeIds(us)
  {
    hide Distinct, HoldsAll, WiredAt, BuiltAll, IdsAll;
    ghost var u := us[0];
    ghost var objs, v := Ids(u), Tree(o, Node(t.lab.name, kind), u.kids);
    SplitIds(u);
    InnerIn(u.kids);
    RelabelledDistinct(u, v);
    o.lab := Node(o.lab.name, kind);
    SameRoots(u, v);
    vs := [v];
  }

  lemma RelabelledDistinct(u: Obj, v: Obj)
    requires u.id == v.id && u.kids == v.kids
    ensures Distinct(u) <==> Distinct(v)
  {
  }
}
