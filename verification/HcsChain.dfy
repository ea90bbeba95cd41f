/** From byte code to linked objects, to source, to linked objects, to the same byte code. */
module HcsChain {
  import opened Bytes
  import opened HcsTree
  import opened TreeWalk
  import opened AstHeap
  import opened AstLink
  import opened HcsBuild
  import opened ByteCodeGen
  import opened ByteCodeWrite
  import opened Decompile
  import opened HcsCompile
  import opened HcsLexer
  import opened HcsParser
  import opened HcsPrinter
  import opened HcsText
  import opened HcsRoundTrip

  /** Objects built for a tree have its shape. */
  lemma {:induction false} BuiltShape<Id>(t: Tree<Id>, u: Obj)
    requires Solid(t) && Built(t, u)
    ensures SameShape(t, u)
  {
    BuiltShapes(t.kids, u.kids);
  }

  lemma {:induction false} BuiltShapes<Id>(ts: seq<Tree<Id>>, us: seq<Obj>)
    requires SolidAll(ts) && BuiltAll(ts, us)
    ensures SameShapes(ts, us)
  {
    hide Solid, Built, SameShape;
    if ts == [] {
    } else {
      BuiltShape(ts[0], us[0]);
      BuiltShapes(ts[1..], us[1..]);
    }
  }

  /** What an object of a tree built from a bare one can be. */
  ghost predicate Settled(y: Obj)
    reads y.id`arraySize
  {
    && !y.lab.Ref? && !y.lab.Del? && (y.lab.Node? ==> y.lab.kind == NoRef)
    && (y.lab.Arr? ==> y.id.arraySize == |y.kids| % 0x1_0000)
  }

  lemma {:induction false} BuiltSettled(t: Obj, s: Obj, y: Obj)
    requires Solid(t) && Built(Bare(t), s) && y in Pre(s)
    ensures Settled(y)
  {
    if y == s {
    } else {
      BuiltSettledAll(t.kids, s.kids, y);
    }
  }

  lemma {:induction false} BuiltSettledAll(ts: seq<Obj>, us: seq<Obj>, y: Obj)
    requires SolidAll(ts) && BuiltAll(BareAll(ts), us) && y in PreAll(us)
    ensures Settled(y)
  {
    hide Solid, Built, Bare, Settled;
    assert ts != [] && BareAll(ts)[0] == Bare(ts[0]) && BareAll(ts)[1..] == BareAll(ts[1..]);
    if y in Pre(us[0]) {
      BuiltSettled(ts[0], us[0], y);
    } else {
      BuiltSettledAll(ts[1..], us[1..], y);
    }
  }

  /** Every object of a tree has a counterpart in a tree of the same shape. */
  lemma {:induction false} Counterpart<A, B>(t: Tree<A>, u: Tree<B>, y: Tree<B>) returns (x: Tree<A>)
    requires SameShape(t, u) && y in Pre(u)
    ensures x in Pre(t) && SameShape(x, y)
  {
    x := t;
    if y != u {
      x := CounterpartIn(t.kids, u.kids, y);
    }
  }

  lemma {:induction false} CounterpartIn<A, B>(ts: seq<Tree<A>>, us: seq<Tree<B>>, y: Tree<B>) returns (x: Tree<A>)
    requires SameShapes(ts, us) && y in PreAll(us)
    ensures x in PreAll(ts) && SameShape(x, y)
  {
    hide SameShape;
    if y in Pre(us[0]) {
      x := Counterpart(ts[0], us[0], y);
    } else {
      x := CounterpartIn(ts[1..], us[1..], y);
    }
  }

  /** A tree in which nothing is doomed stays as it is. */
  lemma {:induction false} NothingPruned(t: Obj, doomed: Obj -> bool)
    requires forall x :: x in Pre(t) ==> !doomed(x)
    ensures Prune(t, doomed) == t
  {
    NonePruned(t.kids, doomed);
  }

  lemma {:induction false} NonePruned(ts: seq<Obj>, doomed: Obj -> bool)
    requires forall x :: x in PreAll(ts) ==> !doomed(x)
    ensures PruneAll(ts, doomed) == ts
  {
    if ts == [] {
    } else {
      hide Prune, Pre, PreAll;
      PreAllParts(ts);
      NothingPruned(ts[0], doomed);
      NonePruned(ts[1..], doomed);
      assert PruneAll(ts, doomed) == [ts[0]] + ts[1..];
    }
  }

  lemma PreAllParts(ts: seq<Obj>)
    requires ts != []
    ensures ts[0] in PreAll(ts)
    ensures forall x :: x in Pre(ts[0]) || x in PreAll(ts[1..]) ==> x in PreAll(ts)
  {
    assert ts[0] in Pre(ts[0]);
  }

  // ----- the tree that was parsed -----

  /** Objects built for what was printed and parsed are like the original's. */
  lemma LikeOriginal(u: Obj, t: Obj, s: Obj, objs: set<AstObject>, align: bool)
    requires Compilable(u, align) && SameShape(u, t) && Solid(t) && PlainRoot(t)
    requires Built(Bare(t), s) && objs == Ids(s)
    ensures SameShape(u, s) && PlainRoot(s)
    ensures forall y :: y in Pre(s) ==> y.id in objs && Settled(y) && LikeEncodable(y)
  {
    hide *;
    BareShape(t);
    BareSolid(t);
    BuiltShape(Bare(t), s);
    Transitive(u, t, Bare(t));
    Transitive(u, Bare(t), s);
    SamePlain(t, Bare(t));
    SamePlain(Bare(t), s);
    forall y | y in Pre(s) ensures y.id in objs && Settled(y) && LikeEncodable(y) {
      IdsOfPre(s, y);
      BuiltSettled(t, s, y);
      var x := Counterpart(u, s, y);
      EncodableAt(u, x, y, align);
    }
  }

  lemma {:induction false} BareSolid<Id>(t: Tree<Id>)
    requires Solid(t)
    ensures Solid(Bare(t))
  {
    EachBareSolid(t.kids);
  }

  lemma {:induction false} EachBareSolid<Id>(ts: seq<Tree<Id>>)
    requires SolidAll(ts)
    ensures SolidAll(BareAll(ts))
  {
    if ts == [] {
    } else {
      BareSolid(ts[0]);
      EachBareSolid(ts[1..]);
      assert BareAll(ts)[0] == Bare(ts[0]) && BareAll(ts)[1..] == BareAll(ts[1..]);
    }
  }

  /** The byte code has an op code for it, and room for its count. */
  predicate LikeEncodable(y: Obj) {
    OpCode(y.lab) != 0 && (y.lab.Arr? ==> |y.kids| < 0x1_0000)
  }

  lemma EncodableAt(u: Obj, x: Obj, y: Obj, align: bool)
    requires Compilable(u, align) && x in Pre(u) && SameShape(x, y)
    ensures LikeEncodable(y)
  {
    hide Pre;
    assert Encodable(x);
    SameLength(x.kids, y.kids);
  }

  /** There is nothing to expand in them, and they can be compiled. */
  lemma ReadyToCompile(u: Obj, s: Obj, objs: set<AstObject>, align: bool)
    requires Compilable(u, align) && SameShape(u, s) && PlainRoot(s)
    requires forall y :: y in Pre(s) ==> y.id in objs && Settled(y) && LikeEncodable(y)
    ensures TermsOk(s) && !Deleted(s) && !IsTemplate(s) && Prune(s, Deleted) == s && Prune(s, IsTemplate) == s
    ensures Counted(s, objs) && RefsInside(s) && AllCoded(s) && Size(s, align) < 0x8000_0000
  {
    SameSize(u, s, align);
    TermsPlain(s);
    hide PlainRoot, Size, SameShape, Prune, Pre, Compilable;
    RootIn(s);
    forall y | y in Pre(s) ensures !Deleted(y) && !IsTemplate(y) {
      if y.lab.Term? && |y.kids| == 1 {
        PreTrans(s, y, 0);
      }
    }
    NothingPruned(s, Deleted);
    NothingPruned(s, IsTemplate);
  }

  lemma RootIn(s: Obj)
    ensures s in Pre(s)
  {
  }

  lemma SameSize(u: Obj, s: Obj, align: bool)
    requires Compilable(u, align) && SameShape(u, s)
    ensures Size(s, align) < 0x8000_0000
  {
    hide Size, SameShape, Emit;
    SameBytes(u, s, FileOffset(u, align), FileOffset(s, align), align);
  }

  lemma TermsPlain(s: Obj)
    requires PlainRoot(s)
    ensures TermsOk(s)
  {
    PlainPrints(s);
    hide PlainRoot, Pre;
    forall x | x in Pre(s) && x.lab.Term? ensures |x.kids| == 1 && !x.kids[0].lab.Node? && !x.kids[0].lab.Term? {
      ShapelyBelow(s, x);
    }
  }

  /** The objects that were made for a tree are linked up and labelled as one like it. */
  lemma LinkedAs<Id>(raw: Tree<Id>, o: AstObject?, us: seq<Obj>) returns (t: Obj)
    requires MadeOne(raw, o, us)
    ensures o != null && t.id == o && Distinct(t) && Wired(t, {}) && Labelled(t) && Built(raw, t)
    ensures us == [t] && MadeIds(us) == Ids(t)
  {
    t := us[0];
    HoldsIff(t);
  }

  /**
   Compiled byte code decompiled into linked objects, printed by the walk over them, parsed, built
   into linked objects again, cleared of deleted nodes and compiled from them is the same byte code,
   if the text fits the lexer's buffer.
   */
  method DecompileAndRecompile(file: seq<byte>, absPath: Path -> Path, ghost u: Obj, align: bool,
                               major: uint32, minor: uint32)
    returns (fits: bool, again: seq<byte>)
    requires Compilable(u, align) && Fits(u) && PlainRoot(u)
    requires file == FileBytes(u, FileOffset(u, align), align, major, minor)
    ensures DecodeFile(file).Good? && Shapely(DecodeFile(file).value)
    ensures fits <==> |FILE_COMMENT + Print(DecodeFile(file).value, 0)| <= BUFFER_SIZE
    ensures again == if fits then file else []
  {
    hide *;
    DecodedShape(u, align, major, minor);
    var reader := new FileReader(file);
    var decoded, root, us := reader.RebuildAst();
    ghost var raw := decoded.value;
    PlainSolid(raw);
    ghost var t := LinkedAs(raw, root, us);
    BuiltShape(raw, t);
    LinkedPrintIsTheText(t, raw);
    SamePlain(raw, t);
    var parsed, o;
    ghost var vs;
    fits, parsed, o, vs := PrintAndParse(root, t, Ids(t), absPath);
    again := [];
    if fits {
      Transitive(u, raw, t);
      ghost var s := LinkedAs(Bare(t), o, vs);
      again := Recompile(o, u, t, s, Ids(s), align, major, minor);
    }
  }

  /** The part from the parsed objects on. */
  method Recompile(root: AstObject, ghost u: Obj, ghost t: Obj, ghost s: Obj, ghost objs: set<AstObject>, align: bool,
                   major: uint32, minor: uint32)
    returns (again: seq<byte>)
    requires Compilable(u, align) && SameShape(u, t) && PlainRoot(t)
    requires root == s.id && objs == Ids(s) && Distinct(s) && Wired(s, {}) && Labelled(s) && Built(Bare(t), s)
    modifies objs`child, objs`next, objs`opCode, objs`size, objs`subSize, objs`hash
    ensures again == FileBytes(u, FileOffset(u, align), align, major, minor)
  {
    hide *;
    PlainSolid(t);
    BareSolid(t);
    LikeOriginal(u, t, s, objs, align);
    ReadyToCompile(u, s, objs, align);
    var visited := NodeExpandDelete(root, s, objs);
    var writer := new ByteCodeWriter(align);
    var ok := writer.Output(root, major, minor, s, objs);
    SameFile(u, s, align, major, minor, FileOffset(s, align));
    again := writer.out;
  }
}
