/** From byte code to source and back: the same byte code, bit for bit. */
module HcsRoundTrip {
  import opened Bytes
  import opened HcsTree
  import opened TreeWalk
  import opened AstHeap
  import opened HcsBuild
  import opened ByteCodeWrite
  import opened Decompile
  import opened HcsCompile
  import opened HcsLexer
  import opened HcsParser
  import opened HcsPrinter
  import opened HcsPrintWalk
  import opened HcsText

  /** Labels that put the same bytes in a file; never references. */
  predicate SameLabel<A, B>(l: Label<A>, m: Label<B>) {
    match l
    case Node(name, _) => m.Node? && m.name == name
    case Term(name) => m.Term? && m.name == name
    case Num(w, v) => m.Num? && m.width == w && m.value == v
    case Str(text) => m.Str? && m.text == text
    case Arr => m.Arr?
    case _ => false
  }

  predicate SameShape<A, B>(t: Tree<A>, u: Tree<B>) {
    SameLabel(t.lab, u.lab) && SameShapes(t.kids, u.kids)
  }

  predicate SameShapes<A, B>(ts: seq<Tree<A>>, us: seq<Tree<B>>) {
    if ts == [] then us == [] else us != [] && SameShape(ts[0], us[0]) && SameShapes(ts[1..], us[1..])
  }

  lemma {:induction false} SameLength<A, B>(ts: seq<Tree<A>>, us: seq<Tree<B>>)
    requires SameShapes(ts, us)
    ensures |ts| == |us|
  {
    if ts == [] {
    } else {
      SameLength(ts[1..], us[1..]);
    }
  }

  /** Trees of the same shape have the same size and the same byte code. */
  lemma {:induction false} SameBytes<A, B>(t: Tree<A>, u: Tree<B>, f: A -> nat, g: B -> nat, align: bool)
    requires SameShape(t, u)
    ensures Size(t, align) == Size(u, align) && Emit(t, f, align) == Emit(u, g, align)
  {
    hide Padded, Align4, ToLE;
    SameBytesAll(t.kids, u.kids, f, g, align);
    SameLength(t.kids, u.kids);
    assert OpCode(t.lab) == OpCode(u.lab);
    assert BodySize(t.lab, align) == BodySize(u.lab, align);
  }

  lemma {:induction false} SameBytesAll<A, B>(ts: seq<Tree<A>>, us: seq<Tree<B>>, f: A -> nat, g: B -> nat, align: bool)
    requires SameShapes(ts, us)
    ensures SizeAll(ts, align) == SizeAll(us, align) && EmitAll(ts, f, align) == EmitAll(us, g, align)
  {
    hide Emit, Size, SameShape;
    if ts == [] {
    } else {
      SameBytes(ts[0], us[0], f, g, align);
      SameBytesAll(ts[1..], us[1..], f, g, align);
    }
  }

  lemma {:induction false} Transitive<A, B, C>(t: Tree<A>, u: Tree<B>, v: Tree<C>)
    requires SameShape(t, u) && SameShape(u, v)
    ensures SameShape(t, v)
  {
    TransitiveAll(t.kids, u.kids, v.kids);
  }

  lemma {:induction false} TransitiveAll<A, B, C>(ts: seq<Tree<A>>, us: seq<Tree<B>>, vs: seq<Tree<C>>)
    requires SameShapes(ts, us) && SameShapes(us, vs)
    ensures SameShapes(ts, vs)
  {
    if ts == [] {
    } else {
      Transitive(ts[0], us[0], vs[0]);
      TransitiveAll(ts[1..], us[1..], vs[1..]);
    }
  }

  /** No references and no deletions. */
  predicate Solid<Id>(t: Tree<Id>) {
    !t.lab.Ref? && !t.lab.Del? && SolidAll(t.kids)
  }

  predicate SolidAll<Id>(ts: seq<Tree<Id>>) {
    ts == [] || (Solid(ts[0]) && SolidAll(ts[1..]))
  }

  lemma {:induction false} LocatedShape<Id>(t: Tree<Id>, base: nat, offset: Id -> nat, align: bool)
    requires Solid(t)
    ensures SameShape(t, Located(t, base, offset, align)) && Solid(Located(t, base, offset, align))
  {
    hide HeadSize;
    LocatedShapes(t.kids, base + HeadSize(t.lab, align), offset, align);
  }

  lemma {:induction false} LocatedShapes<Id>(ts: seq<Tree<Id>>, base: nat, offset: Id -> nat, align: bool)
    requires SolidAll(ts)
    ensures SameShapes(ts, LocatedAll(ts, base, offset, align)) && SolidAll(LocatedAll(ts, base, offset, align))
  {
    hide Size, Located, SameShape, Solid;
    if ts == [] {
    } else {
      LocatedShape(ts[0], base, offset, align);
      LocatedShapes(ts[1..], base + Size(ts[0], align), offset, align);
      var us := LocatedAll(ts, base, offset, align);
      assert us[0] == Located(ts[0], base, offset, align);
      assert us[1..] == LocatedAll(ts[1..], base + Size(ts[0], align), offset, align);
    }
  }

  lemma {:induction false} BareShape<Id>(t: Tree<Id>)
    requires Solid(t)
    ensures SameShape(t, Bare(t))
  {
    BareShapes(t.kids);
  }

  lemma {:induction false} BareShapes<Id>(ts: seq<Tree<Id>>)
    requires SolidAll(ts)
    ensures SameShapes(ts, BareAll(ts))
  {
    hide Bare, SameShape;
    if ts == [] {
    } else {
      BareShape(ts[0]);
      BareShapes(ts[1..]);
      assert BareAll(ts)[0] == Bare(ts[0]) && BareAll(ts)[1..] == BareAll(ts[1..]);
    }
  }

  lemma {:induction false} ShapeAt<A, B>(ts: seq<Tree<A>>, us: seq<Tree<B>>, i: nat)
    requires SameShapes(ts, us) && i < |ts|
    ensures |ts| == |us| && SameShape(ts[i], us[i])
  {
    hide SameShape;
    SameLength(ts, us);
    if i == 0 {
    } else {
      ShapeAt(ts[1..], us[1..], i - 1);
    }
  }

  /** Being printable is a matter of shape. */
  lemma {:induction false} SamePlain<A, B>(t: Tree<A>, u: Tree<B>)
    requires SameShape(t, u)
    ensures Plain(t) ==> Plain(u)
    ensures PlainRoot(t) ==> PlainRoot(u)
  {
    SameLength(t.kids, u.kids);
    if t.lab.Node? {
      forall i | 0 <= i < |t.kids| && Plain(t.kids[i]) ensures Plain(u.kids[i]) {
        ShapeAt(t.kids, u.kids, i);
        SamePlain(t.kids[i], u.kids[i]);
      }
    } else if t.lab.Term? && |t.kids| == 1 {
      ShapeAt(t.kids, u.kids, 0);
      SameValue(t.kids[0], u.kids[0]);
    }
  }

  lemma SameScalar<A, B>(t: Tree<A>, u: Tree<B>)
    requires SameShape(t, u)
    ensures PlainScalar(t) == PlainScalar(u) && t.lab.Str? == u.lab.Str?
  {
    SameLength(t.kids, u.kids);
  }

  lemma SameValue<A, B>(t: Tree<A>, u: Tree<B>)
    requires SameShape(t, u)
    ensures PlainValue(t) ==> PlainValue(u)
  {
    SameScalar(t, u);
    SameLength(t.kids, u.kids);
    if t.lab.Arr? && PlainElements(t.kids) {
      forall i | 0 <= i < |u.kids| ensures PlainScalar(u.kids[i]) && u.kids[i].lab.Str? == t.kids[i].lab.Str? {
        ShapeAt(t.kids, u.kids, i);
        SameScalar(t.kids[i], u.kids[i]);
      }
    }
  }

  lemma {:induction false} PlainSolid<Id>(t: Tree<Id>)
    requires Plain(t) || PlainRoot(t)
    ensures Solid(t)
  {
    if t.lab.Term? {
      var v := t.kids[0];
      assert t.kids[1..] == [];
      PlainValueSolid(v);
    } else {
      EachPlainSolid(t.kids);
    }
  }

  lemma {:induction false} EachPlainSolid<Id>(ts: seq<Tree<Id>>)
    requires forall i :: 0 <= i < |ts| ==> Plain(ts[i])
    ensures SolidAll(ts)
  {
    if ts == [] {
    } else {
      PlainSolid(ts[0]);
      EachPlainSolid(ts[1..]);
    }
  }

  lemma PlainValueSolid<Id>(v: Tree<Id>)
    requires PlainValue(v)
    ensures Solid(v)
  {
    if v.lab.Arr? {
      ScalarsSolid(v.kids);
    }
  }

  lemma {:induction false} ScalarsSolid<Id>(ts: seq<Tree<Id>>)
    requires forall i :: 0 <= i < |ts| ==> PlainScalar(ts[i])
    ensures SolidAll(ts)
  {
    if ts == [] {
    } else {
      ScalarsSolid(ts[1..]);
    }
  }

  /** Trees of the same shape print the same text. */
  lemma {:induction false} SamePrint<A, B>(t: Tree<A>, u: Tree<B>, d: nat)
    requires SameShape(t, u) && Shapely(t) && Shapely(u)
    ensures Print(t, d) == Print(u, d)
  {
    SameLength(t.kids, u.kids);
    if t.lab.Node? {
      SamePrints(t.kids, u.kids, d + 1);
    } else {
      ShapeAt(t.kids, u.kids, 0);
      SameValueText(t.kids[0], u.kids[0]);
    }
  }

  lemma {:induction false} SamePrints<A, B>(ts: seq<Tree<A>>, us: seq<Tree<B>>, d: nat)
    requires SameShapes(ts, us) && forall i :: 0 <= i < |ts| ==> Shapely(ts[i])
    requires forall i :: 0 <= i < |us| ==> Shapely(us[i])
    ensures PrintAll(ts, d) == PrintAll(us, d)
  {
    if ts == [] {
    } else {
      SamePrint(ts[0], us[0], d);
      SamePrints(ts[1..], us[1..], d);
    }
  }

  lemma {:induction false} SameValueText<A, B>(t: Tree<A>, u: Tree<B>)
    requires SameShape(t, u) && ValueOk(t) && ValueOk(u)
    ensures ValueText(t) == ValueText(u)
  {
    if t.lab.Arr? {
      SameElementsText(t.kids, u.kids);
    }
  }

  lemma {:induction false} SameElementsText<A, B>(ts: seq<Tree<A>>, us: seq<Tree<B>>)
    requires SameShapes(ts, us) && (forall i :: 0 <= i < |ts| ==> ValueOk(ts[i]))
             && forall i :: 0 <= i < |us| ==> ValueOk(us[i])
    ensures ElementsText(ts) == ElementsText(us)
  {
    SameLength(ts, us);
    if ts == [] {
    } else {
      SameValueText(ts[0], us[0]);
      SameElementsText(ts[1..], us[1..]);
    }
  }

  /**
   Decompile a compiled tree, print it, parse the text, and compile what was parsed: the file is
   the original one.
   */
  lemma PrintedByteCodeRecompiles(u: Obj, align: bool, major: uint32, minor: uint32, absPath: Path -> Path,
                                  g: Path -> nat)
    requires Compilable(u, align) && Fits(u) && PlainRoot(u)
    ensures var file := FileBytes(u, FileOffset(u, align), align, major, minor);
            var decoded := DecodeFile(file);
            && decoded.Good? && Shapely(decoded.value)
            && var text := FILE_COMMENT + Print(decoded.value, 0);
               var parsed := RootFrom(text, HeadingFrom(text, absPath));
               && parsed.Accept? && Size(parsed.value, align) <= 0x8000_0000
               && FileBytes(parsed.value, g, align, major, minor) == file
  {
    hide FileOffset, Located, Fits, Size, DecodeFile, RootFrom, HeadingFrom, PlainRoot, Shapely, Print, Emit,
      SameShape, Bare, Solid, Distinct, Encodable;
    DecodedShape(u, align, major, minor);
    var raw := DecodeFile(FileBytes(u, FileOffset(u, align), align, major, minor)).value;
    PlainPrints(raw);
    PrintedFileParses(raw, absPath);
    PlainSolid(raw);
    BareShape(raw);
    Transitive(u, raw, Bare(raw));
    SameFile(u, Bare(raw), align, major, minor, g);
  }

  /** The printer's output for any linked tree of the decompiled shape is that text. */
  lemma LinkedPrintIsTheText(t: Obj, raw: RawTree)
    requires SameShape(raw, t) && PlainRoot(raw)
    ensures Shapely(t) && Shapely(raw) && Print(t, 0) == Print(raw, 0)
  {
    hide SameShape, Shapely, Print, PlainRoot;
    SamePlain(raw, t);
    PlainPrints(raw);
    PlainPrints(t);
    SamePrint(raw, t, 0);
  }

  lemma {:induction false} ShapelyBelow<Id>(t: Tree<Id>, x: Tree<Id>)
    requires Shapely(t) && x in Pre(t)
    ensures Shapely(x) || ValueOk(x)
  {
    if x != t {
      if t.lab.Term? {
        var one := t.kids;
        assert one[1..] == [] && PreAll(one) == Pre(one[0]) + PreAll(one[1..]);
        ValueBelow(t.kids[0], x);
      } else {
        ShapelyBelowAll(t.kids, x);
      }
    }
  }

  lemma {:induction false} ShapelyBelowAll<Id>(ts: seq<Tree<Id>>, x: Tree<Id>)
    requires (forall i :: 0 <= i < |ts| ==> Shapely(ts[i])) && x in PreAll(ts)
    ensures Shapely(x) || ValueOk(x)
  {
    if x in Pre(ts[0]) {
      ShapelyBelow(ts[0], x);
    } else {
      ShapelyBelowAll(ts[1..], x);
    }
  }

  /** A well-shaped tree asks nothing more of the printer. */
  lemma ShapelyPrints(t: Obj)
    requires Shapely(t)
    ensures NoRefs(t) && Leafless(t) && TermsFull(t) && AllPrint(t)
  {
    forall x | x in Pre(t)
      ensures !x.lab.Ref? && (x.lab.Num? || x.lab.Str? ==> x.kids == []) && TermPrints(x)
    {
      ShapelyBelow(t, x);
    }
  }

  /** Print a linked tree and parse the text again; it must fit the lexer's buffer. */
  method PrintAndParse(root: AstObject, ghost t: Obj, ghost objs: set<AstObject>, absPath: Path -> Path)
    returns (fits: bool, parsed: Attempt<SourceTree>, o: AstObject?, ghost us: seq<Obj>)
    requires root == t.id && Distinct(t) && objs == Ids(t) && Wired(t, {}) && Labelled(t) && PlainRoot(t)
    ensures Shapely(t) && (fits <==> |FILE_COMMENT + Print(t, 0)| <= BUFFER_SIZE)
    ensures fits ==> parsed.Accept? && parsed.value == Bare(t) && MadeOne(parsed.value, o, us) && fresh(MadeIds(us))
  {
    hide Wired, Labelled, Ids, Pre, Distinct, NoRefs, Leafless, TermsFull, AllPrint, PlainRoot, Print, Shapely,
      RootFrom, HeadingFrom, Bare, MadeOne, MadeIds;
    PlainPrints(t);
    ShapelyPrints(t);
    parsed, o, us := Reject, null, [];
    var gen := new DecompileGen();
    var printed := gen.OutPut(root, t, objs);
    fits := |gen.file| <= BUFFER_SIZE;
    if fits {
      PrintedFileParses(t, absPath);
      var lexer := new Lexer(gen.file);
      var parser := new Parser(lexer);
      var errno, includeList;
      parsed, errno, includeList, o, us := parser.ParseOneContent(absPath);
    }
  }

  /** What a compiled tree decompiles to has its shape and can be printed as it can. */
  lemma DecodedShape(u: Obj, align: bool, major: uint32, minor: uint32)
    requires Compilable(u, align) && Fits(u) && PlainRoot(u)
    ensures var decoded := DecodeFile(FileBytes(u, FileOffset(u, align), align, major, minor));
            decoded.Good? && SameShape(u, decoded.value) && PlainRoot(decoded.value)
  {
    hide FileOffset, Located, Fits, Size, DecodeFile, PlainRoot, Emit, SameShape, Solid, Distinct, Encodable;
    CompiledReadsBack(u, align, major, minor);
    PlainSolid(u);
    LocatedShape(u, FILE_HEADER, FileOffset(u, align), align);
    SamePlain(u, Located(u, FILE_HEADER, FileOffset(u, align), align));
  }

  /** Trees of the same shape without references make the same file. */
  lemma SameFile<B>(u: Obj, parsed: Tree<B>, align: bool, major: uint32, minor: uint32, g: B -> nat)
    requires Compilable(u, align) && SameShape(u, parsed)
    ensures Size(parsed, align) <= 0x8000_0000
    ensures FileBytes(parsed, g, align, major, minor) == FileBytes(u, FileOffset(u, align), align, major, minor)
  {
    hide FileOffset, Size, Emit, SameShape, Distinct, Encodable;
    SameBytes(u, parsed, FileOffset(u, align), g, align);
  }
}
