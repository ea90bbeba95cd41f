/**
 Reading byte code back into a tree. A node remembers the file offset of its op code; a
 reference is the offset its target had when the file was written.
 */
module Decompile {
  import opened Bytes
  import opened HcsTree
  import opened AstHeap
  import opened HcsBuild

  datatype Parsed<+T> = Bad | Good(value: T, next: nat)

  type RawTree = Tree<nat>

  // ----- the readers, as functions of the file and a position -----

  /** A name or string longer than this is refused: the bound is the number of the first token type. */
  const STRING_LIMIT: nat := 256

  /** The bytes up to the next NUL; the end of the file before it leaves the stream failed. */
  function ScanString(m: seq<byte>, pos: nat, have: seq<byte>): (r: Parsed<seq<byte>>)
    ensures r.Good? ==> pos < r.next <= |m| && |r.value| + 1 == |have| + (r.next - pos)
    decreases |m| - pos
  {
    if pos >= |m| then Bad
    else if m[pos] == 0 then Good(have, pos + 1)
    else if |have| > STRING_LIMIT then Bad
    else ScanString(m, pos + 1, have + [m[pos]])
  }

  function ReadString(m: seq<byte>, pos: nat, align: bool): (r: Parsed<seq<byte>>)
    ensures r.Good? ==> pos < r.next <= |m|
  {
    match ScanString(m, pos, [])
    case Bad => Bad
    case Good(value, next) =>
      var end := next + Align4(|value| + 1, align) - (|value| + 1);
      if end > |m| then Bad else Good(value, end)
  }

  /** An `n`-byte number, taken from a whole 4-byte word when alignment widens it. */
  function ReadNumber(m: seq<byte>, pos: nat, n: nat, align: bool): (r: Parsed<nat>)
    requires n > 0
    ensures r.Good? ==> pos < r.next <= |m| && r.value < Pow256(n)
  {
    var w := Align4(n, align);
    if pos + w > |m| then Bad else
    FromLEBound(m[pos..pos + n]);
    Good(FromLE(m[pos..pos + n]), pos + w)
  }

  function ReadObject(m: seq<byte>, pos: nat, align: bool): (r: Parsed<RawTree>)
    ensures r.Good? ==> pos < r.next <= |m|
    decreases |m| - pos, 0
  {
    if pos + Align4(1, align) > |m| then Bad else
    var p := pos + Align4(1, align);
    match m[pos]
    case 0x01 => ReadNode(m, pos, p, align)
    case 0x02 => ReadTerm(m, p, align)
    case 0x03 => ReadLeaf(ReadNumber(m, p, 4, align), v => Ref(v))
    case 0x04 => ReadArray(m, p, align)
    case 0x10 => ReadLeaf(ReadNumber(m, p, 1, align), v => Num(1, v))
    case 0x11 => ReadLeaf(ReadNumber(m, p, 2, align), v => Num(2, v))
    case 0x12 => ReadLeaf(ReadNumber(m, p, 4, align), v => Num(4, v))
    case 0x13 => ReadLeaf(ReadNumber(m, p, 8, align), v => Num(8, v))
    case 0x14 => ReadLeaf(ReadString(m, p, align), s => Str(s))
    case _ => Bad
  }

  function ReadLeaf<T>(r: Parsed<T>, lab: T -> Label<nat>): Parsed<RawTree> {
    match r
    case Bad => Bad
    case Good(v, next) => Good(Tree(0, lab(v), []), next)
  }

  function ReadNode(m: seq<byte>, at: nat, pos: nat, align: bool): (r: Parsed<RawTree>)
    ensures r.Good? ==> pos < r.next <= |m|
    decreases |m| - pos, 2
  {
    match ReadString(m, pos, align)
    case Bad => Bad
    case Good(name, p1) =>
      match ReadNumber(m, p1, 4, align)
      case Bad => Bad
      case Good(size, p2) =>
        match ReadKids(m, p2, p2 + ToInt32(size), align)
        case Bad => Bad
        case Good(kids, next) => Good(Tree(at, Node(name, NoRef), kids), next)
  }

  /** Objects until the position reaches `end`. */
  function ReadKids(m: seq<byte>, pos: nat, end: int, align: bool): (r: Parsed<seq<RawTree>>)
    ensures r.Good? && pos <= |m| ==> pos <= r.next <= |m|
    decreases |m| - pos, 1
  {
    if pos >= end then Good([], pos) else
    match ReadObject(m, pos, align)
    case Bad => Bad
    case Good(t, p) =>
      match ReadKids(m, p, end, align)
      case Bad => Bad
      case Good(ts, next) => Good([t] + ts, next)
  }

  function ReadTerm(m: seq<byte>, pos: nat, align: bool): (r: Parsed<RawTree>)
    ensures r.Good? ==> pos < r.next <= |m|
    decreases |m| - pos, 2
  {
    match ReadString(m, pos, align)
    case Bad => Bad
    case Good(name, p) =>
      match ReadObject(m, p, align)
      case Bad => Bad
      case Good(value, next) => Good(Tree(0, Term(name), [value]), next)
  }

  function ReadArray(m: seq<byte>, pos: nat, align: bool): (r: Parsed<RawTree>)
    ensures r.Good? ==> pos < r.next <= |m|
    decreases |m| - pos, 2
  {
    match ReadNumber(m, pos, 2, align)
    case Bad => Bad
    case Good(count, p) =>
      match ReadElements(m, p, count, align)
      case Bad => Bad
      case Good(elements, next) => Good(Tree(0, Arr, elements), next)
  }

  function ReadElements(m: seq<byte>, pos: nat, count: nat, align: bool): (r: Parsed<seq<RawTree>>)
    ensures r.Good? && pos <= |m| ==> pos <= r.next <= |m|
    decreases |m| - pos, 1
  {
    if count == 0 then Good([], pos) else
    match ReadObject(m, pos, align)
    case Bad => Bad
    case Good(t, p) =>
      match ReadElements(m, p, count - 1, align)
      case Bad => Bad
      case Good(ts, next) => Good([t] + ts, next)
  }

  // ----- what the file of a tree should read back as -----

  /** The same tree with node kinds erased, references as offsets, and node positions noted. */
  function Located<Id>(t: Tree<Id>, base: nat, offset: Id -> nat, align: bool): RawTree {
    Tree(if t.lab.Node? then base else 0, Erased(t.lab, offset),
         LocatedAll(t.kids, base + HeadSize(t.lab, align), offset, align))
  }

  function LocatedAll<Id>(ts: seq<Tree<Id>>, base: nat, offset: Id -> nat, align: bool): seq<RawTree> {
    if ts == [] then []
    else [Located(ts[0], base, offset, align)] + LocatedAll(ts[1..], base + Size(ts[0], align), offset, align)
  }

  function Erased<Id>(l: Label<Id>, offset: Id -> nat): Label<nat> {
    match l
    case Node(name, _) => Node(name, NoRef)
    case Term(name) => Term(name)
    case Ref(target) => Ref(offset(target))
    case Arr => Arr
    case Num(w, v) => Num(w, v)
    case Str(text) => Str(text)
    case Del => Del
  }

  predicate NulFree(s: seq<byte>) {
    0 !in s
  }

  /** What the format asks of one object: its children suit its label, and every number fits its field. */
  predicate Encodable<Id>(t: Tree<Id>) {
    match t.lab
    case Node(name, _) => NulFree(name)
    case Term(name) => NulFree(name) && |t.kids| == 1
    case Ref(_) => t.kids == []
    case Arr => |t.kids| < 0x1_0000
    case Num(w, v) => t.kids == [] && (w == 1 || w == 2 || w == 4 || w == 8) && v < Pow256(w)
    case Str(text) => t.kids == [] && NulFree(text)
    case Del => false
  }

  /** The same, with offsets and sizes that fit theirs. */
  predicate Writable<Id>(t: Tree<Id>, offset: Id -> nat, align: bool) {
    && Encodable(t)
    && (t.lab.Node? ==> SizeAll(t.kids, align) < 0x8000_0000)
    && (t.lab.Ref? ==> offset(t.lab.target) < 0x1_0000_0000)
  }

  predicate AllWritable<Id>(t: Tree<Id>, offset: Id -> nat, align: bool) {
    Writable(t, offset, align) && EachWritable(t.kids, offset, align)
  }

  predicate EachWritable<Id>(ts: seq<Tree<Id>>, offset: Id -> nat, align: bool) {
    ts == [] || (AllWritable(ts[0], offset, align) && EachWritable(ts[1..], offset, align))
  }

  /** Names and strings within the reader's limit. */
  predicate LabelFits<Id>(l: Label<Id>) {
    match l
    case Node(name, _) => |name| <= STRING_LIMIT + 1
    case Term(name) => |name| <= STRING_LIMIT + 1
    case Str(text) => |text| <= STRING_LIMIT + 1
    case _ => true
  }

  predicate Fits<Id>(t: Tree<Id>) {
    LabelFits(t.lab) && FitsAll(t.kids)
  }

  predicate FitsAll<Id>(ts: seq<Tree<Id>>) {
    ts == [] || (Fits(ts[0]) && FitsAll(ts[1..]))
  }

  // ----- primitive round trips -----

  lemma AtPadded(m: seq<byte>, pos: nat, b: seq<byte>, align: bool)
    requires At(m, pos, Padded(b, align))
    ensures At(m, pos, b) && pos + Align4(|b|, align) <= |m|
  {
    AtSplit(m, pos, b, seq(Align4(|b|, align) - |b|, _ => 0));
  }

  lemma {:induction false} ScanWritten(m: seq<byte>, pos: nat, have: seq<byte>, rest: seq<byte>)
    requires NulFree(rest) && At(m, pos, rest + [0])
    requires |have| <= STRING_LIMIT + 1
    ensures ScanString(m, pos, have) ==
            if |have| + |rest| <= STRING_LIMIT + 1 then Good(have + rest, pos + |rest| + 1) else Bad
    decreases |rest|
  {
    AtSplit(m, pos, rest, [0]);
    if rest == [] {
      assert m[pos] == m[pos..pos + 1][0];
      assert have + rest == have;
    } else {
      assert m[pos] == m[pos..pos + |rest|][0] == rest[0];
      assert rest + [0] == [rest[0]] + (rest[1..] + [0]);
      AtSplit(m, pos, [rest[0]], rest[1..] + [0]);
      if |have| <= STRING_LIMIT {
        ScanWritten(m, pos + 1, have + [rest[0]], rest[1..]);
        assert (have + [rest[0]]) + rest[1..] == have + rest;
      }
    }
  }

  /** A NUL-free string reads back exactly when it is within the limit. */
  lemma StringReadsBack(m: seq<byte>, pos: nat, s: seq<byte>, align: bool)
    requires NulFree(s) && At(m, pos, Padded(s + [0], align))
    ensures ReadString(m, pos, align) ==
            if |s| <= STRING_LIMIT + 1 then Good(s, pos + Align4(|s| + 1, align)) else Bad
  {
    AtPadded(m, pos, s + [0], align);
    ScanWritten(m, pos, [], s);
    assert [] + s == s;
  }

  lemma NumberReadsBack(m: seq<byte>, pos: nat, v: nat, n: nat, align: bool)
    requires n > 0 && v < Pow256(n) && At(m, pos, Padded(ToLE(v, n), align))
    ensures ReadNumber(m, pos, n, align) == Good(v, pos + Align4(n, align))
  {
    AtPadded(m, pos, ToLE(v, n), align);
    FromToLE(v, n);
  }

  lemma OpReadsBack<Id>(m: seq<byte>, pos: nat, l: Label<Id>, align: bool)
    requires At(m, pos, Padded([OpCode(l)], align))
    ensures pos + Align4(1, align) <= |m| && m[pos] == OpCode(l)
  {
    AtPadded(m, pos, [OpCode(l)], align);
    assert m[pos] == m[pos..pos + 1][0];
  }

  // ----- the round trip -----

  /**
   Reading where a subtree was written yields it, located, and stops right behind it, exactly
   when every name and string in it is within the limit.
   */
  lemma {:induction false} ObjectReadsBack<Id>(m: seq<byte>, pos: nat, t: Tree<Id>, offset: Id -> nat, align: bool)
    requires AllWritable(t, offset, align) && At(m, pos, Emit(t, offset, align))
    ensures ReadObject(m, pos, align) ==
            if Fits(t) then Good(Located(t, pos, offset, align), pos + Size(t, align)) else Bad
    decreases t, 1
  {
    hide Padded, ReadNode, ReadTerm, ReadArray, Body, EmitAll, Located, Fits, Size;
    var op, body := Padded([OpCode(t.lab)], align), Body(t.lab, SizeAll(t.kids, align), |t.kids|, offset, align);
    ConcatAssoc(op, body, EmitAll(t.kids, offset, align));
    AtSplit(m, pos, op, body + EmitAll(t.kids, offset, align));
    OpReadsBack(m, pos, t.lab, align);
    var p := pos + |op|;
    match t.lab
    case Node(name, kind) => NodeReadsBack(m, pos, p, t, offset, align);
    case Term(name) => TermReadsBack(m, pos, p, t, offset, align);
    case Arr => ArrayReadsBack(m, pos, p, t, offset, align);
    case _ =>
      AtSplit(m, p, body, EmitAll(t.kids, offset, align));
      LeafReadsBack(m, pos, p, t, offset, align);
  }

  /** What a childless object should read back as. */
  lemma LocatedLeaf<Id>(t: Tree<Id>, base: nat, offset: Id -> nat, align: bool)
    requires t.kids == [] && !t.lab.Node?
    ensures Located(t, base, offset, align) == Tree(0, Erased(t.lab, offset), [])
    ensures Size(t, align) == HeadSize(t.lab, align) && (Fits(t) <==> LabelFits(t.lab))
  {
  }

  lemma LeafReadsBack<Id>(m: seq<byte>, pos: nat, p: nat, t: Tree<Id>, offset: Id -> nat, align: bool)
    requires Writable(t, offset, align) && !t.lab.Node? && !t.lab.Term? && !t.lab.Arr?
    requires p == pos + Align4(1, align) <= |m| && m[pos] == OpCode(t.lab)
    requires At(m, p, Body(t.lab, SizeAll(t.kids, align), |t.kids|, offset, align))
    ensures ReadObject(m, pos, align) ==
            if Fits(t) then Good(Located(t, pos, offset, align), pos + Size(t, align)) else Bad
  {
    LocatedLeaf(t, pos, offset, align);
    hide Located, Size, Fits, SizeAll, Align4, At, ReadObject;
    match t.lab
    case Ref(target) => NumberLeafReadsBack(m, pos, p, offset(target), 4, align);
    case Num(w, v) => NumberLeafReadsBack(m, pos, p, v, w, align);
    case Str(text) =>
      hide Padded, ToLE;
      StringReadsBack(m, p, text, align);
      ReadsString(m, pos, p, align);
  }

  lemma NumberLeafReadsBack(m: seq<byte>, pos: nat, p: nat, v: nat, n: nat, align: bool)
    requires p == pos + Align4(1, align) <= |m| && n > 0 && v < Pow256(n) && At(m, p, Padded(ToLE(v, n), align))
    requires (m[pos] == 0x10 && n == 1) || (m[pos] == 0x11 && n == 2) || (m[pos] == 0x12 && n == 4)
             || (m[pos] == 0x13 && n == 8) || (m[pos] == 0x03 && n == 4)
    ensures ReadObject(m, pos, align) ==
            Good(Tree(0, if m[pos] == 0x03 then Ref(v) else Num(n, v), []), p + Align4(n, align))
  {
    hide Padded, FromLE, ToLE, ReadObject, ReadNumber, Align4, Pow256, At;
    NumberReadsBack(m, p, v, n, align);
    ReadsNumber(m, pos, p, n, align);
  }

  /** A number's or a reference's op code makes the reader take a number of that width. */
  lemma ReadsNumber(m: seq<byte>, pos: nat, p: nat, n: nat, align: bool)
    requires p == pos + Align4(1, align) <= |m|
    requires (m[pos] == 0x10 && n == 1) || (m[pos] == 0x11 && n == 2) || (m[pos] == 0x12 && n == 4)
             || (m[pos] == 0x13 && n == 8) || (m[pos] == 0x03 && n == 4)
    ensures ReadObject(m, pos, align) ==
            match ReadNumber(m, p, n, align)
            case Bad => Bad
            case Good(v, next) => Good(Tree(0, if m[pos] == 0x03 then Ref(v) else Num(n, v), []), next)
  {
    hide ReadNumber, ReadString, ReadNode, ReadTerm, ReadArray;
  }

  lemma ReadsString(m: seq<byte>, pos: nat, p: nat, align: bool)
    requires p == pos + Align4(1, align) <= |m| && m[pos] == 0x14
    ensures ReadObject(m, pos, align) ==
            match ReadString(m, p, align)
            case Bad => Bad
            case Good(text, next) => Good(Tree(0, Str(text), []), next)
  {
    hide ReadNumber, ReadString, ReadNode, ReadTerm, ReadArray;
  }

  lemma {:induction false} NodeReadsBack<Id>(m: seq<byte>, pos: nat, p: nat, t: Tree<Id>, offset: Id -> nat,
                                             align: bool)
    requires t.lab.Node? && AllWritable(t, offset, align) && p == pos + Align4(1, align)
    requires At(m, p, Body(t.lab, SizeAll(t.kids, align), |t.kids|, offset, align) + EmitAll(t.kids, offset, align))
    ensures ReadNode(m, pos, p, align) ==
            if Fits(t) then Good(Located(t, pos, offset, align), pos + Size(t, align)) else Bad
    decreases t, 0
  {
    hide Align4, Body, ReadString, ReadNumber, ReadKids, EmitAll, SizeAll, LocatedAll, At, FitsAll, EachWritable,
      AllWritable, Located, Fits, Size, LabelFits;
    NodeParts(t, pos, offset, align);
    NodeWritable(t, offset, align);
    NodeHeadReads(m, p, t, offset, align);
    if LabelFits(t.lab) {
      KidsReadBack(m, p + Align4(|t.lab.name| + 1, align) + Align4(4, align), t.kids, offset, align);
    }
  }

  lemma NodeWritable<Id>(t: Tree<Id>, offset: Id -> nat, align: bool)
    requires t.lab.Node? && AllWritable(t, offset, align)
    ensures NulFree(t.lab.name) && SizeAll(t.kids, align) < 0x8000_0000 && EachWritable(t.kids, offset, align)
  {
    hide EachWritable, SizeAll;
  }

  /** A node's name and sub-size, and where its children stand behind them. */
  lemma NodeHeadReads<Id>(m: seq<byte>, p: nat, t: Tree<Id>, offset: Id -> nat, align: bool)
    requires t.lab.Node? && NulFree(t.lab.name) && SizeAll(t.kids, align) < 0x8000_0000
    requires At(m, p, Body(t.lab, SizeAll(t.kids, align), |t.kids|, offset, align) + EmitAll(t.kids, offset, align))
    ensures var p1 := p + Align4(|t.lab.name| + 1, align);
            var p2 := p1 + Align4(4, align);
            && ReadString(m, p, align) == (if LabelFits(t.lab) then Good(t.lab.name, p1) else Bad)
            && ReadNumber(m, p1, 4, align) == Good(SizeAll(t.kids, align), p2)
            && At(m, p2, EmitAll(t.kids, offset, align))
  {
    hide Padded, FromLE, ToLE, Pow256, ReadString, ReadNumber, EmitAll, SizeAll, At, Align4, NulFree;
    var subSize := SizeAll(t.kids, align);
    var name, size := Padded(t.lab.name + [0], align), Padded(ToLE(subSize, 4), align);
    AtSplit(m, p, name + size, EmitAll(t.kids, offset, align));
    AtSplit(m, p, name, size);
    StringReadsBack(m, p, t.lab.name, align);
    Pow256Values();
    NumberReadsBack(m, p + |name|, subSize, 4, align);
  }

  lemma NodeParts<Id>(t: Tree<Id>, pos: nat, offset: Id -> nat, align: bool)
    requires t.lab.Node?
    ensures Fits(t) <==> LabelFits(t.lab) && FitsAll(t.kids)
    ensures var p := pos + Align4(1, align) + Align4(|t.lab.name| + 1, align) + Align4(4, align);
            && Located(t, pos, offset, align) == Tree(pos, Erased(t.lab, offset), LocatedAll(t.kids, p, offset, align))
            && pos + Size(t, align) == p + SizeAll(t.kids, align)
  {
    hide LocatedAll, SizeAll;
    SizeParts(t, align);
    LocatedParts(t, pos, offset, align);
  }

  lemma {:induction false} KidsReadBack<Id>(m: seq<byte>, pos: nat, ts: seq<Tree<Id>>, offset: Id -> nat, align: bool)
    requires EachWritable(ts, offset, align) && At(m, pos, EmitAll(ts, offset, align))
    ensures ReadKids(m, pos, pos + SizeAll(ts, align), align) ==
            if FitsAll(ts) then Good(LocatedAll(ts, pos, offset, align), pos + SizeAll(ts, align)) else Bad
    decreases ts
  {
    hide Emit, ReadObject, Located, At, Fits, AllWritable, Size;
    if ts == [] {
    } else {
      var end := pos + SizeAll(ts, align);
      AtSplit(m, pos, Emit(ts[0], offset, align), EmitAll(ts[1..], offset, align));
      EmitLength(ts[0], offset, align);
      ObjectReadsBack(m, pos, ts[0], offset, align);
      KidsReadBack(m, pos + Size(ts[0], align), ts[1..], offset, align);
    }
  }

  lemma {:induction false} TermReadsBack<Id>(m: seq<byte>, pos: nat, p: nat, t: Tree<Id>, offset: Id -> nat,
                                             align: bool)
    requires t.lab.Term? && AllWritable(t, offset, align) && p == pos + Align4(1, align)
    requires At(m, p, Body(t.lab, SizeAll(t.kids, align), |t.kids|, offset, align) + EmitAll(t.kids, offset, align))
    ensures ReadTerm(m, p, align) ==
            if Fits(t) then Good(Located(t, pos, offset, align), pos + Size(t, align)) else Bad
    decreases t, 0
  {
    hide Padded, ReadString, ReadObject, Emit, Located, At, Fits, Size;
    var v := t.kids[0];
    assert t.kids[1..] == [];
    assert EmitAll(t.kids, offset, align) == Emit(v, offset, align);
    assert AllWritable(v, offset, align);
    hide AllWritable, EmitAll, EachWritable;
    AtSplit(m, p, Padded(t.lab.name + [0], align), Emit(v, offset, align));
    StringReadsBack(m, p, t.lab.name, align);
    ObjectReadsBack(m, p + Align4(|t.lab.name| + 1, align), v, offset, align);
    TermParts(t, pos, offset, align);
  }

  lemma TermParts<Id>(t: Tree<Id>, pos: nat, offset: Id -> nat, align: bool)
    requires t.lab.Term? && |t.kids| == 1
    ensures Fits(t) <==> LabelFits(t.lab) && Fits(t.kids[0])
    ensures var p := pos + Align4(1, align) + Align4(|t.lab.name| + 1, align);
            && Located(t, pos, offset, align) == Tree(0, Term(t.lab.name), [Located(t.kids[0], p, offset, align)])
            && pos + Size(t, align) == p + Size(t.kids[0], align)
  {
    SingleKid(t.kids, pos + HeadSize(t.lab, align), offset, align);
    hide Size, Located;
    assert Size(t, align) == HeadSize(t.lab, align) + SizeAll(t.kids, align) by { SizeParts(t, align); }
    LocatedParts(t, pos, offset, align);
  }

  lemma SizeParts<Id>(t: Tree<Id>, align: bool)
    ensures Size(t, align) == HeadSize(t.lab, align) + SizeAll(t.kids, align)
  {
  }

  lemma LocatedParts<Id>(t: Tree<Id>, pos: nat, offset: Id -> nat, align: bool)
    ensures Located(t, pos, offset, align)
         == Tree(if t.lab.Node? then pos else 0, Erased(t.lab, offset),
                 LocatedAll(t.kids, pos + HeadSize(t.lab, align), offset, align))
  {
  }

  lemma SingleKid<Id>(ts: seq<Tree<Id>>, pos: nat, offset: Id -> nat, align: bool)
    requires |ts| == 1
    ensures FitsAll(ts) == Fits(ts[0])
    ensures SizeAll(ts, align) == Size(ts[0], align)
    ensures LocatedAll(ts, pos, offset, align) == [Located(ts[0], pos, offset, align)]
  {
    hide Size, Located, Fits;
    assert ts[1..] == [];
  }

  lemma {:induction false} ArrayReadsBack<Id>(m: seq<byte>, pos: nat, p: nat, t: Tree<Id>, offset: Id -> nat,
                                              align: bool)
    requires t.lab.Arr? && AllWritable(t, offset, align) && p == pos + Align4(1, align)
    requires At(m, p, Body(t.lab, SizeAll(t.kids, align), |t.kids|, offset, align) + EmitAll(t.kids, offset, align))
    ensures ReadArray(m, p, align) ==
            if Fits(t) then Good(Located(t, pos, offset, align), pos + Size(t, align)) else Bad
    decreases t, 0
  {
    hide Padded, FromLE, ToLE, ReadNumber, ReadElements, EmitAll, SizeAll, LocatedAll, At, FitsAll, EachWritable;
    var count := Padded(ToLE(|t.kids|, 2), align);
    AtSplit(m, p, count, EmitAll(t.kids, offset, align));
    Pow256Values();
    NumberReadsBack(m, p, |t.kids|, 2, align);
    ElementsReadBack(m, p + |count|, t.kids, offset, align);
  }

  lemma {:induction false} ElementsReadBack<Id>(m: seq<byte>, pos: nat, ts: seq<Tree<Id>>, offset: Id -> nat,
                                                align: bool)
    requires EachWritable(ts, offset, align) && At(m, pos, EmitAll(ts, offset, align))
    ensures ReadElements(m, pos, |ts|, align) ==
            if FitsAll(ts) then Good(LocatedAll(ts, pos, offset, align), pos + SizeAll(ts, align)) else Bad
    decreases ts
  {
    hide Emit, ReadObject, Located, At, Fits, AllWritable, Size;
    if ts == [] {
    } else {
      AtSplit(m, pos, Emit(ts[0], offset, align), EmitAll(ts[1..], offset, align));
      EmitLength(ts[0], offset, align);
      ObjectReadsBack(m, pos, ts[0], offset, align);
      ElementsReadBack(m, pos + Size(ts[0], align), ts[1..], offset, align);
    }
  }

  // ----- whole files -----

  const HCB_MAGIC: uint32 := 0xA00A_A00A
  const FILE_HEADER: nat := 20

  /** The total size is negated to say that the file is aligned. */
  function FileHeader(size: nat, align: bool, major: uint32, minor: uint32): (h: seq<byte>)
    requires size <= 0x8000_0000
    ensures |h| == FILE_HEADER
  {
    LE32(HCB_MAGIC) + LE32(major) + LE32(minor) + LE32(0)
    + LE32(TotalWord(size, align))
  }

  function TotalWord(size: int, align: bool): uint32 {
    (if align then -size else size) % 0x1_0000_0000
  }

  lemma TotalWordSign(size: nat, align: bool)
    requires 0 < size < 0x8000_0000
    ensures ToInt32(TotalWord(size, align)) < 0 <==> align
  {
  }

  lemma TotalWordValue(size: int, align: bool)
    requires 0 <= size < 0x8000_0000
    ensures ToInt32(TotalWord(size, align)) == if align then -size else size
  {
  }

  function FileBytes<Id>(t: Tree<Id>, offset: Id -> nat, align: bool, major: uint32, minor: uint32): seq<byte>
    requires Size(t, align) <= 0x8000_0000
  {
    FileHeader(Size(t, align), align, major, minor) + Emit(t, offset, align)
  }

  /** Header check, then one object whose op code, read at full width, must be a node's. */
  function DecodeFile(m: seq<byte>): Parsed<RawTree> {
    if |m| < FILE_HEADER || WordAt(m, 0) != HCB_MAGIC then Bad else
    var align := ToInt32(WordAt(m, 16)) < 0;
    if FILE_HEADER + Align4(1, align) > |m| then Bad
    else if (if align then WordAt(m, FILE_HEADER) else m[FILE_HEADER]) != 0x01 then Bad
    else ReadObject(m, FILE_HEADER, align)
  }

  lemma HeaderReadsBack(m: seq<byte>, size: nat, align: bool, major: uint32, minor: uint32)
    requires 0 < size < 0x8000_0000 && At(m, 0, FileHeader(size, align, major, minor))
    ensures |m| >= FILE_HEADER && WordAt(m, 0) == HCB_MAGIC && (ToInt32(WordAt(m, 16)) < 0 <==> align)
    ensures WordAt(m, 16) == TotalWord(size, align)
  {
    var total := TotalWord(size, align);
    TotalWordSign(size, align);
    LE32RoundTrip(HCB_MAGIC);
    LE32RoundTrip(total);
    hide LE32, FromLE, ToInt32, TotalWord;
    var h := FileHeader(size, align, major, minor);
    SliceSlice(m, 0, FILE_HEADER, 0, 4);
    SliceSlice(m, 0, FILE_HEADER, 16, 20);
    assert h[0..4] == LE32(HCB_MAGIC) && h[16..20] == LE32(total);
  }

  /** The header's total is the length of the file without the header, negated when aligned. */
  lemma FileTotal<Id>(t: Tree<Id>, offset: Id -> nat, align: bool, major: uint32, minor: uint32)
    requires Size(t, align) < 0x8000_0000
    ensures var m := FileBytes(t, offset, align, major, minor);
            && |m| == FILE_HEADER + Size(t, align)
            && ToInt32(WordAt(m, 16)) == if align then -(|m| - FILE_HEADER) else |m| - FILE_HEADER
  {
    hide LE32, FromLE, ToInt32, TotalWord, FileHeader, Emit, Size, Padded;
    var m, size := FileBytes(t, offset, align, major, minor), Size(t, align);
    EmitLength(t, offset, align);
    assert m[0..0 + |m|] == m;
    AtSplit(m, 0, FileHeader(size, align, major, minor), Emit(t, offset, align));
    HeaderReadsBack(m, size, align, major, minor);
    TotalWordValue(size, align);
  }

  /** The widened op code of a node reads as the op code itself. */
  lemma RootOpReadsBack<Id>(m: seq<byte>, pos: nat, l: Label<Id>, align: bool)
    requires l.Node? && At(m, pos, Padded([OpCode(l)], align))
    ensures pos + Align4(1, align) <= |m|
    ensures (if align then WordAt(m, pos) else m[pos]) == 0x01
  {
    var b := Padded([OpCode(l)], align);
    if align {
      assert b == [0x01, 0, 0, 0];
      assert m[pos..pos + 4] == b;
      assert b[1..] == [0, 0, 0] && b[1..][1..] == [0, 0] && b[1..][1..][1..] == [0];
      assert FromLE([0]) == 0;
      assert FromLE([0, 0]) == 0;
      assert FromLE([0, 0, 0]) == 0;
    } else {
      OpReadsBack(m, pos, l, align);
    }
  }

  /**
   Decompiling a compiled file rebuilds the tree it was compiled from, located, in either
   alignment mode, if and only if every name and string is at most 257 bytes long.
   */
  lemma FileReadsBack<Id>(t: Tree<Id>, offset: Id -> nat, align: bool, major: uint32, minor: uint32)
    requires t.lab.Node? && AllWritable(t, offset, align) && Size(t, align) < 0x8000_0000
    ensures DecodeFile(FileBytes(t, offset, align, major, minor)) ==
            if Fits(t) then Good(Located(t, FILE_HEADER, offset, align), FILE_HEADER + Size(t, align)) else Bad
  {
    hide FileHeader, Padded, ReadObject, Located, Fits, AllWritable, Size, FromLE;
    var m := FileBytes(t, offset, align, major, minor);
    var h := FileHeader(Size(t, align), align, major, minor);
    assert m[0..0 + |m|] == m;
    AtSplit(m, 0, h, Emit(t, offset, align));
    HeaderReadsBack(m, Size(t, align), align, major, minor);
    EmitStartsWithOp(t, offset, align);
    AtSplit(m, FILE_HEADER, Padded([OpCode(t.lab)], align), Emit(t, offset, align)[Align4(1, align)..]);
    RootOpReadsBack(m, FILE_HEADER, t.lab, align);
    ObjectReadsBack(m, FILE_HEADER, t, offset, align);
  }

  lemma EmitStartsWithOp<Id>(t: Tree<Id>, offset: Id -> nat, align: bool)
    ensures |Emit(t, offset, align)| >= Align4(1, align)
    ensures Emit(t, offset, align) == Padded([OpCode(t.lab)], align) + Emit(t, offset, align)[Align4(1, align)..]
  {
    hide Body, EmitAll;
    var op := Padded([OpCode(t.lab)], align);
    assert Emit(t, offset, align)[..|op|] == op;
  }

  // ----- the reading object -----

  /** The decompiler: a file and a cursor into it. */
  class FileReader {
    const file: seq<byte>
    var pos: nat
    var isAlign: bool

    constructor (m: seq<byte>)
      ensures file == m && pos == 0 && !isAlign
    {
      file, pos, isAlign := m, 0, false;
    }

    method GetNumber(n: nat) returns (ok: bool, value: nat)
      requires n > 0
      modifies this`pos
      ensures ok == ReadNumber(file, old(pos), n, isAlign).Good?
      ensures ok ==> ReadNumber(file, old(pos), n, isAlign) == Good(value, pos) && old(pos) < pos <= |file|
    {
      var w := Align4(n, isAlign);
      if pos + w > |file| {
        return false, 0;
      }
      FromLEBound(file[pos..pos + n]);
      value := FromLE(file[pos..pos + n]);
      pos := pos + w;
      ok := true;
    }

    method GetString() returns (ok: bool, value: seq<byte>)
      requires pos <= |file|
      modifies this`pos
      ensures ok == ReadString(file, old(pos), isAlign).Good?
      ensures ok ==> ReadString(file, old(pos), isAlign) == Good(value, pos) && old(pos) < pos <= |file|
    {
      ghost var start := pos;
      value := [];
      while pos < |file| && file[pos] != 0
        invariant start <= pos <= |file|
        invariant ScanString(file, start, []) == ScanString(file, pos, value)
        decreases |file| - pos
      {
        if |value| > STRING_LIMIT {
          return false, value;
        }
        value := value + [file[pos]];
        pos := pos + 1;
      }
      if pos >= |file| {
        return false, value;
      }
      pos := pos + 1;
      var stub := Align4(|value| + 1, isAlign) - (|value| + 1);
      if pos + stub > |file| {
        return false, value;
      }
      pos := pos + stub;
      ok := true;
    }

    method GetOpCode() returns (ok: bool, op: byte)
      requires pos <= |file|
      modifies this`pos
      ensures ok <==> old(pos) + Align4(1, isAlign) <= |file|
      ensures ok ==> op == file[old(pos)] && pos == old(pos) + Align4(1, isAlign) && old(pos) < pos <= |file|
    {
      if pos + Align4(1, isAlign) > |file| {
        return false, 0;
      }
      op := file[pos];
      pos := pos + Align4(1, isAlign);
      ok := true;
    }

    /** The object at the position, made and linked up. */
    method RebuildNext() returns (r: Parsed<RawTree>, o: AstObject?, ghost us: seq<Obj>)
      requires pos <= |file|
      modifies this`pos
      ensures r == ReadObject(file, old(pos), isAlign)
      ensures r.Good? ==> pos == r.next && old(pos) < pos <= |file|
      ensures r.Good? ==> MadeOne(r.value, o, us) && fresh(MadeIds(us))
      decreases |file| - pos, 3
    {
      hide ReadNode, ReadTerm, ReadArray, ReadNumber, ReadString, MadeOne, MadeIds;
      ghost var start := pos;
      r, o, us := Bad, null, [];
      var ok, op := GetOpCode();
      if !ok {
        return;
      }
      if op == 0x01 {
        r, o, us := RebuildNode();
      } else if op == 0x02 {
        r, o, us := RebuildTerm();
      } else if op == 0x04 {
        r, o, us := RebuildArray();
      } else if op == 0x14 {
        var text;
        ok, text := GetString();
        if ok {
          r := Good(Tree(0, Str(text), []), pos);
          o, us := Leaf(r.value);
        }
      } else if op == 0x03 || (0x10 <= op && op <= 0x13) {
        var n := if op == 0x03 || op == 0x12 then 4 else if op == 0x10 then 1 else if op == 0x11 then 2 else 8;
        var v;
        ok, v := GetNumber(n);
        if ok {
          r := Good(Tree(0, if op == 0x03 then Ref(v) else Num(n, v), []), pos);
          o, us := Leaf(r.value);
        }
      }
    }

    /** Rebuild the next object and link it below `o`. */
    method RebuildInto(o: AstObject, ghost lab: Label<nat>, ghost kids: seq<RawTree>, ghost us: seq<Obj>,
                       ghost objs: set<AstObject>)
      returns (kid: Parsed<RawTree>, ghost vs: seq<Obj>, ghost now: set<AstObject>)
      requires pos <= |file| && Growing(o, lab, kids, us, objs) && o in objs
      modifies this`pos, o`child, o`arraySize, objs`next
      ensures kid == ReadObject(file, old(pos), isAlign)
      ensures kid.Good? ==> pos == kid.next && old(pos) < pos <= |file|
      ensures kid.Good? ==> Growing(o, lab, kids + [kid.value], vs, now) && objs <= now && fresh(now - objs)
      decreases |file| - pos, 4
    {
      hide *;
      GrowingIs(o, lab, kids, us, objs);
      var c;
      ghost var made;
      kid, c, made := RebuildNext();
      vs, now := us + made, objs + MadeIds(made);
      if kid.Good? {
        MadeOneIs(kid.value, c, made);
        AttachOne(o, c, lab, kids, us, objs, kid.value, made);
      }
    }

    method RebuildNode() returns (r: Parsed<RawTree>, o: AstObject?, ghost us: seq<Obj>)
      requires Align4(1, isAlign) <= pos <= |file|
      modifies this`pos
      ensures r == ReadNode(file, old(pos) - Align4(1, isAlign), old(pos), isAlign)
      ensures r.Good? ==> pos == r.next && old(pos) < pos <= |file|
      ensures r.Good? ==> MadeOne(r.value, o, us) && fresh(MadeIds(us))
      decreases |file| - pos, 2
    {
      hide ReadNumber, ReadString, ReadKids, MadeOne, MadeIds;
      r, o, us := Bad, null, [];
      var at := pos - Align4(1, isAlign);
      var ok, name, size;
      ok, name := GetString();
      if !ok {
        return;
      }
      ok, size := GetNumber(4);
      if !ok {
        return;
      }
      var kids;
      kids, o, us := RebuildKids(name, at, pos + ToInt32(size));
      if kids.Good? {
        r := Good(Tree(at, Node(name, NoRef), kids.value), pos);
      }
    }

    /** The loop of `RebuildNode` over the children up to `end`. */
    method RebuildKids(name: seq<byte>, at: nat, end: int)
      returns (r: Parsed<seq<RawTree>>, o: AstObject?, ghost us: seq<Obj>)
      requires pos <= |file|
      modifies this`pos
      ensures r == ReadKids(file, old(pos), end, isAlign)
      ensures r.Good? ==> pos == r.next && old(pos) <= pos <= |file|
      ensures r.Good? ==> MadeOne(Tree(at, Node(name, NoRef), r.value), o, us) && fresh(MadeIds(us))
      decreases |file| - pos, 5
    {
      hide ReadObject, MadeOne, MadeIds, Growing;
      ghost var first := pos;
      us := [];
      var node := New<nat>(Node(name, NoRef));
      ghost var lab: Label<nat>, objs := Node(name, NoRef), {node};
      var kids: seq<RawTree> := [];
      PrependNone(ReadKids(file, first, end, isAlign));
      while pos < end
        invariant first <= pos <= |file|
        invariant ReadKids(file, first, end, isAlign) == Prepend(kids, ReadKids(file, pos, end, isAlign))
        invariant Growing(node, lab, kids, us, objs) && fresh(objs) && node in objs
        decreases |file| - pos
      {
        var kid;
        kid, us, objs := RebuildInto(node, lab, kids, us, objs);
        if kid.Bad? {
          return Bad, null, [];
        }
        PrependOne(kids, kid.value, ReadKids(file, pos, end, isAlign));
        kids := kids + [kid.value];
      }
      assert kids + [] == kids;
      us := FinishedOne(node, Tree(at, Node(name, NoRef), kids), us, objs);
      r, o := Good(kids, pos), node;
    }

    method RebuildTerm() returns (r: Parsed<RawTree>, o: AstObject?, ghost us: seq<Obj>)
      requires pos <= |file|
      modifies this`pos
      ensures r == ReadTerm(file, old(pos), isAlign)
      ensures r.Good? ==> pos == r.next && old(pos) < pos <= |file|
      ensures r.Good? ==> MadeOne(r.value, o, us) && fresh(MadeIds(us))
      decreases |file| - pos, 2
    {
      hide ReadString, ReadObject, MadeOne, MadeIds, Growing;
      r, o, us := Bad, null, [];
      var ok, name := GetString();
      if !ok {
        return;
      }
      var term := New<nat>(Term(name));
      ghost var objs;
      var value;
      value, us, objs := RebuildInto(term, Term(name), [], [], {term});
      if value.Bad? {
        return;
      }
      r := Good(Tree(0, Term(name), [value.value]), pos);
      assert r.value.kids == [] + [value.value];
      us := FinishedOne(term, r.value, us, objs);
      o := term;
    }

    method RebuildArray() returns (r: Parsed<RawTree>, o: AstObject?, ghost us: seq<Obj>)
      requires pos <= |file|
      modifies this`pos
      ensures r == ReadArray(file, old(pos), isAlign)
      ensures r.Good? ==> pos == r.next && old(pos) < pos <= |file|
      ensures r.Good? ==> MadeOne(r.value, o, us) && fresh(MadeIds(us))
      decreases |file| - pos, 2
    {
      hide ReadNumber, ReadObject, MadeOne, MadeIds, Growing;
      ghost var start := pos;
      r, o, us := Bad, null, [];
      var ok, count := GetNumber(2);
      if !ok {
        return;
      }
      var arr := New<nat>(Arr);
      ghost var objs := {arr};
      ghost var lab: Label<nat> := Arr;
      var elements: seq<RawTree> := [];
      var i := 0;
      ghost var first := pos;
      PrependNone(ReadElements(file, first, count, isAlign));
      while i < count
        invariant 0 <= i <= count && start < first <= pos <= |file|
        invariant ReadElements(file, first, count, isAlign)
               == Prepend(elements, ReadElements(file, pos, count - i, isAlign))
        invariant Growing(arr, lab, elements, us, objs) && fresh(objs) && arr in objs
      {
        var element;
        element, us, objs := RebuildInto(arr, lab, elements, us, objs);
        if element.Bad? {
          return Bad, null, [];
        }
        PrependOne(elements, element.value, ReadElements(file, pos, count - i - 1, isAlign));
        elements, i := elements + [element.value], i + 1;
      }
      assert elements + [] == elements;
      r := Good(Tree(0, Arr, elements), pos);
      us := FinishedOne(arr, r.value, us, objs);
      o := arr;
    }

    /** Check the header, note the alignment, rebuild the root. */
    method RebuildAst() returns (r: Parsed<RawTree>, o: AstObject?, ghost us: seq<Obj>)
      requires pos == 0 && !isAlign
      modifies this
      ensures r == DecodeFile(file)
      ensures r.Good? ==> MadeOne(r.value, o, us) && fresh(MadeIds(us))
    {
      hide ReadObject, FromLE, MadeOne, MadeIds;
      r, o, us := Bad, null, [];
      if |file| < FILE_HEADER || WordAt(file, 0) != HCB_MAGIC {
        return;
      }
      isAlign := ToInt32(WordAt(file, 16)) < 0;
      pos := FILE_HEADER;
      if pos + Align4(1, isAlign) > |file| {
        return;
      }
      if (if isAlign then WordAt(file, pos) else file[pos]) != 0x01 {
        return;
      }
      r, o, us := RebuildNext();
    }
  }

  function Prepend<T>(have: seq<T>, rest: Parsed<seq<T>>): Parsed<seq<T>> {
    match rest
    case Bad => Bad
    case Good(more, next) => Good(have + more, next)
  }

  lemma PrependNone<T>(rest: Parsed<seq<T>>)
    ensures Prepend([], rest) == rest
  {
    if rest.Good? {
      assert [] + rest.value == rest.value;
    }
  }

  lemma PrependOne<T>(have: seq<T>, one: T, rest: Parsed<seq<T>>)
    ensures Prepend(have, Prepend([one], rest)) == Prepend(have + [one], rest)
  {
    if rest.Good? {
      assert have + ([one] + rest.value) == (have + [one]) + rest.value;
    }
  }
}
