/** The byte code file byte by byte: header, op codes, field widths and padding. */
module HcsFormat {
  import opened Bytes
  import opened HcsTree
  import opened Decompile
  import opened HcsNumbers

  /** Bytes on their own, or filled up with zeros to a multiple of four. */
  function Cell(b: seq<byte>, align: bool): seq<byte> {
    if !align || |b| % 4 == 0 then b
    else b + if |b| % 4 == 1 then [0, 0, 0] else if |b| % 4 == 2 then [0, 0] else [0]
  }

  /** An object's own bytes: one for its type, then what the type calls for. */
  function Cells<Id>(l: Label<Id>, below: nat, count: nat, offset: Id -> nat, align: bool): seq<byte>
    requires l.Num? ==> l.width == 1 || l.width == 2 || l.width == 4 || l.width == 8
  {
    match l
    case Node(name, _) => Cell([0x01], align) + (Cell(name + [0], align) + Word(Low(below)))
    case Term(name) => Cell([0x02], align) + Cell(name + [0], align)
    case Ref(target) => Cell([0x03], align) + Word(Low(offset(target)))
    case Arr => Cell([0x04], align) + Cell([count % 0x100, count / 0x100 % 0x100], align)
    case Num(w, v) =>
      if w == 1 then Cell([0x10], align) + Cell([v % 0x100], align)
      else if w == 2 then Cell([0x11], align) + Cell([v % 0x100, v / 0x100 % 0x100], align)
      else if w == 4 then Cell([0x12], align) + Word(Low(v))
      else Cell([0x13], align) + (Word(Low(v)) + Word(Low(v / 0x1_0000_0000)))
    case Str(text) => Cell([0x14], align) + Cell(text + [0], align)
    case Del => Cell([0x00], align)
  }

  lemma PaddedIs(b: seq<byte>, align: bool)
    ensures Padded(b, align) == Cell(b, align)
  {
    if align {
      var n := Align4(|b|, align) - |b|;
      var zeros := seq(n, _ => 0 as byte);
      assert n == if |b| % 4 == 0 then 0 else 4 - |b| % 4;
      assert n == 1 ==> zeros == [0];
      assert n == 2 ==> zeros == [0, 0];
      assert n == 3 ==> zeros == [0, 0, 0];
    }
  }

  lemma WordFull(v: uint32, align: bool)
    ensures Cell(Word(v), align) == Word(v) && forall u: uint32 :: Cell(Word(v) + Word(u), align) == Word(v) + Word(u)
  {
  }

  /** What every kind of object puts into the file. */
  lemma HeadFormat<Id>(t: Tree<Id>, offset: Id -> nat, align: bool)
    requires t.lab.Num? ==> t.lab.width == 1 || t.lab.width == 2 || t.lab.width == 4 || t.lab.width == 8
    ensures Head(t, offset, align) == Cells(t.lab, SizeAll(t.kids, align), |t.kids|, offset, align)
  {
    PaddedIs([OpCode(t.lab)], align);
    hide Padded, Cell, ToLE, Word, SizeAll;
    match t.lab
    case Node(name, _) =>
      PaddedIs(name + [0], align);
      Quad(SizeAll(t.kids, align), align);
    case Term(name) => PaddedIs(name + [0], align);
    case Ref(target) => Quad(offset(target), align);
    case Arr =>
      ShortOf(|t.kids|);
      PaddedIs(ToLE(|t.kids|, 2), align);
    case Num(w, v) =>
      ShortOf(v);
      PaddedIs(ToLE(v, w), align);
      LongOf(v);
      Quad(v, align);
      WordFull(Low(v), align);
    case Str(text) => PaddedIs(text + [0], align);
    case Del =>
  }

  lemma Quad(v: nat, align: bool)
    ensures Padded(ToLE(v, 4), align) == Word(Low(v))
  {
    PaddedIs(ToLE(v, 4), align);
    WordOf(v);
    WordFull(Low(v), align);
  }

  /** The header: magic number, versions, a zero checksum, and the size, negated in aligned files. */
  lemma FileFormat<Id>(t: Tree<Id>, offset: Id -> nat, align: bool, major: uint32, minor: uint32)
    requires Size(t, align) <= 0x8000_0000
    ensures FileBytes(t, offset, align, major, minor) ==
            [0x0A, 0xA0, 0x0A, 0xA0] + Word(major) + Word(minor) + [0, 0, 0, 0]
            + Word(Low(if align then 0x1_0000_0000 - Size(t, align) else Size(t, align))) + Emit(t, offset, align)
  {
    hide Size, Emit, LE32, Word, TotalWord, Low;
    WordIs(HCB_MAGIC);
    WordIs(major);
    WordIs(minor);
    WordIs(0);
    WordIs(TotalWord(Size(t, align), align));
    FixedWords();
    TotalIs(Size(t, align), align);
  }

  lemma FixedWords()
    ensures Word(HCB_MAGIC) == [0x0A, 0xA0, 0x0A, 0xA0] && Word(0) == [0, 0, 0, 0]
  {
  }

  lemma TotalIs(size: nat, align: bool)
    requires size <= 0x8000_0000
    ensures TotalWord(size, align) == Low(if align then 0x1_0000_0000 - size else size)
  {
  }

  // ----- one small file -----

  /** `root { a = 5; r = &root; }` */
  function Sample(): Tree<nat> {
    Tree(0, Node(Ascii("root"), NoRef), [
           Tree(1, Term(Ascii("a")), [Tree(2, Num(1, 5), [])]),
           Tree(3, Term(Ascii("r")), [Tree(4, Ref(0), [])])])
  }

  /** Where its root stands; the only object referred to. */
  function RootAt(id: nat): nat {
    20
  }

  /** An object and what is below it. */
  lemma EmitIs(t: Tree<nat>, align: bool)
    requires t.lab.Num? ==> t.lab.width == 1
    ensures Emit(t, RootAt, align) ==
            Cells(t.lab, SizeAll(t.kids, align), |t.kids|, RootAt, align) + EmitAll(t.kids, RootAt, align)
  {
    HeadFormat(t, RootAt, align);
    hide Head, Cells, EmitAll, SizeAll;
  }

  lemma EmitEach(ts: seq<Tree<nat>>, align: bool)
    ensures ts == [] ==> EmitAll(ts, RootAt, align) == [] && SizeAll(ts, align) == 0
    ensures |ts| == 1 ==>
              EmitAll(ts, RootAt, align) == Emit(ts[0], RootAt, align) && SizeAll(ts, align) == Size(ts[0], align)
    ensures |ts| == 2 ==>
              && EmitAll(ts, RootAt, align) == Emit(ts[0], RootAt, align) + Emit(ts[1], RootAt, align)
              && SizeAll(ts, align) == Size(ts[0], align) + Size(ts[1], align)
  {
    hide Emit, Size;
    if |ts| == 2 {
      var us := ts[1..];
      EmitEach(us, align);
      assert EmitAll(ts, RootAt, align) == Emit(ts[0], RootAt, align) + EmitAll(us, RootAt, align);
    } else if |ts| == 1 {
      assert ts[1..] == [];
      assert EmitAll(ts, RootAt, align) == Emit(ts[0], RootAt, align) + [];
    }
  }

  /** Only nodes and arrays say what is below them. */
  lemma CellsOf(l: Label<nat>, below: nat, count: nat, align: bool)
    requires !l.Node? && !l.Arr? && (l.Num? ==> l.width == 1)
    ensures Cells(l, below, count, RootAt, align) == Cells(l, 0, 0, RootAt, align)
  {
    hide Cell, Word;
  }

  lemma SampleSizes(align: bool)
    ensures var t := Sample();
            && SizeAll(t.kids, align) == (if align then 32 else 13) && Size(t, align) == if align then 48 else 23
  {
    hide SizeAll, Ascii;
    var ts := Sample().kids;
    SampleNames();
    EmitEach(ts, align);
    EmitEach(ts[0].kids, align);
    EmitEach(ts[1].kids, align);
    EmitEach([], align);
  }

  lemma SampleRoot(align: bool)
    ensures Cells<nat>(Node(Ascii("root"), NoRef), if align then 32 else 13, 0, RootAt, align) ==
            if align then [0x01, 0, 0, 0, 0x72, 0x6F, 0x6F, 0x74, 0, 0, 0, 0, 32, 0, 0, 0]
            else [0x01, 0x72, 0x6F, 0x6F, 0x74, 0, 13, 0, 0, 0]
  {
    hide Ascii, Word, Low;
    SampleNames();
    SampleWords();
  }

  lemma SampleRest(align: bool)
    ensures Cells<nat>(Term(Ascii("a")), 0, 0, RootAt, align) ==
            if align then [0x02, 0, 0, 0, 0x61, 0, 0, 0] else [0x02, 0x61, 0]
    ensures Cells<nat>(Num(1, 5), 0, 0, RootAt, align) == if align then [0x10, 0, 0, 0, 5, 0, 0, 0] else [0x10, 5]
    ensures Cells<nat>(Term(Ascii("r")), 0, 0, RootAt, align) ==
            if align then [0x02, 0, 0, 0, 0x72, 0, 0, 0] else [0x02, 0x72, 0]
    ensures Cells<nat>(Ref(0), 0, 0, RootAt, align) ==
            if align then [0x03, 0, 0, 0, 20, 0, 0, 0] else [0x03, 20, 0, 0, 0]
  {
    hide Ascii, Word, Low;
    SampleNames();
    SampleWords();
  }

  lemma SampleNames()
    ensures Ascii("root") == [0x72, 0x6F, 0x6F, 0x74] && Ascii("a") == [0x61] && Ascii("r") == [0x72]
  {
  }

  lemma SampleEmits(align: bool)
    ensures Emit(Sample(), RootAt, align) ==
            Cells<nat>(Node(Ascii("root"), NoRef), if align then 32 else 13, 0, RootAt, align)
            + ((Cells<nat>(Term(Ascii("a")), 0, 0, RootAt, align) + Cells<nat>(Num(1, 5), 0, 0, RootAt, align))
               + (Cells<nat>(Term(Ascii("r")), 0, 0, RootAt, align) + Cells<nat>(Ref(0), 0, 0, RootAt, align)))
  {
    var t := Sample();
    hide Emit, EmitAll, Size, SizeAll, Ascii;
    SampleSizes(align);
    EmitIs(t, align);
    EmitEach(t.kids, align);
    TermEmits(t.kids[0], align);
    TermEmits(t.kids[1], align);
    RootCells(align);
    hide Cells;
  }

  lemma RootCells(align: bool)
    ensures var l: Label<nat> := Node(Ascii("root"), NoRef);
            forall below :: Cells(l, below, 2, RootAt, align) == Cells(l, below, 0, RootAt, align)
  {
    hide Cell, Word, Ascii;
  }

  lemma TermEmits(t: Tree<nat>, align: bool)
    requires t.lab.Term? && |t.kids| == 1
    requires var v := t.kids[0]; v.kids == [] && (v.lab == Num(1, 5) || v.lab == Ref(0))
    ensures Emit(t, RootAt, align) ==
            Cells(t.lab, 0, 0, RootAt, align) + Cells(t.kids[0].lab, 0, 0, RootAt, align)
  {
    hide *;
    var v := t.kids[0];
    EmitIs(t, align);
    EmitEach(t.kids, align);
    EmitIs(v, align);
    EmitEach(v.kids, align);
    CellsOf(t.lab, SizeAll(t.kids, align), 1, align);
    CellsOf(v.lab, 0, 0, align);
    var c := Cells(v.lab, 0, 0, RootAt, align);
    assert c + [] == c;
  }

  /** Its file of version 1.2 with the root at offset 20, byte by byte. */
  lemma SampleFile(align: bool)
    ensures Size(Sample(), align) == if align then 48 else 23
    ensures FileBytes(Sample(), RootAt, align, 1, 2) ==
            [0x0A, 0xA0, 0x0A, 0xA0] + [1, 0, 0, 0] + [2, 0, 0, 0] + [0, 0, 0, 0]
            + (if align then [0xD0, 0xFF, 0xFF, 0xFF] else [23, 0, 0, 0])
            + if align then
                [0x01, 0, 0, 0, 0x72, 0x6F, 0x6F, 0x74, 0, 0, 0, 0, 32, 0, 0, 0]
                + (([0x02, 0, 0, 0, 0x61, 0, 0, 0] + [0x10, 0, 0, 0, 5, 0, 0, 0])
                   + ([0x02, 0, 0, 0, 0x72, 0, 0, 0] + [0x03, 0, 0, 0, 20, 0, 0, 0]))
              else
                [0x01, 0x72, 0x6F, 0x6F, 0x74, 0, 13, 0, 0, 0]
                + (([0x02, 0x61, 0] + [0x10, 5]) + ([0x02, 0x72, 0] + [0x03, 20, 0, 0, 0]))
  {
    hide *;
    SampleSizes(align);
    SampleEmits(align);
    SampleRoot(align);
    SampleRest(align);
    FileFormat(Sample(), RootAt, align, 1, 2);
    SampleWords();
  }

  lemma SampleWords()
    ensures Word(1) == [1, 0, 0, 0] && Word(2) == [2, 0, 0, 0]
    ensures Word(Low(13)) == [13, 0, 0, 0] && Word(Low(32)) == [32, 0, 0, 0] && Word(Low(20)) == [20, 0, 0, 0]
    ensures Word(Low(23)) == [23, 0, 0, 0] && Word(Low(0x1_0000_0000 - 48)) == [0xD0, 0xFF, 0xFF, 0xFF]
  {
  }
}
