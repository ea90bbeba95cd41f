/** Compiling and decompiling end to end. */
module HcsCompile {
  import opened Bytes
  import opened HcsTree
  import opened TreeWalk
  import opened HcsOffsets
  import opened AstHeap
  import opened HcsBuild
  import opened ByteCodeGen
  import opened ByteCodeWrite
  import opened Decompile

  /** A tree without templates that the generator and the format can take. */
  ghost predicate Compilable(u: Obj, align: bool) {
    && u.lab.Node? && Distinct(u) && RefsInside(u) && Size(u, align) < 0x8000_0000
    && forall x :: x in Pre(u) ==> Encodable(x)
  }

  ghost predicate ShortOffset(x: Obj, offset: AstObject -> nat) {
    x.lab.Ref? ==> offset(x.lab.target) < WORD
  }

  lemma {:induction false} EncodableIsWritable(t: Obj, offset: AstObject -> nat, align: bool)
    requires Size(t, align) < 0x8000_0000
    requires forall x :: x in Pre(t) ==> Encodable(x) && ShortOffset(x, offset)
    ensures AllWritable(t, offset, align)
  {
    hide HeadSize;
    assert t in Pre(t);
    EachEncodableIsWritable(t.kids, offset, align);
  }

  lemma {:induction false} EachEncodableIsWritable(ts: seq<Obj>, offset: AstObject -> nat, align: bool)
    requires SizeAll(ts, align) < 0x8000_0000
    requires forall x :: x in PreAll(ts) ==> Encodable(x) && ShortOffset(x, offset)
    ensures EachWritable(ts, offset, align)
  {
    hide HeadSize, Size, Encodable, ShortOffset, AllWritable;
    if ts == [] {
    } else {
      EncodableIsWritable(ts[0], offset, align);
      EachEncodableIsWritable(ts[1..], offset, align);
    }
  }

  /** The object a reference leads to, and its offset in the file. */
  lemma Target(u: Obj, align: bool, x: Obj) returns (y: Obj)
    requires Compilable(u, align) && x in Pre(u) && x.lab.Ref?
    ensures y in Pre(u) && y.id == x.lab.target
    ensures FILE_HEADER <= FileOffset(u, align)(x.lab.target) < FILE_HEADER + Size(u, align)
  {
    hide Pre, Position, HeadSizes, HeadSize, Size, Encodable, Distinct;
    var i :| 0 <= i < |Pre(u)| && Pre(u)[i].id == x.lab.target;
    y := Pre(u)[i];
    PositionAt(u, i, FILE_HEADER, align);
    HeadSizesPrefix(u, i, align);
    assert HeadSize(y.lab, align) > 0;
  }

  /** A compilable tree decompiles to itself, located in the file, exactly when its strings are short enough. */
  lemma CompiledReadsBack(u: Obj, align: bool, major: uint32, minor: uint32)
    requires Compilable(u, align)
    ensures DecodeFile(FileBytes(u, FileOffset(u, align), align, major, minor)) ==
            if Fits(u) then Good(Located(u, FILE_HEADER, FileOffset(u, align), align), FILE_HEADER + Size(u, align))
            else Bad
  {
    hide DecodeFile, FileBytes, Located, Fits, Size, FileOffset, Pre, Encodable, Distinct;
    forall x | x in Pre(u) ensures ShortOffset(x, FileOffset(u, align)) {
      if x.lab.Ref? {
        var y := Target(u, align, x);
      }
    }
    EncodableIsWritable(u, FileOffset(u, align), align);
    FileReadsBack(u, FileOffset(u, align), align, major, minor);
  }

  /**
   A reference to a node decompiles to the offset by which the decompiled tree knows the image
   of that node, and no other node.
   */
  lemma ReferencesResolve(u: Obj, align: bool, x: Obj)
    requires Compilable(u, align) && x in Pre(u) && x.lab.Ref?
    ensures var raw, offset := Located(u, FILE_HEADER, FileOffset(u, align), align), FileOffset(u, align);
            exists y :: y in Pre(u) && y.id == x.lab.target
                        && Located(y, offset(y.id), offset, align) in Pre(raw)
                        && (y.lab.Node? ==> Located(y, offset(y.id), offset, align).id == Erased(x.lab, offset).target)
  {
    hide Pre, Position, HeadSizes, HeadSize, Size, Encodable, Distinct;
    var y := Target(u, align, x);
    LocatedAt(u, FILE_HEADER, y, FileOffset(u, align), align);
  }

  /** Different nodes have different offsets. */
  lemma OffsetsDiffer(u: Obj, align: bool, i: nat, j: nat)
    requires Distinct(u) && i < j < |Pre(u)|
    ensures FileOffset(u, align)(Pre(u)[i].id) < FileOffset(u, align)(Pre(u)[j].id)
  {
    hide Pre, Position, HeadSizes, HeadSize, Distinct;
    PositionAt(u, i, FILE_HEADER, align);
    PositionAt(u, j, FILE_HEADER, align);
    HeadSizesGrow(Pre(u), i, j, align);
  }

  lemma {:induction false} HeadSizesGrow(ts: seq<Obj>, i: nat, j: nat, align: bool)
    requires i < j <= |ts|
    ensures HeadSizes(ts[..i], align) < HeadSizes(ts[..j], align)
  {
    hide HeadSize, Head;
    var f := (o: AstObject) => 0;
    HeadsConcat(ts[..i], ts[i..j], f, align);
    assert ts[..j] == ts[..i] + ts[i..j];
    assert HeadSize(ts[i].lab, align) > 0;
  }

  /** Generate the byte code of a linked tree and read it back into linked objects. */
  method CompileAndDecompile(root: AstObject, align: bool, major: uint32, minor: uint32, ghost t: Obj,
                             ghost objs: set<AstObject>)
    returns (ok: bool, r: Parsed<RawTree>, o: AstObject?, ghost us: seq<Obj>)
    requires root == t.id && Distinct(t) && objs == Ids(t) && Wired(t, {}) && Labelled(t) && !IsTemplate(t)
    requires Counted(Prune(t, IsTemplate), objs) && Compilable(Prune(t, IsTemplate), align)
    modifies objs`child, objs`next, objs`opCode, objs`size, objs`subSize, objs`hash
    ensures ok <==> AllCoded(t)
    ensures var u := Prune(t, IsTemplate);
            ok ==> r == if Fits(u)
                        then Good(Located(u, FILE_HEADER, FileOffset(u, align), align), FILE_HEADER + Size(u, align))
                        else Bad
    ensures ok && r.Good? ==> MadeOne(r.value, o, us) && fresh(MadeIds(us))
  {
    hide Wired, Labelled, Counted, FileOffset, Pre, Ids, Distinct, Size, FileBytes, AllCoded, IsTemplate, Located,
      Fits, DecodeFile, Encodable, Prune, MadeOne, MadeIds;
    var writer := new ByteCodeWriter(align);
    r, o, us := Bad, null, [];
    ok := writer.Output(root, major, minor, t, objs);
    if ok {
      CompiledReadsBack(Prune(t, IsTemplate), align, major, minor);
      var reader := new FileReader(writer.out);
      r, o, us := reader.RebuildAst();
    }
  }
}
