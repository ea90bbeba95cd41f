/**
 What a byte code file is accepted for: whatever the reader makes of any file stands in it, object by
 object, and whatever stands in it the reader makes of it.
 */
module HcsFile {
  import opened Bytes
  import opened HcsTree
  import opened Decompile

  /** An op code, in aligned files the first byte of a word. */
  predicate Coded(m: seq<byte>, pos: nat, op: byte, align: bool) {
    pos + Align4(1, align) <= |m| && m[pos] == op
  }

  /** A name or string, its NUL, and the rest of the word in aligned files. */
  ghost predicate Spelled(m: seq<byte>, pos: nat, text: seq<byte>, align: bool) {
    |text| <= 257 && 0 !in text && At(m, pos, text + [0]) && pos + Align4(|text| + 1, align) <= |m|
  }

  /** A number of `w` bytes, its low byte first, and the rest of the word in aligned files. */
  ghost predicate Counted(m: seq<byte>, pos: nat, v: nat, w: nat, align: bool) {
    v < Pow256(w) && At(m, pos, ToLE(v, w)) && pos + Align4(w, align) <= |m|
  }

  /** An object stands at a position: its op code, its own fields, and its children behind them. */
  ghost predicate Stands(m: seq<byte>, pos: nat, t: RawTree, align: bool)
    decreases t, 0
  {
    var a := pos + Align4(1, align);
    match t.lab
    case Node(name, kind) =>
      var b := a + Align4(|name| + 1, align);
      && kind == NoRef && t.id == pos && Coded(m, pos, 0x01, align) && Spelled(m, a, name, align) && b + 4 <= |m|
      && var below := WordAt(m, b);
         KidsStand(m, b + 4, t.kids, b + 4 + if below < 0x8000_0000 then below else below - 0x1_0000_0000, align)
    case Term(name) =>
      && t.id == 0 && |t.kids| == 1 && Coded(m, pos, 0x02, align) && Spelled(m, a, name, align)
      && Stands(m, a + Align4(|name| + 1, align), t.kids[0], align)
    case Ref(v) =>
      t.id == 0 && t.kids == [] && Coded(m, pos, 0x03, align) && Counted(m, a, v, 4, align)
    case Arr =>
      && t.id == 0 && Coded(m, pos, 0x04, align) && Counted(m, a, |t.kids|, 2, align)
      && ElementsStand(m, a + Align4(2, align), t.kids, align)
    case Num(w, v) =>
      && t.id == 0 && t.kids == [] && (w == 1 || w == 2 || w == 4 || w == 8) && Counted(m, a, v, w, align)
      && Coded(m, pos, if w == 1 then 0x10 else if w == 2 then 0x11 else if w == 4 then 0x12 else 0x13, align)
    case Str(text) =>
      t.id == 0 && t.kids == [] && Coded(m, pos, 0x14, align) && Spelled(m, a, text, align)
    case Del => false
  }

  /** Objects one behind the other, each starting before `end`, up to the first position that is not. */
  ghost predicate KidsStand(m: seq<byte>, pos: nat, ts: seq<RawTree>, end: int, align: bool)
    decreases ts, 1
  {
    if ts == [] then pos >= end
    else pos < end && Stands(m, pos, ts[0], align) && KidsStand(m, pos + Size(ts[0], align), ts[1..], end, align)
  }

  ghost predicate ElementsStand(m: seq<byte>, pos: nat, ts: seq<RawTree>, align: bool)
    decreases ts, 1
  {
    ts == [] || (Stands(m, pos, ts[0], align) && ElementsStand(m, pos + Size(ts[0], align), ts[1..], align))
  }

  // ----- strings and numbers -----

  lemma {:induction false} ScanIs(m: seq<byte>, pos: nat, have: seq<byte>, text: seq<byte>, next: nat)
    requires ScanString(m, pos, have) == Good(have + text, next) && |have| <= 257
    ensures |have| + |text| <= 257 && 0 !in text && At(m, pos, text + [0]) && next == pos + |text| + 1
    decreases |m| - pos
  {
    if m[pos] == 0 {
      assert have + text == have + [];
      assert text == [];
    } else {
      var c := m[pos];
      assert |have + text| > |have| by { ScanGrows(m, pos + 1, have + [c]); }
      assert (have + text)[|have|] == c by { ScanGrows(m, pos + 1, have + [c]); }
      assert have + text == (have + [c]) + text[1..];
      ScanIs(m, pos + 1, have + [c], text[1..], next);
      assert text + [0] == [c] + (text[1..] + [0]);
      AtJoin(m, pos, [c], text[1..] + [0]);
    }
  }

  lemma {:induction false} ScanGrows(m: seq<byte>, pos: nat, have: seq<byte>)
    ensures ScanString(m, pos, have).Good? ==> have <= ScanString(m, pos, have).value
    decreases |m| - pos
  {
    if pos < |m| && m[pos] != 0 && |have| <= STRING_LIMIT {
      ScanGrows(m, pos + 1, have + [m[pos]]);
    }
  }

  lemma StringIff(m: seq<byte>, pos: nat, text: seq<byte>, next: nat, align: bool)
    ensures ReadString(m, pos, align) == Good(text, next) <==>
            Spelled(m, pos, text, align) && next == pos + Align4(|text| + 1, align)
  {
    if ReadString(m, pos, align) == Good(text, next) {
      assert [] + text == text;
      ScanIs(m, pos, [], text, ScanString(m, pos, []).next);
    }
    if Spelled(m, pos, text, align) {
      ScanWritten(m, pos, [], text);
      assert [] + text == text;
    }
  }

  lemma NumberIff(m: seq<byte>, pos: nat, v: nat, w: nat, next: nat, align: bool)
    requires w > 0
    ensures ReadNumber(m, pos, w, align) == Good(v, next) <==>
            Counted(m, pos, v, w, align) && next == pos + Align4(w, align)
  {
    hide ToLE, FromLE, Pow256;
    if ReadNumber(m, pos, w, align) == Good(v, next) {
      ToFromLE(m[pos..pos + w]);
    }
    if Counted(m, pos, v, w, align) {
      FromToLE(v, w);
    }
  }

  /** A node's sub-size, as the signed word it is read as. */
  lemma SubSizeIs(m: seq<byte>, pos: nat, align: bool)
    requires pos + 4 <= |m|
    ensures var v := WordAt(m, pos);
            && ReadNumber(m, pos, 4, align) == Good(v, pos + 4)
            && ToInt32(v) == if v < 0x8000_0000 then v else v - 0x1_0000_0000
  {
    hide FromLE;
  }

  // ----- every object that stands is read -----

  /** Which reader an op code leads to. */
  lemma OpLeads(m: seq<byte>, pos: nat, align: bool)
    ensures var p := pos + Align4(1, align);
            && (Coded(m, pos, 0x01, align) ==> ReadObject(m, pos, align) == ReadNode(m, pos, p, align))
            && (Coded(m, pos, 0x02, align) ==> ReadObject(m, pos, align) == ReadTerm(m, p, align))
            && (Coded(m, pos, 0x04, align) ==> ReadObject(m, pos, align) == ReadArray(m, p, align))
  {
    hide ReadNumber, ReadString, ReadNode, ReadTerm, ReadArray;
  }

  lemma LeafSize(t: RawTree, align: bool)
    requires t.kids == []
    ensures Size(t, align) == HeadSize(t.lab, align)
  {
    hide HeadSize;
  }

  lemma LeafComplete(m: seq<byte>, pos: nat, t: RawTree, align: bool)
    requires Stands(m, pos, t, align) && (t.lab.Ref? || t.lab.Num? || t.lab.Str?)
    ensures ReadObject(m, pos, align) == Good(t, pos + Size(t, align))
  {
    hide ReadObject, ReadNumber, ReadString, Counted, Spelled, Size, Align4;
    LeafSize(t, align);
    var p := pos + Align4(1, align);
    match t.lab
    case Ref(v) =>
      NumberIff(m, p, v, 4, p + Align4(4, align), align);
      ReadsNumber(m, pos, p, 4, align);
    case Num(w, v) =>
      NumberIff(m, p, v, w, p + Align4(w, align), align);
      ReadsNumber(m, pos, p, w, align);
    case Str(text) =>
      StringIff(m, p, text, p + Align4(|text| + 1, align), align);
      ReadsString(m, pos, p, align);
  }

  lemma {:induction false} ObjectComplete(m: seq<byte>, pos: nat, t: RawTree, align: bool)
    requires Stands(m, pos, t, align)
    ensures ReadObject(m, pos, align) == Good(t, pos + Size(t, align))
    decreases t, 0
  {
    hide *;
    var a := pos + Align4(1, align);
    match t.lab
    case Node(name, _) =>
      var b := a + Align4(|name| + 1, align);
      NodeStandsIff(m, pos, t, align);
      KidsComplete(m, b + 4, t.kids, b + 4 + ToInt32(WordAt(m, b)), align);
      NodeIff(m, pos, name, align, b);
      AboveIs(Good(t.kids, b + 4 + SizeAll(t.kids, align)), pos, t.lab);
      NodeSize(t, align);
    case Term(name) =>
      TermStandsIff(m, pos, t, align);
      ObjectComplete(m, a + Align4(|name| + 1, align), t.kids[0], align);
      TermIs(m, pos, name, align);
      TermSize(t, align);
      assert [t.kids[0]] == t.kids;
    case Arr =>
      ArrayStandsIff(m, pos, t, align);
      ElementsComplete(m, a + Align4(2, align), t.kids, align);
      ArrayIs(m, pos, |t.kids|, align);
      AboveIs(Good(t.kids, a + Align4(2, align) + SizeAll(t.kids, align)), 0, t.lab);
      ArraySize(t, align);
    case Del => DelStandsNot(m, pos, t, align);
    case _ => LeafComplete(m, pos, t, align);
  }

  lemma DelStandsNot(m: seq<byte>, pos: nat, t: RawTree, align: bool)
    requires t.lab.Del?
    ensures !Stands(m, pos, t, align)
  {
  }

  /** What it takes for a node to stand, its sub-size as it is read. */
  lemma NodeStandsIff(m: seq<byte>, pos: nat, t: RawTree, align: bool)
    requires t.lab.Node?
    ensures var a := pos + Align4(1, align);
            var b := a + Align4(|t.lab.name| + 1, align);
            Stands(m, pos, t, align) <==>
            && t.lab.kind == NoRef && t.id == pos && Coded(m, pos, 0x01, align) && Spelled(m, a, t.lab.name, align)
            && b + 4 <= |m| && KidsStand(m, b + 4, t.kids, b + 4 + ToInt32(WordAt(m, b)), align)
  {
    hide Align4, Coded, Spelled, KidsStand, WordAt, ToInt32;
    var b := pos + Align4(1, align) + Align4(|t.lab.name| + 1, align);
    if b + 4 <= |m| {
      SubSizeIs(m, b, align);
    }
  }

  lemma TermStandsIff(m: seq<byte>, pos: nat, t: RawTree, align: bool)
    requires t.lab.Term?
    ensures var a := pos + Align4(1, align);
            Stands(m, pos, t, align) <==>
            && t.id == 0 && |t.kids| == 1 && Coded(m, pos, 0x02, align) && Spelled(m, a, t.lab.name, align)
            && Stands(m, a + Align4(|t.lab.name| + 1, align), t.kids[0], align)
  {
    hide Align4, Coded, Spelled;
  }

  lemma ArrayStandsIff(m: seq<byte>, pos: nat, t: RawTree, align: bool)
    requires t.lab.Arr?
    ensures var a := pos + Align4(1, align);
            Stands(m, pos, t, align) <==>
            && t.id == 0 && Coded(m, pos, 0x04, align) && Counted(m, a, |t.kids|, 2, align)
            && ElementsStand(m, a + Align4(2, align), t.kids, align)
  {
    hide Align4, Coded, Counted, ElementsStand;
  }

  /** An object above the children that were read. */
  function Above(kids: Parsed<seq<RawTree>>, id: nat, lab: Label<nat>): Parsed<RawTree> {
    if kids.Bad? then Bad else Good(Tree(id, lab, kids.value), kids.next)
  }

  lemma AboveIs(kids: Parsed<seq<RawTree>>, id: nat, lab: Label<nat>)
    ensures Above(kids, id, lab) == if kids.Bad? then Bad else Good(Tree(id, lab, kids.value), kids.next)
  {
  }

  /** Reading a node behind its op code, when its name and sub-size are there. */
  lemma NodeIff(m: seq<byte>, pos: nat, name: seq<byte>, align: bool, b: nat)
    requires var a := pos + Align4(1, align);
             Coded(m, pos, 0x01, align) && Spelled(m, a, name, align) && b == a + Align4(|name| + 1, align)
    requires b + 4 <= |m|
    ensures ReadObject(m, pos, align) ==
            Above(ReadKids(m, b + 4, b + 4 + ToInt32(WordAt(m, b)), align), pos, Node(name, NoRef))
  {
    hide Align4, Coded, Spelled, WordAt, ToInt32, ReadObject, ReadString, ReadNumber, ReadKids;
    OpLeads(m, pos, align);
    StringIff(m, pos + Align4(1, align), name, b, align);
    SubSizeIs(m, b, align);
  }

  lemma TermIs(m: seq<byte>, pos: nat, name: seq<byte>, align: bool)
    requires Coded(m, pos, 0x02, align) && Spelled(m, pos + Align4(1, align), name, align)
    ensures ReadObject(m, pos, align) ==
            (var value := ReadObject(m, pos + Align4(1, align) + Align4(|name| + 1, align), align);
             if value.Bad? then Bad else Good(Tree(0, Term(name), [value.value]), value.next))
  {
    hide Align4, Coded, Spelled, ReadObject, ReadString;
    var a := pos + Align4(1, align);
    OpLeads(m, pos, align);
    StringIff(m, a, name, a + Align4(|name| + 1, align), align);
  }

  lemma ArrayIs(m: seq<byte>, pos: nat, count: nat, align: bool)
    requires Coded(m, pos, 0x04, align) && Counted(m, pos + Align4(1, align), count, 2, align)
    ensures ReadObject(m, pos, align) ==
            Above(ReadElements(m, pos + Align4(1, align) + Align4(2, align), count, align), 0, Arr)
  {
    hide Align4, Coded, Counted, ReadObject, ReadNumber, ReadElements;
    var a := pos + Align4(1, align);
    OpLeads(m, pos, align);
    NumberIff(m, a, count, 2, a + Align4(2, align), align);
  }

  lemma NodeSize(t: RawTree, align: bool)
    requires t.lab.Node?
    ensures Size(t, align) == Align4(1, align) + Align4(|t.lab.name| + 1, align) + 4 + SizeAll(t.kids, align)
  {
    hide SizeAll;
  }

  lemma ArraySize(t: RawTree, align: bool)
    requires t.lab.Arr?
    ensures Size(t, align) == Align4(1, align) + Align4(2, align) + SizeAll(t.kids, align)
  {
    hide SizeAll, Align4;
  }

  lemma TermSize(t: RawTree, align: bool)
    requires t.lab.Term? && |t.kids| == 1
    ensures Size(t, align) == Align4(1, align) + Align4(|t.lab.name| + 1, align) + Size(t.kids[0], align)
  {
    hide Align4;
    var ks := t.kids;
    assert SizeAll(ks, align) == Size(ks[0], align) + SizeAll(ks[1..], align) && ks[1..] == [];
  }

  lemma {:induction false} KidsComplete(m: seq<byte>, pos: nat, ts: seq<RawTree>, end: int, align: bool)
    requires KidsStand(m, pos, ts, end, align)
    ensures ReadKids(m, pos, end, align) == Good(ts, pos + SizeAll(ts, align))
    decreases ts, 1
  {
    hide ReadObject, Size, Stands;
    if ts == [] {
    } else {
      ObjectComplete(m, pos, ts[0], align);
      KidsComplete(m, pos + Size(ts[0], align), ts[1..], end, align);
      assert [ts[0]] + ts[1..] == ts;
    }
  }

  lemma {:induction false} ElementsComplete(m: seq<byte>, pos: nat, ts: seq<RawTree>, align: bool)
    requires ElementsStand(m, pos, ts, align)
    ensures ReadElements(m, pos, |ts|, align) == Good(ts, pos + SizeAll(ts, align))
    decreases ts, 1
  {
    hide ReadObject, Size, Stands;
    if ts == [] {
    } else {
      ObjectComplete(m, pos, ts[0], align);
      ElementsComplete(m, pos + Size(ts[0], align), ts[1..], align);
      assert [ts[0]] + ts[1..] == ts;
    }
  }

  // ----- whatever is read stands there -----

  lemma {:induction false} ObjectSound(m: seq<byte>, pos: nat, t: RawTree, next: nat, align: bool)
    requires ReadObject(m, pos, align) == Good(t, next)
    ensures Stands(m, pos, t, align) && next == pos + Size(t, align)
    decreases |m| - pos, 1
  {
    hide ReadObject, Stands, Size, Align4;
    OpKnown(m, pos, align);
    if m[pos] == 0x01 {
      NodeSound(m, pos, t, next, align);
    } else if m[pos] == 0x02 {
      TermSound(m, pos, t, next, align);
    } else if m[pos] == 0x04 {
      ArraySound(m, pos, t, next, align);
    } else {
      LeafSound(m, pos, t, next, align);
    }
  }

  lemma OpKnown(m: seq<byte>, pos: nat, align: bool)
    requires ReadObject(m, pos, align).Good?
    ensures pos + Align4(1, align) <= |m|
    ensures m[pos] in {0x01, 0x02, 0x03, 0x04, 0x10, 0x11, 0x12, 0x13, 0x14}
  {
    hide ReadNumber, ReadString, ReadNode, ReadTerm, ReadArray;
  }

  lemma LeafSound(m: seq<byte>, pos: nat, t: RawTree, next: nat, align: bool)
    requires ReadObject(m, pos, align) == Good(t, next) && pos + Align4(1, align) <= |m|
    requires m[pos] in {0x03, 0x10, 0x11, 0x12, 0x13, 0x14}
    ensures Stands(m, pos, t, align) && next == pos + Size(t, align)
  {
    var p := pos + Align4(1, align);
    hide ReadObject, ReadNumber, ReadString, Counted, Spelled, Size, Align4;
    if m[pos] == 0x14 {
      ReadsString(m, pos, p, align);
      StringIff(m, p, t.lab.text, next, align);
    } else {
      var w := if m[pos] == 0x10 then 1 else if m[pos] == 0x11 then 2 else if m[pos] == 0x13 then 8 else 4;
      ReadsNumber(m, pos, p, w, align);
      NumberIff(m, p, if m[pos] == 0x03 then t.lab.target else t.lab.value, w, next, align);
    }
    LeafSize(t, align);
  }

  lemma NodeSound(m: seq<byte>, pos: nat, t: RawTree, next: nat, align: bool)
    requires Coded(m, pos, 0x01, align) && ReadObject(m, pos, align) == Good(t, next)
    ensures Stands(m, pos, t, align) && next == pos + Size(t, align)
    decreases |m| - pos, 0
  {
    hide *;
    var a := pos + Align4(1, align);
    var name, b := NodeStarts(m, pos, align);
    NodeIff(m, pos, name, align, b);
    AboveIs(ReadKids(m, b + 4, b + 4 + ToInt32(WordAt(m, b)), align), pos, Node(name, NoRef));
    KidsSound(m, b + 4, t.kids, next, b + 4 + ToInt32(WordAt(m, b)), align);
    NodeStandsIff(m, pos, t, align);
    NodeSize(t, align);
  }

  lemma NodeStarts(m: seq<byte>, pos: nat, align: bool) returns (name: seq<byte>, b: nat)
    requires Coded(m, pos, 0x01, align) && ReadObject(m, pos, align).Good?
    ensures var a := pos + Align4(1, align);
            Spelled(m, a, name, align) && b == a + Align4(|name| + 1, align) && pos < b && b + 4 <= |m|
  {
    var a := pos + Align4(1, align);
    OpLeads(m, pos, align);
    hide ReadObject, ReadNumber, ReadString, ReadKids, Spelled;
    name, b := ReadString(m, a, align).value, ReadString(m, a, align).next;
    StringIff(m, a, name, b, align);
    WordThere(m, b, align);
  }

  lemma WordThere(m: seq<byte>, pos: nat, align: bool)
    requires ReadNumber(m, pos, 4, align).Good?
    ensures pos + 4 <= |m|
  {
    hide FromLE;
  }

  lemma TermSound(m: seq<byte>, pos: nat, t: RawTree, next: nat, align: bool)
    requires Coded(m, pos, 0x02, align) && ReadObject(m, pos, align) == Good(t, next)
    ensures Stands(m, pos, t, align) && next == pos + Size(t, align)
    decreases |m| - pos, 0
  {
    hide *;
    var name, b := TermStarts(m, pos, align);
    TermIs(m, pos, name, align);
    ObjectSound(m, b, t.kids[0], next, align);
    TermStandsIff(m, pos, t, align);
    TermSize(t, align);
  }

  lemma TermStarts(m: seq<byte>, pos: nat, align: bool) returns (name: seq<byte>, b: nat)
    requires Coded(m, pos, 0x02, align) && ReadObject(m, pos, align).Good?
    ensures var a := pos + Align4(1, align);
            Spelled(m, a, name, align) && b == a + Align4(|name| + 1, align) && pos < b <= |m|
  {
    var a := pos + Align4(1, align);
    OpLeads(m, pos, align);
    hide ReadObject, ReadString, Spelled;
    name, b := ReadString(m, a, align).value, ReadString(m, a, align).next;
    StringIff(m, a, name, b, align);
  }

  lemma ArraySound(m: seq<byte>, pos: nat, t: RawTree, next: nat, align: bool)
    requires Coded(m, pos, 0x04, align) && ReadObject(m, pos, align) == Good(t, next)
    ensures Stands(m, pos, t, align) && next == pos + Size(t, align)
    decreases |m| - pos, 0
  {
    hide *;
    var count, b := ArrayStarts(m, pos, align);
    ArrayIs(m, pos, count, align);
    AboveIs(ReadElements(m, b, count, align), 0, Arr);
    ElementsSound(m, b, count, t.kids, next, align);
    ArrayStandsIff(m, pos, t, align);
    ArraySize(t, align);
  }

  lemma ArrayStarts(m: seq<byte>, pos: nat, align: bool) returns (count: nat, b: nat)
    requires Coded(m, pos, 0x04, align) && ReadObject(m, pos, align).Good?
    ensures var a := pos + Align4(1, align);
            Counted(m, a, count, 2, align) && b == a + Align4(2, align) && pos < b <= |m|
  {
    var a := pos + Align4(1, align);
    OpLeads(m, pos, align);
    hide ReadObject, ReadNumber, ReadElements, Counted;
    count, b := ReadNumber(m, a, 2, align).value, ReadNumber(m, a, 2, align).next;
    NumberIff(m, a, count, 2, b, align);
  }

  lemma {:induction false} KidsSound(m: seq<byte>, pos: nat, ts: seq<RawTree>, next: nat, end: int, align: bool)
    requires ReadKids(m, pos, end, align) == Good(ts, next)
    ensures KidsStand(m, pos, ts, end, align) && next == pos + SizeAll(ts, align)
    decreases |m| - pos, 2
  {
    hide ReadObject, Size, Stands;
    if pos < end {
      var first := ReadObject(m, pos, align);
      ObjectSound(m, pos, first.value, first.next, align);
      KidsSound(m, first.next, ts[1..], next, end, align);
    }
  }

  lemma {:induction false} ElementsSound(m: seq<byte>, pos: nat, count: nat, ts: seq<RawTree>, next: nat, align: bool)
    requires ReadElements(m, pos, count, align) == Good(ts, next)
    ensures |ts| == count && ElementsStand(m, pos, ts, align) && next == pos + SizeAll(ts, align)
    decreases |m| - pos, 2
  {
    hide ReadObject, Size, Stands;
    if count > 0 {
      var first := ReadObject(m, pos, align);
      ObjectSound(m, pos, first.value, first.next, align);
      ElementsSound(m, first.next, count - 1, ts[1..], next, align);
    }
  }

  // ----- whole files -----

  /** An object is read exactly if it stands there, and reading goes on right behind it. */
  lemma ObjectIff(m: seq<byte>, pos: nat, t: RawTree, next: nat, align: bool)
    ensures ReadObject(m, pos, align) == Good(t, next) <==> Stands(m, pos, t, align) && next == pos + Size(t, align)
  {
    hide ReadObject, Stands, Size;
    if ReadObject(m, pos, align) == Good(t, next) {
      ObjectSound(m, pos, t, next, align);
    }
    if Stands(m, pos, t, align) {
      ObjectComplete(m, pos, t, align);
    }
  }

  /** The words of a header, from their bytes. */
  lemma HeaderWords(m: seq<byte>)
    requires |m| >= 20
    ensures WordAt(m, 0) == HCB_MAGIC <==> m[..4] == [0x0A, 0xA0, 0x0A, 0xA0]
    ensures ToInt32(WordAt(m, 16)) < 0 <==> m[19] >= 0x80
    ensures |m| >= 24 ==> (WordAt(m, 20) == 1 <==> m[20..24] == [0x01, 0, 0, 0])
  {
    hide WordAt;
    WordAtIs(m, 0);
    WordAtIs(m, 16);
    assert m[..4] == [m[0], m[1], m[2], m[3]];
    if |m| >= 24 {
      WordAtIs(m, 20);
      assert m[20..24] == [m[20], m[21], m[22], m[23]];
    }
  }

  lemma StandsFirst(m: seq<byte>, pos: nat, t: RawTree, align: bool)
    requires Stands(m, pos, t, align)
    ensures pos + Align4(1, align) <= |m| && (t.lab.Node? <==> m[pos] == 0x01)
  {
    hide Spelled, Counted, KidsStand, ElementsStand, WordAt, Align4;
  }

  /**
   A file decompiles to a tree exactly if it starts with the magic number and a node stands behind the
   header that is this tree, in whole words if the size is negative; there the root's op code fills its word.
   */
  lemma FileIff(m: seq<byte>, t: RawTree, next: nat)
    ensures DecodeFile(m) == Good(t, next) <==>
            && |m| >= 20 && m[..4] == [0x0A, 0xA0, 0x0A, 0xA0]
            && var align := m[19] >= 0x80;
               && t.lab.Node? && Stands(m, 20, t, align) && next == 20 + Size(t, align)
               && (align ==> m[20..24] == [0x01, 0, 0, 0])
  {
    hide ReadObject, Stands, Size, WordAt, ToInt32;
    if |m| >= 20 {
      HeaderWords(m);
      var align := m[19] >= 0x80;
      ObjectIff(m, 20, t, next, align);
      if Stands(m, 20, t, align) {
        StandsFirst(m, 20, t, align);
      }
    }
  }
}
