/** The printed source character by character. */
module HcsPrinted {
  import opened Bytes
  import opened HcsTree
  import opened HcsPrinter
  import opened HcsNumbers

  /** Four blanks for every level. */
  function Blanks4(d: nat): seq<byte> {
    if d == 0 then [] else [0x20, 0x20, 0x20, 0x20] + Blanks4(d - 1)
  }

  /** Digits with capital letters. */
  function Capitals(ks: seq<nat>): (d: seq<byte>)
    requires forall i :: 0 <= i < |ks| ==> ks[i] < 16
    ensures |d| == |ks| && Spells(d, ks, 16)
  {
    seq(|ks|, i requires 0 <= i < |ks| => UPPER[ks[i]])
  }

  lemma {:induction false} TabIs(d: nat)
    ensures Tab(d) == Blanks4(d)
  {
    if d > 0 {
      TabIs(d - 1);
      assert Tab(d) == [0x20, 0x20, 0x20, 0x20] + Tab(d - 1);
    }
  }

  lemma {:induction false} HexIs(v: nat)
    ensures HexText(v) == Capitals(Digits(v, 16))
  {
    if v < 16 {
      assert HexText(v) == [UPPER[v]];
    } else {
      HexIs(v / 16);
      assert HexDigit(v % 16) == UPPER[v % 16];
      assert Digits(v, 16) == Digits(v / 16, 16) + [v % 16];
    }
  }

  /** The fragments the printer puts around names and values. */
  lemma Fragments()
    ensures OPENING == Ascii(" {\n") && CLOSING == Ascii("}\n") && ASSIGN == Ascii(" = ") && TERM_END == Ascii(";\n")
    ensures SEPARATOR == Ascii(", ")
    ensures FILE_COMMENT == Ascii("/*\n * HDF decompile hcs file\n */\n\n")
  {
  }

  /** Numbers in hexadecimal, strings in quotes, and arrays in brackets with a comma and a blank between elements. */
  lemma ValueFormat<Id>(t: Tree<Id>)
    requires ValueOk(t)
    ensures t.lab.Num? ==> ValueText(t) == Ascii("0x") + Capitals(Digits(t.lab.value, 16))
    ensures t.lab.Str? ==> ValueText(t) == Ascii("\"") + t.lab.text + Ascii("\"")
    ensures t.lab.Arr? && t.kids == [] ==> ValueText(t) == Ascii("[]")
    ensures t.lab.Arr? && t.kids != [] ==>
              ValueText(t) == Ascii("[") + ValueText(t.kids[0]) + RestText(t.kids[1..]) + Ascii("]")
  {
    match t.lab
    case Num(_, v) =>
      HexIs(v);
      assert Ascii("0x") == [0x30, 0x78];
    case Str(_) =>
    case Arr =>
      hide ValueText;
      ArrayIs(t);
  }

  /** What follows the first element of an array. */
  function RestText<Id>(ts: seq<Tree<Id>>): seq<byte>
    requires forall i :: 0 <= i < |ts| ==> ValueOk(ts[i])
  {
    if ts == [] then [] else Ascii(", ") + ValueText(ts[0]) + RestText(ts[1..])
  }

  lemma ArrayIs<Id>(t: Tree<Id>)
    requires ValueOk(t) && t.lab.Arr?
    ensures t.kids == [] ==> ValueText(t) == Ascii("[]")
    ensures t.kids != [] ==> ValueText(t) == Ascii("[") + ValueText(t.kids[0]) + RestText(t.kids[1..]) + Ascii("]")
  {
    hide ElementsText, RestText, HexText;
    assert ValueText(t) == Ascii("[") + ElementsText(t.kids) + Ascii("]");
    ElementsAre(t.kids);
  }

  lemma SeparatorIs()
    ensures SEPARATOR == Ascii(", ")
  {
  }

  lemma {:induction false} ElementsAre<Id>(ts: seq<Tree<Id>>)
    requires forall i :: 0 <= i < |ts| ==> ValueOk(ts[i])
    ensures ts == [] ==> ElementsText(ts) == []
    ensures ts != [] ==> ElementsText(ts) == ValueText(ts[0]) + RestText(ts[1..])
    decreases |ts|
  {
    hide ValueText, ValueOk;
    hide Ascii;
    if |ts| > 1 {
      ElementsAre(ts[1..]);
      SeparatorIs();
    } else if |ts| == 1 {
      assert ts[1..] == [];
      assert ValueText(ts[0]) + [] == ValueText(ts[0]);
    }
  }

  /** A node's name and braces on lines of their own around its members, a term on one line, four blanks a level. */
  lemma PrintFormat<Id>(t: Tree<Id>, d: nat)
    requires Shapely(t)
    ensures t.lab.Node? ==>
              Print(t, d) == Blanks4(d) + (t.lab.name + Ascii(" {\n")) + PrintAll(t.kids, d + 1)
                             + (Blanks4(d) + Ascii("}\n"))
    ensures t.lab.Term? ==>
              Print(t, d) == Blanks4(d) + (t.lab.name + Ascii(" = ")) + ValueText(t.kids[0]) + Ascii(";\n")
  {
    hide Tab, Blanks4, PrintAll, ValueText, Ascii;
    TabIs(d);
    Fragments();
  }
}
