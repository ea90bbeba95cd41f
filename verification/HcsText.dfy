/** What the printer writes, the lexer and parser read back. */
module HcsText {
  import opened Bytes
  import opened HcsTree
  import opened HcsLexer
  import opened HcsParser
  import opened HcsPrinter

  // ----- what can be printed and read back -----

  /** A name that lexes as itself. */
  predicate PlainName(n: seq<byte>) {
    n != [] && IsAlpha(n[0]) && (forall i :: 0 <= i < |n| ==> InLiteral(n[i])) && WordToken(n) == Literal(n)
  }

  predicate PlainText(s: seq<byte>) {
    forall i :: 0 <= i < |s| ==> s[i] != QUOTE && s[i] != BACKSLASH && s[i] != EOF
  }

  predicate PlainScalar<Id>(t: Tree<Id>) {
    match t.lab
    case Num(w, v) => t.kids == [] && v < 0x8000_0000_0000_0000 && w == FitWidth(v)
    case Str(text) => t.kids == [] && PlainText(text)
    case _ => false
  }

  /** Array elements are scalars of one kind. */
  predicate PlainElements<Id>(ts: seq<Tree<Id>>) {
    && (forall i :: 0 <= i < |ts| ==> PlainScalar(ts[i]))
    && (forall i, j :: 0 <= i < |ts| && 0 <= j < |ts| ==> ts[i].lab.Str? == ts[j].lab.Str?)
  }

  predicate PlainValue<Id>(t: Tree<Id>) {
    PlainScalar(t) || (t.lab.Arr? && PlainElements(t.kids))
  }

  predicate Plain<Id>(t: Tree<Id>) {
    match t.lab
    case Node(name, _) => PlainName(name) && forall i :: 0 <= i < |t.kids| ==> Plain(t.kids[i])
    case Term(name) => PlainName(name) && |t.kids| == 1 && PlainValue(t.kids[0])
    case _ => false
  }

  /** The root's name is the keyword. */
  predicate PlainRoot<Id>(t: Tree<Id>) {
    t.lab.Node? && t.lab.name == WORD_ROOT && forall i :: 0 <= i < |t.kids| ==> Plain(t.kids[i])
  }

  lemma PlainValuePrints<Id>(t: Tree<Id>)
    requires PlainValue(t)
    ensures ValueOk(t)
  {
  }

  lemma {:induction false} PlainPrints<Id>(t: Tree<Id>)
    requires Plain(t) || PlainRoot(t)
    ensures Shapely(t)
  {
    if t.lab.Term? {
      PlainValuePrints(t.kids[0]);
    } else {
      forall i | 0 <= i < |t.kids| ensures Shapely(t.kids[i]) {
        PlainPrints(t.kids[i]);
      }
    }
  }

  /** The tree as the parser builds it. */
  function Bare<Id>(t: Tree<Id>): SourceTree {
    Tree([], match t.lab
             case Node(name, _) => Node(name, NoRef)
             case Term(name) => Term(name)
             case Num(w, v) => Num(w, v)
             case Str(text) => Str(text)
             case Arr => Arr
             case _ => Del,
         BareAll(t.kids))
  }

  function BareAll<Id>(ts: seq<Tree<Id>>): seq<SourceTree> {
    if ts == [] then [] else [Bare(ts[0])] + BareAll(ts[1..])
  }

  // ----- single tokens -----

  predicate Blanks(b: seq<byte>) {
    forall i :: 0 <= i < |b| ==> IsBlank(b[i])
  }

  lemma {:induction false} BlanksSkip(s: seq<byte>, pos: nat, b: seq<byte>, c: byte)
    requires At(s, pos, b + [c]) && Blanks(b) && !IsBlank(c)
    ensures SkipBlank(s, pos) == pos + |b| < |s| && s[pos + |b|] == c
    decreases |b|
  {
    AtByte(s, pos, b, c);
    if b == [] {
    } else {
      assert s[pos] == s[pos..pos + |b| + 1][0] == b[0];
      assert b + [c] == [b[0]] + (b[1..] + [c]);
      AtSplit(s, pos, [b[0]], b[1..] + [c]);
      BlanksSkip(s, pos + 1, b[1..], c);
    }
  }

  lemma AtByte(s: seq<byte>, pos: nat, b: seq<byte>, c: byte)
    requires At(s, pos, b + [c])
    ensures pos + |b| < |s| && s[pos + |b|] == c
  {
    assert s[pos + |b|] == s[pos..pos + |b| + 1][|b|] == (b + [c])[|b|];
  }

  /** The first character behind blanks, and what follows it. */
  lemma FirstOf(s: seq<byte>, pos: nat, b: seq<byte>, c: byte, rest: seq<byte>)
    requires At(s, pos, b + ([c] + rest)) && Blanks(b) && !IsBlank(c)
    ensures SkipBlank(s, pos) == pos + |b| < |s| && s[pos + |b|] == c && At(s, pos + |b| + 1, rest)
  {
    ConcatAssoc(b, [c], rest);
    AtSplit(s, pos, b + [c], rest);
    BlanksSkip(s, pos, b, c);
  }

  lemma LexSymbol(s: seq<byte>, pos: nat, b: seq<byte>, c: byte)
    requires At(s, pos, b + [c]) && Blanks(b) && IsSymbol(c)
    ensures pos <= |s| && LexAt(s, pos) == Tok(Symbol(c), pos + |b| + 1)
  {
    BlanksSkip(s, pos, b, c);
  }

  lemma {:induction false} LiteralRuns(s: seq<byte>, pos: nat, w: seq<byte>, c: byte)
    requires At(s, pos, w + [c]) && !InLiteral(c) && forall i :: 0 <= i < |w| ==> InLiteral(w[i])
    ensures LiteralEnd(s, pos) == pos + |w| <= |s| && s[pos..pos + |w|] == w
    decreases |w|
  {
    AtByte(s, pos, w, c);
    AtSplit(s, pos, w, [c]);
    if w == [] {
    } else {
      assert s[pos] == s[pos..pos + |w|][0] == w[0];
      assert w + [c] == [w[0]] + (w[1..] + [c]);
      AtSplit(s, pos, [w[0]], w[1..] + [c]);
      LiteralRuns(s, pos + 1, w[1..], c);
    }
  }

  lemma LexWord(s: seq<byte>, pos: nat, b: seq<byte>, w: seq<byte>, c: byte)
    requires At(s, pos, b + (w + [c])) && Blanks(b) && !InLiteral(c)
    requires w != [] && IsAlpha(w[0]) && forall i :: 0 <= i < |w| ==> InLiteral(w[i])
    ensures pos <= |s| && LexAt(s, pos) == Tok(WordToken(w), pos + |b| + |w|)
  {
    hide At, LiteralEnd, SkipBlank, WordToken, Blanks;
    AtSplit(s, pos, b, w + [c]);
    LiteralRuns(s, pos + |b|, w, c);
    HeadFirst(w, c);
    FirstOf(s, pos, b, w[0], w[1..] + [c]);
  }

  lemma HeadFirst(w: seq<byte>, c: byte)
    requires w != []
    ensures w + [c] == [w[0]] + (w[1..] + [c])
  {
  }

  // ----- numbers -----

  lemma HexDigitIs(n: nat)
    requires n < 16
    ensures IsHex(HexDigit(n)) && Digit(HexDigit(n)) == n && HexDigit(n) != EOF
  {
  }

  /** Digits are positional, in every base. */
  lemma {:induction false} DigitsAppend(a: seq<byte>, c: byte, radix: nat, acc: nat)
    requires Digit(c) < radix && forall i :: 0 <= i < |a| ==> Digit(a[i]) < radix
    ensures DigitsValue(a + [c], radix, acc) == DigitsValue(a, radix, acc) * radix + Digit(c)
    decreases |a|
  {
    hide Digit;
    if a == [] {
      DigitsOne(c, radix, acc);
      assert a + [c] == [c];
    } else {
      assert (a + [c])[0] == a[0] && (a + [c])[1..] == a[1..] + [c];
      DigitsAppend(a[1..], c, radix, acc * radix + Digit(a[0]));
    }
  }

  lemma DigitsOne(c: byte, radix: nat, acc: nat)
    requires Digit(c) < radix
    ensures DigitsValue([c], radix, acc) == acc * radix + Digit(c)
  {
    assert [c][1..] == [];
    assert DigitsValue([], radix, acc * radix + Digit(c)) == acc * radix + Digit(c);
  }

  /** Hexadecimal digits read back as the number they were written for. */
  lemma {:induction false} HexReadsBack(v: nat)
    ensures forall i :: 0 <= i < |HexText(v)| ==> IsHex(HexText(v)[i]) && Digit(HexText(v)[i]) < 16
    ensures DigitsValue(HexText(v), 16, 0) == v
  {
    if v < 16 {
      HexDigitIs(v);
      var one := [HexDigit(v)];
      assert HexText(v) == one && one[1..] == [];
      assert DigitsValue(one, 16, 0) == DigitsValue(one[1..], 16, 0 * 16 + v) == v;
    } else {
      HexReadsBack(v / 16);
      HexDigitIs(v % 16);
      DigitsAppend(HexText(v / 16), HexDigit(v % 16), 16, 0);
      assert v / 16 * 16 + v % 16 == v;
    }
  }

  lemma {:induction false} HexRuns(s: seq<byte>, pos: nat, w: seq<byte>, c: byte)
    requires At(s, pos, w + [c]) && !IsHex(c) && forall i :: 0 <= i < |w| ==> IsHex(w[i])
    ensures RunEnd(s, pos, IsHex) == pos + |w| <= |s| && s[pos..pos + |w|] == w
    decreases |w|
  {
    AtByte(s, pos, w, c);
    AtSplit(s, pos, w, [c]);
    if w == [] {
    } else {
      assert s[pos] == s[pos..pos + |w|][0] == w[0];
      assert w + [c] == [w[0]] + (w[1..] + [c]);
      AtSplit(s, pos, [w[0]], w[1..] + [c]);
      HexRuns(s, pos + 1, w[1..], c);
    }
  }

  lemma LexHex(s: seq<byte>, pos: nat, b: seq<byte>, v: nat, c: byte)
    requires At(s, pos, b + ([0x30, 0x78] + (HexText(v) + [c]))) && Blanks(b) && !IsHex(c) && v < 0x8000_0000_0000_0000
    ensures pos <= |s| && LexAt(s, pos) == Tok(Number(v), pos + |b| + 2 + |HexText(v)|)
  {
    var p, rest := pos + |b|, HexText(v) + [c];
    hide DigitsValue, HexText, RunEnd, Blanks, At, LexNumber, SkipBlank, IsHex, Digit;
    assert [0x30, 0x78] + rest == [0x30] + ([0x78] + rest);
    FirstOf(s, pos, b, 0x30, [0x78] + rest);
    assert [] + ([0x78] + rest) == [0x78] + rest;
    NoBlanks();
    FirstOf(s, p + 1, [], 0x78, rest);
    HexReadsBack(v);
    HexRuns(s, p + 2, HexText(v), c);
    LexHexAt(s, p, p + 2 + |HexText(v)|, v);
  }

  lemma NoBlanks()
    ensures Blanks([])
  {
  }

  lemma LexHexAt(s: seq<byte>, p: nat, end: nat, v: nat)
    requires p + 2 <= end <= |s| && s[p] == 0x30 && s[p + 1] == 0x78 && SkipBlank(s, p + 1) == p + 1
    requires RunEnd(s, p + 2, IsHex) == end && DigitsValue(s[p + 2..end], 16, 0) == v < 0x8000_0000_0000_0000
    ensures LexNumber(s, p) == Tok(Number(v), end)
  {
    hide DigitsValue, RunEnd, SkipBlank;
  }

  // ----- strings -----

  lemma {:induction false} TextRuns(s: seq<byte>, pos: nat, text: seq<byte>, have: seq<byte>)
    requires At(s, pos, text + [QUOTE]) && PlainText(text)
    ensures pos <= |s| && StringBody(s, pos, have) == Tok(Text(have + text), pos + |text| + 1)
    decreases |text|
  {
    AtByte(s, pos, text, QUOTE);
    if text == [] {
      assert have + text == have;
    } else {
      assert text + [QUOTE] == [text[0]] + (text[1..] + [QUOTE]);
      AtSplit(s, pos, [text[0]], text[1..] + [QUOTE]);
      assert s[pos] == s[pos..pos + 1][0] == text[0];
      TextRuns(s, pos + 1, text[1..], have + [text[0]]);
      assert have + [text[0]] + text[1..] == have + text;
    }
  }

  lemma LexText(s: seq<byte>, pos: nat, b: seq<byte>, text: seq<byte>)
    requires At(s, pos, b + ([QUOTE] + (text + [QUOTE]))) && Blanks(b) && PlainText(text)
    ensures pos <= |s| && LexAt(s, pos) == Tok(Text(text), pos + |b| + |text| + 2)
  {
    hide At, StringBody, SkipBlank, Blanks, PlainText;
    FirstOf(s, pos, b, QUOTE, text + [QUOTE]);
    TextRuns(s, pos + |b| + 1, text, []);
    assert [] + text == text;
  }

  // ----- values -----

  lemma LexScalar<Id>(s: seq<byte>, pos: nat, b: seq<byte>, t: Tree<Id>, c: byte)
    requires PlainScalar(t) && At(s, pos, b + (ValueText(t) + [c])) && Blanks(b) && !IsHex(c)
    ensures pos <= |s|
    ensures var r := LexAt(s, pos);
            && r.Tok? && (r.tok.Text? || r.tok.Number?) && r.next == pos + |b| + |ValueText(t)|
            && r.tok.Text? == t.lab.Str? && Scalar(r.tok) == Bare(t)
  {
    hide LexAt, HexText;
    match t.lab
    case Num(w, v) =>
      assert b + (ValueText(t) + [c]) == b + ([0x30, 0x78] + (HexText(v) + [c]));
      LexHex(s, pos, b, v, c);
    case Str(text) =>
      assert b + (ValueText(t) + [c]) == (b + ([QUOTE] + (text + [QUOTE]))) + [c];
      AtSplit(s, pos, b + ([QUOTE] + (text + [QUOTE])), [c]);
      LexText(s, pos, b, text);
  }

  lemma {:induction false} ElementsParse<Id>(s: seq<byte>, pos: nat, b: seq<byte>, ts: seq<Tree<Id>>, kind: ElementType)
    requires PlainElements(ts) && Blanks(b) && (forall i :: 0 <= i < |ts| ==> ValueOk(ts[i]))
    requires At(s, pos, b + (ElementsText(ts) + [CLOSE_BRACKET]))
    requires kind != None && ts != [] ==> kind == (if ts[0].lab.Str? then Texts else Numbers)
    ensures pos <= |s| && ElementsFrom(s, pos, kind) == Accept(BareAll(ts), pos + |b| + |ElementsText(ts)| + 1)
    decreases |ts|
  {
    hide LexAt, ValueText, PlainScalar, At, Blanks, Bare, ValueOk;
    if ts == [] {
      assert b + ([] + [CLOSE_BRACKET]) == b + [CLOSE_BRACKET];
      LexSymbol(s, pos, b, CLOSE_BRACKET);
    } else if |ts| == 1 {
      var p := LastElement(s, pos, b, ts);
      BareOne(ts);
    } else {
      var p := ElementThenMore(s, pos, b, ts);
      OneBlank();
      TailPlain(ts);
      ElementsParse(s, p, [0x20], ts[1..], if ts[0].lab.Str? then Texts else Numbers);
    }
  }

  /** An element and the bracket behind it. */
  lemma LastElement<Id>(s: seq<byte>, pos: nat, b: seq<byte>, ts: seq<Tree<Id>>) returns (p: nat)
    requires |ts| == 1 && PlainElements(ts) && Blanks(b) && ValueOk(ts[0])
    requires At(s, pos, b + (ElementsText(ts) + [CLOSE_BRACKET]))
    ensures pos <= |s| && p == pos + |b| + |ElementsText(ts)| <= |s|
    ensures var r := LexAt(s, pos);
            && r.Tok? && (r.tok.Text? || r.tok.Number?) && r.next == p && r.tok.Text? == ts[0].lab.Str?
            && Scalar(r.tok) == Bare(ts[0]) && LexAt(s, p) == Tok(Symbol(CLOSE_BRACKET), p + 1)
  {
    hide LexAt, ValueText, PlainScalar, At, Blanks, Bare, ValueOk;
    LexScalar(s, pos, b, ts[0], CLOSE_BRACKET);
    p := pos + |b| + |ValueText(ts[0])|;
    After(s, pos, b, ValueText(ts[0]), [CLOSE_BRACKET]);
    NoBlanks();
    assert [] + [CLOSE_BRACKET] == [CLOSE_BRACKET];
    LexSymbol(s, p, [], CLOSE_BRACKET);
  }

  /** An element and the comma behind it. */
  lemma ElementThenMore<Id>(s: seq<byte>, pos: nat, b: seq<byte>, ts: seq<Tree<Id>>) returns (p: nat)
    requires |ts| > 1 && PlainElements(ts) && Blanks(b) && (forall i :: 0 <= i < |ts| ==> ValueOk(ts[i]))
    requires At(s, pos, b + (ElementsText(ts) + [CLOSE_BRACKET]))
    ensures pos <= |s| && p == pos + |b| + |ValueText(ts[0])| + 1
    ensures var r := LexAt(s, pos);
            && r.Tok? && (r.tok.Text? || r.tok.Number?) && r.next == p - 1 && r.tok.Text? == ts[0].lab.Str?
            && Scalar(r.tok) == Bare(ts[0]) && LexAt(s, p - 1) == Tok(Symbol(COMMA), p)
    ensures At(s, p, [0x20] + (ElementsText(ts[1..]) + [CLOSE_BRACKET]))
  {
    hide LexAt, ValueText, PlainScalar, At, Blanks, Bare, ValueOk;
    var first, rest := ValueText(ts[0]), ElementsText(ts[1..]) + [CLOSE_BRACKET];
    SeparatorNext(first, ElementsText(ts[1..]));
    After(s, pos, b, first, [COMMA] + ([0x20] + rest));
    ConcatAssoc(first, [COMMA], [0x20] + rest);
    ConcatAssoc(b, first + [COMMA], [0x20] + rest);
    AtSplit(s, pos, b + (first + [COMMA]), [0x20] + rest);
    LexScalar(s, pos, b, ts[0], COMMA);
    p := pos + |b| + |first| + 1;
    AtSplit(s, p - 1, [COMMA], [0x20] + rest);
    NoBlanks();
    assert [] + [COMMA] == [COMMA];
    LexSymbol(s, p - 1, [], COMMA);
  }

  lemma OneBlank()
    ensures Blanks([0x20]) && Blanks([NEWLINE])
  {
  }

  lemma TailPlain<Id>(ts: seq<Tree<Id>>)
    requires PlainElements(ts) && |ts| > 1 && forall i :: 0 <= i < |ts| ==> ValueOk(ts[i])
    ensures PlainElements(ts[1..]) && (forall i :: 0 <= i < |ts[1..]| ==> ValueOk(ts[1..][i]))
    ensures ts[1..][0].lab.Str? == ts[0].lab.Str? && PlainScalar(ts[0])
  {
    assert ts[1..][0] == ts[1];
  }

  lemma SeparatorNext(first: seq<byte>, more: seq<byte>)
    ensures (first + SEPARATOR + more) + [CLOSE_BRACKET] == first + ([COMMA] + ([0x20] + (more + [CLOSE_BRACKET])))
  {
  }

  /** What follows two pieces. */
  lemma After(s: seq<byte>, pos: nat, a: seq<byte>, b: seq<byte>, c: seq<byte>)
    requires At(s, pos, a + (b + c))
    ensures At(s, pos, a) && At(s, pos + |a|, b) && At(s, pos + |a| + |b|, c)
  {
    AtSplit(s, pos, a, b + c);
    AtSplit(s, pos + |a|, b, c);
  }

  lemma ValueParses<Id>(s: seq<byte>, pos: nat, b: seq<byte>, t: Tree<Id>, c: byte)
    requires PlainValue(t) && ValueOk(t) && Blanks(b) && !IsHex(c) && At(s, pos, b + (ValueText(t) + [c]))
    ensures pos <= |s| && ValueFrom(s, pos) == Accept(Bare(t), pos + |b| + |ValueText(t)|)
  {
    hide LexAt, At, Blanks, ElementsFrom, PlainScalar, PlainElements;
    if PlainScalar(t) {
      hide ValueText, ValueOk, Bare;
      LexScalar(s, pos, b, t, c);
    } else {
      var inside := ElementsText(t.kids);
      assert b + (ValueText(t) + [c]) == (b + [OPEN_BRACKET]) + ((inside + [CLOSE_BRACKET]) + [c]);
      AtSplit(s, pos, b + [OPEN_BRACKET], (inside + [CLOSE_BRACKET]) + [c]);
      LexSymbol(s, pos, b, OPEN_BRACKET);
      AtSplit(s, pos + |b| + 1, inside + [CLOSE_BRACKET], [c]);
      assert [] + (inside + [CLOSE_BRACKET]) == inside + [CLOSE_BRACKET];
      NoBlanks();
      ElementsParse(s, pos + |b| + 1, [], t.kids, None);
    }
  }

  // ----- members of nodes -----

  /** What is printed for a member after its name. */
  function AfterName<Id>(t: Tree<Id>, d: nat): seq<byte>
    requires Shapely(t)
  {
    if t.lab.Node? then OPENING + (PrintAll(t.kids, d + 1) + (Tab(d) + CLOSING))
    else ASSIGN + (ValueText(t.kids[0]) + TERM_END)
  }

  lemma PrintStarts<Id>(t: Tree<Id>, d: nat)
    requires Shapely(t)
    ensures Print(t, d) == Tab(d) + (t.lab.name + AfterName(t, d))
  {
    hide Tab, PrintAll, ValueText;
    var tab, name := Tab(d), t.lab.name;
    if t.lab.Node? {
      var kids, end := PrintAll(t.kids, d + 1), Tab(d) + CLOSING;
      ConcatAssoc(tab + (name + OPENING), kids, end);
      ConcatAssoc(tab, name + OPENING, kids + end);
      ConcatAssoc(name, OPENING, kids + end);
    } else {
      var value := ValueText(t.kids[0]);
      ConcatAssoc(tab + (name + ASSIGN), value, TERM_END);
      ConcatAssoc(tab, name + ASSIGN, value + TERM_END);
      ConcatAssoc(name, ASSIGN, value + TERM_END);
    }
  }

  /** The parser's position behind a member is on the line end that finishes it. */
  lemma {:induction false} MemberParses<Id>(s: seq<byte>, pos: nat, t: Tree<Id>, d: nat)
    requires Plain(t) && Shapely(t) && At(s, pos, AfterName(t, d))
    ensures pos <= |s| && MemberFrom(s, pos, t.lab.name) == Accept(Bare(t), pos + |AfterName(t, d)| - 1)
    ensures At(s, pos + |AfterName(t, d)| - 1, [NEWLINE])
    decreases t, 1
  {
    if t.lab.Node? {
      NodeParses(s, pos, t, d);
    } else {
      TermParses(s, pos, t, d);
    }
  }

  lemma {:induction false} NodeParses<Id>(s: seq<byte>, pos: nat, t: Tree<Id>, d: nat)
    requires t.lab.Node? && (forall i :: 0 <= i < |t.kids| ==> Plain(t.kids[i])) && Shapely(t)
             && At(s, pos, AfterName(t, d))
    ensures pos <= |s| && MemberFrom(s, pos, t.lab.name) == Accept(Bare(t), pos + |AfterName(t, d)| - 1)
    ensures NodeFrom(s, pos, t.lab.name, false) == Accept(Bare(t), pos + |AfterName(t, d)| - 1)
    ensures At(s, pos + |AfterName(t, d)| - 1, [NEWLINE])
    decreases t, 0
  {
    hide *;
    BracedParts(t, d);
    var kids, tab := PrintAll(t.kids, d + 1), Tab(d);
    BracedAt(s, pos, kids, tab);
    LexSymbol(s, pos, [0x20], OPEN_BRACE);
    KidsParse(s, pos + 2, [NEWLINE], t.kids, d + 1, d);
    MemberIsNode(s, pos, t.lab.name, BareAll(t.kids), pos + 4 + |kids| + |tab|);
  }

  lemma BracedParts<Id>(t: Tree<Id>, d: nat)
    requires t.lab.Node? && Shapely(t)
    ensures forall i :: 0 <= i < |t.kids| ==> Shapely(t.kids[i])
    ensures AfterName(t, d) == OPENING + (PrintAll(t.kids, d + 1) + (Tab(d) + CLOSING))
    ensures Bare(t) == Tree([], Node(t.lab.name, NoRef), BareAll(t.kids))
  {
    hide PrintAll, Tab, BareAll;
  }

  /** Where the parts of a printed node stand behind its name. */
  lemma BracedAt(s: seq<byte>, pos: nat, kids: seq<byte>, tab: seq<byte>)
    requires At(s, pos, OPENING + (kids + (tab + CLOSING)))
    ensures pos + 5 + |kids| + |tab| <= |s| && Blanks([0x20]) && Blanks([NEWLINE])
    ensures At(s, pos, [0x20] + [OPEN_BRACE]) && At(s, pos + 2, [NEWLINE] + (kids + (tab + CLOSING)))
    ensures At(s, pos + 4 + |kids| + |tab|, [NEWLINE])
    ensures |OPENING + (kids + (tab + CLOSING))| == 5 + |kids| + |tab|
  {
    hide At, Blanks;
    NodeText(kids, tab);
    AtSplit(s, pos, [0x20] + [OPEN_BRACE], [NEWLINE] + (kids + (tab + CLOSING)));
    After(s, pos + 2, [NEWLINE], kids, tab + CLOSING);
    AtSplit(s, pos + 3 + |kids|, tab, CLOSING);
    assert CLOSING == [CLOSE_BRACE] + [NEWLINE];
    AtSplit(s, pos + 3 + |kids| + |tab|, [CLOSE_BRACE], [NEWLINE]);
    AtReach(s, pos + 4 + |kids| + |tab|, [NEWLINE]);
    OneBlank();
  }

  lemma MemberIsNode(s: seq<byte>, pos: nat, name: seq<byte>, kids: seq<SourceTree>, next: nat)
    requires pos + 2 <= |s| && LexAt(s, pos) == Tok(Symbol(OPEN_BRACE), pos + 2)
    requires KidsFrom(s, pos + 2) == Accept(kids, next)
    ensures MemberFrom(s, pos, name) == NodeFrom(s, pos, name, false)
            == Accept(Tree([], Node(name, NoRef), kids), next)
  {
    hide LexAt, KidsFrom;
  }

  lemma NodeText(kids: seq<byte>, tab: seq<byte>)
    ensures OPENING + (kids + (tab + CLOSING)) == ([0x20] + [OPEN_BRACE]) + ([NEWLINE] + (kids + (tab + CLOSING)))
  {
  }

  lemma TermParses<Id>(s: seq<byte>, pos: nat, t: Tree<Id>, d: nat)
    requires t.lab.Term? && Plain(t) && Shapely(t) && At(s, pos, AfterName(t, d))
    ensures pos <= |s| && MemberFrom(s, pos, t.lab.name) == Accept(Bare(t), pos + |AfterName(t, d)| - 1)
    ensures At(s, pos + |AfterName(t, d)| - 1, [NEWLINE])
  {
    hide *;
    TermParts(t, d);
    SemicolonEnds();
    var value := ValueText(t.kids[0]);
    TermAt(s, pos, value);
    LexSymbol(s, pos, [0x20], EQUALS);
    MemberIsTerm(s, pos, t.lab.name);
    ValueParses(s, pos + 2, [0x20], t.kids[0], SEMICOLON);
    LexSymbol(s, pos + 3 + |value|, [], SEMICOLON);
    BareTerm(t);
    TermFollows(s, pos + 2, t.lab.name, Bare(t.kids[0]), pos + 3 + |value|);
  }

  lemma MemberIsTerm(s: seq<byte>, pos: nat, name: seq<byte>)
    requires pos <= |s| && LexAt(s, pos) == Tok(Symbol(EQUALS), pos + 2)
    ensures pos + 2 <= |s| && MemberFrom(s, pos, name) == TermFrom(s, pos + 2, name)
  {
    hide LexAt, TermFrom;
  }

  lemma TermParts<Id>(t: Tree<Id>, d: nat)
    requires t.lab.Term? && Plain(t) && Shapely(t)
    ensures |t.kids| == 1 && PlainValue(t.kids[0]) && ValueOk(t.kids[0])
    ensures AfterName(t, d) == ASSIGN + (ValueText(t.kids[0]) + TERM_END)
  {
    hide PlainValue, ValueOk, ValueText;
  }

  lemma SemicolonEnds()
    ensures !IsHex(SEMICOLON)
  {
  }

  /** Where the parts of a printed term stand behind its name. */
  lemma TermAt(s: seq<byte>, pos: nat, value: seq<byte>)
    requires At(s, pos, ASSIGN + (value + TERM_END))
    ensures pos + 5 + |value| <= |s| && Blanks([0x20]) && Blanks([])
    ensures At(s, pos, [0x20] + [EQUALS]) && At(s, pos + 2, [0x20] + (value + [SEMICOLON]))
    ensures At(s, pos + 3 + |value|, [] + [SEMICOLON]) && At(s, pos + 4 + |value|, [NEWLINE])
    ensures |ASSIGN + (value + TERM_END)| == 5 + |value|
  {
    hide At, Blanks;
    TermText(value);
    AtSplit(s, pos, [0x20] + [EQUALS], [0x20] + (value + [SEMICOLON]) + [NEWLINE]);
    AtSplit(s, pos + 2, [0x20] + (value + [SEMICOLON]), [NEWLINE]);
    After(s, pos + 2, [0x20], value, [SEMICOLON]);
    AtReach(s, pos + 4 + |value|, [NEWLINE]);
    OneBlank();
    NoBlanks();
    assert [] + [SEMICOLON] == [SEMICOLON];
  }

  lemma AtReach(s: seq<byte>, pos: nat, b: seq<byte>)
    requires At(s, pos, b)
    ensures pos + |b| <= |s|
  {
  }

  lemma TermFollows(s: seq<byte>, pos: nat, name: seq<byte>, value: SourceTree, p: nat)
    requires pos <= |s| && ValueFrom(s, pos) == Accept(value, p) && p <= |s|
             && LexAt(s, p) == Tok(Symbol(SEMICOLON), p + 1)
    ensures TermFrom(s, pos, name) == Accept(Tree([], Term(name), [value]), p + 1)
  {
    hide LexAt, ValueFrom;
  }

  lemma TermText(value: seq<byte>)
    ensures ASSIGN + (value + TERM_END) == ([0x20] + [EQUALS]) + ([0x20] + (value + [SEMICOLON]) + [NEWLINE])
  {
  }

  lemma BareTerm<Id>(t: Tree<Id>)
    requires t.lab.Term? && |t.kids| == 1
    ensures Bare(t) == Tree([], Term(t.lab.name), [Bare(t.kids[0])])
  {
    BareOne(t.kids);
  }

  lemma BareOne<Id>(ts: seq<Tree<Id>>)
    requires |ts| == 1
    ensures BareAll(ts) == [Bare(ts[0])]
  {
    hide Bare;
    assert ts[1..] == [];
    assert BareAll(ts) == [Bare(ts[0])] + BareAll(ts[1..]);
  }

  /** The members of a node and its closing brace, after blanks. */
  lemma {:induction false} KidsParse<Id>(s: seq<byte>, pos: nat, b: seq<byte>, ts: seq<Tree<Id>>, d: nat, e: nat)
    requires Blanks(b) && forall i :: 0 <= i < |ts| ==> Plain(ts[i]) && Shapely(ts[i])
    requires At(s, pos, b + (PrintAll(ts, d) + (Tab(e) + CLOSING)))
    ensures pos <= |s|
    ensures KidsFrom(s, pos) == Accept(BareAll(ts), pos + |b| + |PrintAll(ts, d)| + |Tab(e)| + 1)
    decreases ts, 0
  {
    hide LexAt, At, Blanks, MemberFrom, TemplateFrom, Tab, Print, Bare, AfterName, Shapely, WordToken;
    var end := Tab(e) + CLOSING;
    if ts == [] {
      LastBrace(b, Tab(e));
      AtSplit(s, pos, (b + Tab(e)) + [CLOSE_BRACE], [NEWLINE]);
      BlanksTab(b, e);
      LexSymbol(s, pos, b + Tab(e), CLOSE_BRACE);
    } else {
      var t, rest := ts[0], PrintAll(ts[1..], d);
      var p, q := FirstMemberAt(s, pos, b, ts, d, end);
      MemberParses(s, p, t, d);
      AtJoin(s, q, [NEWLINE], rest + end);
      OneBlank();
      KidsParse(s, q, [NEWLINE], ts[1..], d, e);
    }
  }

  /** Where the first member's name ends, what follows, and where its last line ends. */
  lemma FirstMemberAt<Id>(s: seq<byte>, pos: nat, b: seq<byte>, ts: seq<Tree<Id>>, d: nat, end: seq<byte>)
    returns (p: nat, q: nat)
    requires Blanks(b) && ts != [] && forall i :: 0 <= i < |ts| ==> Plain(ts[i]) && Shapely(ts[i])
    requires At(s, pos, b + (PrintAll(ts, d) + end))
    ensures pos <= |s| && LexAt(s, pos) == Tok(Literal(ts[0].lab.name), p)
    ensures At(s, p, AfterName(ts[0], d)) && q == p + |AfterName(ts[0], d)| - 1
    ensures At(s, q + 1, PrintAll(ts[1..], d) + end)
    ensures q + 1 == pos + |b| + |Print(ts[0], d)| && |PrintAll(ts, d)| == |Print(ts[0], d)| + |PrintAll(ts[1..], d)|
  {
    hide LexAt, At, Blanks, Tab, Print, AfterName, Plain;
    var t, rest := ts[0], PrintAll(ts[1..], d);
    var name, body := t.lab.name, AfterName(t, d);
    PrintStarts(t, d);
    FirstMember(b, Tab(d), name, body, rest, end);
    After(s, pos, b + Tab(d), name, body + (rest + end));
    BlanksTab(b, d);
    NameLexes(s, pos, b + Tab(d), t, d, rest + end);
    p := pos + |b| + |Tab(d)| + |name|;
    AtSplit(s, p, body, rest + end);
    BodyNotEmpty(t, d);
    q := p + |body| - 1;
  }

  lemma BodyNotEmpty<Id>(t: Tree<Id>, d: nat)
    requires Shapely(t)
    ensures |AfterName(t, d)| > 1 && AfterName(t, d)[0] == 0x20
  {
  }

  lemma LastBrace(b: seq<byte>, tab: seq<byte>)
    ensures b + ([] + (tab + CLOSING)) == ((b + tab) + [CLOSE_BRACE]) + [NEWLINE]
  {
  }

  lemma BlanksTab(b: seq<byte>, d: nat)
    requires Blanks(b)
    ensures Blanks(b + Tab(d))
  {
  }

  lemma FirstMember(b: seq<byte>, tab: seq<byte>, name: seq<byte>, body: seq<byte>, rest: seq<byte>, end: seq<byte>)
    ensures b + (((tab + (name + body)) + rest) + end) == (b + tab) + (name + (body + (rest + end)))
  {
    ConcatAssoc(tab + (name + body), rest, end);
    ConcatAssoc(tab, name + body, rest + end);
    ConcatAssoc(name, body, rest + end);
    ConcatAssoc(b, tab, name + (body + (rest + end)));
  }

  /** A member's name lexes as itself. */
  lemma NameLexes<Id>(s: seq<byte>, pos: nat, b: seq<byte>, t: Tree<Id>, d: nat, rest: seq<byte>)
    requires Plain(t) && Shapely(t) && Blanks(b) && At(s, pos, b + (t.lab.name + (AfterName(t, d) + rest)))
    ensures pos <= |s| && LexAt(s, pos) == Tok(Literal(t.lab.name), pos + |b| + |t.lab.name|)
  {
    hide LexAt, At, Blanks, AfterName, WordToken, Shapely;
    var name, body := t.lab.name, AfterName(t, d);
    BodyNotEmpty(t, d);
    SplitFirst(b, name, body, rest);
    AtSplit(s, pos, b + (name + [0x20]), body[1..] + rest);
    LexWord(s, pos, b, name, 0x20);
  }

  lemma SplitFirst(b: seq<byte>, name: seq<byte>, body: seq<byte>, rest: seq<byte>)
    requires body != [] && body[0] == 0x20
    ensures b + (name + (body + rest)) == (b + (name + [0x20])) + (body[1..] + rest)
  {
    assert body == [0x20] + body[1..];
    ConcatAssoc([0x20], body[1..], rest);
    ConcatAssoc(name, [0x20], body[1..] + rest);
    ConcatAssoc(b, name + [0x20], body[1..] + rest);
  }

  // ----- whole files -----

  lemma {:induction false} NoStars(s: seq<byte>, pos: nat, stop: nat)
    requires pos <= stop < |s| && s[stop] == STAR && forall i :: pos <= i < stop ==> s[i] != STAR && s[i] != EOF
    ensures BlockComment(s, pos) == BlockComment(s, stop)
    decreases stop - pos
  {
    if pos < stop {
      if IsSpace(s[pos]) {
        assert GetChar(s, pos, true) == GetChar(s, pos + 1, true);
      } else {
        GetsNow(s, pos);
      }
      NoStars(s, pos + 1, stop);
      hide GetChar;
    }
  }

  /** The comment at the start is skipped. */
  lemma CommentSkipped(s: seq<byte>)
    requires At(s, 0, FILE_COMMENT)
    ensures LexAt(s, 0) == LexAt(s, 32)
  {
    hide LexAt, ProcessComment, BlockComment;
    CommentBytes(s);
    NoStars(s, 2, 4);
    NoStars(s, 7, 30);
    CommentEnds(s);
    LexPastComment(s);
  }

  lemma CommentBytes(s: seq<byte>)
    requires At(s, 0, FILE_COMMENT)
    ensures |s| >= 34 && s[0] == SLASH && s[1] == STAR && s[4] == STAR && s[5] == 0x20 && s[6] == 0x48
    ensures s[30] == STAR && s[31] == SLASH
    ensures forall i :: 2 <= i < 4 || 7 <= i < 30 ==> s[i] != STAR && s[i] != EOF
  {
    CommentMarks();
    CommentPlain();
    assert s[0..34] == FILE_COMMENT;
    forall i | 2 <= i < 4 || 7 <= i < 30 ensures s[i] != STAR && s[i] != EOF {
      assert s[0..34][i] == s[i];
    }
  }

  lemma CommentMarks()
    ensures |FILE_COMMENT| == 34 && FILE_COMMENT[0] == SLASH && FILE_COMMENT[1] == STAR && FILE_COMMENT[4] == STAR
    ensures FILE_COMMENT[5] == 0x20 && FILE_COMMENT[6] == 0x48 && FILE_COMMENT[30] == STAR && FILE_COMMENT[31] == SLASH
  {
  }

  lemma CommentPlain()
    ensures forall i :: 2 <= i < 4 || 7 <= i < 30 ==> FILE_COMMENT[i] != STAR && FILE_COMMENT[i] != EOF
  {
  }

  lemma GetsNow(s: seq<byte>, pos: nat)
    requires pos < |s| && !IsSpace(s[pos])
    ensures GetChar(s, pos, true) == (s[pos], pos + 1)
  {
  }

  lemma GetsNext(s: seq<byte>, pos: nat)
    requires pos + 1 < |s| && IsSpace(s[pos]) && !IsSpace(s[pos + 1])
    ensures GetChar(s, pos, true) == (s[pos + 1], pos + 2)
  {
    assert SkipSpaces(s, pos) == SkipSpaces(s, pos + 1) == pos + 1;
  }

  lemma CommentEnds(s: seq<byte>)
    requires |s| >= 34 && s[0] == SLASH && s[1] == STAR && s[4] == STAR && s[5] == 0x20 && s[6] == 0x48
    requires s[30] == STAR && s[31] == SLASH
    requires BlockComment(s, 2) == BlockComment(s, 4) && BlockComment(s, 7) == BlockComment(s, 30)
    ensures ProcessComment(s, 0) == Tok(End, 32)
  {
    GetsNow(s, 1);
    GetsNow(s, 4);
    GetsNext(s, 5);
    GetsNow(s, 30);
    GetsNow(s, 31);
    hide GetChar;
    assert BlockComment(s, 4) == BlockComment(s, 7);
    assert BlockComment(s, 30) == Tok(End, 32);
  }

  lemma LexPastComment(s: seq<byte>)
    requires |s| >= 34 && s[0] == SLASH && ProcessComment(s, 0) == Tok(End, 32)
    ensures LexAt(s, 0) == LexAt(s, 32)
  {
    hide ProcessComment;
  }

  /** A printed tree is one file with one root node, and nothing else. */
  lemma PrintedFileParses<Id>(t: Tree<Id>, absPath: Path -> Path)
    requires PlainRoot(t) && Shapely(t)
    ensures var text := FILE_COMMENT + Print(t, 0);
            RootFrom(text, HeadingFrom(text, absPath)) == Accept(Bare(t), |text|)
  {
    var text := FILE_COMMENT + Print(t, 0);
    var body := AfterName(t, 0);
    hide LexAt, At, Blanks, Bare, NodeFrom, Print, AfterName, Shapely;
    PrintStarts(t, 0);
    NoTab();
    BodyNotEmpty(t, 0);
    RootLexes(text, body);
    NodeParses(text, 38, t, 0);
    LexEnd(text, |text| - 1);
  }

  /** The first token of a printed file is the root's name, and the rest of the node follows. */
  lemma RootLexes(text: seq<byte>, body: seq<byte>)
    requires text == FILE_COMMENT + ([] + (WORD_ROOT + body)) && body != [] && body[0] == 0x20
    ensures |text| == 38 + |body| && At(text, 38, body) && LexAt(text, 0) == Tok(Root, 38)
  {
    hide LexAt, At, Blanks;
    AtAll(text);
    AtSplit(text, 0, FILE_COMMENT, [] + (WORD_ROOT + body));
    CommentSkipped(text);
    RootWord(text, body);
    SplitFirst([NEWLINE, NEWLINE], WORD_ROOT, body, []);
    assert body + [] == body;
    AtSplit(text, 32, [NEWLINE, NEWLINE] + (WORD_ROOT + [0x20]), body[1..] + []);
    TwoBlanks();
    LexWord(text, 32, [NEWLINE, NEWLINE], WORD_ROOT, 0x20);
    After(text, 32, [NEWLINE, NEWLINE], WORD_ROOT, body);
  }

  lemma NoTab()
    ensures Tab(0) == []
  {
  }

  lemma AtAll(s: seq<byte>)
    ensures At(s, 0, s)
  {
    assert s[0..|s|] == s;
  }

  lemma TwoBlanks()
    ensures Blanks([NEWLINE, NEWLINE]) && WordToken(WORD_ROOT) == Root
    ensures IsAlpha(WORD_ROOT[0]) && forall i :: 0 <= i < |WORD_ROOT| ==> InLiteral(WORD_ROOT[i])
  {
  }

  /** Behind the comment marks come two line ends and the root's name. */
  lemma RootWord(text: seq<byte>, body: seq<byte>)
    requires text == FILE_COMMENT + ([] + (WORD_ROOT + body))
    ensures |text| == 38 + |body| && At(text, 32, [NEWLINE, NEWLINE] + (WORD_ROOT + body))
  {
    var rest := [NEWLINE, NEWLINE] + (WORD_ROOT + body);
    assert FILE_COMMENT == FILE_COMMENT[..32] + [NEWLINE, NEWLINE];
    ConcatAssoc(FILE_COMMENT[..32], [NEWLINE, NEWLINE], WORD_ROOT + body);
    assert [] + (WORD_ROOT + body) == WORD_ROOT + body;
    assert text == FILE_COMMENT[..32] + rest;
    AtAll(text);
    AtSplit(text, 0, FILE_COMMENT[..32], rest);
  }

  lemma LexEnd(s: seq<byte>, pos: nat)
    requires At(s, pos, [NEWLINE]) && |s| == pos + 1
    ensures LexAt(s, pos) == Tok(End, |s|)
  {
    assert s[pos] == s[pos..pos + 1][0];
  }
}
