/**
 The grammar of configuration source, as the token lists its sentences spell, and that the
 recursive-descent parser accepts exactly these sentences and builds the trees they stand for.
 */
module HcsGrammar {
  import opened Bytes
  import opened HcsTree
  import opened HcsLexer
  import opened HcsParser
  import opened HcsNumbers
  import opened HcsSource

  // ----- sentences -----

  datatype Scalar = Amount(n: nat) | Words(text: seq<byte>)

  /** The value of a term; a list may have a comma behind its last element. */
  datatype Value =
    | Single(x: Scalar)
    | List(xs: seq<Scalar>, comma: bool)
    | Reference(path: seq<byte>)
    | Deletion

  datatype Member =
    | Setting(name: seq<byte>, value: Value)
    | Group(kind: NodeKind, name: seq<byte>, members: seq<Member>)

  /** Lists are of one kind of element, and there is no comma behind nothing. */
  predicate ValueFormed(v: Value) {
    v.List? ==>
      && (v.comma ==> v.xs != [])
      && forall i, j :: 0 <= i < j < |v.xs| ==> v.xs[i].Words? == v.xs[j].Words?
  }

  predicate Formed(m: Member) {
    match m
    case Setting(_, v) => ValueFormed(v)
    case Group(_, _, ms) => forall i :: 0 <= i < |ms| ==> Formed(ms[i])
  }

  predicate AllFormed(ms: seq<Member>) {
    forall i :: 0 <= i < |ms| ==> Formed(ms[i])
  }

  // ----- what they spell -----

  function Sign(c: char): Token
    requires c < 128 as char
  {
    Symbol(c as int)
  }

  function ScalarToken(x: Scalar): Token {
    match x
    case Amount(n) => Number(n)
    case Words(text) => Text(text)
  }

  /** A path lexes as a name unless it has a dot. */
  function PathToken(w: seq<byte>): Token {
    if 0x2E in w then RefPath(w) else Literal(w)
  }

  /** The elements of a list and its closing bracket. */
  function ListTokens(xs: seq<Scalar>, comma: bool): seq<Token> {
    if xs == [] then [Sign(']')]
    else if |xs| == 1 && !comma then [ScalarToken(xs[0]), Sign(']')]
    else [ScalarToken(xs[0]), Sign(',')] + ListTokens(xs[1..], comma && |xs| > 1)
  }

  function ValueTokens(v: Value): seq<Token> {
    match v
    case Single(x) => [ScalarToken(x)]
    case List(xs, comma) => [Sign('[')] + ListTokens(xs, comma)
    case Reference(path) => [Sign('&'), PathToken(path)]
    case Deletion => [DeleteWord]
  }

  /** What stands before a node's brace. */
  function Opening(kind: NodeKind, name: seq<byte>): seq<Token> {
    match kind
    case NoRef => [Literal(name)]
    case Template => [TemplateWord, Literal(name)]
    case CopyOf(path) => [Literal(name), Sign(':'), PathToken(path)]
    case RefTo(path) => [Literal(name), Sign(':'), Sign('&'), PathToken(path)]
    case Inherit(path) => [Literal(name), Sign(':'), Sign(':'), PathToken(path)]
    case Delete => [Literal(name), Sign(':'), DeleteWord]
  }

  function Tokens(m: Member): seq<Token> {
    match m
    case Setting(name, v) => [Literal(name), Sign('=')] + (ValueTokens(v) + [Sign(';')])
    case Group(kind, name, ms) => Opening(kind, name) + ([Sign('{')] + (AllTokens(ms) + [Sign('}')]))
  }

  function AllTokens(ms: seq<Member>): seq<Token> {
    if ms == [] then [] else Tokens(ms[0]) + AllTokens(ms[1..])
  }

  // ----- what they stand for -----

  function ScalarTree(x: Scalar): SourceTree {
    match x
    case Amount(n) =>
      Tree([], Num(if n < 0x100 then 1 else if n < 0x1_0000 then 2 else if n < 0x1_0000_0000 then 4 else 8, n), [])
    case Words(text) => Tree([], Str(text), [])
  }

  function ScalarTrees(xs: seq<Scalar>): seq<SourceTree> {
    if xs == [] then [] else [ScalarTree(xs[0])] + ScalarTrees(xs[1..])
  }

  function ValueTree(v: Value): SourceTree {
    match v
    case Single(x) => ScalarTree(x)
    case List(xs, _) => Tree([], Arr, ScalarTrees(xs))
    case Reference(path) => Tree([], Ref(path), [])
    case Deletion => Tree([], Del, [])
  }

  function TreeOf(m: Member): SourceTree {
    match m
    case Setting(name, v) => Tree([], Term(name), [ValueTree(v)])
    case Group(kind, name, ms) => Tree([], Node(name, kind), TreesOf(ms))
  }

  function TreesOf(ms: seq<Member>): seq<SourceTree> {
    if ms == [] then [] else [TreeOf(ms[0])] + TreesOf(ms[1..])
  }

  // ----- reading tokens -----

  /** Reading these tokens one after the other leads from `pos` to `next`. */
  ghost predicate Lexes(s: seq<byte>, pos: nat, toks: seq<Token>, next: nat)
    decreases |toks|
  {
    pos <= |s| &&
    if toks == [] then pos == next
    else
      var r := LexAt(s, pos);
      r.Tok? && r.tok == toks[0] && Lexes(s, r.next, toks[1..], next)
  }

  lemma {:induction false} LexesSplit(s: seq<byte>, pos: nat, a: seq<Token>, b: seq<Token>, next: nat)
    returns (mid: nat)
    requires Lexes(s, pos, a + b, next)
    ensures pos <= mid <= |s| && Lexes(s, pos, a, mid) && Lexes(s, mid, b, next)
    decreases |a|
  {
    hide LexAt;
    if a == [] {
      assert a + b == b;
      mid := pos;
    } else {
      assert (a + b)[1..] == a[1..] + b;
      mid := LexesSplit(s, LexAt(s, pos).next, a[1..], b, next);
    }
  }

  lemma {:induction false} LexesJoin(s: seq<byte>, pos: nat, a: seq<Token>, mid: nat, b: seq<Token>, next: nat)
    requires Lexes(s, pos, a, mid) && Lexes(s, mid, b, next)
    ensures Lexes(s, pos, a + b, next)
    decreases |a|
  {
    hide LexAt;
    if a == [] {
      assert a + b == b;
    } else {
      assert (a + b)[1..] == a[1..] + b;
      LexesJoin(s, LexAt(s, pos).next, a[1..], mid, b, next);
    }
  }

  /** The first token and the rest. */
  lemma LexesFirst(s: seq<byte>, pos: nat, t: Token, rest: seq<Token>, next: nat) returns (p: nat)
    requires Lexes(s, pos, [t] + rest, next)
    ensures pos <= p <= |s| && LexAt(s, pos) == Tok(t, p) && Lexes(s, p, rest, next)
  {
    hide LexAt;
    p := LexAt(s, pos).next;
    assert ([t] + rest)[1..] == rest;
  }

  lemma LexesOne(s: seq<byte>, pos: nat, t: Token, p: nat)
    requires pos <= |s| && p <= |s| && LexAt(s, pos) == Tok(t, p)
    ensures Lexes(s, pos, [t], p)
  {
    hide LexAt;
    assert [t][1..] == [];
  }

  lemma LexesTwo(s: seq<byte>, pos: nat, t: Token, p: nat, u: Token, q: nat)
    requires pos <= |s| && p <= |s| && q <= |s| && LexAt(s, pos) == Tok(t, p) && LexAt(s, p) == Tok(u, q)
    ensures Lexes(s, pos, [t, u], q)
  {
    LexesOne(s, pos, t, p);
    LexesOne(s, p, u, q);
    LexesJoin(s, pos, [t], p, [u], q);
    assert [t] + [u] == [t, u];
  }

  /** Names have no dot, paths that are no names have one. */
  lemma {:induction false} DotsTell(s: seq<byte>, pos: nat)
    requires pos <= |s|
    ensures var r := LexAt(s, pos);
            r.Tok? ==>
              (r.tok.Literal? ==> 0x2E !in r.tok.name) && (r.tok.RefPath? ==> 0x2E in r.tok.path)
    decreases |s| - pos
  {
    var p := SkipBlank(s, pos);
    if p < |s| && s[p] == QUOTE {
      StringIsText(s, p + 1, []);
    } else if p < |s| && s[p] == SLASH {
      var c := ProcessComment(s, p);
      if c.Tok? {
        DotsTell(s, c.next);
      }
      hide ProcessComment;
    }
    hide LexNumber, StringBody, SkipBlank, LiteralEnd;
  }

  lemma {:induction false} StringIsText(s: seq<byte>, pos: nat, have: seq<byte>)
    requires pos <= |s|
    ensures StringBody(s, pos, have).Tok? ==> StringBody(s, pos, have).tok.Text?
    decreases |s| - pos
  {
    var g := GetChar(s, pos, false);
    if g.0 != EOF && g.0 != QUOTE {
      if g.0 == BACKSLASH {
        var h := GetChar(s, g.1, false);
        if h.0 == QUOTE {
          StringIsText(s, h.1, have + [QUOTE]);
        }
      } else {
        StringIsText(s, g.1, have + [g.0]);
      }
    }
  }

  // ----- every sentence is accepted -----

  lemma SignsAre()
    ensures Sign(';') == Symbol(SEMICOLON) && Sign(',') == Symbol(COMMA) && Sign('=') == Symbol(EQUALS)
    ensures Sign('[') == Symbol(OPEN_BRACKET) && Sign(']') == Symbol(CLOSE_BRACKET) && Sign('{') == Symbol(OPEN_BRACE)
    ensures Sign('}') == Symbol(CLOSE_BRACE) && Sign('&') == Symbol(AMPERSAND) && Sign(':') == Symbol(COLON)
  {
  }

  lemma PathComplete(s: seq<byte>, pos: nat, w: seq<byte>, next: nat)
    requires Lexes(s, pos, [PathToken(w)], next)
    ensures PathFrom(s, pos) == Accept(w, next)
  {
    hide LexAt;
    assert [PathToken(w)][1..] == [];
  }

  /** The kind of element a list may go on with. */
  predicate Fits(type0: ElementType, x: Scalar) {
    type0 == ElementType.None || type0 == if x.Words? then Texts else Numbers
  }

  lemma ScalarIs(x: Scalar)
    ensures var tok := ScalarToken(x);
            && (tok.Text? || tok.Number?) && HcsParser.Scalar(tok) == ScalarTree(x)
            && TypeOf(tok) == if x.Words? then Texts else Numbers
  {
  }

  lemma {:induction false} ListComplete(s: seq<byte>, pos: nat, xs: seq<Scalar>, comma: bool, type0: ElementType,
                                        next: nat)
    requires ValueFormed(List(xs, comma)) && (xs != [] ==> Fits(type0, xs[0]))
    requires Lexes(s, pos, ListTokens(xs, comma), next)
    ensures ElementsFrom(s, pos, type0) == Accept(ScalarTrees(xs), next)
    decreases |xs|
  {
    hide LexAt, ScalarToken, ScalarTree, HcsParser.Scalar, Lexes;
    SignsAre();
    if xs == [] {
      assert ListTokens(xs, comma) == [Sign(']')] + [];
      var p := LexesFirst(s, pos, Sign(']'), [], next);
      NoMore(s, p, next);
    } else {
      ScalarIs(xs[0]);
      var more := xs[1..];
      if |xs| == 1 && !comma {
        assert ListTokens(xs, comma) == [ScalarToken(xs[0])] + ([Sign(']')] + []);
        var p := LexesFirst(s, pos, ScalarToken(xs[0]), [Sign(']')] + [], next);
        var q := LexesFirst(s, p, Sign(']'), [], next);
        NoMore(s, q, next);
        assert ScalarTrees(xs) == [ScalarTree(xs[0])] + ScalarTrees(more) == [ScalarTree(xs[0])];
      } else {
        var rest := ListTokens(more, comma && |xs| > 1);
        assert ListTokens(xs, comma) == [ScalarToken(xs[0])] + ([Sign(',')] + rest);
        var p := LexesFirst(s, pos, ScalarToken(xs[0]), [Sign(',')] + rest, next);
        var q := LexesFirst(s, p, Sign(','), rest, next);
        ListComplete(s, q, more, comma && |xs| > 1, if xs[0].Words? then Texts else Numbers, next);
      }
    }
  }

  lemma NoMore(s: seq<byte>, pos: nat, next: nat)
    requires Lexes(s, pos, [], next)
    ensures pos == next <= |s|
  {
  }

  lemma ValueComplete(s: seq<byte>, pos: nat, v: Value, next: nat)
    requires ValueFormed(v) && Lexes(s, pos, ValueTokens(v), next)
    ensures ValueFrom(s, pos) == Accept(ValueTree(v), next)
  {
    hide LexAt, Lexes, ElementsFrom, ListTokens, ScalarTrees, PathFrom, PathToken;
    SignsAre();
    match v
    case Single(x) =>
      assert [ScalarToken(x)] == [ScalarToken(x)] + [];
      var p := LexesFirst(s, pos, ScalarToken(x), [], next);
      NoMore(s, p, next);
      ScalarIs(x);
    case List(xs, comma) =>
      var p := LexesFirst(s, pos, Sign('['), ListTokens(xs, comma), next);
      ListComplete(s, p, xs, comma, ElementType.None, next);
    case Reference(w) =>
      assert [Sign('&'), PathToken(w)] == [Sign('&')] + [PathToken(w)];
      var p := LexesFirst(s, pos, Sign('&'), [PathToken(w)], next);
      PathComplete(s, p, w, next);
    case Deletion =>
      assert [DeleteWord] == [DeleteWord] + [];
      var p := LexesFirst(s, pos, DeleteWord, [], next);
      NoMore(s, p, next);
  }

  /** One member, whichever word it starts with. */
  function MemberAt(s: seq<byte>, pos: nat): (r: Attempt<SourceTree>)
    requires pos <= |s|
  {
    match LexAt(s, pos)
    case Wrong => Reject
    case Tok(tok, p) =>
      if tok.TemplateWord? then TemplateFrom(s, p) else if tok.Literal? then MemberFrom(s, p, tok.name) else Reject
  }

  lemma SettingComplete(s: seq<byte>, pos: nat, name: seq<byte>, v: Value, next: nat)
    requires ValueFormed(v) && Lexes(s, pos, Tokens(Setting(name, v)), next)
    ensures MemberAt(s, pos) == Accept(TreeOf(Setting(name, v)), next)
  {
    hide LexAt, Lexes, ValueFrom, ValueTokens, NodeFrom, RefNodeFrom;
    SignsAre();
    var rest := ValueTokens(v) + [Sign(';')];
    assert [Literal(name), Sign('=')] + rest == [Literal(name)] + ([Sign('=')] + rest);
    var p := LexesFirst(s, pos, Literal(name), [Sign('=')] + rest, next);
    var q := LexesFirst(s, p, Sign('='), rest, next);
    var r := LexesSplit(s, q, ValueTokens(v), [Sign(';')], next);
    ValueComplete(s, q, v, r);
    assert [Sign(';')] == [Sign(';')] + [];
    var e := LexesFirst(s, r, Sign(';'), [], next);
    NoMore(s, e, next);
  }

  function Body(ms: seq<Member>): seq<Token> {
    [Sign('{')] + (AllTokens(ms) + [Sign('}')])
  }

  /** The opening of a node leads to its body. */
  lemma OpeningComplete(s: seq<byte>, pos: nat, kind: NodeKind, name: seq<byte>, mid: nat, p: nat)
    requires Lexes(s, pos, Opening(kind, name), mid) && mid <= |s| && p <= |s|
    requires LexAt(s, mid) == Tok(Sign('{'), p)
    ensures kind == NoRef ==> MemberAt(s, pos) == NodeFrom(s, p, name, true)
    ensures kind != NoRef ==> MemberAt(s, pos) == Retag(NodeFrom(s, mid, name, false), kind)
  {
    hide LexAt, Lexes, NodeFrom, RefNodeFrom, PathToken, Retag, TermFrom, MemberAt;
    var toks := Opening(kind, name);
    assert toks == [toks[0]] + toks[1..];
    var q := LexesFirst(s, pos, toks[0], toks[1..], mid);
    if kind == NoRef {
      NoMore(s, q, mid);
      PlainLeads(s, pos, mid, p, name);
    } else {
      assert toks[1..] == [toks[1]] + toks[2..];
      var r := LexesFirst(s, q, toks[1], toks[2..], mid);
      if kind == Template {
        NoMore(s, r, mid);
        TemplateLeads(s, pos, q, mid, name);
      } else {
        ColonLeads(s, pos, q, r, name);
        RefComplete(s, r, kind, toks[2..], name, mid);
      }
    }
  }

  lemma PlainLeads(s: seq<byte>, pos: nat, q: nat, p: nat, name: seq<byte>)
    requires pos <= |s| && q <= |s| && p <= |s|
    requires LexAt(s, pos) == Tok(Literal(name), q) && LexAt(s, q) == Tok(Sign('{'), p)
    ensures MemberAt(s, pos) == NodeFrom(s, p, name, true)
  {
    hide LexAt, NodeFrom;
    SignsAre();
  }

  lemma TemplateLeads(s: seq<byte>, pos: nat, q: nat, mid: nat, name: seq<byte>)
    requires pos <= |s| && q <= |s| && mid <= |s|
    requires LexAt(s, pos) == Tok(TemplateWord, q) && LexAt(s, q) == Tok(Literal(name), mid)
    ensures MemberAt(s, pos) == Retag(NodeFrom(s, mid, name, false), Template)
  {
    hide LexAt, NodeFrom, Retag;
  }

  lemma ColonLeads(s: seq<byte>, pos: nat, q: nat, r: nat, name: seq<byte>)
    requires pos <= |s| && q <= |s| && r <= |s|
    requires LexAt(s, pos) == Tok(Literal(name), q) && LexAt(s, q) == Tok(Sign(':'), r)
    ensures MemberAt(s, pos) == RefNodeFrom(s, r, name)
  {
    hide LexAt, NodeFrom, RefNodeFrom, TermFrom;
    SignsAre();
  }

  /** What follows the colon behind a node's name. */
  lemma RefComplete(s: seq<byte>, r: nat, kind: NodeKind, rest: seq<Token>, name: seq<byte>, mid: nat)
    requires kind != NoRef && kind != Template && rest == Opening(kind, name)[2..] && Lexes(s, r, rest, mid)
    ensures r <= |s| && mid <= |s| && RefNodeFrom(s, r, name) == Retag(NodeFrom(s, mid, name, false), kind)
  {
    hide LexAt, Lexes, NodeFrom, PathFrom, PathToken, Retag;
    SignsAre();
    match kind
    case CopyOf(w) =>
      assert rest == [PathToken(w)];
      PathIs(s, r, w, mid);
    case RefTo(w) =>
      assert rest == [Sign('&')] + [PathToken(w)];
      var e := LexesFirst(s, r, Sign('&'), [PathToken(w)], mid);
      PathComplete(s, e, w, mid);
      PathIs(s, e, w, mid);
    case Inherit(w) =>
      assert rest == [Sign(':')] + [PathToken(w)];
      var e := LexesFirst(s, r, Sign(':'), [PathToken(w)], mid);
      PathComplete(s, e, w, mid);
      PathIs(s, e, w, mid);
    case Delete =>
      assert rest == [DeleteWord] + [];
      var e := LexesFirst(s, r, DeleteWord, [], mid);
      NoMore(s, e, mid);
  }

  lemma PathIs(s: seq<byte>, pos: nat, w: seq<byte>, next: nat)
    requires Lexes(s, pos, [PathToken(w)], next)
    ensures pos <= |s| && next <= |s|
    ensures LexAt(s, pos) == Tok(Literal(w), next) || LexAt(s, pos) == Tok(RefPath(w), next)
  {
    hide LexAt;
    assert [PathToken(w)][1..] == [];
  }

  lemma {:induction false} MemberComplete(s: seq<byte>, pos: nat, m: Member, next: nat)
    requires Formed(m) && Lexes(s, pos, Tokens(m), next)
    ensures MemberAt(s, pos) == Accept(TreeOf(m), next)
    decreases m, 0
  {
    match m
    case Setting(name, v) => SettingComplete(s, pos, name, v, next);
    case Group(kind, name, ms) =>
      hide LexAt, Lexes, Opening, AllTokens, KidsFrom;
      assert Tokens(m) == Opening(kind, name) + Body(ms);
      var mid := LexesSplit(s, pos, Opening(kind, name), Body(ms), next);
      var p := LexesFirst(s, mid, Sign('{'), AllTokens(ms) + [Sign('}')], next);
      OpeningComplete(s, pos, kind, name, mid, p);
      KidsComplete(s, p, ms, next);
      SignsAre();
      hide MemberAt;
  }

  lemma {:induction false} KidsComplete(s: seq<byte>, pos: nat, ms: seq<Member>, next: nat)
    requires AllFormed(ms) && Lexes(s, pos, AllTokens(ms) + [Sign('}')], next)
    ensures KidsFrom(s, pos) == Accept(TreesOf(ms), next)
    decreases ms, 1
  {
    hide LexAt, Lexes, Tokens, TreeOf, MemberFrom, TemplateFrom;
    SignsAre();
    if ms == [] {
      assert AllTokens(ms) + [Sign('}')] == [Sign('}')] + [];
      var p := LexesFirst(s, pos, Sign('}'), [], next);
      NoMore(s, p, next);
    } else {
      ConcatAssoc(Tokens(ms[0]), AllTokens(ms[1..]), [Sign('}')]);
      var mid := LexesSplit(s, pos, Tokens(ms[0]), AllTokens(ms[1..]) + [Sign('}')], next);
      MemberComplete(s, pos, ms[0], mid);
      KidsComplete(s, mid, ms[1..], next);
    }
  }

  // ----- nothing else is -----

  lemma PathSound(s: seq<byte>, pos: nat, w: seq<byte>, next: nat)
    requires pos <= |s| && PathFrom(s, pos) == Accept(w, next)
    ensures Lexes(s, pos, [PathToken(w)], next)
  {
    DotsTell(s, pos);
    hide LexAt;
    LexesOne(s, pos, PathToken(w), next);
  }

  function ScalarOf(tok: Token): Scalar
    requires tok.Text? || tok.Number?
  {
    if tok.Text? then Words(tok.text) else Amount(tok.num)
  }

  lemma ScalarBack(tok: Token)
    requires tok.Text? || tok.Number?
    ensures ScalarToken(ScalarOf(tok)) == tok && ScalarTree(ScalarOf(tok)) == HcsParser.Scalar(tok)
    ensures TypeOf(tok) == if ScalarOf(tok).Words? then Texts else Numbers
  {
  }

  lemma {:induction false} ListSound(s: seq<byte>, pos: nat, type0: ElementType, es: seq<SourceTree>, next: nat)
    returns (xs: seq<Scalar>, comma: bool)
    requires pos <= |s| && ElementsFrom(s, pos, type0) == Accept(es, next)
    ensures ValueFormed(List(xs, comma)) && (xs != [] ==> Fits(type0, xs[0]))
    ensures Lexes(s, pos, ListTokens(xs, comma), next) && ScalarTrees(xs) == es
    decreases |s| - pos
  {
    SignsAre();
    var tok, p := LexAt(s, pos).tok, LexAt(s, pos).next;
    if tok == Symbol(CLOSE_BRACKET) {
      hide LexAt;
      xs, comma := [], false;
      LexesOne(s, pos, tok, p);
    } else {
      var sep, q := LexAt(s, p).tok, LexAt(s, p).next;
      var x := ScalarOf(tok);
      ScalarBack(tok);
      if sep == Symbol(CLOSE_BRACKET) {
        hide LexAt, ScalarTree, ScalarToken;
        xs, comma := [x], false;
        LexesTwo(s, pos, tok, p, sep, q);
        assert ScalarTrees(xs) == [ScalarTree(x)] + ScalarTrees(xs[1..]) == [ScalarTree(x)];
      } else {
        var rest := ElementsFrom(s, q, TypeOf(tok)).value;
        var ys, more := ListSound(s, q, TypeOf(tok), rest, next);
        hide LexAt, ScalarTree, ScalarToken, ScalarOf, Lexes, ListTokens, ScalarTrees, TypeOf;
        xs, comma := ListGrows(x, ys, more);
        LexesTwo(s, pos, tok, p, sep, q);
        LexesJoin(s, pos, [tok, sep], q, ListTokens(ys, more), next);
      }
    }
  }

  /** One more element in front of a list, and a comma between them, or behind it if it is the only one. */
  lemma ListGrows(x: Scalar, ys: seq<Scalar>, more: bool) returns (xs: seq<Scalar>, comma: bool)
    requires ValueFormed(List(ys, more)) && (ys != [] ==> ys[0].Words? == x.Words?)
    ensures xs == [x] + ys && ValueFormed(List(xs, comma))
    ensures ListTokens(xs, comma) == [ScalarToken(x), Sign(',')] + ListTokens(ys, more)
    ensures ScalarTrees(xs) == [ScalarTree(x)] + ScalarTrees(ys)
  {
    hide ScalarToken, ScalarTree;
    xs, comma := [x] + ys, more || ys == [];
    assert xs[1..] == ys;
    forall i, j | 0 <= i < j < |xs| ensures xs[i].Words? == xs[j].Words? {
      assert i > 0 ==> xs[i] == ys[i - 1];
      assert xs[j] == ys[j - 1];
      assert ys[0].Words? == ys[j - 1].Words?;
    }
  }

  lemma ValueSound(s: seq<byte>, pos: nat, t: SourceTree, next: nat) returns (v: Value)
    requires pos <= |s| && ValueFrom(s, pos) == Accept(t, next)
    ensures ValueFormed(v) && Lexes(s, pos, ValueTokens(v), next) && ValueTree(v) == t
  {
    SignsAre();
    var tok, p := LexAt(s, pos).tok, LexAt(s, pos).next;
    hide LexAt;
    LexesOne(s, pos, tok, p);
    hide Lexes, ElementsFrom, PathFrom, ListTokens, ScalarTrees, ValueFormed, PathToken;
    if tok.Text? || tok.Number? {
      ScalarBack(tok);
      v := Single(ScalarOf(tok));
      NotAList(v);
    } else if tok == Symbol(OPEN_BRACKET) {
      var xs, comma := ListSound(s, p, ElementType.None, ElementsFrom(s, p, ElementType.None).value, next);
      v := List(xs, comma);
      LexesJoin(s, pos, [tok], p, ListTokens(xs, comma), next);
    } else if tok == Symbol(AMPERSAND) {
      var w := PathFrom(s, p).value;
      PathSound(s, p, w, next);
      v := Reference(w);
      NotAList(v);
      LexesJoin(s, pos, [tok], p, [PathToken(w)], next);
      assert [tok] + [PathToken(w)] == ValueTokens(v);
    } else {
      v := Deletion;
      NotAList(v);
    }
  }

  lemma NotAList(v: Value)
    requires !v.List?
    ensures ValueFormed(v)
  {
  }

  lemma {:induction false} KidsSound(s: seq<byte>, pos: nat, ts: seq<SourceTree>, next: nat) returns (ms: seq<Member>)
    requires pos <= |s| && KidsFrom(s, pos) == Accept(ts, next)
    ensures AllFormed(ms) && TreesOf(ms) == ts && Lexes(s, pos, AllTokens(ms) + [Sign('}')], next)
    decreases |s| - pos, 2
  {
    SignsAre();
    hide LexAt, MemberFrom, TemplateFrom;
    var tok, p := LexAt(s, pos).tok, LexAt(s, pos).next;
    if tok == Symbol(CLOSE_BRACE) {
      ms := [];
      LexesOne(s, pos, tok, p);
      assert AllTokens([]) + [tok] == [tok];
    } else {
      var first := MemberAt(s, pos);
      MemberGains(s, pos);
      var rest := KidsFrom(s, first.next).value;
      var m := MemberSound(s, pos, first.value, first.next);
      var more := KidsSound(s, first.next, rest, next);
      hide Lexes, MemberAt, KidsFrom, Tokens, TreeOf, Formed;
      LexesJoin(s, pos, Tokens(m), first.next, AllTokens(more) + [Sign('}')], next);
      ms := [m] + more;
      assert ms[1..] == more;
      ConcatAssoc(Tokens(m), AllTokens(more), [Sign('}')]);
    }
  }

  lemma MemberGains(s: seq<byte>, pos: nat)
    requires pos <= |s|
    ensures MemberAt(s, pos).Accept? ==> pos < MemberAt(s, pos).next <= |s|
  {
    hide TemplateFrom, MemberFrom;
  }

  lemma BodySound(s: seq<byte>, pos: nat, name: seq<byte>, t: SourceTree, next: nat) returns (ms: seq<Member>)
    requires pos <= |s| && NodeFrom(s, pos, name, false) == Accept(t, next)
    ensures AllFormed(ms) && t == Tree([], Node(name, NoRef), TreesOf(ms)) && Lexes(s, pos, Body(ms), next)
    decreases |s| - pos, 2
  {
    SignsAre();
    hide LexAt, KidsFrom;
    var p := LexAt(s, pos).next;
    ms := KidsSound(s, p, KidsFrom(s, p).value, next);
    LexesOne(s, pos, Sign('{'), p);
    LexesJoin(s, pos, [Sign('{')], p, AllTokens(ms) + [Sign('}')], next);
  }

  /** A body behind an opening is a member. */
  lemma GroupSound(s: seq<byte>, pos: nat, kind: NodeKind, name: seq<byte>, mid: nat, ms: seq<Member>, next: nat)
    returns (m: Member)
    requires Lexes(s, pos, Opening(kind, name), mid) && Lexes(s, mid, Body(ms), next) && AllFormed(ms)
    ensures m == Group(kind, name, ms) && Formed(m) && Lexes(s, pos, Tokens(m), next)
  {
    hide LexAt, Lexes, Opening;
    m := Group(kind, name, ms);
    LexesJoin(s, pos, Opening(kind, name), mid, Body(ms), next);
  }

  lemma {:induction false} MemberSound(s: seq<byte>, pos: nat, t: SourceTree, next: nat) returns (m: Member)
    requires pos <= |s| && MemberAt(s, pos) == Accept(t, next)
    ensures Formed(m) && TreeOf(m) == t && Lexes(s, pos, Tokens(m), next)
    decreases |s| - pos, 1
  {
    SignsAre();
    hide LexAt, TermFrom, NodeFrom, RefNodeFrom, Opening;
    var tok, p := LexAt(s, pos).tok, LexAt(s, pos).next;
    if tok.TemplateWord? {
      m := TemplateSound(s, pos, p, t, next);
    } else {
      var name := tok.name;
      var second, q := LexAt(s, p).tok, LexAt(s, p).next;
      if second == Symbol(EQUALS) {
        m := SettingSound(s, pos, p, q, name, t, next);
      } else if second == Symbol(OPEN_BRACE) {
        PlainOpening(s, pos, p, name);
        NodeEither(s, p, q, name);
        var ms := BodySound(s, p, name, t, next);
        m := GroupSound(s, pos, NoRef, name, p, ms, next);
      } else {
        m := RefSound(s, pos, p, q, name, t, next);
      }
    }
  }

  lemma PlainOpening(s: seq<byte>, pos: nat, p: nat, name: seq<byte>)
    requires pos <= |s| && p <= |s| && LexAt(s, pos) == Tok(Literal(name), p)
    ensures Lexes(s, pos, Opening(NoRef, name), p)
  {
    LexesOne(s, pos, Literal(name), p);
  }

  lemma NodeEither(s: seq<byte>, p: nat, q: nat, name: seq<byte>)
    requires p <= |s| && q <= |s| && LexAt(s, p) == Tok(Symbol(OPEN_BRACE), q)
    ensures NodeFrom(s, p, name, false) == NodeFrom(s, q, name, true)
  {
    hide LexAt, KidsFrom;
  }

  lemma TemplateSound(s: seq<byte>, pos: nat, p: nat, t: SourceTree, next: nat) returns (m: Member)
    requires pos <= |s| && p <= |s| && pos < p
    requires LexAt(s, pos) == Tok(TemplateWord, p) && TemplateFrom(s, p) == Accept(t, next)
    ensures Formed(m) && TreeOf(m) == t && Lexes(s, pos, Tokens(m), next)
    decreases |s| - pos, 0
  {
    hide LexAt, NodeFrom;
    var name, q := LexAt(s, p).tok.name, LexAt(s, p).next;
    LexesTwo(s, pos, TemplateWord, p, Literal(name), q);
    var ms := BodySound(s, q, name, NodeFrom(s, q, name, false).value, next);
    m := GroupSound(s, pos, Template, name, q, ms, next);
  }

  lemma SettingSound(s: seq<byte>, pos: nat, p: nat, q: nat, name: seq<byte>, t: SourceTree, next: nat)
    returns (m: Member)
    requires pos <= |s| && p <= |s| && q <= |s| && LexAt(s, pos) == Tok(Literal(name), p)
    requires LexAt(s, p) == Tok(Symbol(EQUALS), q) && TermFrom(s, q, name) == Accept(t, next)
    ensures Formed(m) && TreeOf(m) == t && Lexes(s, pos, Tokens(m), next)
  {
    SignsAre();
    hide LexAt, ValueFrom, ValueTokens, ValueTree, ValueFormed, Lexes;
    var value := ValueFrom(s, q);
    var v := ValueSound(s, q, value.value, value.next);
    LexesTwo(s, pos, Literal(name), p, Sign('='), q);
    LexesOne(s, value.next, Sign(';'), next);
    LexesJoin(s, q, ValueTokens(v), value.next, [Sign(';')], next);
    LexesJoin(s, pos, [Literal(name), Sign('=')], q, ValueTokens(v) + [Sign(';')], next);
    m := Setting(name, v);
  }

  lemma RefSound(s: seq<byte>, pos: nat, p: nat, q: nat, name: seq<byte>, t: SourceTree, next: nat) returns (m: Member)
    requires pos < p < q <= |s| && LexAt(s, pos) == Tok(Literal(name), p)
    requires LexAt(s, p) == Tok(Symbol(COLON), q) && RefNodeFrom(s, q, name) == Accept(t, next)
    ensures Formed(m) && TreeOf(m) == t && Lexes(s, pos, Tokens(m), next)
    decreases |s| - pos, 0
  {
    var kind, mid := RefOpening(s, pos, p, q, name);
    hide LexAt, Lexes, Opening, NodeFrom, RefNodeFrom;
    var ms := BodySound(s, mid, name, NodeFrom(s, mid, name, false).value, next);
    m := GroupSound(s, pos, kind, name, mid, ms, next);
  }

  lemma RefOpening(s: seq<byte>, pos: nat, p: nat, q: nat, name: seq<byte>) returns (kind: NodeKind, mid: nat)
    requires pos < p < q <= |s| && LexAt(s, pos) == Tok(Literal(name), p)
    requires LexAt(s, p) == Tok(Symbol(COLON), q) && RefNodeFrom(s, q, name).Accept?
    ensures q <= mid <= |s| && Lexes(s, pos, Opening(kind, name), mid)
    ensures RefNodeFrom(s, q, name) == Retag(NodeFrom(s, mid, name, false), kind)
  {
    SignsAre();
    hide LexAt, NodeFrom, PathFrom, PathToken, Lexes, Retag;
    LexesTwo(s, pos, Literal(name), p, Sign(':'), q);
    var head := [Literal(name), Sign(':')];
    var tok, r := LexAt(s, q).tok, LexAt(s, q).next;
    if tok.Literal? || tok.RefPath? {
      var w := if tok.Literal? then tok.name else tok.path;
      PathThere(s, q);
      PathSound(s, q, w, r);
      kind, mid := CopyOf(w), r;
      LexesJoin(s, pos, head, q, [PathToken(w)], r);
      assert head + [PathToken(w)] == Opening(kind, name);
    } else if tok.DeleteWord? {
      kind, mid := NodeKind.Delete, r;
      LexesOne(s, q, tok, r);
      LexesJoin(s, pos, head, q, [tok], r);
      assert head + [tok] == Opening(kind, name);
    } else {
      var path := PathFrom(s, r);
      var w := path.value;
      kind, mid := if tok == Symbol(COLON) then Inherit(w) else RefTo(w), path.next;
      PathSound(s, r, w, mid);
      LexesOne(s, q, tok, r);
      LexesJoin(s, q, [tok], r, [PathToken(w)], mid);
      LexesJoin(s, pos, head, q, [tok] + [PathToken(w)], mid);
      assert head + ([tok] + [PathToken(w)]) == Opening(kind, name);
    }
  }

  lemma PathThere(s: seq<byte>, pos: nat)
    requires pos <= |s| && LexAt(s, pos).Tok? && (LexAt(s, pos).tok.Literal? || LexAt(s, pos).tok.RefPath?)
    ensures var tok := LexAt(s, pos).tok;
            PathFrom(s, pos) == Accept(if tok.Literal? then tok.name else tok.path, LexAt(s, pos).next)
  {
    hide LexAt;
  }

  /** What stands up to a closing brace is accepted, with these members, exactly if that is what it spells. */
  lemma KidsIff(s: seq<byte>, pos: nat, ts: seq<SourceTree>, next: nat)
    requires pos <= |s|
    ensures KidsFrom(s, pos) == Accept(ts, next) <==>
            exists ms :: AllFormed(ms) && TreesOf(ms) == ts && Lexes(s, pos, AllTokens(ms) + [Sign('}')], next)
  {
    hide KidsFrom, Lexes, AllFormed;
    if KidsFrom(s, pos) == Accept(ts, next) {
      var ms := KidsSound(s, pos, ts, next);
    }
    forall ms | AllFormed(ms) && TreesOf(ms) == ts && Lexes(s, pos, AllTokens(ms) + [Sign('}')], next)
      ensures KidsFrom(s, pos) == Accept(ts, next)
    {
      KidsComplete(s, pos, ms, next);
    }
  }

  // ----- whole files -----

  function IncludeTokens(paths: seq<Path>): seq<Token> {
    if paths == [] then [] else [Token.Include, Text(paths[0])] + IncludeTokens(paths[1..])
  }

  /** Include paths that name files. */
  predicate Existing(paths: seq<Path>, absPath: Path -> Path) {
    forall i :: 0 <= i < |paths| ==> paths[i] != [] && absPath(paths[i]) != []
  }

  predicate IsInclude(r: Lexed) {
    r.Tok? && r.tok == Token.Include
  }

  /** Includes read after the first keyword, up to whatever is none. */
  lemma {:induction false} IncludesSound(s: seq<byte>, pos: nat, absPath: Path -> Path, have: seq<Path>, h: Heading)
    returns (paths: seq<Path>, p: nat)
    requires pos <= |s| && h == IncludesFrom(s, pos, absPath, have) && !h.failed
    ensures paths != [] && Existing(paths, absPath) && h.includes == have + FullNames(paths, absPath)
    ensures Lexes(s, pos, [Text(paths[0])] + IncludeTokens(paths[1..]), p)
    ensures p <= |s| && h.rest == LexAt(s, p) && !IsInclude(h.rest)
    decreases |s| - pos
  {
    hide LexAt, Lexes;
    var path, q := LexAt(s, pos).tok.text, LexAt(s, pos).next;
    LexesOne(s, pos, Text(path), q);
    var after := LexAt(s, q);
    var one := have + [absPath(path)];
    if IsInclude(after) {
      var more;
      more, p := IncludesSound(s, after.next, absPath, one, h);
      paths := [path] + more;
      assert paths[1..] == more;
      IncludesGrow(s, pos, path, q, more, p);
      assert one + FullNames(more, absPath) == have + FullNames(paths, absPath);
    } else {
      hide Lexes;
      paths, p := [path], q;
      assert [Text(path)] + [] == [Text(path)];
      assert FullNames(paths, absPath) == [absPath(path)] + [];
    }
  }

  lemma IncludesGrow(s: seq<byte>, pos: nat, path: Path, q: nat, more: seq<Path>, p: nat)
    requires Lexes(s, pos, [Text(path)], q) && more != [] && q <= |s| && IsInclude(LexAt(s, q))
    requires Lexes(s, LexAt(s, q).next, [Text(more[0])] + IncludeTokens(more[1..]), p)
    ensures Lexes(s, pos, [Text(path)] + IncludeTokens(more), p)
  {
    hide LexAt, Lexes;
    var r := LexAt(s, q).next;
    var rest := [Text(more[0])] + IncludeTokens(more[1..]);
    LexesOne(s, q, Token.Include, r);
    LexesJoin(s, q, [Token.Include], r, rest, p);
    assert IncludeTokens(more) == [Token.Include] + rest;
    LexesJoin(s, pos, [Text(path)], q, IncludeTokens(more), p);
  }

  lemma {:induction false} IncludesComplete(s: seq<byte>, pos: nat, absPath: Path -> Path, have: seq<Path>,
                                            paths: seq<Path>, p: nat)
    requires paths != [] && Existing(paths, absPath) && p <= |s| && !IsInclude(LexAt(s, p))
    requires Lexes(s, pos, [Text(paths[0])] + IncludeTokens(paths[1..]), p)
    ensures pos <= |s|
    ensures IncludesFrom(s, pos, absPath, have) == Heading(have + FullNames(paths, absPath), false, LexAt(s, p))
    decreases |paths|
  {
    hide LexAt, Lexes;
    var path, more := paths[0], paths[1..];
    var q := LexesFirst(s, pos, Text(path), IncludeTokens(more), p);
    var one := have + [absPath(path)];
    if more == [] {
      NoMore(s, q, p);
      assert FullNames(paths, absPath) == [absPath(path)] + [];
    } else {
      var rest := [Text(more[0])] + IncludeTokens(more[1..]);
      assert IncludeTokens(more) == [Token.Include] + rest;
      var r := LexesFirst(s, q, Token.Include, rest, p);
      IncludesComplete(s, r, absPath, one, more, p);
      assert one + FullNames(more, absPath) == have + FullNames(paths, absPath);
    }
  }

  /** What a file starts with: includes of files that there are, and where they end. */
  ghost predicate Headed(s: seq<byte>, absPath: Path -> Path, paths: seq<Path>, p: nat) {
    Existing(paths, absPath) && Lexes(s, 0, IncludeTokens(paths), p) && p <= |s| && !IsInclude(LexAt(s, p))
  }

  /** The includes of a file are read without an error exactly if they are there and well formed. */
  lemma HeadingIff(s: seq<byte>, absPath: Path -> Path, incs: seq<Path>, rest: Lexed)
    ensures HeadingFrom(s, absPath) == Heading(incs, false, rest) <==>
            exists paths, p :: Headed(s, absPath, paths, p) && incs == FullNames(paths, absPath) && rest == LexAt(s, p)
  {
    hide LexAt, Lexes, IncludesFrom, Existing;
    if HeadingFrom(s, absPath) == Heading(incs, false, rest) {
      var paths, p := HeadingSound(s, absPath);
      assert Headed(s, absPath, paths, p);
    }
    forall paths, p | Headed(s, absPath, paths, p)
      ensures HeadingFrom(s, absPath) == Heading(FullNames(paths, absPath), false, LexAt(s, p))
    {
      HeadingComplete(s, absPath, paths, p);
    }
  }

  lemma HeadingSound(s: seq<byte>, absPath: Path -> Path) returns (paths: seq<Path>, p: nat)
    requires !HeadingFrom(s, absPath).failed
    ensures Headed(s, absPath, paths, p)
    ensures HeadingFrom(s, absPath) == Heading(FullNames(paths, absPath), false, LexAt(s, p))
  {
    hide LexAt, IncludesFrom;
    var first := LexAt(s, 0);
    if IsInclude(first) {
      paths, p := IncludesSound(s, first.next, absPath, [], HeadingFrom(s, absPath));
      var rest := [Text(paths[0])] + IncludeTokens(paths[1..]);
      LexesOne(s, 0, Token.Include, first.next);
      LexesJoin(s, 0, [Token.Include], first.next, rest, p);
      assert IncludeTokens(paths) == [Token.Include] + rest;
      assert [] + FullNames(paths, absPath) == FullNames(paths, absPath);
    } else {
      paths, p := [], 0;
    }
  }

  lemma HeadingComplete(s: seq<byte>, absPath: Path -> Path, paths: seq<Path>, p: nat)
    requires Headed(s, absPath, paths, p)
    ensures HeadingFrom(s, absPath) == Heading(FullNames(paths, absPath), false, LexAt(s, p))
  {
    hide LexAt, Lexes, IncludesFrom;
    if paths == [] {
      NoMore(s, 0, p);
    } else {
      var rest := [Text(paths[0])] + IncludeTokens(paths[1..]);
      assert IncludeTokens(paths) == [Token.Include] + rest;
      var q := LexesFirst(s, 0, Token.Include, rest, p);
      IncludesComplete(s, q, absPath, [], paths, p);
      assert [] + FullNames(paths, absPath) == FullNames(paths, absPath);
    }
  }

  /** The tokens of a file with a root node. */
  function FileTokens(paths: seq<Path>, ms: seq<Member>): seq<Token> {
    IncludeTokens(paths) + ([Root] + (Body(ms) + [End]))
  }

  /** The tokens are those of a file, from start to end. */
  ghost predicate Spelled(s: seq<byte>, paths: seq<Path>, ms: seq<Member>, next: nat) {
    AllFormed(ms) && Lexes(s, 0, FileTokens(paths, ms), next)
  }

  /** A file is accepted, with these includes and this root node, exactly if that is what it spells. */
  lemma FileIff(s: seq<byte>, absPath: Path -> Path, incs: seq<Path>, root: SourceTree, next: nat)
    ensures var h := HeadingFrom(s, absPath);
            (RootFrom(s, h) == Accept(root, next) && h.includes == incs) <==>
            exists paths, ms ::
              && Existing(paths, absPath) && incs == FullNames(paths, absPath) && Spelled(s, paths, ms, next)
              && root == Tree([], Node(Ascii("root"), NoRef), TreesOf(ms))
  {
    hide LexAt, Lexes, RootFrom, HeadingFrom, Ascii, Existing;
    var h := HeadingFrom(s, absPath);
    if RootFrom(s, h) == Accept(root, next) {
      var paths, ms := FileSound(s, absPath, root, next);
      assert Spelled(s, paths, ms, next);
    }
    forall paths, ms | Existing(paths, absPath) && Spelled(s, paths, ms, next)
      ensures h.includes == FullNames(paths, absPath)
      ensures RootFrom(s, h) == Accept(Tree([], Node(Ascii("root"), NoRef), TreesOf(ms)), next)
    {
      FileComplete(s, absPath, paths, ms, next);
    }
  }

  lemma NotFailed(s: seq<byte>, absPath: Path -> Path)
    ensures HeadingFrom(s, absPath).rest.Tok? ==> !HeadingFrom(s, absPath).failed
  {
    hide LexAt, IncludesFrom;
  }

  lemma RootWordIs()
    ensures Ascii("root") == WORD_ROOT
  {
  }

  lemma FileSound(s: seq<byte>, absPath: Path -> Path, root: SourceTree, next: nat)
    returns (paths: seq<Path>, ms: seq<Member>)
    requires RootFrom(s, HeadingFrom(s, absPath)) == Accept(root, next)
    ensures Existing(paths, absPath) && HeadingFrom(s, absPath).includes == FullNames(paths, absPath)
    ensures AllFormed(ms) && Lexes(s, 0, FileTokens(paths, ms), next)
    ensures root == Tree([], Node(Ascii("root"), NoRef), TreesOf(ms))
  {
    RootWordIs();
    NotFailed(s, absPath);
    hide LexAt, Lexes, NodeFrom, HeadingFrom, Ascii, AllFormed, Existing;
    var p;
    paths, p := HeadingSound(s, absPath);
    var q := LexAt(s, p).next;
    var r := NodeFrom(s, q, WORD_ROOT, false).next;
    ms := BodySound(s, q, WORD_ROOT, root, r);
    LexesOne(s, p, Root, q);
    LexesOne(s, r, End, next);
    LexesJoin(s, q, Body(ms), r, [End], next);
    LexesJoin(s, p, [Root], q, Body(ms) + [End], next);
    LexesJoin(s, 0, IncludeTokens(paths), p, [Root] + (Body(ms) + [End]), next);
  }

  lemma FileComplete(s: seq<byte>, absPath: Path -> Path, paths: seq<Path>, ms: seq<Member>, next: nat)
    requires Existing(paths, absPath) && Spelled(s, paths, ms, next)
    ensures HeadingFrom(s, absPath).includes == FullNames(paths, absPath)
    ensures RootFrom(s, HeadingFrom(s, absPath)) == Accept(Tree([], Node(Ascii("root"), NoRef), TreesOf(ms)), next)
  {
    RootWordIs();
    hide LexAt, Lexes, HeadingFrom, KidsFrom, Ascii, AllFormed, Existing;
    var rest := Body(ms) + [End];
    var p := LexesSplit(s, 0, IncludeTokens(paths), [Root] + rest, next);
    var q := LexesFirst(s, p, Root, rest, next);
    HeadingComplete(s, absPath, paths, p);
    var r := LexesSplit(s, q, Body(ms), [End], next);
    var b := LexesFirst(s, q, Sign('{'), AllTokens(ms) + [Sign('}')], r);
    KidsComplete(s, b, ms, r);
    SignsAre();
    assert [End] == [End] + [];
    var e := LexesFirst(s, r, End, [], next);
    NoMore(s, e, next);
  }
}
