/** Sources that no decompiler prints: include lists, references, deletions and templates. */
module HcsSource {
  import opened Bytes
  import opened HcsTree
  import opened HcsLexer
  import opened HcsNumbers
  import opened HcsParser
  import opened HcsPrinter
  import opened HcsText
  import opened HcsWords

  // ----- includes -----

  const HASH_INCLUDE: seq<byte> := [HASH] + WORD_INCLUDE

  function Quoted(path: Path): seq<byte> {
    [QUOTE] + (path + [QUOTE])
  }

  /** One include behind another, each on its own line. */
  function IncludeLines(paths: seq<Path>): seq<byte> {
    if paths == [] then []
    else ([NEWLINE] + (HASH_INCLUDE + [0x20])) + (Quoted(paths[0]) + IncludeLines(paths[1..]))
  }

  function FullNames(paths: seq<Path>, absPath: Path -> Path): seq<Path> {
    if paths == [] then [] else [absPath(paths[0])] + FullNames(paths[1..], absPath)
  }

  /** Names without quotes and escapes, of files that there are. */
  predicate Includable(paths: seq<Path>, absPath: Path -> Path) {
    forall i :: 0 <= i < |paths| ==> PlainText(paths[i]) && paths[i] != [] && absPath(paths[i]) != []
  }

  lemma IncludeWord()
    ensures Blanks([NEWLINE]) && !InLiteral(0x20) && |WORD_INCLUDE| == 7
    ensures forall i :: 0 <= i < |WORD_INCLUDE| ==> InLiteral(WORD_INCLUDE[i])
  {
  }

  lemma LexHash(s: seq<byte>, pos: nat)
    requires At(s, pos, [NEWLINE] + (HASH_INCLUDE + [0x20]))
    ensures pos + 10 <= |s| && LexAt(s, pos) == Tok(Token.Include, pos + 9)
  {
    hide At, SkipBlank, LiteralEnd, Blanks, IsAlpha, IsNum, IsSymbol;
    IncludeWord();
    assert HASH_INCLUDE + [0x20] == [HASH] + (WORD_INCLUDE + [0x20]);
    FirstOf(s, pos, [NEWLINE], HASH, WORD_INCLUDE + [0x20]);
    LiteralRuns(s, pos + 2, WORD_INCLUDE, 0x20);
    AtByte(s, pos + 2, WORD_INCLUDE, 0x20);
  }

  /** The lines of an include list, up to whatever is no include. */
  lemma {:induction false} IncludesParse(s: seq<byte>, pos: nat, paths: seq<Path>, absPath: Path -> Path,
                                         have: seq<Path>)
    requires paths != [] && Includable(paths, absPath)
    requires At(s, pos, [0x20] + (Quoted(paths[0]) + IncludeLines(paths[1..])))
    requires var end := pos + 1 + |Quoted(paths[0])| + |IncludeLines(paths[1..])|;
             end <= |s| && !(LexAt(s, end).Tok? && LexAt(s, end).tok == Token.Include)
    ensures pos <= |s|
    ensures var end := pos + 1 + |Quoted(paths[0])| + |IncludeLines(paths[1..])|;
            IncludesFrom(s, pos, absPath, have) == Heading(have + FullNames(paths, absPath), false, LexAt(s, end))
    decreases |paths|
  {
    hide At, LexAt, Blanks, PlainText, Quoted, IncludesFrom;
    var path, rest := paths[0], IncludeLines(paths[1..]);
    PathReads(s, pos, path, rest);
    var p := pos + 1 + |Quoted(path)|;
    assert have + FullNames(paths, absPath) == (have + [absPath(path)]) + FullNames(paths[1..], absPath);
    if |paths| == 1 {
      assert (have + [absPath(path)]) + [] == have + [absPath(path)];
      LastInclude(s, pos, p, path, absPath, have);
    } else {
      var more := paths[1..];
      NextLine(s, p, more);
      NextInclude(s, pos, p, path, absPath, have);
      IncludesParse(s, p + 9, more, absPath, have + [absPath(path)]);
    }
  }

  lemma PathReads(s: seq<byte>, pos: nat, path: Path, rest: seq<byte>)
    requires PlainText(path) && At(s, pos, [0x20] + (Quoted(path) + rest))
    ensures pos + 1 + |Quoted(path)| <= |s| && At(s, pos + 1 + |Quoted(path)|, rest)
    ensures LexAt(s, pos) == Tok(Text(path), pos + 1 + |Quoted(path)|)
  {
    hide At, LexAt, Blanks, PlainText;
    OneBlank();
    After(s, pos, [0x20], Quoted(path), rest);
    AtReach(s, pos + 1, Quoted(path));
    AtJoin(s, pos, [0x20], Quoted(path));
    LexText(s, pos, [0x20], path);
  }

  /** The line of the next include, and its path behind it. */
  lemma NextLine(s: seq<byte>, pos: nat, paths: seq<Path>)
    requires paths != [] && At(s, pos, IncludeLines(paths))
    ensures pos + 10 <= |s| && LexAt(s, pos) == Tok(Token.Include, pos + 9)
    ensures At(s, pos + 9, [0x20] + (Quoted(paths[0]) + IncludeLines(paths[1..])))
    ensures |IncludeLines(paths)| == 10 + |Quoted(paths[0])| + |IncludeLines(paths[1..])|
  {
    hide At, LexAt, Quoted;
    var tail := Quoted(paths[0]) + IncludeLines(paths[1..]);
    AtSplit(s, pos, [NEWLINE] + (HASH_INCLUDE + [0x20]), tail);
    LexHash(s, pos);
    BlankAfter(s, pos);
    AtJoin(s, pos + 9, [0x20], tail);
  }

  lemma NextInclude(s: seq<byte>, pos: nat, p: nat, path: Path, absPath: Path -> Path, have: seq<Path>)
    requires pos <= |s| && p + 10 <= |s| && path != [] && absPath(path) != []
    requires LexAt(s, pos) == Tok(Text(path), p) && LexAt(s, p) == Tok(Token.Include, p + 9)
    ensures IncludesFrom(s, pos, absPath, have) == IncludesFrom(s, p + 9, absPath, have + [absPath(path)])
  {
    hide LexAt;
  }

  lemma LastInclude(s: seq<byte>, pos: nat, p: nat, path: Path, absPath: Path -> Path, have: seq<Path>)
    requires pos <= |s| && p <= |s| && path != [] && absPath(path) != [] && LexAt(s, pos) == Tok(Text(path), p)
    requires !(LexAt(s, p).Tok? && LexAt(s, p).tok == Token.Include)
    ensures IncludesFrom(s, pos, absPath, have) == Heading(have + [absPath(path)], false, LexAt(s, p))
  {
    hide LexAt;
  }

  lemma BlankAfter(s: seq<byte>, pos: nat)
    requires At(s, pos, [NEWLINE] + (HASH_INCLUDE + [0x20]))
    ensures At(s, pos + 9, [0x20])
  {
    assert [NEWLINE] + (HASH_INCLUDE + [0x20]) == ([NEWLINE] + HASH_INCLUDE) + [0x20];
    AtSplit(s, pos, [NEWLINE] + HASH_INCLUDE, [0x20]);
  }

  /**
   A source that starts with include lines includes those files, in order, and goes on with the
   first token behind them.
   */
  lemma IncludesAreRead(s: seq<byte>, paths: seq<Path>, absPath: Path -> Path)
    requires Includable(paths, absPath) && At(s, 0, IncludeLines(paths))
    requires var end := |IncludeLines(paths)|;
             end <= |s| && !(LexAt(s, end).Tok? && LexAt(s, end).tok == Token.Include)
    ensures HeadingFrom(s, absPath) == Heading(FullNames(paths, absPath), false, LexAt(s, |IncludeLines(paths)|))
  {
    hide At, LexAt;
    if paths != [] {
      NextLine(s, 0, paths);
      IncludesParse(s, 9, paths, absPath, []);
      assert [] + FullNames(paths, absPath) == FullNames(paths, absPath);
    }
  }

  // ----- nodes that refer to others -----

  /** What stands between a node's name and its brace; nothing for plain nodes and templates. */
  function KindText(kind: NodeKind): seq<byte> {
    match kind
    case CopyOf(w) => ([0x20] + [COLON]) + ([0x20] + w)
    case RefTo(w) => ([0x20] + [COLON]) + (([0x20] + [AMPERSAND]) + w)
    case Inherit(w) => ([0x20] + [COLON]) + (([] + [COLON]) + ([0x20] + w))
    case Delete => ([0x20] + [COLON]) + ([0x20] + WORD_DELETE)
    case _ => []
  }

  /** Kinds that a source can give a node behind its name, referring to a node by a simple name. */
  predicate Referring(kind: NodeKind) {
    match kind
    case CopyOf(w) => PlainName(w)
    case RefTo(w) => PlainName(w)
    case Inherit(w) => PlainName(w)
    case Delete => true
    case _ => false
  }

  /** A word and the blank behind it. */
  lemma WordBefore<Id>(s: seq<byte>, pos: nat, b: seq<byte>, w: seq<byte>, t: Tree<Id>, d: nat)
    requires Blanks(b) && At(s, pos, b + w) && Shapely(t) && At(s, pos + |b| + |w|, AfterName(t, d))
    requires w != [] && IsAlpha(w[0]) && forall i :: 0 <= i < |w| ==> InLiteral(w[i])
    ensures pos <= |s| && LexAt(s, pos) == Tok(WordToken(w), pos + |b| + |w|)
  {
    hide At, LexAt, AfterName, Blanks, WordToken, IsAlpha, InLiteral;
    BodyNotEmpty(t, d);
    var body := AfterName(t, d);
    assert body == [0x20] + body[1..];
    AtSplit(s, pos + |b| + |w|, [0x20], body[1..]);
    AtJoin(s, pos, b + w, [0x20]);
    ConcatAssoc(b, w, [0x20]);
    BlankEnds();
    LexWord(s, pos, b, w, 0x20);
  }

  lemma BlankEnds()
    ensures !InLiteral(0x20) && Blanks([0x20]) && Blanks([])
    ensures IsSymbol(COLON) && IsSymbol(AMPERSAND)
  {
  }

  lemma DeleteIsWord()
    ensures WordToken(WORD_DELETE) == DeleteWord && IsAlpha(WORD_DELETE[0])
    ensures forall i :: 0 <= i < |WORD_DELETE| ==> InLiteral(WORD_DELETE[i])
  {
  }

  lemma Refers(s: seq<byte>, pos: nat, name: seq<byte>)
    requires At(s, pos, [0x20] + [COLON])
    ensures pos + 2 <= |s| && MemberFrom(s, pos, name) == RefNodeFrom(s, pos + 2, name)
  {
    BlankEnds();
    AtReach(s, pos, [0x20] + [COLON]);
    LexSymbol(s, pos, [0x20], COLON);
    hide At, LexAt, Blanks, NodeFrom, RefNodeFrom, TermFrom;
  }

  lemma WordIs(w: seq<byte>)
    requires PlainName(w)
    ensures w != [] && IsAlpha(w[0]) && (forall i :: 0 <= i < |w| ==> InLiteral(w[i])) && WordToken(w) == Literal(w)
  {
  }

  lemma CopyHead<Id>(s: seq<byte>, pos: nat, w: seq<byte>, t: Tree<Id>, d: nat, name: seq<byte>)
    requires PlainName(w) && Shapely(t) && At(s, pos, [0x20] + w) && At(s, pos + 1 + |w|, AfterName(t, d))
    ensures pos + 1 + |w| <= |s|
    ensures RefNodeFrom(s, pos, name) == Retag(NodeFrom(s, pos + 1 + |w|, name, false), CopyOf(w))
  {
    hide At, LexAt, AfterName, Blanks, NodeFrom, WordToken, IsAlpha, InLiteral, Shapely, PlainName;
    WordIs(w);
    BlankEnds();
    WordBefore(s, pos, [0x20], w, t, d);
  }

  lemma DeleteHead<Id>(s: seq<byte>, pos: nat, t: Tree<Id>, d: nat, name: seq<byte>)
    requires Shapely(t) && At(s, pos, [0x20] + WORD_DELETE) && At(s, pos + 1 + |WORD_DELETE|, AfterName(t, d))
    ensures pos + 1 + |WORD_DELETE| <= |s|
    ensures RefNodeFrom(s, pos, name) == Retag(NodeFrom(s, pos + 1 + |WORD_DELETE|, name, false), NodeKind.Delete)
  {
    hide At, LexAt, AfterName, Blanks, NodeFrom, WordToken, IsAlpha, InLiteral, Shapely;
    DeleteIsWord();
    BlankEnds();
    WordBefore(s, pos, [0x20], WORD_DELETE, t, d);
  }

  /** A second symbol, then a path. */
  lemma PathHead<Id>(s: seq<byte>, pos: nat, b: seq<byte>, c: byte, a: seq<byte>, w: seq<byte>,
                     t: Tree<Id>, d: nat, name: seq<byte>)
    requires PlainName(w) && Shapely(t) && Blanks(b) && Blanks(a) && (c == COLON || c == AMPERSAND)
    requires At(s, pos, b + [c]) && At(s, pos + |b| + 1, a + w) && At(s, pos + |b| + 1 + |a| + |w|, AfterName(t, d))
    ensures var p := pos + |b| + 1 + |a| + |w|;
            && p <= |s|
            && RefNodeFrom(s, pos, name) ==
               Retag(NodeFrom(s, p, name, false), if c == COLON then Inherit(w) else RefTo(w))
  {
    hide At, LexAt, AfterName, Blanks, NodeFrom, WordToken, IsAlpha, InLiteral, Shapely, PlainName, IsSymbol;
    WordIs(w);
    BlankEnds();
    LexSymbol(s, pos, b, c);
    WordBefore(s, pos + |b| + 1, a, w, t, d);
  }

  /** The reference behind a node's name leads to the node's body with its kind. */
  lemma RefHead<Id>(s: seq<byte>, pos: nat, kind: NodeKind, t: Tree<Id>, d: nat, name: seq<byte>)
    requires Referring(kind) && Shapely(t) && At(s, pos, KindText(kind))
    requires At(s, pos + |KindText(kind)|, AfterName(t, d))
    ensures var p := pos + |KindText(kind)|;
            p <= |s| && MemberFrom(s, pos, name) == Retag(NodeFrom(s, p, name, false), kind)
  {
    hide At, LexAt, AfterName, Blanks, NodeFrom, MemberFrom, RefNodeFrom, PlainName, IsSymbol, Shapely, Retag;
    BlankEnds();
    match kind
    case CopyOf(w) =>
      AtSplit(s, pos, [0x20] + [COLON], [0x20] + w);
      Refers(s, pos, name);
      CopyHead(s, pos + 2, w, t, d, name);
    case RefTo(w) =>
      After(s, pos, [0x20] + [COLON], [0x20] + [AMPERSAND], w);
      Refers(s, pos, name);
      assert [] + w == w;
      PathHead(s, pos + 2, [0x20], AMPERSAND, [], w, t, d, name);
    case Inherit(w) =>
      After(s, pos, [0x20] + [COLON], [] + [COLON], [0x20] + w);
      Refers(s, pos, name);
      PathHead(s, pos + 2, [], COLON, [0x20], w, t, d, name);
    case Delete =>
      AtSplit(s, pos, [0x20] + [COLON], [0x20] + WORD_DELETE);
      Refers(s, pos, name);
      DeleteHead(s, pos + 2, t, d, name);
    case _ =>
  }

  /** A node with a reference behind its name parses to that node, with the reference as its kind. */
  lemma RefNodeParses<Id>(s: seq<byte>, pos: nat, t: Tree<Id>, d: nat, kind: NodeKind)
    requires t.lab.Node? && Plain(t) && Shapely(t) && Referring(kind)
    requires At(s, pos, KindText(kind) + AfterName(t, d))
    ensures pos <= |s|
    ensures MemberFrom(s, pos, t.lab.name) ==
            Accept(Tree([], Node(t.lab.name, kind), BareAll(t.kids)), pos + |KindText(kind)| + |AfterName(t, d)| - 1)
  {
    hide At, AfterName, KindText, Referring, MemberFrom, NodeFrom, Shapely;
    AtSplit(s, pos, KindText(kind), AfterName(t, d));
    RefHead(s, pos, kind, t, d, t.lab.name);
    NodeParses(s, pos + |KindText(kind)|, t, d);
  }

  // ----- terms that refer or delete, and templates -----

  /** A symbol behind gaps, and what follows it. */
  lemma SymbolThen(s: seq<byte>, pos: nat, g: seq<byte>, c: byte, rest: seq<byte>)
    requires At(s, pos, g + ([c] + rest)) && Gaps(g) && (c == 0x3D || c == 0x26 || c == 0x3B || c == 0x7B)
    ensures var p := pos + |g| + 1; p <= |s| && LexAt(s, pos) == Tok(Symbol(c), p) && At(s, p, rest)
  {
    hide LexAt, At, Gaps;
    ConcatAssoc(g, [c], rest);
    AtSplit(s, pos, g + [c], rest);
    AtEnds(s, pos, g + [c]);
    SymbolByte(c);
    LexSingle(s, pos, g, c);
  }

  lemma SymbolByte(c: byte)
    requires c == 0x3D || c == 0x26 || c == 0x3B || c == 0x7B
    ensures c in Ascii(";,[]{}=&:") && c !in Ascii("#/\"+-") && !Gap(c) && !Letter(c) && !Decimal(c) && !WordByte(c)
  {
    assert Ascii(";,[]{}=&:") == [0x3B, 0x2C, 0x5B, 0x5D, 0x7B, 0x7D, 0x3D, 0x26, 0x3A];
    assert Ascii("#/\"+-") == [0x23, 0x2F, 0x22, 0x2B, 0x2D];
  }

  lemma AtEnds(s: seq<byte>, pos: nat, b: seq<byte>)
    requires At(s, pos, b)
    ensures pos + |b| <= |s| && s[pos..pos + |b|] == b
  {
  }

  /** The bytes of a word, the first a letter. */
  predicate IsWord(w: seq<byte>) {
    w != [] && Letter(w[0]) && forall i :: 0 <= i < |w| ==> WordByte(w[i])
  }

  /** A word behind gaps, and what follows it. */
  lemma WordThen(s: seq<byte>, pos: nat, g: seq<byte>, w: seq<byte>, rest: seq<byte>)
    requires At(s, pos, g + (w + rest)) && Gaps(g) && IsWord(w) && rest != [] && !WordByte(rest[0])
    ensures var p := pos + |g| + |w|; p <= |s| && LexAt(s, pos) == Tok(Meaning(w), p) && At(s, p, rest)
  {
    hide LexAt, At, Gaps, Meaning, WordByte, Letter;
    ConcatAssoc(g, w, rest);
    AtSplit(s, pos, g + w, rest);
    var p := pos + |g| + |w|;
    AtEnds(s, p, rest);
    assert s[p] == s[p..p + |rest|][0];
    LexMeaning(s, pos, g, w);
  }

  /** What gaps and a symbol start with ends a word. */
  lemma GapsEnd(g: seq<byte>, c: byte, rest: seq<byte>)
    requires Gaps(g) && !WordByte(c)
    ensures g + ([c] + rest) != [] && !WordByte((g + ([c] + rest))[0])
  {
  }

  /** ` = &path;`, with gaps wherever they are allowed: the term's value refers to that path. */
  lemma RefTermReads(s: seq<byte>, pos: nat, g0: seq<byte>, g1: seq<byte>, g2: seq<byte>, w: seq<byte>, g3: seq<byte>,
                     name: seq<byte>)
    requires At(s, pos, g0 + ([0x3D] + (g1 + ([0x26] + (g2 + (w + (g3 + ([0x3B] + []))))))))
    requires Gaps(g0) && Gaps(g1) && Gaps(g2) && Gaps(g3) && IsWord(w)
    requires Meaning(w) == Literal(w) || Meaning(w) == RefPath(w)
    ensures pos <= |s|
    ensures MemberFrom(s, pos, name) ==
            Accept(Tree([], Term(name), [Tree([], Ref(w), [])]), pos + |g0| + |g1| + |g2| + |w| + |g3| + 3)
  {
    hide LexAt, At, Gaps, Meaning, IsWord, WordByte, NodeFrom, RefNodeFrom;
    SymbolByte(0x3B);
    var end := g3 + ([0x3B] + []);
    SymbolThen(s, pos, g0, 0x3D, g1 + ([0x26] + (g2 + (w + end))));
    var p := pos + |g0| + 1;
    SymbolThen(s, p, g1, 0x26, g2 + (w + end));
    var q := p + |g1| + 1;
    GapsEnd(g3, 0x3B, []);
    WordThen(s, q, g2, w, end);
    SymbolThen(s, q + |g2| + |w|, g3, 0x3B, []);
  }

  lemma KeywordsAre()
    ensures IsWord(Ascii("delete")) && Meaning(Ascii("delete")) == DeleteWord
    ensures IsWord(Ascii("template")) && Meaning(Ascii("template")) == TemplateWord
  {
    assert Ascii("delete") == WORD_DELETE && Ascii("template") == WORD_TEMPLATE;
    MeaningIs(WORD_DELETE);
    MeaningIs(WORD_TEMPLATE);
    hide Meaning, Ascii;
  }

  /** ` = delete;`: the term's value is the deletion mark. */
  lemma DeleteTermReads(s: seq<byte>, pos: nat, g0: seq<byte>, g1: seq<byte>, g2: seq<byte>, name: seq<byte>)
    requires At(s, pos, g0 + ([0x3D] + (g1 + (Ascii("delete") + (g2 + ([0x3B] + []))))))
    requires Gaps(g0) && Gaps(g1) && Gaps(g2)
    ensures pos <= |s|
    ensures MemberFrom(s, pos, name) ==
            Accept(Tree([], Term(name), [Tree([], Del, [])]), pos + |g0| + |g1| + |g2| + 8)
  {
    hide LexAt, At, Gaps, Meaning, IsWord, WordByte, NodeFrom, RefNodeFrom, Ascii;
    KeywordsAre();
    SymbolByte(0x3B);
    var end := g2 + ([0x3B] + []);
    SymbolThen(s, pos, g0, 0x3D, g1 + (Ascii("delete") + end));
    var p := pos + |g0| + 1;
    GapsEnd(g2, 0x3B, []);
    WordThen(s, p, g1, Ascii("delete"), end);
    SymbolThen(s, p + |g1| + 6, g2, 0x3B, []);
  }

  /** `template name {` inside a node, with gaps: the member is a node of kind `Template` with what is in its braces. */
  lemma TemplateReads(s: seq<byte>, pos: nat, g0: seq<byte>, g1: seq<byte>, name: seq<byte>, g2: seq<byte>,
                      inner: seq<SourceTree>, q: nat, more: seq<SourceTree>, next: nat)
    requires At(s, pos, g0 + (Ascii("template") + (g1 + (name + (g2 + ([0x7B] + []))))))
    requires Gaps(g0) && Gaps(g1) && g1 != [] && Gaps(g2) && IsWord(name) && Meaning(name) == Literal(name)
    requires var p := pos + |g0| + |g1| + |name| + |g2| + 9; p <= |s| && KidsFrom(s, p) == Accept(inner, q)
    requires q <= |s| && KidsFrom(s, q) == Accept(more, next)
    ensures pos <= |s| && KidsFrom(s, pos) == Accept([Tree([], Node(name, Template), inner)] + more, next)
  {
    hide *;
    TemplateOpens(s, pos, g0, g1, name, g2);
    var a := pos + |g0| + 8;
    var b := a + |g1| + |name|;
    TemplateKid(s, pos, a, b, b + |g2| + 1, name, inner, q, more, next);
  }

  lemma TemplateKid(s: seq<byte>, pos: nat, a: nat, b: nat, p: nat, name: seq<byte>, inner: seq<SourceTree>, q: nat,
                    more: seq<SourceTree>, next: nat)
    requires pos <= a <= b <= p <= |s| && LexAt(s, pos) == Tok(TemplateWord, a)
    requires LexAt(s, a) == Tok(Literal(name), b) && LexAt(s, b) == Tok(Symbol(0x7B), p)
    requires KidsFrom(s, p) == Accept(inner, q) && q <= |s| && KidsFrom(s, q) == Accept(more, next)
    ensures KidsFrom(s, pos) == Accept([Tree([], Node(name, Template), inner)] + more, next)
  {
    hide *;
    TemplateIs(s, a, b, p, name, inner, q);
    TemplateNext(s, pos, a, Tree([], Node(name, Template), inner), q, more, next);
  }

  lemma TemplateNext(s: seq<byte>, pos: nat, a: nat, kid: SourceTree, q: nat, more: seq<SourceTree>, next: nat)
    requires pos <= |s| && a <= |s| && q <= |s| && LexAt(s, pos) == Tok(TemplateWord, a)
    requires TemplateFrom(s, a) == Accept(kid, q) && KidsFrom(s, q) == Accept(more, next)
    ensures KidsFrom(s, pos) == Accept([kid] + more, next)
  {
    hide LexAt, TemplateFrom, MemberFrom;
  }

  lemma TemplateIs(s: seq<byte>, a: nat, b: nat, p: nat, name: seq<byte>, inner: seq<SourceTree>, q: nat)
    requires a <= b <= p <= |s| && LexAt(s, a) == Tok(Literal(name), b) && LexAt(s, b) == Tok(Symbol(0x7B), p)
    requires KidsFrom(s, p) == Accept(inner, q)
    ensures TemplateFrom(s, a) == Accept(Tree([], Node(name, Template), inner), q)
  {
    hide LexAt, KidsFrom;
  }

  lemma TemplateOpens(s: seq<byte>, pos: nat, g0: seq<byte>, g1: seq<byte>, name: seq<byte>, g2: seq<byte>)
    requires At(s, pos, g0 + (Ascii("template") + (g1 + (name + (g2 + ([0x7B] + []))))))
    requires Gaps(g0) && Gaps(g1) && g1 != [] && Gaps(g2) && IsWord(name) && Meaning(name) == Literal(name)
    ensures var a := pos + |g0| + 8;
            var b := a + |g1| + |name|;
            && b + |g2| + 1 <= |s| && LexAt(s, pos) == Tok(TemplateWord, a) && LexAt(s, a) == Tok(Literal(name), b)
            && LexAt(s, b) == Tok(Symbol(0x7B), b + |g2| + 1)
  {
    hide LexAt, At, Meaning, IsWord, WordByte, Ascii;
    KeywordsAre();
    SymbolByte(0x7B);
    var end := g2 + ([0x7B] + []);
    GapNoWord(g1);
    hide Gaps;
    WordThen(s, pos, g0, Ascii("template"), g1 + (name + end));
    GapsEnd(g2, 0x7B, []);
    var a := pos + |g0| + 8;
    WordThen(s, a, g1, name, end);
    SymbolThen(s, a + |g1| + |name|, g2, 0x7B, []);
  }

  lemma GapNoWord(g: seq<byte>)
    requires Gaps(g) && g != []
    ensures !WordByte(g[0])
  {
  }
}
