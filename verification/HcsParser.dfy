/** The recursive-descent parser of configuration source; a parsed reference is a path. */
module HcsParser {
  import opened Bytes
  import opened HcsTree
  import opened AstHeap
  import opened HcsBuild
  import opened HcsLexer
  import opened Include

  type Path = seq<byte>
  type SourceTree = Tree<Path>

  datatype Attempt<+T> = Reject | Accept(value: T, next: nat)

  /** The narrowest width a number fits. */
  function FitWidth(v: nat): (w: nat)
    ensures w == 1 || w == 2 || w == 4 || w == 8
  {
    if v <= 0xFF then 1 else if v <= 0xFFFF then 2 else if v <= 0xFFFF_FFFF then 4 else 8
  }

  /** A 64-bit number fits its width and no narrower one. */
  lemma FitWidthIsNarrowest(v: nat)
    requires v < Pow256(8)
    ensures v < Pow256(FitWidth(v)) && (FitWidth(v) > 1 ==> v >= Pow256(FitWidth(v) / 2))
  {
    Pow256Values();
  }

  // ----- the grammar as functions of the source and a position -----

  function Retag(r: Attempt<SourceTree>, kind: NodeKind): (t: Attempt<SourceTree>)
    ensures t.Accept? <==> r.Accept?
    ensures t.Accept? ==> t.next == r.next
  {
    if r.Accept? && r.value.lab.Node? then Accept(Tree([], Node(r.value.lab.name, kind), r.value.kids), r.next) else r
  }

  function NodeOf(name: seq<byte>, kids: Attempt<seq<SourceTree>>): (r: Attempt<SourceTree>)
    ensures r.Accept? <==> kids.Accept?
    ensures r.Accept? ==> r.next == kids.next && r.value.lab.Node? && r.value.id == []
  {
    match kids
    case Reject => Reject
    case Accept(value, next) => Accept(Tree([], Node(name, NoRef), value), next)
  }

  /** A node after its name, its opening brace read or not. */
  function NodeFrom(s: seq<byte>, pos: nat, name: seq<byte>, bracesStart: bool): (r: Attempt<SourceTree>)
    requires pos <= |s|
    ensures r.Accept? ==> pos < r.next <= |s| && r.value.lab.Node? && r.value.id == []
    decreases |s| - pos, 1
  {
    if bracesStart then NodeOf(name, KidsFrom(s, pos))
    else
      match LexAt(s, pos)
      case Wrong => Reject
      case Tok(tok, p) => if tok != Symbol(OPEN_BRACE) then Reject else NodeOf(name, KidsFrom(s, p))
  }

  /** The contents of a node up to its closing brace. */
  function KidsFrom(s: seq<byte>, pos: nat): (r: Attempt<seq<SourceTree>>)
    requires pos <= |s|
    ensures r.Accept? ==> pos < r.next <= |s|
    decreases |s| - pos, 0
  {
    match LexAt(s, pos)
    case Wrong => Reject
    case Tok(tok, p) =>
      if tok == Symbol(CLOSE_BRACE) then Accept([], p)
      else if !tok.TemplateWord? && !tok.Literal? then Reject
      else
        match (if tok.TemplateWord? then TemplateFrom(s, p) else MemberFrom(s, p, tok.name))
        case Reject => Reject
        case Accept(kid, q) =>
          match KidsFrom(s, q)
          case Reject => Reject
          case Accept(kids, next) => Accept([kid] + kids, next)
  }

  function TemplateFrom(s: seq<byte>, pos: nat): (r: Attempt<SourceTree>)
    requires pos <= |s|
    ensures r.Accept? ==> pos < r.next <= |s|
    decreases |s| - pos, 2
  {
    match LexAt(s, pos)
    case Wrong => Reject
    case Tok(tok, p) => if tok.Literal? then Retag(NodeFrom(s, p, tok.name, false), Template) else Reject
  }

  /** A node or term after its name. */
  function MemberFrom(s: seq<byte>, pos: nat, name: seq<byte>): (r: Attempt<SourceTree>)
    requires pos <= |s|
    ensures r.Accept? ==> pos < r.next <= |s|
    decreases |s| - pos, 2
  {
    match LexAt(s, pos)
    case Wrong => Reject
    case Tok(tok, p) =>
      if tok == Symbol(EQUALS) then TermFrom(s, p, name)
      else if tok == Symbol(OPEN_BRACE) then NodeFrom(s, p, name, true)
      else if tok == Symbol(COLON) then RefNodeFrom(s, p, name)
      else Reject
  }

  /** A node that refers to another, after the first colon. */
  function RefNodeFrom(s: seq<byte>, pos: nat, name: seq<byte>): (r: Attempt<SourceTree>)
    requires pos <= |s|
    ensures r.Accept? ==> pos < r.next <= |s|
    decreases |s| - pos, 2
  {
    match LexAt(s, pos)
    case Wrong => Reject
    case Tok(tok, p) =>
      if tok.Literal? then Retag(NodeFrom(s, p, name, false), CopyOf(tok.name))
      else if tok.RefPath? then Retag(NodeFrom(s, p, name, false), CopyOf(tok.path))
      else if tok.DeleteWord? then Retag(NodeFrom(s, p, name, false), Delete)
      else if tok == Symbol(AMPERSAND) || tok == Symbol(COLON) then
        match PathFrom(s, p)
        case Reject => Reject
        case Accept(path, q) =>
          Retag(NodeFrom(s, q, name, false), if tok == Symbol(COLON) then Inherit(path) else RefTo(path))
      else Reject
  }

  function PathFrom(s: seq<byte>, pos: nat): (r: Attempt<Path>)
    requires pos <= |s|
    ensures r.Accept? ==> pos < r.next <= |s|
  {
    match LexAt(s, pos)
    case Wrong => Reject
    case Tok(tok, p) =>
      if tok.Literal? then Accept(tok.name, p) else if tok.RefPath? then Accept(tok.path, p) else Reject
  }

  function TermFrom(s: seq<byte>, pos: nat, name: seq<byte>): (r: Attempt<SourceTree>)
    requires pos <= |s|
    ensures r.Accept? ==> pos < r.next <= |s|
  {
    match ValueFrom(s, pos)
    case Reject => Reject
    case Accept(value, p) =>
      match LexAt(s, p)
      case Wrong => Reject
      case Tok(tok, next) => if tok == Symbol(SEMICOLON) then Accept(Tree([], Term(name), [value]), next) else Reject
  }

  function ValueFrom(s: seq<byte>, pos: nat): (r: Attempt<SourceTree>)
    requires pos <= |s|
    ensures r.Accept? ==> pos < r.next <= |s|
  {
    match LexAt(s, pos)
    case Wrong => Reject
    case Tok(tok, p) =>
      if tok.Text? || tok.Number? then Accept(Scalar(tok), p)
      else if tok == Symbol(OPEN_BRACKET) then
        match ElementsFrom(s, p, None)
        case Reject => Reject
        case Accept(elements, next) => Accept(Tree([], Arr, elements), next)
      else if tok == Symbol(AMPERSAND) then
        match PathFrom(s, p)
        case Reject => Reject
        case Accept(path, next) => Accept(Tree([], Ref(path), []), next)
      else if tok.DeleteWord? then Accept(Tree([], Del, []), p)
      else Reject
  }

  datatype ElementType = None | Texts | Numbers

  function TypeOf(tok: Token): ElementType {
    if tok.Text? then Texts else Numbers
  }

  function Scalar(tok: Token): SourceTree
    requires tok.Text? || tok.Number?
  {
    if tok.Text? then Tree([], Str(tok.text), []) else Tree([], Num(FitWidth(tok.num), tok.num), [])
  }

  /** Array elements up to the closing bracket, all strings or all numbers. */
  function ElementsFrom(s: seq<byte>, pos: nat, type0: ElementType): (r: Attempt<seq<SourceTree>>)
    requires pos <= |s|
    ensures r.Accept? ==> pos < r.next <= |s|
    decreases |s| - pos
  {
    match LexAt(s, pos)
    case Wrong => Reject
    case Tok(tok, p) =>
      if tok == Symbol(CLOSE_BRACKET) then Accept([], p)
      else if !tok.Text? && !tok.Number? then Reject
      else if type0 != None && type0 != TypeOf(tok) then Reject
      else
        match LexAt(s, p)
        case Wrong => Reject
        case Tok(sep, q) =>
          if sep == Symbol(CLOSE_BRACKET) then Accept([Scalar(tok)], q)
          else if sep != Symbol(COMMA) then Reject
          else
            match ElementsFrom(s, q, TypeOf(tok))
            case Reject => Reject
            case Accept(rest, next) => Accept([Scalar(tok)] + rest, next)
  }

  // ----- a whole file -----

  /** The includes at the top of a file, and the first token behind them. */
  datatype Heading = Heading(includes: seq<Path>, failed: bool, rest: Lexed)

  /** After `#include` was read; `absPath` gives a file's full name, or nothing if there is no such file. */
  function IncludesFrom(s: seq<byte>, pos: nat, absPath: Path -> Path, have: seq<Path>): (r: Heading)
    requires pos <= |s|
    ensures r.rest.Tok? ==> !r.failed && r.rest.next <= |s|
    decreases |s| - pos
  {
    match LexAt(s, pos)
    case Wrong => Heading(have, true, Wrong)
    case Tok(tok, p) =>
      if !tok.Text? || tok.text == [] || absPath(tok.text) == [] then Heading(have, true, Wrong) else
      var includes := have + [absPath(tok.text)];
      match LexAt(s, p)
      case Wrong => Heading(includes, false, Wrong)
      case Tok(after, q) =>
        if after == Token.Include then IncludesFrom(s, q, absPath, includes)
        else Heading(includes, false, Tok(after, q))
  }

  function HeadingFrom(s: seq<byte>, absPath: Path -> Path): (r: Heading)
    ensures r.rest.Tok? ==> r.rest.next <= |s|
  {
    match LexAt(s, 0)
    case Wrong => Heading([], false, Wrong)
    case Tok(tok, p) =>
      if tok == Token.Include then IncludesFrom(s, p, absPath, []) else Heading([], false, Tok(tok, p))
  }

  /** The root node after the includes: it must be there, and the last thing, unless there is nothing at all. */
  function RootFrom(s: seq<byte>, h: Heading): Attempt<SourceTree>
    requires h.rest.Tok? ==> h.rest.next <= |s|
  {
    if h.rest.Wrong? || h.rest.tok != Root then Reject else
    match NodeFrom(s, h.rest.next, WORD_ROOT, false)
    case Reject => Reject
    case Accept(root, next) =>
      var r := LexAt(s, next);
      if r.Tok? && r.tok == End then Accept(root, r.next) else Reject
  }

  /** What the include machinery needs to know of a file. */
  function ContentOf(s: seq<byte>, absPath: Path -> Path): Content<Path> {
    var h := HeadingFrom(s, absPath);
    Content(RootFrom(s, h).Accept?, h.includes, h.failed)
  }

  // ----- the parser with its lexer -----

  class Parser {
    const lexer: Lexer

    constructor (l: Lexer)
      ensures lexer == l
    {
      lexer := l;
    }

    method ParseNode(name: seq<byte>, bracesStart: bool)
      returns (r: Attempt<SourceTree>, o: AstObject?, ghost us: seq<Obj>)
      requires lexer.pos <= |lexer.src|
      modifies lexer`pos
      ensures r == NodeFrom(lexer.src, old(lexer.pos), name, bracesStart)
      ensures r.Accept? ==> r.next == lexer.pos <= |lexer.src| && old(lexer.pos) < lexer.pos
      ensures r.Accept? ==> MadeOne(r.value, o, us) && fresh(MadeIds(us))
      decreases |lexer.src| - lexer.pos, 1
    {
      hide LexAt, MemberFrom, TemplateFrom, KidsFrom, MadeOne, MadeIds;
      r, o, us := Reject, null, [];
      if !bracesStart {
        var ok, tok := lexer.Lex();
        if !ok || tok != Symbol(OPEN_BRACE) {
          return;
        }
      }
      r, o, us := ParseKids(name);
    }

    /** The next token, in the middle of making an object. */
    method NextToken(ghost o: AstObject, ghost lab: Label<Path>, ghost kids: seq<SourceTree>, ghost us: seq<Obj>,
                     ghost objs: set<AstObject>)
      returns (ok: bool, tok: Token)
      requires lexer.pos <= |lexer.src| && Growing(o, lab, kids, us, objs)
      modifies lexer`pos
      ensures ok == LexAt(lexer.src, old(lexer.pos)).Tok?
      ensures ok ==> LexAt(lexer.src, old(lexer.pos)) == Tok(tok, lexer.pos)
      ensures ok ==> old(lexer.pos) <= lexer.pos <= |lexer.src| && (tok != End ==> old(lexer.pos) < lexer.pos)
      ensures Growing(o, lab, kids, us, objs)
    {
      hide *;
      GrowingIs(o, lab, kids, us, objs);
      ok, tok := lexer.Lex();
    }

    /** The loop of `ParseNode`, up to the closing brace. */
    method ParseKids(name: seq<byte>) returns (r: Attempt<SourceTree>, o: AstObject?, ghost us: seq<Obj>)
      requires lexer.pos <= |lexer.src|
      modifies lexer`pos
      ensures r == NodeOf(name, KidsFrom(lexer.src, old(lexer.pos)))
      ensures r.Accept? ==> r.next == lexer.pos <= |lexer.src| && old(lexer.pos) < lexer.pos
      ensures r.Accept? ==> MadeOne(r.value, o, us) && fresh(MadeIds(us))
      decreases |lexer.src| - lexer.pos, 0
    {
      hide LexAt, MemberFrom, TemplateFrom, KidsFrom, MemberAfter, MadeOne, MadeIds, Growing;
      ghost var first := lexer.pos;
      r, o, us := Reject, null, [];
      var kids: seq<SourceTree> := [];
      var node := New<Path>(Node(name, NoRef));
      ghost var lab: Label<Path>, objs := Node(name, NoRef), {node};
      KidsStart(lexer.src, first);
      var ok, tok := NextToken(node, lab, kids, us, objs);
      BehindNone(KidsAfter(lexer.src, ok, tok, lexer.pos));
      while ok && tok != Symbol(CLOSE_BRACE)
        invariant first <= |lexer.src|
        invariant ok ==> first <= lexer.pos <= |lexer.src| && (tok != End ==> first < lexer.pos)
        invariant KidsFrom(lexer.src, first) == Behind(kids, KidsAfter(lexer.src, ok, tok, lexer.pos))
        invariant Growing(node, lab, kids, us, objs) && fresh(objs) && node in objs
        decreases ok, |lexer.src| - lexer.pos
      {
        var kid := Reject;
        if tok.TemplateWord? || tok.Literal? {
          kid, us, objs := ParseInto(tok, node, lab, kids, us, objs);
        } else {
          NoMember(lexer.src, tok, lexer.pos);
        }
        if kid.Reject? {
          return Reject, null, [];
        }
        BehindOne(kids, kid.value, KidsFrom(lexer.src, lexer.pos));
        kids := kids + [kid.value];
        KidsStart(lexer.src, lexer.pos);
        ok, tok := NextToken(node, lab, kids, us, objs);
      }
      if !ok {
        return Reject, null, [];
      }
      assert kids + [] == kids;
      r := Accept(Tree([], Node(name, NoRef), kids), lexer.pos);
      us := FinishedOne(node, r.value, us, objs);
      o := node;
    }

    /** One member of a node after its first token, linked below the node. */
    method ParseInto(tok: Token, node: AstObject, ghost lab: Label<Path>, ghost kids: seq<SourceTree>,
                     ghost us: seq<Obj>, ghost objs: set<AstObject>)
      returns (kid: Attempt<SourceTree>, ghost vs: seq<Obj>, ghost now: set<AstObject>)
      requires lexer.pos <= |lexer.src| && Growing(node, lab, kids, us, objs) && node in objs
      modifies lexer`pos, node`child, node`arraySize, objs`next
      ensures kid == MemberAfter(lexer.src, tok, old(lexer.pos))
      ensures kid.Accept? ==> kid.next == lexer.pos <= |lexer.src| && old(lexer.pos) < lexer.pos
      ensures kid.Accept? ==> Growing(node, lab, kids + [kid.value], vs, now) && objs <= now && fresh(now - objs)
      decreases |lexer.src| - lexer.pos, 4
    {
      hide *;
      GrowingIs(node, lab, kids, us, objs);
      var c;
      ghost var made;
      kid, c, made := ParseMember(tok);
      vs, now := us + made, objs + MadeIds(made);
      if kid.Accept? {
        MadeOneIs(kid.value, c, made);
        AttachOne(node, c, lab, kids, us, objs, kid.value, made);
      }
    }

    method ParseMember(tok: Token) returns (r: Attempt<SourceTree>, o: AstObject?, ghost us: seq<Obj>)
      requires lexer.pos <= |lexer.src|
      modifies lexer`pos
      ensures r == MemberAfter(lexer.src, tok, old(lexer.pos))
      ensures r.Accept? ==> r.next == lexer.pos <= |lexer.src| && old(lexer.pos) < lexer.pos
      ensures r.Accept? ==> MadeOne(r.value, o, us) && fresh(MadeIds(us))
      decreases |lexer.src| - lexer.pos, 3
    {
      hide MadeOne, MadeIds, MemberFrom, TemplateFrom;
      r, o, us := Reject, null, [];
      if tok.TemplateWord? {
        r, o, us := ParseTemplate();
      } else if tok.Literal? {
        r, o, us := ParseNodeAndTerm(tok.name);
      }
    }

    method ParseTemplate() returns (r: Attempt<SourceTree>, o: AstObject?, ghost us: seq<Obj>)
      requires lexer.pos <= |lexer.src|
      modifies lexer`pos
      ensures r == TemplateFrom(lexer.src, old(lexer.pos))
      ensures r.Accept? ==> r.next == lexer.pos <= |lexer.src| && old(lexer.pos) < lexer.pos
      ensures r.Accept? ==> MadeOne(r.value, o, us) && fresh(MadeIds(us))
      decreases |lexer.src| - lexer.pos, 2
    {
      hide LexAt, NodeFrom, MadeOne, MadeIds;
      r, o, us := Reject, null, [];
      var ok, tok := lexer.Lex();
      if !ok || !tok.Literal? {
        return;
      }
      r, o, us := ParseNode(tok.name, false);
      if r.Accept? {
        MadeOneIs(r.value, o, us);
        us := Relabel(o, Template, r.value, us);
      }
      r := Retag(r, Template);
    }

    method ParseNodeAndTerm(name: seq<byte>) returns (r: Attempt<SourceTree>, o: AstObject?, ghost us: seq<Obj>)
      requires lexer.pos <= |lexer.src|
      modifies lexer`pos
      ensures r == MemberFrom(lexer.src, old(lexer.pos), name)
      ensures r.Accept? ==> r.next == lexer.pos <= |lexer.src| && old(lexer.pos) < lexer.pos
      ensures r.Accept? ==> MadeOne(r.value, o, us) && fresh(MadeIds(us))
      decreases |lexer.src| - lexer.pos, 2
    {
      hide LexAt, NodeFrom, TermFrom, RefNodeFrom, MadeOne, MadeIds;
      r, o, us := Reject, null, [];
      var ok, tok := lexer.Lex();
      if !ok {
        return;
      }
      if tok == Symbol(EQUALS) {
        r, o, us := ParseTerm(name);
      } else if tok == Symbol(OPEN_BRACE) {
        r, o, us := ParseNode(name, true);
      } else if tok == Symbol(COLON) {
        r, o, us := ParseNodeWithRef(name);
      }
    }

    method ParseNodeWithRef(name: seq<byte>) returns (r: Attempt<SourceTree>, o: AstObject?, ghost us: seq<Obj>)
      requires lexer.pos <= |lexer.src|
      modifies lexer`pos
      ensures r == RefNodeFrom(lexer.src, old(lexer.pos), name)
      ensures r.Accept? ==> r.next == lexer.pos <= |lexer.src| && old(lexer.pos) < lexer.pos
      ensures r.Accept? ==> MadeOne(r.value, o, us) && fresh(MadeIds(us))
      decreases |lexer.src| - lexer.pos, 2
    {
      hide LexAt, NodeFrom, MadeOne, MadeIds;
      r, o, us := Reject, null, [];
      var ok, tok := lexer.Lex();
      if !ok {
        return;
      }
      var kind := NoRef;
      if tok.Literal? {
        kind := CopyOf(tok.name);
      } else if tok.RefPath? {
        kind := CopyOf(tok.path);
      } else if tok.DeleteWord? {
        kind := Delete;
      } else if tok == Symbol(AMPERSAND) || tok == Symbol(COLON) {
        var path;
        ok, path := ParsePath();
        if !ok {
          return;
        }
        kind := if tok == Symbol(COLON) then Inherit(path) else RefTo(path);
      } else {
        return;
      }
      r, o, us := ParseNode(name, false);
      if r.Accept? {
        MadeOneIs(r.value, o, us);
        us := Relabel(o, kind, r.value, us);
      }
      r := Retag(r, kind);
    }

    method ParsePath() returns (ok: bool, path: Path)
      requires lexer.pos <= |lexer.src|
      modifies lexer`pos
      ensures ok == PathFrom(lexer.src, old(lexer.pos)).Accept?
      ensures ok ==> PathFrom(lexer.src, old(lexer.pos)) == Accept(path, lexer.pos)
      ensures ok ==> old(lexer.pos) < lexer.pos <= |lexer.src|
    {
      hide LexAt;
      var tok;
      path := [];
      ok, tok := lexer.Lex();
      if !ok {
        return;
      }
      ok := tok.Literal? || tok.RefPath?;
      path := if tok.Literal? then tok.name else if tok.RefPath? then tok.path else [];
    }

    method ParseTerm(name: seq<byte>) returns (r: Attempt<SourceTree>, o: AstObject?, ghost us: seq<Obj>)
      requires lexer.pos <= |lexer.src|
      modifies lexer`pos
      ensures r == TermFrom(lexer.src, old(lexer.pos), name)
      ensures r.Accept? ==> r.next == lexer.pos <= |lexer.src| && old(lexer.pos) < lexer.pos
      ensures r.Accept? ==> MadeOne(r.value, o, us) && fresh(MadeIds(us))
    {
      hide LexAt, ValueFrom, MadeOne, MadeIds, Growing;
      r, o, us := Reject, null, [];
      var term := New<Path>(Term(name));
      var value, c, vs := ParseValue();
      if value.Reject? {
        return;
      }
      ghost var objs := MadeObjects(vs);
      assert [] + [value.value] == [value.value] && [] + vs == vs;
      MadeOneIs(value.value, c, vs);
      AttachOne(term, c, Term(name), [], [], {term}, value.value, vs);
      var ok, tok := NextToken(term, Term(name), [value.value], vs, {term} + objs);
      if !ok || tok != Symbol(SEMICOLON) {
        return;
      }
      r := Accept(Tree([], Term(name), [value.value]), lexer.pos);
      us := FinishedOne(term, r.value, vs, {term} + objs);
      o := term;
    }

    method ParseValue() returns (r: Attempt<SourceTree>, o: AstObject?, ghost us: seq<Obj>)
      requires lexer.pos <= |lexer.src|
      modifies lexer`pos
      ensures r == ValueFrom(lexer.src, old(lexer.pos))
      ensures r.Accept? ==> r.next == lexer.pos <= |lexer.src| && old(lexer.pos) < lexer.pos
      ensures r.Accept? ==> MadeOne(r.value, o, us) && fresh(MadeIds(us))
    {
      hide LexAt, ElementsFrom, PathFrom, MadeOne, MadeIds;
      r, o, us := Reject, null, [];
      var ok, tok := lexer.Lex();
      if !ok {
        return;
      }
      if tok.Text? || tok.Number? {
        r := Accept(Scalar(tok), lexer.pos);
        o, us := Leaf(r.value);
      } else if tok == Symbol(OPEN_BRACKET) {
        var elements;
        elements, o, us := ParseArray();
        if elements.Accept? {
          r := Accept(Tree([], Arr, elements.value), lexer.pos);
        }
      } else if tok == Symbol(AMPERSAND) {
        var path;
        ok, path := ParsePath();
        if ok {
          r := Accept(Tree([], Ref(path), []), lexer.pos);
          o, us := Leaf(r.value);
        }
      } else if tok.DeleteWord? {
        r := Accept(Tree([], Del, []), lexer.pos);
        o, us := Leaf(r.value);
      }
    }

    /** The elements of an array after its opening bracket, and the array's object with them. */
    method ParseArray() returns (r: Attempt<seq<SourceTree>>, o: AstObject?, ghost us: seq<Obj>)
      requires lexer.pos <= |lexer.src|
      modifies lexer`pos
      ensures r == ElementsFrom(lexer.src, old(lexer.pos), None)
      ensures r.Accept? ==> r.next == lexer.pos <= |lexer.src| && old(lexer.pos) < lexer.pos
      ensures r.Accept? ==> MadeOne(Tree([], Arr, r.value), o, us) && fresh(MadeIds(us))
    {
      hide LexAt, MadeOne, MadeIds, Growing;
      ghost var start := lexer.pos;
      r, o, us := Reject, null, [];
      var elements: seq<SourceTree> := [];
      var arr := New<Path>(Arr);
      ghost var lab: Label<Path>, objs := Arr, {arr};
      var arrayType := None;
      BehindNone(ElementsFrom(lexer.src, start, None));
      while true
        invariant start <= lexer.pos <= |lexer.src|
        invariant ElementsFrom(lexer.src, start, None) ==
                  Behind(elements, ElementsFrom(lexer.src, lexer.pos, arrayType))
        invariant Growing(arr, lab, elements, us, objs) && fresh(objs) && arr in objs
        decreases |lexer.src| - lexer.pos
      {
        var ok, tok := NextToken(arr, lab, elements, us, objs);
        if !ok {
          return Reject, null, [];
        }
        if tok == Symbol(CLOSE_BRACKET) {
          assert elements + [] == elements;
          us := FinishedOne(arr, Tree([], Arr, elements), us, objs);
          return Accept(elements, lexer.pos), arr, us;
        }
        if !tok.Text? && !tok.Number? {
          return Reject, null, [];
        }
        if arrayType == None {
          arrayType := TypeOf(tok);
        } else if arrayType != TypeOf(tok) {
          return Reject, null, [];
        }
        us, objs := AddElement(arr, tok, lab, elements, us, objs);
        elements := elements + [Scalar(tok)];
        var sep;
        ok, sep := NextToken(arr, lab, elements, us, objs);
        if !ok {
          return Reject, null, [];
        }
        if sep == Symbol(CLOSE_BRACKET) {
          us := FinishedOne(arr, Tree([], Arr, elements), us, objs);
          return Accept(elements, lexer.pos), arr, us;
        }
        if sep != Symbol(COMMA) {
          return Reject, null, [];
        }
        BehindOne(elements[..|elements| - 1], Scalar(tok), ElementsFrom(lexer.src, lexer.pos, arrayType));
        assert elements[..|elements| - 1] + [Scalar(tok)] == elements;
      }
    }

    /** Make the object of an array element and link it below the array. */
    method AddElement(arr: AstObject, tok: Token, ghost lab: Label<Path>, ghost elements: seq<SourceTree>,
                      ghost us: seq<Obj>, ghost objs: set<AstObject>)
      returns (ghost vs: seq<Obj>, ghost now: set<AstObject>)
      requires (tok.Text? || tok.Number?) && Growing(arr, lab, elements, us, objs) && arr in objs
      modifies arr`child, arr`arraySize, objs`next
      ensures Growing(arr, lab, elements + [Scalar(tok)], vs, now) && objs <= now && fresh(now - objs)
    {
      hide Growing, MadeOne, MadeIds;
      GrowingIs(arr, lab, elements, us, objs);
      var element, made := Leaf(Scalar(tok));
      MadeOneIs(Scalar(tok), element, made);
      AttachOne(arr, element, lab, elements, us, objs, Scalar(tok), made);
      vs, now := us + made, objs + MadeIds(made);
    }

    /** The includes after `#include` was read; `current` is the token behind them. */
    method ProcessInclude(absPath: Path -> Path) returns (ok: bool, errno: bool, includeList: seq<Path>, current: Token)
      requires lexer.pos <= |lexer.src|
      modifies lexer`pos
      ensures var h := IncludesFrom(lexer.src, old(lexer.pos), absPath, []);
              && includeList == h.includes && errno == h.failed && ok == h.rest.Tok?
              && (ok ==> h.rest == Tok(current, lexer.pos) && lexer.pos <= |lexer.src|)
    {
      hide LexAt;
      ghost var start := lexer.pos;
      includeList, errno := [], false;
      while true
        invariant start <= lexer.pos <= |lexer.src| && !errno
        invariant IncludesFrom(lexer.src, start, absPath, []) ==
                  IncludesFrom(lexer.src, lexer.pos, absPath, includeList)
        decreases |lexer.src| - lexer.pos
      {
        ok, current := lexer.Lex();
        if !ok || !current.Text? || current.text == [] || absPath(current.text) == [] {
          errno := true;
          ok := false;
          return;
        }
        includeList := includeList + [absPath(current.text)];
        ok, current := lexer.Lex();
        if !ok || current != Token.Include {
          return;
        }
      }
    }

    /** A whole file; a file whose root is refused still counts when it includes something. */
    method ParseOneContent(absPath: Path -> Path)
      returns (root: Attempt<SourceTree>, errno: bool, includeList: seq<Path>, o: AstObject?, ghost us: seq<Obj>)
      requires lexer.pos == 0
      modifies lexer`pos
      ensures var h := HeadingFrom(lexer.src, absPath);
              && root == RootFrom(lexer.src, h) && includeList == h.includes && errno == h.failed
      ensures ContentOf(lexer.src, absPath) == Content(root.Accept?, includeList, errno)
      ensures root.Accept? ==> MadeOne(root.value, o, us) && fresh(MadeIds(us))
    {
      hide LexAt, NodeFrom, IncludesFrom, MadeOne, MadeIds;
      root, errno, includeList, o, us := Reject, false, [], null, [];
      var ok, current := lexer.Lex();
      if !ok {
        return;
      }
      if current == Token.Include {
        ok, errno, includeList, current := ProcessInclude(absPath);
        if !ok {
          return;
        }
      }
      if current == Root {
        root, o, us := ParseNode(WORD_ROOT, false);
        if root.Reject? {
          return;
        }
        ghost var objs := MadeObjects(us);
        ok, current := lexer.Lex();
        root := if ok && current == End then Accept(root.value, lexer.pos) else Reject;
      }
    }
  }

  /** A member of a node after its first token. */
  function MemberAfter(s: seq<byte>, tok: Token, pos: nat): (r: Attempt<SourceTree>)
    requires pos <= |s|
    ensures r.Accept? ==> pos < r.next <= |s|
  {
    if tok.TemplateWord? then TemplateFrom(s, pos)
    else if tok.Literal? then MemberFrom(s, pos, tok.name)
    else Reject
  }

  lemma NoMember(s: seq<byte>, tok: Token, pos: nat)
    requires pos <= |s| && !tok.TemplateWord? && !tok.Literal?
    ensures MemberAfter(s, tok, pos) == Reject
  {
  }

  /** A node's contents after a token of them was read. */
  function KidsAfter(s: seq<byte>, ok: bool, tok: Token, pos: nat): Attempt<seq<SourceTree>>
    requires ok ==> pos <= |s|
  {
    if !ok then Reject
    else if tok == Symbol(CLOSE_BRACE) then Accept([], pos)
    else
      match MemberAfter(s, tok, pos)
      case Reject => Reject
      case Accept(kid, q) => Behind([kid], KidsFrom(s, q))
  }

  lemma KidsStart(s: seq<byte>, pos: nat)
    requires pos <= |s|
    ensures var r := LexAt(s, pos);
            KidsFrom(s, pos) == if r.Wrong? then Reject else KidsAfter(s, true, r.tok, r.next)
  {
    hide LexAt, MemberFrom, TemplateFrom;
  }

  function Behind<T>(have: seq<T>, rest: Attempt<seq<T>>): Attempt<seq<T>> {
    match rest
    case Reject => Reject
    case Accept(more, next) => Accept(have + more, next)
  }

  lemma BehindNone<T>(rest: Attempt<seq<T>>)
    ensures Behind([], rest) == rest
  {
    if rest.Accept? {
      assert [] + rest.value == rest.value;
    }
  }

  lemma BehindOne<T>(have: seq<T>, one: T, rest: Attempt<seq<T>>)
    ensures Behind(have, Behind([one], rest)) == Behind(have + [one], rest)
  {
    if rest.Accept? {
      assert have + ([one] + rest.value) == (have + [one]) + rest.value;
    }
  }
}
