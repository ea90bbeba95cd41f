/** Words, symbols, strings and comments of a source, byte by byte. */
module HcsWords {
  import opened Bytes
  import opened HcsLexer
  import opened HcsText
  import opened HcsNumbers

  // ----- words and symbols -----

  /** What a word means: a truth value, a keyword, a path with dots, or a name. */
  function Meaning(w: seq<byte>): Token {
    if w == Ascii("true") then Number(1)
    else if w == Ascii("false") then Number(0)
    else if w == Ascii("root") then Root
    else if w == Ascii("delete") then DeleteWord
    else if w == Ascii("template") then TemplateWord
    else if '.' as int in w then RefPath(w)
    else Literal(w)
  }

  lemma MeaningIs(w: seq<byte>)
    ensures WordToken(w) == Meaning(w)
  {
    assert Ascii("true") == WORD_TRUE && Ascii("false") == WORD_FALSE && Ascii("root") == WORD_ROOT;
    assert Ascii("delete") == WORD_DELETE && Ascii("template") == WORD_TEMPLATE;
  }

  lemma {:induction false} WordRun(s: seq<byte>, pos: nat, w: seq<byte>)
    requires pos + |w| <= |s| && s[pos..pos + |w|] == w && forall i :: 0 <= i < |w| ==> WordByte(w[i])
    requires pos + |w| < |s| ==> !WordByte(s[pos + |w|])
    ensures LiteralEnd(s, pos) == pos + |w|
    decreases |w|
  {
    if w == [] {
    } else {
      assert s[pos] == s[pos..pos + |w|][0];
      assert s[pos + 1..pos + |w|] == w[1..];
      WordRun(s, pos + 1, w[1..]);
    }
  }

  /** Letters, digits, underscores, dots and backslashes behind a letter, as many as there are, make a word. */
  lemma LexMeaning(s: seq<byte>, pos: nat, b: seq<byte>, w: seq<byte>)
    requires At(s, pos, b + w) && Gaps(b) && w != [] && Letter(w[0]) && forall i :: 0 <= i < |w| ==> WordByte(w[i])
    requires var p := pos + |b| + |w|; p < |s| ==> !WordByte(s[p])
    ensures pos <= |s| && LexAt(s, pos) == Tok(Meaning(w), pos + |b| + |w|)
  {
    hide SkipBlank, LiteralEnd, WordToken, Meaning;
    FirstByte(s, pos, b, w);
    WordRun(s, pos + |b|, w);
    MeaningIs(w);
  }

  /** Behind `#` only the one word is allowed. */
  lemma LexHashWord(s: seq<byte>, pos: nat, b: seq<byte>, w: seq<byte>)
    requires At(s, pos, b + ([0x23] + w)) && Gaps(b) && forall i :: 0 <= i < |w| ==> WordByte(w[i])
    requires var p := pos + |b| + 1 + |w|; p < |s| ==> !WordByte(s[p])
    ensures pos <= |s|
    ensures LexAt(s, pos) == if w == Ascii("include") then Tok(Token.Include, pos + |b| + 1 + |w|) else Wrong
  {
    hide SkipBlank, LiteralEnd;
    FirstByte(s, pos, b, [0x23] + w);
    assert ([0x23] + w)[1..] == w;
    WordRun(s, pos + |b| + 1, w);
    assert Ascii("include") == WORD_INCLUDE;
  }

  /** A symbol, the end of the input, or a byte that starts nothing. */
  lemma LexSingle(s: seq<byte>, pos: nat, b: seq<byte>, c: byte)
    requires At(s, pos, b + [c]) && Gaps(b) && !Gap(c) && !Letter(c) && !Decimal(c) && c !in Ascii("#/\"+-")
    ensures pos <= |s|
    ensures LexAt(s, pos) ==
            if c in Ascii(";,[]{}=&:") then Tok(Symbol(c), pos + |b| + 1)
            else if c == 0xFF then Tok(End, pos + |b|)
            else Wrong
  {
    FirstByte(s, pos, b, [c]);
    hide SkipBlank;
    assert Ascii(";,[]{}=&:") == [SEMICOLON, COMMA, OPEN_BRACKET, CLOSE_BRACKET, OPEN_BRACE, CLOSE_BRACE, EQUALS,
                                  AMPERSAND, COLON];
    assert Ascii("#/\"+-") == [HASH, SLASH, QUOTE, PLUS, MINUS];
    hide Ascii;
  }

  lemma LexEnd(s: seq<byte>, pos: nat, b: seq<byte>)
    requires pos <= |s| && s[pos..] == b && Gaps(b)
    ensures LexAt(s, pos) == Tok(End, |s|)
  {
    GapsToEnd(s, pos, b);
  }

  // ----- strings -----

  /** A text as it is written in a string: each quote behind a backslash. */
  function Escape(text: seq<byte>): seq<byte> {
    if text == [] then []
    else (if text[0] == 0x22 then [0x5C, 0x22] else [text[0]]) + Escape(text[1..])
  }

  /** No backslash, and no byte that ends the input. */
  predicate Writable(text: seq<byte>) {
    forall i :: 0 <= i < |text| ==> text[i] != 0x5C && text[i] != 0xFF
  }

  /** Reading an escaped text adds the text to what has been read of the string. */
  lemma {:induction false} EscapeReads(s: seq<byte>, pos: nat, text: seq<byte>, have: seq<byte>)
    requires pos + |Escape(text)| <= |s| && s[pos..pos + |Escape(text)|] == Escape(text) && Writable(text)
    ensures StringBody(s, pos, have) == StringBody(s, pos + |Escape(text)|, have + text)
    decreases |text|
  {
    var e := Escape(text);
    if text == [] {
      assert have + text == have;
    } else {
      var n := if text[0] == 0x22 then 2 else 1;
      assert e[n..] == Escape(text[1..]);
      assert s[pos + n..pos + |e|] == s[pos..pos + |e|][n..];
      assert s[pos] == s[pos..pos + |e|][0] == e[0];
      if n == 2 {
        assert s[pos + 1] == s[pos..pos + |e|][1] == e[1];
      }
      assert (have + [text[0]]) + text[1..] == have + text;
      EscapeReads(s, pos + n, text[1..], have + [text[0]]);
    }
  }

  lemma StringStarts(s: seq<byte>, pos: nat, b: seq<byte>, text: seq<byte>, more: seq<byte>)
    requires At(s, pos, b + ([0x22] + (Escape(text) + more))) && Gaps(b) && Writable(text)
    ensures var p := pos + |b| + 1 + |Escape(text)|;
            && p + |more| <= |s| && s[p..p + |more|] == more
            && LexAt(s, pos) == StringBody(s, p, text)
  {
    hide SkipBlank, StringBody, Escape, Writable;
    var rest := Escape(text) + more;
    FirstByte(s, pos, b, [0x22] + rest);
    assert ([0x22] + rest)[1..] == rest;
    AtSplit(s, pos + |b| + 1, Escape(text), more);
    EscapeReads(s, pos + |b| + 1, text, []);
    assert [] + text == text;
  }

  /** A string is its text, escaped quotes and line ends included. */
  lemma LexString(s: seq<byte>, pos: nat, b: seq<byte>, text: seq<byte>)
    requires At(s, pos, b + ([0x22] + (Escape(text) + [0x22]))) && Gaps(b) && Writable(text)
    ensures pos <= |s| && LexAt(s, pos) == Tok(Text(text), pos + |b| + |Escape(text)| + 2)
  {
    hide LexAt, Escape;
    StringStarts(s, pos, b, text, [0x22]);
    var p := pos + |b| + 1 + |Escape(text)|;
    assert s[p] == s[p..p + 1][0];
  }

  /** A backslash before anything but a quote is an error. */
  lemma LexBadEscape(s: seq<byte>, pos: nat, b: seq<byte>, text: seq<byte>, c: byte)
    requires At(s, pos, b + ([0x22] + (Escape(text) + [0x5C, c]))) && Gaps(b) && Writable(text) && c != 0x22
    ensures pos <= |s| && LexAt(s, pos) == Wrong
  {
    hide LexAt, Escape;
    StringStarts(s, pos, b, text, [0x5C, c]);
    var p := pos + |b| + 1 + |Escape(text)|;
    assert s[p] == s[p..p + 2][0] && s[p + 1] == s[p..p + 2][1];
  }

  /** So is a string that is not closed. */
  lemma LexOpenString(s: seq<byte>, pos: nat, b: seq<byte>, text: seq<byte>)
    requires At(s, pos, b + ([0x22] + Escape(text))) && Gaps(b) && Writable(text)
    requires var p := pos + |b| + 1 + |Escape(text)|; p == |s| || (p < |s| && s[p] == 0xFF)
    ensures pos <= |s| && LexAt(s, pos) == Wrong
  {
    hide LexAt, Escape;
    assert Escape(text) + [] == Escape(text);
    StringStarts(s, pos, b, text, []);
  }

  // ----- comments -----

  lemma CommentAt(s: seq<byte>, pos: nat, b: seq<byte>, c: byte, rest: seq<byte>)
    requires At(s, pos, b + ([0x2F, c] + rest)) && Gaps(b) && (c == 0x2F || c == 0x2A)
    ensures var p := pos + |b| + 2;
            && p + |rest| <= |s| && s[p..p + |rest|] == rest
            && ProcessComment(s, p - 2) == (if c == 0x2F then Tok(End, LineComment(s, p, c)) else BlockComment(s, p))
            && LexAt(s, pos) ==
               if ProcessComment(s, p - 2).Wrong? then Wrong else LexAt(s, ProcessComment(s, p - 2).next)
  {
    hide SkipBlank, LineComment, BlockComment;
    var w := [0x2F, c] + rest;
    FirstByte(s, pos, b, w);
    var p := pos + |b| + 2;
    assert s[p - 2..p + |rest|] == w;
    assert s[p - 1] == s[p - 2..p + |rest|][1] == c;
    assert s[p..p + |rest|] == s[p - 2..p + |rest|][2..];
    hide ProcessComment;
    CommentKind(s, p - 2, c);
    AfterComment(s, pos, p - 2);
  }

  lemma CommentKind(s: seq<byte>, p: nat, c: byte)
    requires p + 2 <= |s| && s[p + 1] == c && (c == 0x2F || c == 0x2A)
    ensures ProcessComment(s, p) == if c == 0x2F then Tok(End, LineComment(s, p + 2, c)) else BlockComment(s, p + 2)
  {
    hide LineComment, BlockComment;
    assert SkipSpaces(s, p + 1) == p + 1;
  }

  lemma AfterComment(s: seq<byte>, pos: nat, p: nat)
    requires pos <= p < |s| && SkipBlank(s, pos) == p && s[p] == 0x2F
    ensures LexAt(s, pos) == if ProcessComment(s, p).Wrong? then Wrong else LexAt(s, ProcessComment(s, p).next)
  {
    hide SkipBlank, ProcessComment;
  }

  lemma {:induction false} LineEnds(s: seq<byte>, pos: nat, text: seq<byte>, c: byte)
    requires pos + |text| < |s| && s[pos..pos + |text|] == text && s[pos + |text|] == 0x0A && c != 0x0A
    requires forall i :: 0 <= i < |text| ==> text[i] != 0x0A && text[i] != 0xFF
    ensures LineComment(s, pos, c) == pos + |text| + 1
    decreases |text|
  {
    if text == [] {
    } else {
      assert s[pos] == s[pos..pos + |text|][0];
      assert s[pos + 1..pos + |text|] == text[1..];
      LineEnds(s, pos + 1, text[1..], c);
      if IsSpace(s[pos]) {
        assert GetChar(s, pos, true) == GetChar(s, pos + 1, true);
      } else {
        LineEnds(s, pos + 1, text[1..], s[pos]);
      }
    }
  }

  /** What stands behind two slashes up to the end of the line is no part of the source. */
  lemma LexLineComment(s: seq<byte>, pos: nat, b: seq<byte>, text: seq<byte>)
    requires At(s, pos, b + ([0x2F, 0x2F] + (text + [0x0A]))) && Gaps(b)
    requires forall i :: 0 <= i < |text| ==> text[i] != 0x0A && text[i] != 0xFF
    ensures var p := pos + |b| + |text| + 3; p <= |s| && LexAt(s, pos) == LexAt(s, p)
  {
    hide LexAt, ProcessComment;
    CommentAt(s, pos, b, 0x2F, text + [0x0A]);
    var p := pos + |b| + 2;
    assert s[p..p + |text|] == s[p..p + |text| + 1][..|text|] == text;
    assert s[p + |text|] == s[p..p + |text| + 1][|text|];
    LineEnds(s, p, text, 0x2F);
  }

  /** Text without a star does not end a block comment. */
  lemma {:induction false} BlockGoesOn(s: seq<byte>, pos: nat, text: seq<byte>)
    requires pos + |text| <= |s| && s[pos..pos + |text|] == text
    requires forall i :: 0 <= i < |text| ==> text[i] != 0x2A && text[i] != 0xFF
    ensures BlockComment(s, pos) == BlockComment(s, pos + |text|)
    decreases |text|
  {
    if text == [] {
    } else {
      assert s[pos] == s[pos..pos + |text|][0];
      assert s[pos + 1..pos + |text|] == text[1..];
      BlockGoesOn(s, pos + 1, text[1..]);
      if IsSpace(s[pos]) {
        assert GetChar(s, pos, true) == GetChar(s, pos + 1, true);
      }
    }
  }

  lemma Star(s: seq<byte>, p: nat)
    requires p + 2 <= |s| && s[p] == 0x2A && (s[p + 1] == 0x2A || s[p + 1] == 0x2F)
    ensures BlockComment(s, p) == if s[p + 1] == 0x2F then Tok(End, p + 2) else BlockComment(s, p + 2)
  {
    assert SkipSpaces(s, p) == p && SkipSpaces(s, p + 1) == p + 1;
  }

  /** A comment between slash and star and star and slash is no part of the source. */
  lemma LexBlockComment(s: seq<byte>, pos: nat, b: seq<byte>, text: seq<byte>)
    requires At(s, pos, b + ([0x2F, 0x2A] + (text + [0x2A, 0x2F]))) && Gaps(b)
    requires forall i :: 0 <= i < |text| ==> text[i] != 0x2A && text[i] != 0xFF
    ensures var p := pos + |b| + |text| + 4; p <= |s| && LexAt(s, pos) == LexAt(s, p)
  {
    hide *;
    CommentAt(s, pos, b, 0x2A, text + [0x2A, 0x2F]);
    var p := pos + |b| + 2;
    Behind(s, p, text, [0x2A, 0x2F]);
    BlockGoesOn(s, p, text);
    Star(s, p + |text|);
  }

  lemma Behind(s: seq<byte>, p: nat, text: seq<byte>, more: seq<byte>)
    requires p + |text + more| <= |s| && s[p..p + |text + more|] == text + more
    ensures s[p..p + |text|] == text && s[p + |text|..p + |text| + |more|] == more
    ensures forall i :: 0 <= i < |more| ==> s[p + |text| + i] == more[i]
  {
    AtSplit(s, p, text, more);
    var q := p + |text|;
    forall i | 0 <= i < |more| ensures s[q + i] == more[i] {
      assert s[q..q + |more|][i] == s[q + i];
    }
  }

  /** The byte behind a star is used up with it: two stars and a slash do not end a comment, a later end does. */
  lemma LexTwoStars(s: seq<byte>, pos: nat, b: seq<byte>, text: seq<byte>, more: seq<byte>)
    requires At(s, pos, b + ([0x2F, 0x2A] + (text + ([0x2A, 0x2A, 0x2F] + (more + [0x2A, 0x2F]))))) && Gaps(b)
    requires forall i :: 0 <= i < |text| ==> text[i] != 0x2A && text[i] != 0xFF
    requires forall i :: 0 <= i < |more| ==> more[i] != 0x2A && more[i] != 0xFF
    ensures var p := pos + |b| + |text| + |more| + 7; p <= |s| && LexAt(s, pos) == LexAt(s, p)
  {
    hide *;
    var rest := more + [0x2A, 0x2F];
    CommentAt(s, pos, b, 0x2A, text + ([0x2A, 0x2A, 0x2F] + rest));
    var p := pos + |b| + 2;
    Behind(s, p, text, [0x2A, 0x2A, 0x2F] + rest);
    BlockGoesOn(s, p, text);
    TwoStarsGoOn(s, p + |text|, more);
  }

  lemma TwoStarsGoOn(s: seq<byte>, p: nat, more: seq<byte>)
    requires var w := [0x2A, 0x2A, 0x2F] + (more + [0x2A, 0x2F]); p + |w| <= |s| && s[p..p + |w|] == w
    requires forall i :: 0 <= i < |more| ==> more[i] != 0x2A && more[i] != 0xFF
    ensures p + 5 + |more| <= |s| && BlockComment(s, p) == Tok(End, p + 5 + |more|)
  {
    hide *;
    Behind(s, p, [0x2A, 0x2A, 0x2F], more + [0x2A, 0x2F]);
    Behind(s, p + 3, more, [0x2A, 0x2F]);
    Star(s, p);
    BlockGoesOn(s, p + 2, [0x2F]);
    BlockGoesOn(s, p + 3, more);
    Star(s, p + 3 + |more|);
  }

  /** A block comment that is not closed is an error. */
  lemma LexOpenComment(s: seq<byte>, pos: nat, b: seq<byte>, text: seq<byte>)
    requires At(s, pos, b + ([0x2F, 0x2A] + text)) && Gaps(b)
    requires forall i :: 0 <= i < |text| ==> text[i] != 0x2A && text[i] != 0xFF
    requires var p := pos + |b| + 2 + |text|; p == |s| || (p < |s| && s[p] == 0xFF)
    ensures pos <= |s| && LexAt(s, pos) == Wrong
  {
    hide LexAt, ProcessComment, SkipBlank;
    CommentAt(s, pos, b, 0x2A, text);
    var p := pos + |b| + 2;
    BlockGoesOn(s, p, text);
  }

  /** A slash that starts no comment is an error. */
  lemma LexSlash(s: seq<byte>, pos: nat, b: seq<byte>, c: byte)
    requires At(s, pos, b + ([0x2F] + [c])) && Gaps(b) && c !in Ascii("/* \t\r")
    ensures pos <= |s| && LexAt(s, pos) == Wrong
  {
    hide SkipBlank;
    FirstByte(s, pos, b, [0x2F] + [c]);
    assert Ascii("/* \t\r") == [0x2F, 0x2A, 0x20, 0x09, 0x0D];
    var p := pos + |b|;
    assert ([0x2F] + [c])[1..] == [c];
    assert s[p + 1] == s[p + 1..p + 2][0];
    SlashAlone(s, p);
    AfterComment(s, pos, p);
  }

  lemma SlashAlone(s: seq<byte>, p: nat)
    requires p + 1 < |s| && s[p + 1] != 0x2F && s[p + 1] != 0x2A && !IsSpace(s[p + 1])
    ensures ProcessComment(s, p) == Wrong
  {
    assert SkipSpaces(s, p + 1) == p + 1;
  }
}
