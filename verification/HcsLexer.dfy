/**
 The lexer of configuration source: one buffer, a cursor, and tokens. Bytes of value 255 count as
 the end of the input wherever a single character is read.
 */
module HcsLexer {
  import opened Bytes

  datatype Token =
    | End
    | Symbol(c: byte)
    | Number(num: nat)
    | Text(text: seq<byte>)
    | Literal(name: seq<byte>)
    | RefPath(path: seq<byte>)
    | Root
    | Include
    | DeleteWord
    | TemplateWord

  datatype Lexed = Wrong | Tok(tok: Token, next: nat)

  const BUFFER_SIZE: nat := 1024 * 1024
  const EOF: byte := 0xFF

  const NEWLINE: byte := 0x0A
  const QUOTE: byte := 0x22
  const HASH: byte := 0x23
  const AMPERSAND: byte := 0x26
  const STAR: byte := 0x2A
  const PLUS: byte := 0x2B
  const COMMA: byte := 0x2C
  const MINUS: byte := 0x2D
  const SLASH: byte := 0x2F
  const COLON: byte := 0x3A
  const SEMICOLON: byte := 0x3B
  const EQUALS: byte := 0x3D
  const OPEN_BRACKET: byte := 0x5B
  const BACKSLASH: byte := 0x5C
  const CLOSE_BRACKET: byte := 0x5D
  const OPEN_BRACE: byte := 0x7B
  const CLOSE_BRACE: byte := 0x7D

  const WORD_ROOT: seq<byte> := [0x72, 0x6F, 0x6F, 0x74]
  const WORD_DELETE: seq<byte> := [0x64, 0x65, 0x6C, 0x65, 0x74, 0x65]
  const WORD_TEMPLATE: seq<byte> := [0x74, 0x65, 0x6D, 0x70, 0x6C, 0x61, 0x74, 0x65]
  const WORD_TRUE: seq<byte> := [0x74, 0x72, 0x75, 0x65]
  const WORD_FALSE: seq<byte> := [0x66, 0x61, 0x6C, 0x73, 0x65]
  const WORD_INCLUDE: seq<byte> := [0x69, 0x6E, 0x63, 0x6C, 0x75, 0x64, 0x65]

  predicate IsSpace(c: byte) {
    c == 0x20 || c == 0x09 || c == 0x0D
  }

  predicate IsBlank(c: byte) {
    IsSpace(c) || c == NEWLINE
  }

  predicate IsNum(c: byte) {
    0x30 <= c <= 0x39
  }

  predicate IsAlpha(c: byte) {
    0x41 <= c <= 0x5A || 0x61 <= c <= 0x7A
  }

  /** Characters of a literal: letters, digits, underscore, dot and backslash. */
  predicate InLiteral(c: byte) {
    IsAlpha(c) || IsNum(c) || c == 0x5F || c == 0x2E || c == BACKSLASH
  }

  predicate IsHex(c: byte) {
    IsNum(c) || 0x41 <= c <= 0x46 || 0x61 <= c <= 0x66
  }

  predicate IsBit(c: byte) {
    c == 0x30 || c == 0x31
  }

  predicate IsSymbol(c: byte) {
    c == SEMICOLON || c == COMMA || c == OPEN_BRACKET || c == CLOSE_BRACKET || c == OPEN_BRACE
    || c == CLOSE_BRACE || c == EQUALS || c == AMPERSAND || c == COLON
  }

  // ----- reading numbers out of digits -----

  function Digit(c: byte): nat {
    if IsNum(c) then c - 0x30
    else if 0x41 <= c <= 0x5A then c - 0x41 + 10
    else if 0x61 <= c <= 0x7A then c - 0x61 + 10
    else 99
  }

  /** The value of the digits up to the first that is none in this base. */
  function DigitsValue(d: seq<byte>, radix: nat, acc: nat): nat
    decreases |d|
  {
    if d == [] || Digit(d[0]) >= radix then acc
    else DigitsValue(d[1..], radix, acc * radix + Digit(d[0]))
  }

  /** A signed 64-bit conversion, as the bit pattern of its result; none outside the range. */
  function ToLongLong(negative: bool, magnitude: nat): Lexed {
    if magnitude < 0x8000_0000_0000_0000 then
      Tok(Number(if negative then (0x1_0000_0000_0000_0000 - magnitude) % 0x1_0000_0000_0000_0000 else magnitude), 0)
    else if negative && magnitude == 0x8000_0000_0000_0000 then Tok(Number(magnitude), 0)
    else Wrong
  }

  // ----- the lexer as functions of the source and a position -----

  /** Past spaces and line ends. */
  function SkipBlank(s: seq<byte>, pos: nat): (r: nat)
    requires pos <= |s|
    ensures pos <= r <= |s| && (r < |s| ==> !IsBlank(s[r]))
    ensures forall i :: pos <= i < r ==> IsBlank(s[i])
    decreases |s| - pos
  {
    if pos < |s| && IsBlank(s[pos]) then SkipBlank(s, pos + 1) else pos
  }

  /** Past spaces only. */
  function SkipSpaces(s: seq<byte>, pos: nat): (r: nat)
    requires pos <= |s|
    ensures pos <= r <= |s|
    decreases |s| - pos
  {
    if pos < |s| && IsSpace(s[pos]) then SkipSpaces(s, pos + 1) else pos
  }

  /** One character, possibly after spaces; at the end of the source it is the end mark. */
  function GetChar(s: seq<byte>, pos: nat, skip: bool): (r: (byte, nat))
    requires pos <= |s|
    ensures pos <= r.1 <= |s| && (r.0 != EOF ==> pos < r.1)
  {
    var p := if skip then SkipSpaces(s, pos) else pos;
    if p < |s| then (s[p], p + 1) else (EOF, p)
  }

  /** To the end of a `//` comment, `c` being the last character read. */
  function LineComment(s: seq<byte>, pos: nat, c: byte): (r: nat)
    requires pos <= |s|
    ensures pos <= r <= |s|
    decreases |s| - pos
  {
    if c == NEWLINE then pos else
    var g := GetChar(s, pos, true);
    if g.0 == EOF then g.1 else LineComment(s, g.1, g.0)
  }

  /** To the end of a block comment; a failure when there is none. */
  function BlockComment(s: seq<byte>, pos: nat): (r: Lexed)
    requires pos <= |s|
    ensures r.Tok? ==> pos <= r.next <= |s|
    decreases |s| - pos
  {
    var g := GetChar(s, pos, true);
    if g.0 == EOF then Wrong
    else if g.0 != STAR then BlockComment(s, g.1)
    else
      var h := GetChar(s, g.1, true);
      if h.0 == SLASH then Tok(End, h.1) else BlockComment(s, h.1)
  }

  function ProcessComment(s: seq<byte>, pos: nat): (r: Lexed)
    requires pos < |s|
    ensures r.Tok? ==> pos < r.next <= |s|
  {
    var g := GetChar(s, pos + 1, true);
    if g.0 == SLASH then Tok(End, LineComment(s, g.1, g.0))
    else if g.0 == STAR then BlockComment(s, g.1)
    else Wrong
  }

  /** The end of a run of literal characters. */
  function LiteralEnd(s: seq<byte>, pos: nat): (r: nat)
    requires pos <= |s|
    ensures pos <= r <= |s|
    decreases |s| - pos
  {
    if pos < |s| && InLiteral(s[pos]) then LiteralEnd(s, pos + 1) else pos
  }

  /** What a run of literal characters means. */
  function WordToken(w: seq<byte>): Token {
    if w == WORD_TRUE then Number(1)
    else if w == WORD_FALSE then Number(0)
    else if w == WORD_ROOT then Root
    else if w == WORD_DELETE then DeleteWord
    else if w == WORD_TEMPLATE then TemplateWord
    else if 0x2E in w then RefPath(w)
    else Literal(w)
  }

  function LexLiteral(s: seq<byte>, pos: nat): (r: Lexed)
    requires pos < |s| && InLiteral(s[pos])
    ensures r.Tok? && pos < r.next <= |s| && r.tok != End
  {
    var end := LiteralEnd(s, pos);
    Tok(WordToken(s[pos..end]), end)
  }

  function LexInclude(s: seq<byte>, pos: nat): (r: Lexed)
    requires pos < |s|
    ensures r.Tok? ==> pos < r.next <= |s|
  {
    var end := LiteralEnd(s, pos + 1);
    if s[pos + 1..end] == WORD_INCLUDE then Tok(Include, end) else Wrong
  }

  /** The rest of a string after its opening quote. */
  function StringBody(s: seq<byte>, pos: nat, have: seq<byte>): (r: Lexed)
    requires pos <= |s|
    ensures r.Tok? ==> pos < r.next <= |s| && r.tok != End
    decreases |s| - pos
  {
    var g := GetChar(s, pos, false);
    if g.0 == EOF then Wrong
    else if g.0 == QUOTE then Tok(Text(have), g.1)
    else if g.0 == BACKSLASH then
      var h := GetChar(s, g.1, false);
      if h.0 == QUOTE then StringBody(s, h.1, have + [QUOTE]) else Wrong
    else StringBody(s, g.1, have + [g.0])
  }

  /** A run of characters of a kind, with nothing between them. */
  function RunEnd(s: seq<byte>, pos: nat, kind: byte -> bool): (r: nat)
    requires pos <= |s|
    ensures pos <= r <= |s|
    decreases |s| - pos
  {
    if pos < |s| && kind(s[pos]) then RunEnd(s, pos + 1, kind) else pos
  }

  /** Decimal digits, with blanks allowed between them. */
  function SpacedDigits(s: seq<byte>, pos: nat, have: seq<byte>): (r: (seq<byte>, nat))
    requires pos <= |s|
    ensures pos <= r.1 <= |s|
    decreases |s| - pos
  {
    var p := SkipBlank(s, pos);
    if p < |s| && IsNum(s[p]) then SpacedDigits(s, p + 1, have + [s[p]]) else (have, p)
  }

  function At64(r: Lexed, next: nat): (t: Lexed)
    requires r.Tok? ==> r.tok.Number?
    ensures t.Tok? <==> r.Tok?
    ensures t.Tok? ==> t.tok.Number? && t.next == next
  {
    if r.Wrong? then Wrong else Tok(r.tok, next)
  }

  /** A number, its first character a digit or a sign. */
  function LexNumber(s: seq<byte>, pos: nat): (r: Lexed)
    requires pos < |s|
    ensures r.Tok? ==> pos < r.next <= |s| && r.tok.Number?
  {
    if s[pos] == 0x30 then
      var p := SkipBlank(s, pos + 1);
      if p == |s| then Tok(Number(0), p)
      else if IsNum(s[p]) then
        var d := SpacedDigits(s, p, []);
        At64(ToLongLong(false, DigitsValue(d.0, 8, 0)), d.1)
      else if s[p] == 0x78 || s[p] == 0x58 then
        var end := RunEnd(s, p + 1, IsHex);
        At64(ToLongLong(false, DigitsValue(s[p + 1..end], 16, 0)), end)
      else if s[p] == 0x62 then
        var end := RunEnd(s, p + 1, IsBit);
        At64(ToLongLong(false, DigitsValue(s[p + 1..end], 2, 0)), end)
      else Tok(Number(0), p)
    else
      var signed := s[pos] == PLUS || s[pos] == MINUS;
      var d := SpacedDigits(s, pos + 1, if signed then [] else [s[pos]]);
      At64(ToLongLong(s[pos] == MINUS, DigitsValue(d.0, 10, 0)), d.1)
  }

  function LexAt(s: seq<byte>, pos: nat): (r: Lexed)
    requires pos <= |s|
    ensures r.Tok? ==> pos <= r.next <= |s| && (r.tok != End ==> pos < r.next)
    decreases |s| - pos
  {
    var p := SkipBlank(s, pos);
    if p == |s| then Tok(End, p)
    else if s[p] == HASH then LexInclude(s, p)
    else if IsAlpha(s[p]) then LexLiteral(s, p)
    else if IsNum(s[p]) then LexNumber(s, p)
    else if s[p] == SLASH then
      var r := ProcessComment(s, p);
      if r.Wrong? then Wrong else LexAt(s, r.next)
    else if IsSymbol(s[p]) then Tok(Symbol(s[p]), p + 1)
    else if s[p] == QUOTE then StringBody(s, p + 1, [])
    else if s[p] == PLUS || s[p] == MINUS then LexNumber(s, p)
    else if s[p] == EOF then Tok(End, p)
    else Wrong
  }

  // ----- the lexer with its cursor -----

  class Lexer {
    const src: seq<byte>
    var pos: nat

    constructor (s: seq<byte>)
      requires |s| <= BUFFER_SIZE
      ensures src == s && pos == 0
    {
      src, pos := s, 0;
    }

    method TakeChar(skip: bool) returns (ok: bool, c: byte)
      requires pos <= |src|
      modifies this`pos
      ensures (c, pos) == GetChar(src, old(pos), skip) && old(pos) <= pos <= |src|
      ensures ok <==> c != EOF
      ensures ok ==> old(pos) < pos
    {
      if skip {
        while pos < |src| && IsSpace(src[pos])
          invariant old(pos) <= pos <= |src| && SkipSpaces(src, old(pos)) == SkipSpaces(src, pos)
          decreases |src| - pos
        {
          pos := pos + 1;
        }
      }
      if pos < |src| {
        c := src[pos];
        pos := pos + 1;
      } else {
        c := EOF;
      }
      ok := c != EOF;
    }

    method Peek(skip: bool) returns (ok: bool, c: byte)
      requires pos <= |src|
      modifies this`pos
      ensures pos == if skip then SkipBlank(src, old(pos)) else old(pos)
      ensures pos <= |src| && (ok <==> pos < |src|) && (ok ==> c == src[pos])
    {
      if skip {
        while pos < |src| && IsBlank(src[pos])
          invariant old(pos) <= pos <= |src| && SkipBlank(src, old(pos)) == SkipBlank(src, pos)
          decreases |src| - pos
        {
          pos := pos + 1;
        }
      }
      ok := pos < |src|;
      c := if ok then src[pos] else EOF;
    }

    /** Skip a comment; the cursor is on its first slash. */
    method SkipComment() returns (ok: bool)
      requires pos < |src|
      modifies this`pos
      ensures ok == ProcessComment(src, old(pos)).Tok?
      ensures ok ==> pos == ProcessComment(src, old(pos)).next && old(pos) < pos <= |src|
    {
      hide SkipSpaces;
      ghost var start := pos;
      var c;
      ok, c := TakeChar(false);
      ok, c := TakeChar(true);
      if !ok {
        return;
      }
      if c == SLASH {
        ghost var first := pos;
        while c != NEWLINE
          invariant start < pos <= |src| && ok
          invariant LineComment(src, pos, c) == LineComment(src, first, SLASH)
          decreases |src| - pos
        {
          ok, c := TakeChar(true);
          if !ok {
            break;
          }
        }
        ok := true;
      } else if c == STAR {
        ghost var first := pos;
        ok, c := TakeChar(true);
        while ok
          invariant start < pos <= |src| && (ok <==> c != EOF)
          invariant BlockComment(src, first) == BlockFrom(src, c, pos)
          decreases |src| - pos, ok
        {
          if c == STAR {
            ok, c := TakeChar(true);
            if ok && c == SLASH {
              return;
            }
          }
          ok, c := TakeChar(true);
        }
      } else {
        ok := false;
      }
    }

    method LexFromLiteral() returns (tok: Token)
      requires pos < |src| && InLiteral(src[pos])
      modifies this`pos
      ensures Tok(tok, pos) == LexLiteral(src, old(pos)) && old(pos) < pos <= |src|
    {
      var value := LiteralRun();
      if value == WORD_TRUE {
        tok := Number(1);
      } else if value == WORD_FALSE {
        tok := Number(0);
      } else if value == WORD_ROOT {
        tok := Root;
      } else if value == WORD_DELETE {
        tok := DeleteWord;
      } else if value == WORD_TEMPLATE {
        tok := TemplateWord;
      } else if 0x2E in value {
        tok := RefPath(value);
      } else {
        tok := Literal(value);
      }
    }

    method LiteralRun() returns (value: seq<byte>)
      requires pos <= |src|
      modifies this`pos
      ensures pos == LiteralEnd(src, old(pos)) && value == src[old(pos)..pos]
    {
      value := [];
      while pos < |src| && InLiteral(src[pos])
        invariant old(pos) <= pos <= |src| && value == src[old(pos)..pos]
        invariant LiteralEnd(src, old(pos)) == LiteralEnd(src, pos)
        decreases |src| - pos
      {
        value := value + [src[pos]];
        pos := pos + 1;
      }
    }

    method LexFromInclude() returns (ok: bool)
      requires pos < |src|
      modifies this`pos
      ensures ok == LexInclude(src, old(pos)).Tok?
      ensures ok ==> Tok(Include, pos) == LexInclude(src, old(pos))
    {
      pos := pos + 1;
      var value := LiteralRun();
      ok := value == WORD_INCLUDE;
    }

    /** A string; the cursor is on its opening quote. */
    method LexFromString() returns (ok: bool, tok: Token)
      requires pos < |src|
      modifies this`pos
      ensures ok == StringBody(src, old(pos) + 1, []).Tok?
      ensures ok ==> Tok(tok, pos) == StringBody(src, old(pos) + 1, [])
    {
      tok := End;
      pos := pos + 1;
      ghost var first := pos;
      var value, c := [], 0;
      ok, c := TakeChar(false);
      while ok && c != QUOTE
        invariant first <= pos <= |src| && (ok <==> c != EOF)
        invariant StringBody(src, first, []) == StringFrom(src, c, pos, value)
        decreases |src| - pos, ok
      {
        if c == BACKSLASH {
          ok, c := TakeChar(false);
          if c != QUOTE {
            ok := false;
            return;
          }
        }
        value := value + [c];
        ok, c := TakeChar(false);
      }
      if c != QUOTE {
        return;
      }
      tok := Text(value);
    }

    method SpacedRun(have: seq<byte>) returns (value: seq<byte>)
      requires pos <= |src|
      modifies this`pos
      ensures (value, pos) == SpacedDigits(src, old(pos), have)
    {
      value := have;
      ghost var first := pos;
      var ok, c := Peek(true);
      while ok && IsNum(c)
        invariant pos <= |src| && (ok <==> pos < |src|) && (ok ==> c == src[pos]) && SkipBlank(src, pos) == pos
        invariant SpacedDigits(src, first, have) == SpacedDigits(src, pos, value)
        decreases |src| - pos
      {
        pos := pos + 1;
        value := value + [c];
        ok, c := Peek(true);
      }
    }

    method KindRun(kind: byte -> bool) returns (value: seq<byte>)
      requires pos <= |src|
      modifies this`pos
      ensures pos == RunEnd(src, old(pos), kind) && value == src[old(pos)..pos]
    {
      value := [];
      while pos < |src| && kind(src[pos])
        invariant old(pos) <= pos <= |src| && value == src[old(pos)..pos]
        invariant RunEnd(src, old(pos), kind) == RunEnd(src, pos, kind)
        decreases |src| - pos
      {
        value := value + [src[pos]];
        pos := pos + 1;
      }
    }

    method LexFromNumber() returns (ok: bool, tok: Token)
      requires pos < |src|
      modifies this`pos
      ensures ok == LexNumber(src, old(pos)).Tok?
      ensures ok ==> Tok(tok, pos) == LexNumber(src, old(pos))
    {
      hide DigitsValue, ToLongLong;
      var c := src[pos];
      pos := pos + 1;
      var v, value := Tok(Number(0), 0), [];
      if c == 0x30 {
        var more, d := Peek(true);
        if more && IsNum(d) {
          value := SpacedRun([]);
          v := ToLongLong(false, DigitsValue(value, 8, 0));
        } else if more && (d == 0x78 || d == 0x58) {
          pos := pos + 1;
          value := KindRun(IsHex);
          v := ToLongLong(false, DigitsValue(value, 16, 0));
        } else if more && d == 0x62 {
          pos := pos + 1;
          value := KindRun(IsBit);
          v := ToLongLong(false, DigitsValue(value, 2, 0));
        }
      } else {
        value := SpacedRun(if c == PLUS || c == MINUS then [] else [c]);
        v := ToLongLong(c == MINUS, DigitsValue(value, 10, 0));
      }
      ok := v.Tok?;
      tok := if ok then v.tok else End;
    }

    /** The next token, comments skipped. */
    method Lex() returns (ok: bool, tok: Token)
      requires pos <= |src|
      modifies this`pos
      ensures ok == LexAt(src, old(pos)).Tok?
      ensures ok ==> Tok(tok, pos) == LexAt(src, old(pos))
      ensures ok ==> old(pos) <= pos <= |src| && (tok != End ==> old(pos) < pos)
    {
      hide LexNumber, StringBody, LexLiteral, ProcessComment, LexInclude;
      tok := End;
      while true
        invariant old(pos) <= pos <= |src|
        invariant LexAt(src, old(pos)) == LexAt(src, pos)
        decreases |src| - pos
      {
        var more, c := Peek(true);
        if !more {
          return true, End;
        }
        if c == HASH {
          ok := LexFromInclude();
          return ok, Include;
        }
        if IsAlpha(c) {
          tok := LexFromLiteral();
          return true, tok;
        }
        if IsNum(c) {
          ok, tok := LexFromNumber();
          return;
        }
        if c == SLASH {
          ok := SkipComment();
          if !ok {
            return;
          }
          continue;
        }
        if IsSymbol(c) {
          pos := pos + 1;
          return true, Symbol(c);
        }
        if c == QUOTE {
          ok, tok := LexFromString();
          return;
        }
        if c == PLUS || c == MINUS {
          ok, tok := LexFromNumber();
          return;
        }
        return c == EOF, End;
      }
    }
  }

  /** A string body after `c` was read from it. */
  function StringFrom(s: seq<byte>, c: byte, pos: nat, have: seq<byte>): Lexed
    requires pos <= |s|
  {
    if c == EOF then Wrong
    else if c == QUOTE then Tok(Text(have), pos)
    else if c == BACKSLASH then
      var h := GetChar(s, pos, false);
      if h.0 == QUOTE then StringBody(s, h.1, have + [QUOTE]) else Wrong
    else StringBody(s, pos, have + [c])
  }

  /** A block comment after `c` was read from it. */
  function BlockFrom(s: seq<byte>, c: byte, pos: nat): Lexed
    requires pos <= |s|
  {
    if c == EOF then Wrong
    else if c != STAR then BlockComment(s, pos)
    else
      var h := GetChar(s, pos, true);
      if h.0 == SLASH then Tok(End, h.1) else BlockComment(s, h.1)
  }
}
