/** What the bytes of a source lex as: every kind of token spelled out, without the lexer's own definitions. */
module HcsNumbers {
  import opened Bytes
  import opened HcsLexer
  import opened HcsText

  // ----- bytes -----

  function Ascii(text: string): (r: seq<byte>)
    requires forall i :: 0 <= i < |text| ==> text[i] < 128 as char
    ensures |r| == |text|
  {
    seq(|text|, i requires 0 <= i < |text| => text[i] as int)
  }

  /** Space, tab, carriage return or line end. */
  predicate Gap(c: byte) {
    c == 0x20 || c == 0x09 || c == 0x0D || c == 0x0A
  }

  predicate Gaps(b: seq<byte>) {
    forall i :: 0 <= i < |b| ==> Gap(b[i])
  }

  predicate Letter(c: byte) {
    0x41 <= c <= 0x5A || 0x61 <= c <= 0x7A
  }

  predicate Decimal(c: byte) {
    0x30 <= c <= 0x39
  }

  /** Letters, digits, underscore, dot and backslash. */
  predicate WordByte(c: byte) {
    Letter(c) || Decimal(c) || c == 0x5F || c == 0x2E || c == 0x5C
  }

  lemma GapsAreBlanks(b: seq<byte>)
    requires Gaps(b)
    ensures Blanks(b)
  {
  }

  /** The first byte behind gaps. */
  lemma FirstByte(s: seq<byte>, pos: nat, b: seq<byte>, w: seq<byte>)
    requires At(s, pos, b + w) && Gaps(b) && w != [] && !Gap(w[0])
    ensures SkipBlank(s, pos) == pos + |b| < pos + |b| + |w| <= |s| && s[pos + |b|] == w[0]
    ensures At(s, pos + |b|, w) && At(s, pos + |b| + 1, w[1..])
  {
    GapsAreBlanks(b);
    assert w == [w[0]] + w[1..];
    AtSplit(s, pos, b, w);
    FirstOf(s, pos, b, w[0], w[1..]);
  }

  // ----- digits and what they are worth -----

  const LOWER: seq<byte> := [0x30, 0x31, 0x32, 0x33, 0x34, 0x35, 0x36, 0x37, 0x38, 0x39,
                             0x61, 0x62, 0x63, 0x64, 0x65, 0x66]
  const UPPER: seq<byte> := [0x30, 0x31, 0x32, 0x33, 0x34, 0x35, 0x36, 0x37, 0x38, 0x39,
                             0x41, 0x42, 0x43, 0x44, 0x45, 0x46]

  /** These bytes are the digits `ks`, in either case. */
  predicate Spells(d: seq<byte>, ks: seq<nat>, radix: nat)
    requires radix <= 16
  {
    |d| == |ks| && forall i :: 0 <= i < |ks| ==> ks[i] < radix && (d[i] == LOWER[ks[i]] || d[i] == UPPER[ks[i]])
  }

  /** Every digit is worth `radix` times the one behind it. */
  function Positional(ks: seq<nat>, radix: nat): nat {
    if ks == [] then 0 else Positional(ks[..|ks| - 1], radix) * radix + ks[|ks| - 1]
  }

  /** The digits of a number, the last one being the remainder. */
  function Digits(v: nat, radix: nat): (ks: seq<nat>)
    requires 2 <= radix <= 16
    ensures ks != [] && forall i :: 0 <= i < |ks| ==> ks[i] < radix
    ensures v > 0 ==> ks[0] > 0
  {
    if v < radix then [v] else Digits(v / radix, radix) + [v % radix]
  }

  function Written(ks: seq<nat>): (d: seq<byte>)
    requires forall i :: 0 <= i < |ks| ==> ks[i] < 16
    ensures |d| == |ks| && Spells(d, ks, 16)
  {
    seq(|ks|, i requires 0 <= i < |ks| => LOWER[ks[i]])
  }

  lemma Quotient(v: nat, radix: nat) returns (q: nat, k: nat)
    requires 2 <= radix <= v
    ensures q == v / radix < v && k == v % radix < radix && q * radix + k == v
  {
    q, k := v / radix, v % radix;
    assert v == radix * q + k;
    assert radix * q >= 2 * q by {
      MulAtLeast(radix, q);
    }
    assert q > 0;
  }

  lemma MulAtLeast(a: nat, b: nat)
    requires a >= 2
    ensures a * b >= 2 * b && a * b == b * a
  {
  }

  lemma LastDigit(front: seq<nat>, k: nat, radix: nat)
    ensures Positional(front + [k], radix) == Positional(front, radix) * radix + k
  {
    var ks := front + [k];
    assert ks[..|ks| - 1] == front;
  }

  lemma {:induction false} DigitsAreWorth(v: nat, radix: nat)
    requires 2 <= radix <= 16
    ensures Positional(Digits(v, radix), radix) == v
  {
    var ks := Digits(v, radix);
    if v < radix {
      assert ks[..0] == [];
    } else {
      var q, k := Quotient(v, radix);
      DigitsAreWorth(q, radix);
      hide Digits, Positional;
      LastDigit(Digits(q, radix), k, radix);
    }
  }

  lemma DigitIs(c: byte, k: nat, radix: nat)
    requires k < radix <= 16 && (c == LOWER[k] || c == UPPER[k])
    ensures Digit(c) == k && IsHex(c) && (radix <= 10 ==> IsNum(c)) && (radix <= 2 ==> IsBit(c))
  {
  }

  /** The lexer's reading of digits agrees, and stops at the first one that is none in its base. */
  lemma {:induction false} ValueIs(d: seq<byte>, ks: seq<nat>, radix: nat, more: seq<byte>)
    requires radix <= 16 && Spells(d, ks, radix) && (more == [] || Digit(more[0]) >= radix)
    ensures DigitsValue(d + more, radix, 0) == Positional(ks, radix)
    decreases |d|
  {
    EachDigit(d, ks, radix);
    hide Digit;
    ValueStops(d, radix, 0, more);
    if d == [] {
    } else {
      var n := |d| - 1;
      assert d == d[..n] + [d[n]];
      DigitsAppend(d[..n], d[n], radix, 0);
      ValueIs(d[..n], ks[..n], radix, []);
      assert d[..n] + [] == d[..n];
    }
  }

  lemma EachDigit(d: seq<byte>, ks: seq<nat>, radix: nat)
    requires radix <= 16 && Spells(d, ks, radix)
    ensures forall i :: 0 <= i < |d| ==> Digit(d[i]) == ks[i] < radix && IsHex(d[i]) && (radix <= 10 ==> IsNum(d[i]))
  {
    forall i | 0 <= i < |d| ensures Digit(d[i]) == ks[i] && IsHex(d[i]) && (radix <= 10 ==> IsNum(d[i])) {
      DigitIs(d[i], ks[i], radix);
    }
  }

  lemma {:induction false} ValueStops(d: seq<byte>, radix: nat, acc: nat, more: seq<byte>)
    requires forall i :: 0 <= i < |d| ==> Digit(d[i]) < radix
    requires more == [] || Digit(more[0]) >= radix
    ensures DigitsValue(d + more, radix, acc) == DigitsValue(d, radix, acc)
    decreases |d|
  {
    hide Digit;
    if d == [] {
      assert d + more == more;
    } else {
      assert (d + more)[0] == d[0] && (d + more)[1..] == d[1..] + more;
      ValueStops(d[1..], radix, acc * radix + Digit(d[0]), more);
    }
  }

  // ----- runs of digits -----

  /** The bytes without the gaps. */
  function Strip(w: seq<byte>): seq<byte> {
    if w == [] then [] else (if Gap(w[0]) then [] else [w[0]]) + Strip(w[1..])
  }

  /** Digits with gaps between and behind them, if there are any. */
  predicate Spaced(w: seq<byte>) {
    forall i :: 0 <= i < |w| ==> Decimal(w[i]) || Gap(w[i])
  }

  /** The end of the source, or a byte of another kind. */
  predicate EndsSpaced(s: seq<byte>, p: nat) {
    p == |s| || (p < |s| && !Decimal(s[p]) && !Gap(s[p]))
  }

  lemma {:induction false} SpacedRun(s: seq<byte>, pos: nat, w: seq<byte>, have: seq<byte>)
    requires pos + |w| <= |s| && s[pos..pos + |w|] == w && Spaced(w) && EndsSpaced(s, pos + |w|)
    ensures SpacedDigits(s, pos, have) == (have + Strip(w), pos + |w|)
    decreases |w|
  {
    if w == [] {
      assert have + [] == have;
    } else {
      assert s[pos] == s[pos..pos + |w|][0];
      assert s[pos + 1..pos + |w|] == w[1..];
      if Gap(w[0]) {
        SpacedRun(s, pos + 1, w[1..], have);
        assert [] + Strip(w[1..]) == Strip(w[1..]);
        assert SkipBlank(s, pos) == SkipBlank(s, pos + 1);
      } else {
        SpacedRun(s, pos + 1, w[1..], have + [w[0]]);
        assert (have + [w[0]]) + Strip(w[1..]) == have + ([w[0]] + Strip(w[1..]));
      }
    }
  }

  /** A run of one kind of bytes, up to the end of the source or a byte of another kind. */
  lemma {:induction false} RunIs(s: seq<byte>, pos: nat, w: seq<byte>, kind: byte -> bool)
    requires pos + |w| <= |s| && s[pos..pos + |w|] == w && forall i :: 0 <= i < |w| ==> kind(w[i])
    requires pos + |w| < |s| ==> !kind(s[pos + |w|])
    ensures RunEnd(s, pos, kind) == pos + |w|
    decreases |w|
  {
    if w == [] {
    } else {
      assert s[pos] == s[pos..pos + |w|][0];
      assert s[pos + 1..pos + |w|] == w[1..];
      RunIs(s, pos + 1, w[1..], kind);
    }
  }

  lemma {:induction false} SpacedFromStrip(w: seq<byte>)
    requires forall i :: 0 <= i < |Strip(w)| ==> Decimal(Strip(w)[i])
    ensures Spaced(w)
  {
    if w == [] {
    } else if Gap(w[0]) {
      assert Strip(w) == Strip(w[1..]);
      SpacedFromStrip(w[1..]);
    } else {
      assert Strip(w)[0] == w[0] && Strip(w)[1..] == Strip(w[1..]);
      SpacedFromStrip(w[1..]);
    }
  }

  lemma SpacedIf(w: seq<byte>, ks: seq<nat>)
    requires Spells(Strip(w), ks, 10)
    ensures Spaced(w)
  {
    hide Strip, Spells;
    EachDigit(Strip(w), ks, 10);
    SpacedFromStrip(w);
  }

  // ----- numbers -----

  const LIMIT: nat := 0x8000_0000_0000_0000

  /** A number as the bit pattern of a signed 64-bit word; too large a one is an error. */
  function Signed(negative: bool, v: nat, next: nat): Lexed {
    if negative then if v <= LIMIT then Tok(Number((2 * LIMIT - v) % (2 * LIMIT)), next) else Wrong
    else if v < LIMIT then Tok(Number(v), next) else Wrong
  }

  lemma NumberAt(s: seq<byte>, pos: nat, p: nat)
    requires pos <= p < |s| && SkipBlank(s, pos) == p && (Decimal(s[p]) || s[p] == 0x2B || s[p] == 0x2D)
    ensures LexAt(s, pos) == LexNumber(s, p)
  {
    hide LexNumber, SkipBlank, Digit, LexLiteral, LexInclude, ProcessComment, StringBody;
  }

  /** What the lexer makes of decimal digits it has collected. */
  lemma DecimalAt(s: seq<byte>, p: nat, d: seq<byte>, next: nat, ks: seq<nat>)
    requires p < next <= |s| && s[p] != 0x30 && Spells(d, ks, 10)
    requires var signed := s[p] == 0x2B || s[p] == 0x2D;
             SpacedDigits(s, p + 1, if signed then [] else [s[p]]) == (d, next)
    ensures LexNumber(s, p) == Signed(s[p] == 0x2D, Positional(ks, 10), next)
  {
    hide DigitsValue, SkipBlank, SpacedDigits, Spells, Positional, Digit, RunEnd;
    ValueIs(d, ks, 10, []);
    assert d + [] == d;
  }

  /** Decimal digits, the first not 0, possibly with gaps between them. */
  lemma LexDecimal(s: seq<byte>, pos: nat, b: seq<byte>, w: seq<byte>, ks: seq<nat>)
    requires At(s, pos, b + w) && Gaps(b) && w != [] && !Gap(w[0]) && w[0] != 0x30
    requires Spells(Strip(w), ks, 10) && EndsSpaced(s, pos + |b| + |w|)
    ensures pos <= |s| && LexAt(s, pos) == Signed(false, Positional(ks, 10), pos + |b| + |w|)
  {
    hide LexAt, LexNumber, DigitsValue, SkipBlank, SpacedDigits, Positional, Digit;
    FirstByte(s, pos, b, w);
    var p := pos + |b|;
    assert Strip(w) == [w[0]] + Strip(w[1..]);
    assert Strip(w)[0] == w[0];
    DigitIs(w[0], ks[0], 10);
    EachDigit(Strip(w), ks, 10);
    SpacedFromStrip(w);
    hide Spells, Strip;
    SpacedRun(s, p + 1, w[1..], [w[0]]);
    NumberAt(s, pos, p);
    DecimalAt(s, p, Strip(w), p + |w|, ks);
  }

  /** A sign and decimal digits, gaps allowed between and before them; no digits count as 0. */
  lemma LexSigned(s: seq<byte>, pos: nat, b: seq<byte>, sign: byte, w: seq<byte>, ks: seq<nat>)
    requires (sign == 0x2B || sign == 0x2D) && At(s, pos, b + ([sign] + w)) && Gaps(b)
    requires Spells(Strip(w), ks, 10) && EndsSpaced(s, pos + |b| + 1 + |w|)
    ensures pos <= |s| && LexAt(s, pos) == Signed(sign == 0x2D, Positional(ks, 10), pos + |b| + 1 + |w|)
  {
    hide *;
    SignFirst(s, pos, b, sign, w);
    var p := pos + |b|;
    SpacedIf(w, ks);
    SpacedRun(s, p + 1, w, []);
    assert [] + Strip(w) == Strip(w);
    NumberAt(s, pos, p);
    DecimalAt(s, p, Strip(w), p + 1 + |w|, ks);
  }

  /** Digits behind a 0 are octal, up to the first 8 or 9; gaps are allowed between and before them. */
  lemma LexOctal(s: seq<byte>, pos: nat, b: seq<byte>, w: seq<byte>, d: seq<byte>, more: seq<byte>, ks: seq<nat>)
    requires At(s, pos, b + ([0x30] + w)) && Gaps(b) && Strip(w) == d + more != [] && Spells(d, ks, 8)
    requires (forall i :: 0 <= i < |more| ==> Decimal(more[i])) && (more != [] ==> more[0] >= 0x38)
    requires EndsSpaced(s, pos + |b| + 1 + |w|)
    ensures pos <= |s| && LexAt(s, pos) == Signed(false, Positional(ks, 8), pos + |b| + 1 + |w|)
  {
    hide *;
    var p := pos + |b|;
    SignFirst(s, pos, b, 0x30, w);
    OctalSpaced(w, d, more, ks);
    var q := FirstDigit(s, p + 1, w);
    assert [] + Strip(w) == Strip(w);
    NumberAt(s, pos, p);
    OctalAt(s, p, q, d, more, p + 1 + |w|, ks);
  }

  lemma OctalSpaced(w: seq<byte>, d: seq<byte>, more: seq<byte>, ks: seq<nat>)
    requires Strip(w) == d + more && Spells(d, ks, 8) && forall i :: 0 <= i < |more| ==> Decimal(more[i])
    ensures Spaced(w)
  {
    hide Strip, Spells;
    EachDigit(d, ks, 8);
    SpacedFromStrip(w);
  }

  /** The byte a number starts with. */
  lemma SignFirst(s: seq<byte>, pos: nat, b: seq<byte>, c: byte, w: seq<byte>)
    requires At(s, pos, b + ([c] + w)) && Gaps(b) && (c == 0x30 || c == 0x2B || c == 0x2D)
    ensures var p := pos + |b|;
            && SkipBlank(s, pos) == p < p + 1 + |w| <= |s| && s[p] == c && s[p + 1..p + 1 + |w|] == w
            && (Decimal(s[p]) || s[p] == 0x2B || s[p] == 0x2D)
  {
    hide SkipBlank;
    FirstByte(s, pos, b, [c] + w);
    assert ([c] + w)[1..] == w;
  }

  /** The first digit of a spaced run, and that reading may as well start there. */
  lemma {:induction false} FirstDigit(s: seq<byte>, pos: nat, w: seq<byte>) returns (q: nat)
    requires pos + |w| <= |s| && s[pos..pos + |w|] == w && Spaced(w) && EndsSpaced(s, pos + |w|) && Strip(w) != []
    ensures pos <= q < pos + |w| && SkipBlank(s, pos) == q && Decimal(s[q])
    ensures SpacedDigits(s, q, []) == ([] + Strip(w), pos + |w|)
    decreases |w|
  {
    assert s[pos] == s[pos..pos + |w|][0];
    if Gap(w[0]) {
      assert s[pos + 1..pos + |w|] == w[1..];
      assert [] + Strip(w[1..]) == Strip(w[1..]);
      q := FirstDigit(s, pos + 1, w[1..]);
    } else {
      q := pos;
      SpacedRun(s, pos, w, []);
    }
  }

  lemma OctalAt(s: seq<byte>, p: nat, q: nat, d: seq<byte>, more: seq<byte>, next: nat, ks: seq<nat>)
    requires p < q < next <= |s| && s[p] == 0x30 && SkipBlank(s, p + 1) == q && Decimal(s[q])
    requires SpacedDigits(s, q, []) == (d + more, next) && Spells(d, ks, 8)
    requires (forall i :: 0 <= i < |more| ==> Decimal(more[i])) && (more != [] ==> more[0] >= 0x38)
    ensures LexNumber(s, p) == Signed(false, Positional(ks, 8), next)
  {
    assert more != [] ==> Digit(more[0]) >= 8;
    hide DigitsValue, SkipBlank, SpacedDigits, Spells, Positional, Digit, RunEnd;
    ValueIs(d, ks, 8, more);
  }

  /** A 0 with nothing numeric behind it. */
  lemma LexZero(s: seq<byte>, pos: nat, b: seq<byte>, g: seq<byte>)
    requires At(s, pos, b + ([0x30] + g)) && Gaps(b) && Gaps(g) && EndsSpaced(s, pos + |b| + 1 + |g|)
    requires var p := pos + |b| + 1 + |g|; p < |s| ==> s[p] != 0x78 && s[p] != 0x58 && s[p] != 0x62
    ensures pos <= |s| && LexAt(s, pos) == Tok(Number(0), pos + |b| + 1 + |g|)
  {
    hide LexAt, LexNumber, SkipBlank;
    FirstByte(s, pos, b, [0x30] + g);
    assert ([0x30] + g)[1..] == g;
    var p := pos + |b|;
    GapsToEnd(s, p + 1, g);
    NumberAt(s, pos, p);
    ZeroAt(s, p, p + 1 + |g|);
  }

  lemma {:induction false} GapsToEnd(s: seq<byte>, pos: nat, g: seq<byte>)
    requires pos + |g| <= |s| && s[pos..pos + |g|] == g && Gaps(g) && (pos + |g| < |s| ==> !Gap(s[pos + |g|]))
    ensures SkipBlank(s, pos) == pos + |g|
    decreases |g|
  {
    if g == [] {
    } else {
      assert s[pos] == s[pos..pos + |g|][0];
      assert s[pos + 1..pos + |g|] == g[1..];
      GapsToEnd(s, pos + 1, g[1..]);
    }
  }

  lemma ZeroAt(s: seq<byte>, p: nat, q: nat)
    requires p < q <= |s| && s[p] == 0x30 && SkipBlank(s, p + 1) == q
    requires q < |s| ==> !Decimal(s[q]) && s[q] != 0x78 && s[q] != 0x58 && s[q] != 0x62
    ensures LexNumber(s, p) == Tok(Number(0), q)
  {
    hide SkipBlank, SpacedDigits, Digit, RunEnd;
  }

  predicate HexDigits(c: byte) {
    Decimal(c) || 0x41 <= c <= 0x46 || 0x61 <= c <= 0x66
  }

  /** Behind `0x` or `0X`, digits of either case up to the first byte that is none. */
  lemma LexHexadecimal(s: seq<byte>, pos: nat, b: seq<byte>, g: seq<byte>, x: byte, d: seq<byte>, ks: seq<nat>)
    requires (x == 0x78 || x == 0x58) && At(s, pos, b + ([0x30] + (g + ([x] + d)))) && Gaps(b) && Gaps(g)
    requires Spells(d, ks, 16)
    requires var p := pos + |b| + |g| + 2 + |d|; p < |s| ==> !HexDigits(s[p])
    ensures pos <= |s| && LexAt(s, pos) == Signed(false, Positional(ks, 16), pos + |b| + |g| + 2 + |d|)
  {
    hide LexAt, LexNumber, DigitsValue, SkipBlank, Positional, Digit, Spells;
    var p, q := Prefixed(s, pos, b, g, x, d);
    EachDigit(d, ks, 16);
    assert forall c :: IsHex(c) <==> HexDigits(c);
    hide IsHex;
    RunIs(s, q + 1, d, IsHex);
    NumberAt(s, pos, p);
    BaseAt(s, p, q, d, ks);
  }

  /** Behind `0b`, zeros and ones up to the first byte that is neither. */
  lemma LexBinary(s: seq<byte>, pos: nat, b: seq<byte>, g: seq<byte>, d: seq<byte>, ks: seq<nat>)
    requires At(s, pos, b + ([0x30] + (g + ([0x62] + d)))) && Gaps(b) && Gaps(g) && Spells(d, ks, 2)
    requires var p := pos + |b| + |g| + 2 + |d|; p < |s| ==> s[p] != 0x30 && s[p] != 0x31
    ensures pos <= |s| && LexAt(s, pos) == Signed(false, Positional(ks, 2), pos + |b| + |g| + 2 + |d|)
  {
    hide LexAt, LexNumber, DigitsValue, SkipBlank, Positional, Digit;
    var p, q := Prefixed(s, pos, b, g, 0x62, d);
    forall i | 0 <= i < |d| ensures IsBit(d[i]) {
      DigitIs(d[i], ks[i], 2);
    }
    hide Spells;
    RunIs(s, q + 1, d, IsBit);
    NumberAt(s, pos, p);
    BaseAt(s, p, q, d, ks);
  }

  /** Where the 0 and the letter of its base stand. */
  lemma Prefixed(s: seq<byte>, pos: nat, b: seq<byte>, g: seq<byte>, x: byte, d: seq<byte>) returns (p: nat, q: nat)
    requires At(s, pos, b + ([0x30] + (g + ([x] + d)))) && Gaps(b) && Gaps(g) && !Gap(x)
    ensures p == pos + |b| && q == p + 1 + |g| && q + 1 + |d| <= |s| && s[p] == 0x30 && s[q] == x
    ensures SkipBlank(s, pos) == p && SkipBlank(s, p + 1) == q && s[q + 1..q + 1 + |d|] == d
  {
    hide SkipBlank;
    var rest := g + ([x] + d);
    FirstByte(s, pos, b, [0x30] + rest);
    p := pos + |b|;
    assert ([0x30] + rest)[1..] == rest;
    FirstByte(s, p + 1, g, [x] + d);
    q := p + 1 + |g|;
    assert ([x] + d)[1..] == d;
  }

  lemma BaseAt(s: seq<byte>, p: nat, q: nat, d: seq<byte>, ks: seq<nat>)
    requires p < q < |s| && s[p] == 0x30 && SkipBlank(s, p + 1) == q && q + 1 + |d| <= |s|
    requires s[q + 1..q + 1 + |d|] == d
    requires || ((s[q] == 0x78 || s[q] == 0x58) && RunEnd(s, q + 1, IsHex) == q + 1 + |d| && Spells(d, ks, 16))
             || (s[q] == 0x62 && RunEnd(s, q + 1, IsBit) == q + 1 + |d| && Spells(d, ks, 2))
    ensures LexNumber(s, p) == Signed(false, Positional(ks, if s[q] == 0x62 then 2 else 16), q + 1 + |d|)
  {
    hide DigitsValue, SkipBlank, SpacedDigits, Spells, Positional, Digit, RunEnd;
    assert d + [] == d;
    ValueIs(d, ks, if s[q] == 0x62 then 2 else 16, []);
  }

  /** A number written out in decimal is read as that number, whatever its sign, if it fits. */
  lemma DecimalReads(s: seq<byte>, pos: nat, b: seq<byte>, v: nat, negative: bool)
    requires v > 0 && Gaps(b)
    requires At(s, pos, b + ((if negative then [0x2D] else []) + Written(Digits(v, 10))))
    requires EndsSpaced(s, pos + |b| + (if negative then 1 else 0) + |Digits(v, 10)|)
    ensures pos <= |s|
    ensures var next := pos + |b| + (if negative then 1 else 0) + |Digits(v, 10)|;
            LexAt(s, pos) ==
            if negative && v <= 0x8000_0000_0000_0000 then Tok(Number(0x1_0000_0000_0000_0000 - v), next)
            else if !negative && v < 0x8000_0000_0000_0000 then Tok(Number(v), next)
            else Wrong
  {
    hide *;
    var ks := Digits(v, 10);
    var w := Written(ks);
    WrittenIs(v);
    if negative {
      LexSigned(s, pos, b, 0x2D, w, ks);
      SignedIs(true, v, pos + |b| + 1 + |w|);
    } else {
      assert [] + w == w;
      LexDecimal(s, pos, b, w, ks);
      SignedIs(false, v, pos + |b| + |w|);
    }
  }

  lemma SignedIs(negative: bool, v: nat, next: nat)
    requires v > 0
    ensures Signed(negative, v, next) ==
            if negative && v <= 0x8000_0000_0000_0000 then Tok(Number(0x1_0000_0000_0000_0000 - v), next)
            else if !negative && v < 0x8000_0000_0000_0000 then Tok(Number(v), next)
            else Wrong
  {
  }

  lemma WrittenIs(v: nat)
    requires v > 0
    ensures var ks := Digits(v, 10);
            var w := Written(ks);
            && |w| == |ks| > 0 && !Gap(w[0]) && w[0] != 0x30 && Spells(Strip(w), ks, 10) && Positional(ks, 10) == v
  {
    hide Digits, Positional;
    var ks := Digits(v, 10);
    var w := Written(ks);
    forall i | 0 <= i < |w| ensures !Gap(w[i]) {
    }
    NothingToStrip(w);
    DigitsAreWorth(v, 10);
  }

  lemma {:induction false} NothingToStrip(w: seq<byte>)
    requires forall i :: 0 <= i < |w| ==> !Gap(w[i])
    ensures Strip(w) == w
  {
    if w == [] {
    } else {
      NothingToStrip(w[1..]);
    }
  }
}
