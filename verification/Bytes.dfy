/** Bytes, fixed-width little-endian words and in-place writes, shared by every codec. */
module Bytes {

  type byte = x: int | 0 <= x < 256
  type uint32 = x: int | 0 <= x < 0x1_0000_0000
  type int32 = x: int | -0x8000_0000 <= x < 0x8000_0000

  /** The `n` low-order bytes of `v`, least significant first. */
  function ToLE(v: nat, n: nat): (b: seq<byte>)
    ensures |b| == n
  {
    if n == 0 then [] else [v % 256] + ToLE(v / 256, n - 1)
  }

  function FromLE(b: seq<byte>): nat {
    if b == [] then 0 else b[0] + 256 * FromLE(b[1..])
  }

  function Pow256(n: nat): (p: nat)
    ensures p > 0
  {
    if n == 0 then 1 else 256 * Pow256(n - 1)
  }

  lemma Pow256Values()
    ensures Pow256(1) == 0x100
    ensures Pow256(2) == 0x1_0000
    ensures Pow256(4) == 0x1_0000_0000
    ensures Pow256(8) == 0x1_0000_0000_0000_0000
  {
    assert Pow256(2) == 0x1_0000;
    assert Pow256(3) == 256 * Pow256(2);
    assert Pow256(4) == 256 * Pow256(3);
    assert Pow256(6) == 256 * 256 * Pow256(4) by { assert Pow256(5) == 256 * Pow256(4); }
    assert Pow256(8) == 256 * 256 * Pow256(6) by { assert Pow256(7) == 256 * Pow256(6); }
  }

  /** A word that fits its width survives being written and read back. */
  lemma {:induction false} FromToLE(v: nat, n: nat)
    requires v < Pow256(n)
    ensures FromLE(ToLE(v, n)) == v
  {
    if n != 0 {
      FromToLE(v / 256, n - 1);
      assert ToLE(v, n)[1..] == ToLE(v / 256, n - 1);
    }
  }

  /** Bytes read as a word and written back at the same width are the same bytes. */
  lemma {:induction false} ToFromLE(b: seq<byte>)
    ensures ToLE(FromLE(b), |b|) == b
  {
    if b == [] {
    } else {
      ToFromLE(b[1..]);
      assert FromLE(b) % 256 == b[0] && FromLE(b) / 256 == FromLE(b[1..]);
    }
  }

  lemma {:induction false} FromLEBound(b: seq<byte>)
    ensures FromLE(b) < Pow256(|b|)
  {
    if b == [] {
    } else {
      FromLEBound(b[1..]);
    }
  }

  /** The word at a position. */
  function WordAt(m: seq<byte>, pos: nat): uint32
    requires pos + 4 <= |m|
  {
    Pow256Values();
    FromLEBound(m[pos..pos + 4]);
    FromLE(m[pos..pos + 4])
  }

  function LE32(v: uint32): (b: seq<byte>)
    ensures |b| == 4
  {
    ToLE(v, 4)
  }

  /** A word, its low byte first. */
  function Word(v: uint32): (b: seq<byte>)
    ensures |b| == 4
  {
    [v % 0x100, v / 0x100 % 0x100, v / 0x1_0000 % 0x100, v / 0x100_0000]
  }

  /** The word at a position, from its four bytes. */
  lemma WordAtIs(m: seq<byte>, pos: nat)
    requires pos + 4 <= |m|
    ensures WordAt(m, pos) ==
            (m[pos] as nat) + 0x100 * (m[pos + 1] as nat) + 0x1_0000 * (m[pos + 2] as nat)
            + 0x100_0000 * (m[pos + 3] as nat)
  {
    var b := m[pos..pos + 4];
    assert FromLE(b[3..]) == b[3] + 256 * FromLE(b[3..][1..]) && b[3..][1..] == [];
    assert FromLE(b[2..]) == b[2] + 256 * FromLE(b[2..][1..]) && b[2..][1..] == b[3..];
    assert FromLE(b[1..]) == b[1] + 256 * FromLE(b[1..][1..]) && b[1..][1..] == b[2..];
  }

  lemma WordIs(v: uint32)
    ensures LE32(v) == Word(v)
  {
    var a, b, c := v / 0x100, v / 0x1_0000, v / 0x100_0000;
    assert a / 256 == b && b / 256 == c && c % 256 == c;
    assert ToLE(c, 1) == [c] + ToLE(c / 256, 0) == [c];
    assert ToLE(b, 2) == [b % 256] + ToLE(c, 1);
    assert ToLE(a, 3) == [a % 256] + ToLE(b, 2);
  }

  /** The low 32 bits of any number. */
  function Low(v: nat): uint32 {
    v % 0x1_0000_0000
  }

  lemma WordOfBytes(a: byte, b: byte, c: byte, d: byte)
    ensures var u := (a as nat) + 0x100 * (b as nat) + 0x1_0000 * (c as nat) + 0x100_0000 * (d as nat);
            u < 0x1_0000_0000 && Word(u) == [a, b, c, d]
  {
    var u := (a as nat) + 0x100 * (b as nat) + 0x1_0000 * (c as nat) + 0x100_0000 * (d as nat);
    assert u / 0x100_0000 == d;
    assert u / 0x1_0000 == (c as nat) + 0x100 * (d as nat);
    assert u / 0x100 == (b as nat) + 0x100 * (c as nat) + 0x1_0000 * (d as nat);
  }

  /** The four low bytes of a number make its low word. */
  lemma LowBytes(v: nat)
    ensures Word(Low(v)) == [v % 256, v / 0x100 % 256, v / 0x1_0000 % 256, v / 0x100_0000 % 256]
  {
    hide Word;
    var a, b, c, d := v % 256, v / 0x100 % 256, v / 0x1_0000 % 256, v / 0x100_0000 % 256;
    Quarters(v);
    WordOfBytes(a, b, c, d);
    var u := (a as nat) + 0x100 * (b as nat) + 0x1_0000 * (c as nat) + 0x100_0000 * (d as nat);
    assert v == 0x1_0000_0000 * (v / 0x1_0000_0000) + u;
    assert Low(v) == u;
  }

  /** The four low bytes of any number, and what is above them. */
  lemma FourFirst(v: nat, n: nat)
    ensures ToLE(v, 4 + n) ==
            [v % 256, v / 0x100 % 256, v / 0x1_0000 % 256, v / 0x100_0000 % 256] + ToLE(v / 0x1_0000_0000, n)
  {
    hide ToLE;
    var a, b, c, d := v / 0x100, v / 0x1_0000, v / 0x100_0000, v / 0x1_0000_0000;
    Quarters(v);
    OneFirst(v, 3 + n);
    OneFirst(a, 2 + n);
    OneFirst(b, 1 + n);
    OneFirst(c, n);
  }

  lemma Quarters(v: nat)
    ensures v / 0x100 / 256 == v / 0x1_0000 && v / 0x1_0000 / 256 == v / 0x100_0000
    ensures v / 0x100_0000 / 256 == v / 0x1_0000_0000
  {
  }

  lemma OneFirst(v: nat, n: nat)
    ensures ToLE(v, n + 1) == [v % 256] + ToLE(v / 256, n)
  {
  }

  lemma WordOf(v: nat)
    ensures ToLE(v, 4) == Word(Low(v))
  {
    hide ToLE, Low;
    FourFirst(v, 0);
    LowBytes(v);
  }

  lemma ShortOf(v: nat)
    ensures ToLE(v, 1) == [v % 0x100] && ToLE(v, 2) == [v % 0x100, v / 0x100 % 0x100]
  {
    assert ToLE(v, 1) == [v % 256] + ToLE(v / 256, 0);
    assert ToLE(v / 256, 1) == [v / 256 % 256] + ToLE(v / 256 / 256, 0);
    assert ToLE(v, 2) == [v % 256] + ToLE(v / 256, 1);
  }

  lemma LongOf(v: nat)
    ensures ToLE(v, 8) == Word(Low(v)) + Word(Low(v / 0x1_0000_0000))
  {
    hide *;
    FourFirst(v, 4);
    FourFirst(v, 0);
    WordOf(v);
    WordOf(v / 0x1_0000_0000);
  }

  lemma LE32RoundTrip(v: uint32)
    ensures FromLE(LE32(v)) == v
  {
    Pow256Values();
    FromToLE(v, 4);
  }

  /** The low 32 bits of `v` as a signed word. */
  function ToInt32(v: nat): (r: int)
    ensures -0x8000_0000 <= r < 0x8000_0000 && r % 0x1_0000_0000 == v % 0x1_0000_0000
  {
    if v % 0x1_0000_0000 < 0x8000_0000 then v % 0x1_0000_0000 else v % 0x1_0000_0000 - 0x1_0000_0000
  }

  /** A signed word, in two's complement. */
  function I32(v: int32): (b: seq<byte>)
    ensures |b| == 4
  {
    LE32(v % 0x1_0000_0000)
  }

  lemma I32RoundTrip(v: int32)
    ensures ToInt32(FromLE(I32(v))) == v
  {
    hide FromLE, LE32;
    LE32RoundTrip(v % 0x1_0000_0000);
  }

  /** `s` with the stretch starting at `off` replaced by `d`. */
  function Overwrite<T>(s: seq<T>, off: nat, d: seq<T>): (r: seq<T>)
    requires off + |d| <= |s|
    ensures |r| == |s|
    ensures r[off..off + |d|] == d
    ensures r[..off] == s[..off] && r[off + |d|..] == s[off + |d|..]
  {
    s[..off] + d + s[off + |d|..]
  }

  lemma OverwriteBefore<T>(s: seq<T>, off: nat, d: seq<T>, lo: nat, hi: nat)
    requires off + |d| <= |s| && lo <= hi <= off
    ensures Overwrite(s, off, d)[lo..hi] == s[lo..hi]
  {
    assert Overwrite(s, off, d)[lo..hi] == Overwrite(s, off, d)[..off][lo..hi];
  }

  lemma OverwriteAfter<T>(s: seq<T>, off: nat, d: seq<T>, lo: nat, hi: nat)
    requires off + |d| <= lo <= hi <= |s|
    ensures Overwrite(s, off, d)[lo..hi] == s[lo..hi]
  {
    var t := off + |d|;
    assert Overwrite(s, off, d)[lo..hi] == Overwrite(s, off, d)[t..][lo - t..hi - t];
    assert s[lo..hi] == s[t..][lo - t..hi - t];
  }

  lemma OverwriteInside<T>(s: seq<T>, off: nat, d: seq<T>, lo: nat, hi: nat)
    requires off <= lo <= hi <= off + |d| <= |s|
    ensures Overwrite(s, off, d)[lo..hi] == d[lo - off..hi - off]
  {
    assert Overwrite(s, off, d)[lo..hi] == Overwrite(s, off, d)[off..off + |d|][lo - off..hi - off];
  }

  lemma SliceSlice<T>(s: seq<T>, a: nat, b: nat, lo: nat, hi: nat)
    requires a <= b <= |s| && lo <= hi <= b - a
    ensures s[a..b][lo..hi] == s[a + lo..a + hi]
  {
    assert |s[a..b][lo..hi]| == hi - lo;
    forall i | 0 <= i < hi - lo ensures s[a..b][lo..hi][i] == s[a + lo..a + hi][i] {
      assert s[a..b][lo..hi][i] == s[a..b][lo + i] == s[a + (lo + i)];
    }
  }

  lemma SplitAt<T>(v: seq<T>, pos: nat, a: seq<T>, b: seq<T>)
    requires pos <= |v| && v[pos..] == a + b
    ensures pos + |a| <= |v| && v[pos..pos + |a|] == a && v[pos + |a|..] == b
  {
    assert v[pos..][..|a|] == a && v[pos..][|a|..] == b;
    SliceSlice(v, pos, |v|, 0, |a|);
    SliceSlice(v, pos, |v|, |a|, |v| - pos);
    assert v[pos..|v|] == v[pos..] && v[pos..][|a|..|v| - pos] == v[pos..][|a|..];
  }

  lemma ConcatAssoc<T>(a: seq<T>, b: seq<T>, c: seq<T>)
    ensures (a + b) + c == a + (b + c)
  {
  }

  /** `b` stands in `m` at `pos`. */
  ghost predicate At(m: seq<byte>, pos: nat, b: seq<byte>) {
    pos + |b| <= |m| && m[pos..pos + |b|] == b
  }

  lemma AtSplit(m: seq<byte>, pos: nat, a: seq<byte>, b: seq<byte>)
    requires At(m, pos, a + b)
    ensures At(m, pos, a) && At(m, pos + |a|, b)
  {
    var n := |a| + |b|;
    SliceSlice(m, pos, pos + n, 0, |a|);
    SliceSlice(m, pos, pos + n, |a|, n);
    assert (a + b)[0..|a|] == a && (a + b)[|a|..n] == b;
  }

  lemma AtJoin(m: seq<byte>, pos: nat, a: seq<byte>, b: seq<byte>)
    requires (a != [] ==> At(m, pos, a)) && At(m, pos + |a|, b)
    ensures At(m, pos, a + b)
  {
    var n := pos + |a| + |b|;
    assert m[pos..n] == m[pos..pos + |a|] + m[pos + |a|..n];
  }

  lemma AlignedDifference(a: int, b: int)
    requires a % 8 == 0 && b % 8 == 0
    ensures (a - b) % 8 == 0 && (a + b) % 8 == 0
  {
  }
}
