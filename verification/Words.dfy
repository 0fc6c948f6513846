/** Bytes, machine widths, little-endian words and writes into a buffer. */
module Words {

  type byte = x: int | 0 <= x < 256

  const TWO_32: nat := 0x1_0000_0000
  const TWO_64: nat := 0x1_0000_0000_0000_0000
  const INT_MAX: nat := 0x7fff_ffff

  datatype Option<+T> = None | Some(value: T)

  /** The `n` low-order bytes of `v`, least significant first. */
  function LittleEndian(v: nat, n: nat): (s: seq<byte>)
    ensures |s| == n
  {
    if n == 0 then [] else [v % 256] + LittleEndian(v / 256, n - 1)
  }

  function FromLittleEndian(s: seq<byte>): nat {
    if s == [] then 0 else s[0] + 256 * FromLittleEndian(s[1..])
  }

  function Pow256(n: nat): (p: nat)
    ensures p > 0
  {
    if n == 0 then 1 else 256 * Pow256(n - 1)
  }

  lemma {:induction false} LittleEndianRoundTrip(v: nat, n: nat)
    requires v < Pow256(n)
    ensures FromLittleEndian(LittleEndian(v, n)) == v
  {
    if n > 0 {
      LittleEndianRoundTrip(v / 256, n - 1);
      assert LittleEndian(v, n)[1..] == LittleEndian(v / 256, n - 1);
    }
  }

  lemma {:induction false} FromLittleEndianBound(s: seq<byte>)
    ensures FromLittleEndian(s) < Pow256(|s|)
  {
    if s != [] {
      FromLittleEndianBound(s[1..]);
    }
  }

  /** The buffer `s` after `bytes` was written at offset `at`. */
  function Splice(s: seq<byte>, at: nat, bytes: seq<byte>): (r: seq<byte>)
    requires at + |bytes| <= |s|
    ensures |r| == |s|
  {
    s[..at] + bytes + s[at + |bytes|..]
  }

  lemma SpliceNothing(s: seq<byte>, at: nat)
    requires at <= |s|
    ensures Splice(s, at, []) == s
  {
  }

  lemma SpliceSplice(s: seq<byte>, at: nat, a: seq<byte>, b: seq<byte>)
    requires at + |a| + |b| <= |s|
    ensures Splice(Splice(s, at, a), at + |a|, b) == Splice(s, at, a + b)
  {
  }

  /** One more piece is done: for loops that produce `all` piece by piece. */
  lemma PieceDone(all: seq<byte>, done: seq<byte>, piece: seq<byte>, rest: seq<byte>)
    requires done + (piece + rest) == all
    ensures (done + piece) + rest == all
    ensures |piece| <= |all|
  {
  }

  /** One more piece is written behind those already done. */
  lemma SpliceNext(s: seq<byte>, at: nat, all: seq<byte>, done: seq<byte>, piece: seq<byte>, rest: seq<byte>)
    requires done + (piece + rest) == all && at + |all| <= |s|
    ensures (done + piece) + rest == all
    ensures |done| + |piece| <= |all|
    ensures Splice(Splice(s, at, done), at + |done|, piece) == Splice(s, at, done + piece)
  {
    PieceDone(all, done, piece, rest);
    SpliceSplice(s, at, done, piece);
  }

  lemma Associate<T>(a: seq<T>, b: seq<T>, c: seq<T>)
    ensures (a + b) + c == a + (b + c)
  {
  }

  lemma SpliceRead(s: seq<byte>, at: nat, b: seq<byte>)
    requires at + |b| <= |s|
    ensures Splice(s, at, b)[at..at + |b|] == b
  {
  }

  lemma SpliceAt(s: seq<byte>, at: nat, b: seq<byte>, i: nat)
    requires at + |b| <= |s| && i < |s|
    ensures Splice(s, at, b)[i] == if at <= i < at + |b| then b[i - at] else s[i]
  {
  }

  /**
   * Writing a body behind a gap, moving it to where a prefix `p` ends and then
   * writing the prefix is the same as writing both in order.
   */
  lemma SpliceShifted(s: seq<byte>, at: nat, gap: nat, p: seq<byte>, b: seq<byte>)
    requires gap <= |p| && at + |p| + |b| <= |s|
    ensures Splice(Splice(Splice(s, at + gap, b), at + |p|, b), at, p) == Splice(s, at, p + b)
    ensures gap == |p| ==> Splice(Splice(s, at + gap, b), at, p) == Splice(s, at, p + b)
  {
    var s1 := Splice(s, at + gap, b);
    var s2 := Splice(s1, at + |p|, b);
    forall i | 0 <= i < |s|
      ensures Splice(s2, at, p)[i] == Splice(s, at, p + b)[i]
      ensures gap == |p| ==> Splice(s1, at, p)[i] == Splice(s, at, p + b)[i]
    {
      SpliceAt(s, at + gap, b, i);
      SpliceAt(s1, at + |p|, b, i);
      SpliceAt(s1, at, p, i);
      SpliceAt(s2, at, p, i);
      SpliceAt(s, at, p + b, i);
    }
  }

  lemma ModUnique(x: nat, m: nat, q: nat, r: nat)
    requires r < m && x == m * q + r
    ensures x / m == q && x % m == r
  {
    var d := x / m - q;
    assert m * d == r - x % m by {
      assert x == m * (x / m) + x % m;
      assert m * d == m * (x / m) - m * q;
    }
    assert 0 - m < m * d < m;
  }

  // ---- digits

  lemma DivDiv(v: nat, p: nat)
    requires p > 0
    ensures v / 256 / p == v / (256 * p)
  {
    var q, r := v / 256 / p, v / 256 % p;
    assert v / 256 == p * q + r;
    assert v == (256 * p) * q + (256 * r + v % 256);
    ModUnique(v, 256 * p, q, 256 * r + v % 256);
  }

  /** Byte i of a number. */
  function Digit(v: nat, i: nat): nat {
    v / Pow256(i) % 256
  }

  lemma NextDigit(v: nat, i: nat)
    ensures Digit(v / 256, i) == Digit(v, i + 1) && Digit(v, 0) == v % 256
  {
    DivDiv(v, Pow256(i));
    assert Pow256(0) == 1;
  }

  /** The bytes written are the digits, the lowest first. */
  lemma {:induction false} LittleEndianDigits(v: nat, n: nat)
    ensures |LittleEndian(v, n)| == n
    ensures forall i :: 0 <= i < n ==> LittleEndian(v, n)[i] == Digit(v, i)
  {
    if n > 0 {
      LittleEndianDigits(v / 256, n - 1);
      hide Digit;
      NextDigit(v, 0);
      forall i | 0 <= i < n
        ensures LittleEndian(v, n)[i] == Digit(v, i)
      {
        if i > 0 { NextDigit(v, i - 1); }
      }
    }
  }

  // ---- powers of two

  function Pow2(n: nat): (p: nat)
    ensures p > 0
  {
    if n == 0 then 1 else 2 * Pow2(n - 1)
  }

  lemma {:induction false} Pow2Sum(a: nat, b: nat)
    ensures Pow2(a + b) == Pow2(a) * Pow2(b)
  {
    if a > 0 {
      Pow2Sum(a - 1, b);
      DoubleProduct(Pow2(a - 1), Pow2(b));
    }
  }

  lemma DoubleProduct(x: int, y: int)
    ensures (2 * x) * y == 2 * (x * y) == x * (2 * y)
  {
  }

  lemma {:induction false} Pow2Monotone(a: nat, b: nat)
    requires a <= b
    ensures Pow2(a) <= Pow2(b)
    decreases b
  {
    if a < b { Pow2Monotone(a, b - 1); }
  }
}
