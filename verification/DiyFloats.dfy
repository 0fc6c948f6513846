/**
 * Extended floating-point numbers f * 2^e with a 64-bit f, as grisu3_math.h computes
 * with them, and the bits of a double. A double is its 64-bit pattern.
 */
module DiyFloats {
  import opened Words

  datatype DiyFp = DiyFp(f: nat, e: int)

  const TWO_52: nat := 0x10_0000_0000_0000
  const TWO_53: nat := 0x20_0000_0000_0000
  const TWO_63: nat := 0x8000_0000_0000_0000
  const EXP_BIAS: int := 1075
  const DENORM_EXP: int := -1074

  lemma MulMonotone(a: nat, b: nat, c: nat, d: nat)
    requires a <= b && c <= d
    ensures a * c <= b * d
  {
    assert a * c <= b * c;
    assert b * c <= b * d;
  }

  // ---- multiplication

  /** x >> 32 and x & 0xffffffff */
  function High(x: nat): nat { x / 0x1_0000_0000 }
  function Low(x: nat): nat { x % 0x1_0000_0000 }

  function Mul(a: nat, b: nat): nat { a * b }

  /** grisu3_diy_fp_multiply */
  function Multiply(x: DiyFp, y: DiyFp): DiyFp {
    var a, b, c, d := High(x.f), Low(x.f), High(y.f), Low(y.f);
    var ac, bc, ad, bd := Mul(a, c), Mul(b, c), Mul(a, d), Mul(b, d);
    var tmp := High(bd) + Low(ad) + Low(bc) + 0x8000_0000;
    DiyFp(ac + High(ad) + High(bc) + High(tmp), x.e + y.e + 64)
  }

  /** The product of two numbers from their 32-bit halves. */
  lemma Halves(a: nat, b: nat, c: nat, d: nat)
    ensures (0x1_0000_0000 * a + b) * (0x1_0000_0000 * c + d) ==
            0x1_0000_0000_0000_0000 * (a * c) + 0x1_0000_0000 * (a * d) + 0x1_0000_0000 * (b * c) + b * d
  {
    var y := 0x1_0000_0000 * c + d;
    assert (0x1_0000_0000 * a + b) * y == 0x1_0000_0000 * (a * y) + b * y;
    assert a * y == 0x1_0000_0000 * (a * c) + a * d;
    assert b * y == 0x1_0000_0000 * (b * c) + b * d;
  }

  /** Division by 2^64 of a sum of partial products. */
  lemma CarriedSum(ac: nat, ad: nat, bc: nat, bd: nat)
    ensures var tmp := High(bd) + Low(ad) + Low(bc) + 0x8000_0000;
            (0x1_0000_0000_0000_0000 * ac + 0x1_0000_0000 * ad + 0x1_0000_0000 * bc + bd + TWO_63) / 0x1_0000_0000_0000_0000 ==
            ac + High(ad) + High(bc) + High(tmp)
  {
    var tmp := High(bd) + Low(ad) + Low(bc) + 0x8000_0000;
    ModUnique(0x1_0000_0000_0000_0000 * ac + 0x1_0000_0000 * ad + 0x1_0000_0000 * bc + bd + TWO_63,
              0x1_0000_0000_0000_0000, ac + High(ad) + High(bc) + High(tmp), 0x1_0000_0000 * Low(tmp) + Low(bd));
  }

  /** Multiplication is exact up to rounding to nearest at 2^64, and no intermediate value overflows 64 bits. */
  lemma MultiplyRounds(x: DiyFp, y: DiyFp)
    requires x.f < TWO_64 && y.f < TWO_64
    ensures Multiply(x, y).f == (x.f * y.f + TWO_63) / TWO_64 < TWO_64 && Multiply(x, y).e == x.e + y.e + 64
    ensures Mul(High(x.f), High(y.f)) < TWO_64 && Mul(Low(x.f), High(y.f)) < TWO_64
    ensures Mul(High(x.f), Low(y.f)) < TWO_64 && Mul(Low(x.f), Low(y.f)) < TWO_64
  {
    var a, b, c, d := High(x.f), Low(x.f), High(y.f), Low(y.f);
    Halves(a, b, c, d);
    CarriedSum(a * c, a * d, b * c, b * d);
    MulMonotone(a, 0xffff_ffff, c, 0xffff_ffff);
    MulMonotone(b, 0xffff_ffff, c, 0xffff_ffff);
    MulMonotone(a, 0xffff_ffff, d, 0xffff_ffff);
    MulMonotone(b, 0xffff_ffff, d, 0xffff_ffff);
    MulMonotone(x.f, 0xffff_ffff_ffff_ffff, y.f, 0xffff_ffff_ffff_ffff);
    assert 0x1_0000_0000 * a + b == x.f && 0x1_0000_0000 * c + d == y.f;
  }

  // ---- values

  /** x and y stand for the same number f * 2^e. */
  predicate SameValue(x: DiyFp, y: DiyFp) {
    if x.e >= y.e then y.f == x.f * Pow2(x.e - y.e) else x.f == y.f * Pow2(y.e - x.e)
  }

  /** Doubling f and decrementing e. */
  lemma Doubled(x: DiyFp, y: DiyFp)
    requires SameValue(x, y)
    ensures SameValue(x, DiyFp(2 * y.f, y.e - 1))
  {
    if x.e >= y.e {
      assert Pow2(x.e - y.e + 1) == 2 * Pow2(x.e - y.e);
      DoubleProduct(x.f, Pow2(x.e - y.e));
    } else {
      assert Pow2(y.e - x.e) == 2 * Pow2(y.e - x.e - 1);
      DoubleProduct(y.f, Pow2(y.e - x.e - 1));
      if y.e - 1 == x.e { assert Pow2(0) == 1; }
    }
  }

  /** Halving f loses nothing when the number has a representation with smaller f. */
  lemma Halved(x: DiyFp, y: DiyFp)
    requires SameValue(x, y) && x.f < y.f
    ensures SameValue(x, DiyFp(y.f / 2, y.e + 1))
  {
    if x.e > y.e {
      assert Pow2(x.e - y.e) == 2 * Pow2(x.e - y.e - 1);
      DoubleProduct(x.f, Pow2(x.e - y.e - 1));
    } else {
      MulMonotone(y.f, y.f, 1, Pow2(y.e - x.e));
    }
  }

  /** grisu3_diy_fp_normalize: the value is kept and the top bit set. */
  method Normalize(n: DiyFp) returns (r: DiyFp)
    requires 0 < n.f < TWO_64
    ensures TWO_63 <= r.f < TWO_64 && r.e <= n.e && r.f == n.f * Pow2(n.e - r.e)
  {
    r := n;
    while r.f < 0x40_0000_0000_0000
      invariant 0 < r.f < TWO_64 && r.e <= n.e && r.f == n.f * Pow2(n.e - r.e)
      decreases TWO_64 - r.f
    {
      Pow2Sum(10, n.e - r.e);
      TenBits();
      Shifted(n.f, Pow2(n.e - r.e));
      r := DiyFp(r.f * 1024, r.e - 10);
    }
    while r.f < TWO_63
      invariant 0 < r.f < TWO_64 && r.e <= n.e && r.f == n.f * Pow2(n.e - r.e)
      decreases TWO_64 - r.f
    {
      DoubleProduct(n.f, Pow2(n.e - r.e));
      r := DiyFp(r.f * 2, r.e - 1);
    }
  }

  lemma TenBits()
    ensures Pow2(10) == 1024
  {
    assert Pow2(2) == 2 * (2 * Pow2(0));
    assert Pow2(4) == 2 * (2 * Pow2(2));
    assert Pow2(6) == 2 * (2 * Pow2(4));
    assert Pow2(8) == 2 * (2 * Pow2(6));
    assert Pow2(10) == 2 * (2 * Pow2(8));
  }

  lemma Shifted(x: nat, p: nat)
    ensures x * (1024 * p) == (x * p) * 1024
  {
  }

  // ---- the bits of a double

  /** Sign bit clear, exponent field not all ones. */
  predicate Finite(u: nat) { u < 2047 * TWO_52 }

  /** grisu3_cast_diy_fp_from_double, of the bit pattern u. */
  function FromBits(u: nat): DiyFp {
    var field := u / 0x10_0000_0000_0000 % 2048;
    if field == 0 then DiyFp(u % 0x10_0000_0000_0000, 1 - EXP_BIAS)
    else DiyFp(u % 0x10_0000_0000_0000 + 0x10_0000_0000_0000, field - EXP_BIAS)
  }

  /** The one pair (f, e) a double of this value is made of. */
  predicate Canonical(x: DiyFp) {
    x.f < TWO_53 && x.e >= DENORM_EXP && (x.e == DENORM_EXP || x.f >= TWO_52)
  }

  lemma CanonicalUnique(x: DiyFp, y: DiyFp)
    requires Canonical(x) && Canonical(y) && SameValue(x, y)
    ensures x == y
  {
    if x.e > y.e {
      assert Pow2(x.e - y.e) == 2 * Pow2(x.e - y.e - 1);
      MulMonotone(x.f, x.f, 2, Pow2(x.e - y.e));
    } else if x.e < y.e {
      assert Pow2(y.e - x.e) == 2 * Pow2(y.e - x.e - 1);
      MulMonotone(y.f, y.f, 2, Pow2(y.e - x.e));
    }
  }

  lemma FromBitsCanonical(u: nat)
    requires Finite(u)
    ensures Canonical(FromBits(u))
  {
  }

  /** Joining fraction and exponent field of a canonical number. */
  function Join(v: DiyFp): nat
    requires v.e >= DENORM_EXP
  {
    v.f % 0x10_0000_0000_0000
    + 0x10_0000_0000_0000 * (if v.e == DENORM_EXP && v.f < TWO_52 then 0 else v.e + EXP_BIAS)
  }

  lemma JoinFromBits(u: nat)
    requires Finite(u)
    ensures FromBits(u).e >= DENORM_EXP && Join(FromBits(u)) == u
  {
  }

  /** How often f is halved to fit into 53 bits. */
  function Excess(f: nat): nat {
    if f < TWO_53 then 0 else 1 + Excess(f / 2)
  }

  ghost predicate KeepsValues(n: DiyFp, v: DiyFp) {
    forall u: nat :: Finite(u) && SameValue(FromBits(u), n) ==> SameValue(FromBits(u), v)
  }

  /**
   * grisu3_cast_double_from_diy_fp. For a number that is the value of a finite double, the
   * bits of that double come out if and only if the exponent after fitting f into 53 bits
   * is not below that of the denormals; otherwise the result is 0.
   */
  method ToBits(n: DiyFp) returns (bits: nat)
    requires n.f < TWO_64
    ensures forall u: nat :: Finite(u) && SameValue(FromBits(u), n) ==>
              (bits == u <==> n.f == 0 || n.e + Excess(n.f) >= DENORM_EXP)
  {
    var v := n;
    while v.f >= TWO_53
      invariant KeepsValues(n, v) && v.e + Excess(v.f) == n.e + Excess(n.f) && (v.f == 0 <==> n.f == 0)
      decreases v.f
    {
      forall u: nat | Finite(u) && SameValue(FromBits(u), n)
        ensures SameValue(FromBits(u), DiyFp(v.f / 2, v.e + 1))
      {
        FromBitsCanonical(u);
        Halved(FromBits(u), v);
      }
      v := DiyFp(v.f / 2, v.e + 1);
    }
    if v.e < DENORM_EXP {
      forall u: nat | Finite(u) && SameValue(FromBits(u), n)
        ensures u == 0 <==> n.f == 0
      {
        ZeroBits(u, n);
      }
      return 0;
    }
    while v.e > DENORM_EXP && v.f < TWO_52
      invariant KeepsValues(n, v) && v.e >= DENORM_EXP && v.f < TWO_53
      decreases v.e - DENORM_EXP
    {
      forall u: nat | Finite(u) && SameValue(FromBits(u), n)
        ensures SameValue(FromBits(u), DiyFp(2 * v.f, v.e - 1))
      {
        Doubled(FromBits(u), v);
      }
      v := DiyFp(2 * v.f, v.e - 1);
    }
    bits := Join(v);
    forall u: nat | Finite(u) && SameValue(FromBits(u), n)
      ensures bits == u
    {
      FromBitsCanonical(u);
      CanonicalUnique(FromBits(u), v);
      JoinFromBits(u);
    }
  }

  lemma ZeroBits(u: nat, n: DiyFp)
    requires Finite(u) && SameValue(FromBits(u), n)
    ensures u == 0 <==> n.f == 0
  {
    var x := FromBits(u);
    if x.e >= n.e {
      if x.f > 0 { MulMonotone(1, x.f, 1, Pow2(x.e - n.e)); }
    } else {
      if n.f > 0 { MulMonotone(1, n.f, 1, Pow2(n.e - x.e)); }
    }
  }

  /** Splitting and rebuilding the bits of any non-negative finite double is the identity. */
  method SplitAndRebuild(u: nat) returns (bits: nat)
    requires Finite(u)
    ensures bits == u
  {
    bits := ToBits(FromBits(u));
    FromBitsCanonical(u);
    assert Pow2(0) == 1;
  }

  /** A normalized denormal does not survive: its exponent is far below that of the denormals. */
  lemma DenormalLost()
    ensures SameValue(FromBits(1), DiyFp(TWO_63, DENORM_EXP - 63)) && DENORM_EXP - 63 + Excess(TWO_63) < DENORM_EXP
  {
    hide Pow2, Excess;
    Pow2At63();
    Excess11();
  }

  lemma Pow2At63()
    ensures Pow2(63) == TWO_63
  {
    TenBits();
    Pow2Sum(10, 10);
    Pow2Sum(20, 20);
    Pow2Sum(40, 20);
    assert Pow2(63) == 2 * (2 * (2 * Pow2(60)));
  }

  lemma Excess11()
    ensures Excess(TWO_63) == 11
  {
    assert Excess(0x40_0000_0000_0000) == 2;
    assert Excess(0x100_0000_0000_0000) == 4;
    assert Excess(0x400_0000_0000_0000) == 6;
    assert Excess(0x1000_0000_0000_0000) == 8;
    assert Excess(0x4000_0000_0000_0000) == 10;
  }
}
