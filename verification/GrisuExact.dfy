/**
 * From the scaled interval back to the double: if the cached power of ten is the exact one
 * rounded to its last place, what is printed lies strictly between the midpoints of the
 * double and its neighbours.
 */
module GrisuExact {
  import opened Words
  import opened DiyFloats
  import opened Grisu
  import opened GrisuDouble

  // ---- products of reals

  function Prod(x: real, y: real): real { x * y }

  lemma ProdPositive(x: real, y: real)
    requires x > 0.0 && y > 0.0
    ensures Prod(x, y) > 0.0
  {
  }

  lemma ProdRegroup(x: real, y: real, z: real)
    ensures Prod(Prod(x, y), z) == Prod(x, Prod(y, z)) && Prod(x, y) == Prod(y, x)
  {
    ProdAssoc(x, y, z);
  }

  lemma ProdAssoc(x: real, y: real, z: real)
    ensures (x * y) * z == x * (y * z)
  {
  }

  lemma ProdOne(x: real)
    ensures Prod(1.0, x) == x == Prod(x, 1.0)
  {
  }

  /** A positive factor keeps the order, strictly. */
  lemma ProdOrder(x: real, y: real, z: real)
    requires z > 0.0
    ensures x < y <==> Prod(x, z) < Prod(y, z)
    ensures x == y <==> Prod(x, z) == Prod(y, z)
  {
    var d := y - x;
    assert y * z == x * z + d * z;
    if d > 0.0 { ProdPositive(d, z); }
    if d < 0.0 { ProdPositive(-d, z); assert (-d) * z == -(d * z); }
  }

  // ---- real powers

  function Power(b: real, k: int): (p: real)
    requires b > 0.0
    ensures p > 0.0
    decreases if k < 0 then -k else k
  {
    if k == 0 then 1.0
    else if k > 0 then ProdPositive(b, Power(b, k - 1)); Prod(b, Power(b, k - 1))
    else Power(b, k + 1) / b
  }

  lemma PowerNext(b: real, k: int)
    requires b > 0.0
    ensures Power(b, k + 1) == Prod(b, Power(b, k))
  {
  }

  lemma PowerZero(b: real)
    requires b > 0.0
    ensures Power(b, 0) == 1.0
  {
  }

  lemma {:induction false} PowerSum(b: real, j: int, k: int)
    requires b > 0.0
    ensures Power(b, j + k) == Prod(Power(b, j), Power(b, k))
    decreases if j < 0 then -j else j
  {
    if j == 0 {
      ProdOne(Power(b, k));
    } else {
      hide Power, Prod;
      if j > 0 {
        PowerSum(b, j - 1, k);
        PowerNext(b, j - 1);
        PowerNext(b, j - 1 + k);
        ProdRegroup(b, Power(b, j - 1), Power(b, k));
        assert j - 1 + k + 1 == j + k && j - 1 + 1 == j;
      } else {
        PowerSum(b, j + 1, k);
        PowerNext(b, j);
        PowerNext(b, j + k);
        assert j + 1 + k == j + k + 1;
        ProdRegroup(b, Power(b, j), Power(b, k));
        ProdRegroup(b, Power(b, j + k), 1.0);
        ProdRegroup(b, Prod(Power(b, j), Power(b, k)), 1.0);
        ProdOrder(Power(b, j + k), Prod(Power(b, j), Power(b, k)), b);
      }
    }
  }

  lemma {:induction false} TwoPower(k: nat)
    ensures Power(2.0, k) == Pow2(k) as real
  {
    if k > 0 { TwoPower(k - 1); }
  }

  lemma {:induction false} TenPower(k: nat)
    ensures Power(10.0, k) == Pow10(k) as real
  {
    if k > 0 { TenPower(k - 1); }
  }

  /** The number f * 2^e. */
  function Value(x: DiyFp): real {
    Prod(x.f as real, Power(2.0, x.e))
  }

  const FRACTIONS: real := 4503599627370496.0   // 2^52

  lemma Pow2At52()
    ensures Pow2(52) == 0x10_0000_0000_0000
  {
    TenBits();
    Pow2Sum(10, 10);
    Pow2Sum(20, 20);
    Pow2Sum(40, 10);
    assert Pow2(52) == 2 * (2 * Pow2(50));
  }

  lemma FractionsIsPower()
    ensures Power(2.0, 52) == FRACTIONS
  {
    hide Power, Pow2;
    TwoPower(52);
    Pow2At52();
  }

  lemma FractionMoved(x: real, e: int)
    ensures Prod(x / FRACTIONS, Power(2.0, e + 52)) == Prod(x, Power(2.0, e))
  {
    hide Power;
    FractionsIsPower();
    PowerSum(2.0, 52, e);
    ProdRegroup(x / FRACTIONS, FRACTIONS, Power(2.0, e));
  }

  /** The number a bit pattern stands for in IEEE 754: 1.fraction or, in denormals, 0.fraction, times a power of two. */
  lemma DoubleValue(u: nat)
    requires Finite(u)
    ensures var field, fraction := u / 0x10_0000_0000_0000, (u % 0x10_0000_0000_0000) as real;
            Value(FromBits(u)) == if field == 0 then Prod(fraction / FRACTIONS, Power(2.0, -1022))
                                  else Prod(1.0 + fraction / FRACTIONS, Power(2.0, field - 1023))
  {
    hide Power, Prod;
    var x := FromBits(u);
    FractionMoved(x.f as real, x.e);
  }

  /** c is 10^mk within half a unit of its last place. */
  predicate HalfUnit(c: DiyFp, mk: int) {
    Power(10.0, mk) - Power(2.0, c.e) / 2.0 <= Value(c) <= Power(10.0, mk) + Power(2.0, c.e) / 2.0
  }

  // ---- from the double to the scale of digit generation

  const WORD: real := 18446744073709551616.0   // 2^64

  /** Rounding once for the product and once for the power of ten moves a boundary by less than a unit. */
  lemma ScaledBounds(x: nat, c: nat, t: real)
    requires x < TWO_64 && c as real - 0.5 <= t <= c as real + 0.5
    ensures Prod(Scaled(x, c) as real - 1.0, WORD) < Prod(x as real, t) < Prod(Scaled(x, c) as real + 1.0, WORD)
  {
    hide Scaled, Prod;
    var q, product, half := Scaled(x, c) as real, Prod(x as real, c as real), 9223372036854775808.0;
    RoundedReal(x, c);
    HalfError(x as real, c as real, t);
    Shift(q - 1.0, 1.0);
    Shift(q, 1.0);
  }

  lemma Shift(q: real, d: real)
    ensures Prod(q + d, WORD) == Prod(q, WORD) + Prod(d, WORD) && Prod(1.0, WORD) == WORD
  {
  }

  lemma RoundedReal(x: nat, c: nat)
    ensures Prod(Scaled(x, c) as real, WORD) <= Prod(x as real, c as real) + 9223372036854775808.0
    ensures Prod(x as real, c as real) + 9223372036854775808.0 < Prod(Scaled(x, c) as real, WORD) + WORD
  {
    hide Scaled;
    RoundedQuotient(x, c);
    ProductCast(x, c);
    var q := Scaled(x, c);
    assert (0x1_0000_0000_0000_0000 * q) as real == Prod(q as real, WORD);
  }

  lemma RoundedQuotient(x: nat, c: nat)
    ensures 0x1_0000_0000_0000_0000 * Scaled(x, c) <= x * c + TWO_63 < 0x1_0000_0000_0000_0000 * (Scaled(x, c) + 1)
  {
    ProductPositive(x, c);
  }

  lemma ProductPositive(x: nat, c: nat)
    ensures x * c >= 0
  {
  }

  lemma NotNegative(x: real, y: real)
    requires x >= 0.0 && y >= 0.0
    ensures x * y >= 0.0
  {
  }

  lemma HalfError(x: real, c: real, t: real)
    requires x >= 0.0 && c - 0.5 <= t <= c + 0.5
    ensures Prod(x, c) - x / 2.0 <= Prod(x, t) <= Prod(x, c) + x / 2.0
  {
    var d := t - c;
    assert x * t == x * c + x * d;
    NotNegative(x, 0.5 - d);
    NotNegative(x, 0.5 + d);
    assert x * (0.5 - d) == x / 2.0 - x * d && x * (0.5 + d) == x / 2.0 + x * d;
  }

  /** The printed number, at the scale of digit generation. */
  lemma PrintedScaled(low: nat, w: nat, high: nat, s: nat, kappa: int, number: int)
    requires Printed(low, w, high, Pow2(s), kappa, number)
    ensures low as real + 3.0 <= Prod(number as real, Prod(Power(10.0, kappa), Power(2.0, s))) <= high as real - 1.0
  {
    hide Shortest, Closest, Power;
    TwoPower(s);
    var a, p, n := Power(10.0, kappa), Power(2.0, s), number as real;
    if kappa > 0 {
      TenPower(kappa);
      ProductCast(Pow10(kappa), Pow2(s));
      ProductCast(number, Pow10(kappa) * Pow2(s));
    } else {
      TenPower(-kappa);
      var b := Power(10.0, -kappa);
      ProductCast(low + 3, Pow10(-kappa));
      ProductCast(high - 1, Pow10(-kappa));
      ProductCast(number, Pow2(s));
      TenCancels(kappa);
      Cancelled(n, a, p, b);
      ProdOrder((low + 3) as real, Prod(n, Prod(a, p)), b);
      ProdOrder(Prod(n, Prod(a, p)), (high - 1) as real, b);
    }
  }

  lemma ProductCast(x: int, y: int)
    ensures Times(x, if y >= 0 then y else 0) == x * (if y >= 0 then y else 0)
    ensures (x * y) as real == Prod(x as real, y as real)
  {
  }

  lemma TenCancels(kappa: int)
    ensures Prod(Power(10.0, kappa), Power(10.0, -kappa)) == 1.0
  {
    PowerSum(10.0, kappa, -kappa);
  }

  lemma Cancelled(n: real, a: real, p: real, b: real)
    requires Prod(a, b) == 1.0
    ensures Prod(Prod(n, Prod(a, p)), b) == Prod(n, p)
  {
    hide Prod;
    ProdRegroup(n, Prod(a, p), b);
    ProdRegroup(p, a, b);
    ProdRegroup(a, p, b);
    ProdOne(p);
    ProdRegroup(p, 1.0, 1.0);
  }

  // ---- and back

  /** Exchanging the inner factors of a product of products. */
  lemma ProdSwap(a: real, b: real, c: real, d: real)
    ensures Prod(Prod(a, b), Prod(c, d)) == Prod(Prod(a, c), Prod(b, d))
  {
    hide Prod;
    ProdRegroup(a, b, Prod(c, d));
    ProdRegroup(b, c, d);
    ProdRegroup(c, b, d);
    ProdRegroup(a, c, Prod(b, d));
  }

  /** The exact power of ten, measured in units of the cached one. */
  function Exact(c: DiyFp, mk: int): real {
    Prod(Power(10.0, mk), Power(2.0, -c.e))
  }

  /** What takes numbers at the scale of digit generation back. */
  function Unscale(c: DiyFp, mk: int, e: int): (g: real)
    ensures g > 0.0
  {
    ProdPositive(Power(10.0, -mk), Power(2.0, c.e));
    ProdPositive(Power(2.0, e), Prod(Power(10.0, -mk), Power(2.0, c.e)));
    Prod(Power(2.0, e), Prod(Power(10.0, -mk), Power(2.0, c.e)))
  }

  lemma PowerCancels(b: real, k: int)
    requires b > 0.0
    ensures Prod(Power(b, k), Power(b, -k)) == 1.0 == Prod(Power(b, -k), Power(b, k))
  {
    PowerSum(b, k, -k);
    PowerSum(b, -k, k);
  }

  lemma ExactClose(c: DiyFp, mk: int)
    requires HalfUnit(c, mk)
    ensures c.f as real - 0.5 <= Exact(c, mk) <= c.f as real + 0.5
  {
    var t, q, f := Exact(c, mk), Power(2.0, c.e), c.f as real;
    ExactUnits(c, mk);
    HalfSteps(f, q);
    hide Prod, Power, Exact;
    ProdOrder(t, f - 0.5, q);
    ProdOrder(f + 0.5, t, q);
  }

  lemma ExactUnits(c: DiyFp, mk: int)
    ensures Prod(Exact(c, mk), Power(2.0, c.e)) == Power(10.0, mk)
  {
    hide Prod, Power;
    PowerCancels(2.0, c.e);
    ProdRegroup(Power(10.0, mk), Power(2.0, -c.e), Power(2.0, c.e));
    ProdOne(Power(10.0, mk));
    ProdRegroup(Power(10.0, mk), 1.0, 1.0);
  }

  lemma HalfSteps(f: real, q: real)
    ensures Prod(f - 0.5, q) == Prod(f, q) - q / 2.0 && Prod(f + 0.5, q) == Prod(f, q) + q / 2.0
  {
  }

  /** A boundary comes back as the number it is. */
  lemma BoundaryBack(x: real, c: DiyFp, mk: int, e: int)
    ensures Prod(Prod(x, Exact(c, mk)), Unscale(c, mk, e)) == Prod(x, Power(2.0, e))
  {
    var t, ti, q, qi, p := Power(10.0, mk), Power(10.0, -mk), Power(2.0, c.e), Power(2.0, -c.e), Power(2.0, e);
    PowerCancels(10.0, mk);
    PowerCancels(2.0, c.e);
    hide Prod, Power;
    ProdSwap(t, qi, ti, q);
    ProdOne(1.0);
    ProdOne(p);
    ProdRegroup(Prod(t, qi), p, Prod(ti, q));
    ProdRegroup(p, Prod(t, qi), Prod(ti, q));
    ProdRegroup(x, Prod(t, qi), Unscale(c, mk, e));
  }

  /** The printed number comes back as digits times a power of ten. */
  lemma PrintedBack(n: real, c: DiyFp, mk: int, e: int, s: nat, kappa: int)
    requires s == -(e + c.e + 64)
    ensures Prod(Prod(Prod(n, Prod(Power(10.0, kappa), Power(2.0, s))), WORD), Unscale(c, mk, e)) ==
            Prod(n, Power(10.0, kappa - mk))
  {
    var a, ti, p, q, r := Power(10.0, kappa), Power(10.0, -mk), Power(2.0, s), Power(2.0, c.e), Power(2.0, e);
    WordIsPower();
    AllTwos(s, c.e, e);
    PowerSum(10.0, kappa, -mk);
    assert kappa + -mk == kappa - mk;
    hide Prod, Power;
    ProdRegroup(r, ti, q);
    ProdRegroup(ti, r, q);
    assert Unscale(c, mk, e) == Prod(ti, Prod(r, q)) by { hide Prod; }
    ProdRegroup(n, Prod(a, p), WORD);
    ProdRegroup(a, p, WORD);
    ProdRegroup(n, Prod(a, Prod(p, WORD)), Prod(ti, Prod(r, q)));
    ProdSwap(a, Prod(p, WORD), ti, Prod(r, q));
    ProdOne(Prod(a, ti));
  }

  lemma WordIsPower()
    ensures Power(2.0, 64) == WORD
  {
    TwoPower(64);
    Pow2At64();
  }

  lemma AllTwos(s: nat, ce: int, e: int)
    requires s == -(e + ce + 64)
    ensures Prod(Prod(Power(2.0, s), WORD), Prod(Power(2.0, e), Power(2.0, ce))) == 1.0
  {
    hide Power, Prod;
    WordIsPower();
    PowerSum(2.0, s, 64);
    PowerSum(2.0, e, ce);
    PowerSum(2.0, s + 64, e + ce);
    assert s + 64 + (e + ce) == 0;
    PowerZero(2.0);
  }

  /** What is printed lies strictly between the exact boundaries of the double. */
  lemma PrintedInside(u: nat, c: DiyFp, mk: int, kappa: int, number: int)
    requires Finite(u) && u > 0 && TWO_63 <= c.f < TWO_64 && HalfUnit(c, mk)
    requires Middle(u).e + c.e + 64 <= 0
    requires Printed(Scaled(Lower(u).f, c.f), Scaled(Middle(u).f, c.f), Scaled(Upper(u).f, c.f),
                     Pow2(-(Middle(u).e + c.e + 64)), kappa, number)
    ensures Value(Lower(u)) < Prod(number as real, Power(10.0, kappa - mk)) < Value(Upper(u))
  {
    var e, l, h := Middle(u).e, Lower(u).f, Upper(u).f;
    var s := -(e + c.e + 64);
    BoundaryRange(u);
    ExactClose(c, mk);
    ScaledBounds(l, c.f, Exact(c, mk));
    ScaledBounds(h, c.f, Exact(c, mk));
    PrintedScaled(Scaled(l, c.f), Scaled(Middle(u).f, c.f), Scaled(h, c.f), s, kappa, number);
    var y := Prod(number as real, Prod(Power(10.0, kappa), Power(2.0, s)));
    BoundaryBack(l as real, c, mk, e);
    BoundaryBack(h as real, c, mk, e);
    PrintedBack(number as real, c, mk, e, s, kappa);
    hide Prod, Power, Scaled, Printed, Middle, Lower, Upper, Exact, Unscale, HalfUnit;
    ProdOrder(Scaled(l, c.f) as real + 1.0, y, WORD);
    ProdOrder(y, Scaled(h, c.f) as real - 1.0, WORD);
    ProdOrder(Scaled(h, c.f) as real - 1.0, y, WORD);
    ProdOrder(Prod(l as real, Exact(c, mk)), Prod(y, WORD), Unscale(c, mk, e));
    ProdOrder(Prod(y, WORD), Prod(h as real, Exact(c, mk)), Unscale(c, mk, e));
  }

  lemma ValueMoved(x: DiyFp, e: int)
    requires x.e >= e
    ensures Value(x) == Prod(ValueAt(x, e) as real, Power(2.0, e))
  {
    TwoPower(x.e - e);
    PowerSum(2.0, x.e - e, e);
    ProductCast(x.f, Pow2(x.e - e));
    hide Prod, Power, Pow2;
    ProdRegroup(x.f as real, Power(2.0, x.e - e), Power(2.0, e));
  }

  /**
   * What is printed lies strictly between the midpoints of the double and its neighbours, so
   * that the double is the one nearest to it.
   */
  lemma PrintedNearest(u: nat, c: DiyFp, mk: int, kappa: int, number: int)
    requires Finite(u) && u > 0 && TWO_63 <= c.f < TWO_64 && HalfUnit(c, mk)
    requires Middle(u).e + c.e + 64 <= 0
    requires Printed(Scaled(Lower(u).f, c.f), Scaled(Middle(u).f, c.f), Scaled(Upper(u).f, c.f),
                     Pow2(-(Middle(u).e + c.e + 64)), kappa, number)
    ensures var x := Prod(number as real, Power(10.0, kappa - mk));
            Value(FromBits(u - 1)) + Value(FromBits(u)) < 2.0 * x < Value(FromBits(u)) + Value(FromBits(u + 1))
  {
    hide Printed, Scaled, HalfUnit, Prod, Power, FromBits, Middle, Lower, Upper, ValueAt;
    PrintedInside(u, c, mk, kappa, number);
    Midpoints(u);
  }

  /** Twice a boundary, against the sum of the double and its neighbour. */
  lemma Midpoints(u: nat)
    requires Finite(u) && u > 0
    ensures Value(FromBits(u - 1)) + Value(FromBits(u)) <= 2.0 * Value(Lower(u))
    ensures Value(FromBits(u)) + Value(FromBits(u + 1)) == 2.0 * Value(Upper(u))
  {
    var e := Middle(u).e;
    UpperIsMidpoint(u);
    LowerAbove(u);
    BoundaryRange(u);
    MiddleValue(u);
    ValueMoved(FromBits(u - 1), e);
    ValueMoved(FromBits(u + 1), e);
    hide FromBits, Middle, Lower, Upper, ValueAt, Power;
    Sums(Middle(u).f, ValueAt(FromBits(u + 1), e), Upper(u).f, Power(2.0, e));
    Sums(Middle(u).f, ValueAt(FromBits(u - 1), e), Lower(u).f, Power(2.0, e));
  }

  lemma Sums(x: nat, y: nat, z: nat, p: real)
    requires p > 0.0
    ensures 2 * z == x + y ==> 2.0 * Prod(z as real, p) == Prod(x as real, p) + Prod(y as real, p)
    ensures 2 * z >= x + y ==> 2.0 * Prod(z as real, p) >= Prod(x as real, p) + Prod(y as real, p)
  {
    var d := 2 * z - x - y;
    assert 2.0 * (z as real * p) == x as real * p + y as real * p + d as real * p by {
      assert d as real == 2.0 * (z as real) - x as real - y as real;
    }
    if d >= 0 { NotNegative(d as real, p); }
  }

  lemma MiddleValue(u: nat)
    requires Finite(u) && u > 0
    ensures Value(Middle(u)) == Value(FromBits(u))
  {
    ScaleFacts(u);
    ValueMoved(FromBits(u), Middle(u).e);
  }

  lemma LowerAbove(u: nat)
    requires Finite(u) && u > 0
    ensures FromBits(u - 1).e >= Middle(u).e
    ensures 2 * Lower(u).f >= Middle(u).f + ValueAt(FromBits(u - 1), Middle(u).e)
  {
    hide FromBits, Headroom, Pow2, Lower, Middle, ValueAt, LowerIsCloser;
    ScaleFacts(u);
    PreviousValue(u);
    LowerGap(u);
  }
}
