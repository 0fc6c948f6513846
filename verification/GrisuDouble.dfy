/** grisu3: from the bits of a double to the scaled boundaries digit generation works on. */
module GrisuDouble {
  import opened Words
  import opened DiyFloats
  import opened Grisu

  /** Number of shifts to set the top bit. */
  function Headroom(f: nat): (k: nat)
    requires 0 < f < TWO_64
    decreases TWO_64 - f
  {
    if f >= TWO_63 then 0 else 1 + Headroom(2 * f)
  }

  lemma {:induction false} HeadroomShift(f: nat)
    requires 0 < f < TWO_64
    ensures TWO_63 <= f * Pow2(Headroom(f)) < TWO_64
    decreases TWO_64 - f
  {
    if f < TWO_63 {
      HeadroomShift(2 * f);
      DoubleProduct(f, Pow2(Headroom(2 * f)));
    }
  }

  /** There is only one shift that sets the top bit. */
  lemma ShiftUnique(f: nat, a: nat, b: nat)
    requires TWO_63 <= f * Pow2(a) < TWO_64 && TWO_63 <= f * Pow2(b) < TWO_64
    ensures a == b
  {
    if a < b { ShiftsDiffer(f, a, b); }
    if b < a { ShiftsDiffer(f, b, a); }
  }

  lemma ShiftsDiffer(f: nat, a: nat, b: nat)
    requires a < b
    ensures f * Pow2(b) >= 2 * (f * Pow2(a))
  {
    Pow2Monotone(a + 1, b);
    DoubleProduct(f, Pow2(a));
    MulMonotone(f, f, Pow2(a + 1), Pow2(b));
  }

  /** A positive finite double scaled so that its top bit is set, and the points halfway to its neighbours at the same scale. */
  function Middle(u: nat): DiyFp
    requires Finite(u) && u > 0
  {
    var x := FromBits(u);
    DiyFp(x.f * Pow2(Headroom(x.f)), x.e - Headroom(x.f))
  }

  /** Is the lower neighbour only half as far away? */
  predicate LowerIsCloser(u: nat) {
    u % TWO_52 == 0 && u / TWO_52 % 2048 != 0
  }

  /** Half of the distance to the upper neighbour, at the scale of Middle. */
  function HalfGap(u: nat): nat
    requires Finite(u) && u > 0
  {
    Pow2(Headroom(FromBits(u).f)) / 2
  }

  function Upper(u: nat): DiyFp
    requires Finite(u) && u > 0
  {
    Middle(u).(f := Middle(u).f + HalfGap(u))
  }

  function Lower(u: nat): DiyFp
    requires Finite(u) && u > 0
  {
    var gap := if LowerIsCloser(u) then HalfGap(u) / 2 else HalfGap(u);
    if Middle(u).f >= gap then Middle(u).(f := Middle(u).f - gap) else Middle(u)
  }

  lemma ScaleFacts(u: nat)
    requires Finite(u) && u > 0
    ensures var x := FromBits(u); 0 < x.f < TWO_53 && Headroom(x.f) >= 11
    ensures var k := Headroom(FromBits(u).f);
            Pow2(k) == 4 * Pow2(k - 2) == 2 * Pow2(k - 1) && Pow2(k - 2) >= 512 && HalfGap(u) == Pow2(k - 1)
    ensures TWO_63 <= Middle(u).f && Middle(u).f + 2 * HalfGap(u) <= TWO_64
  {
    FromBitsCanonical(u);
    JoinFromBits(u);
    var f := FromBits(u).f;
    assert f > 0;
    var k := Headroom(f);
    HeadroomShift(f);
    TenBits();
    if k < 11 {
      Pow2Monotone(k, 10);
      MulMonotone(f, 0x1f_ffff_ffff_ffff, Pow2(k), 1024);
    }
    assert Pow2(k) == 2 * Pow2(k - 1) && Pow2(k - 1) == 2 * Pow2(k - 2);
    Pow2Monotone(9, k - 2);
    assert Pow2(10) == 2 * Pow2(9);
    RoomAbove(f, k);
  }

  /** The next multiple of a power of two after one below 2^64 is no more than 2^64. */
  lemma RoomAbove(f: nat, k: nat)
    requires 0 < f && f * Pow2(k) < TWO_64
    ensures (f + 1) * Pow2(k) <= TWO_64 && (f + 1) * Pow2(k) == f * Pow2(k) + Pow2(k)
  {
    Pow2At64();
    if k > 64 { ShiftedFar(f, k); }
    Pow2Sum(64 - k, k);
    NextMultiple(f, Pow2(64 - k), Pow2(k));
  }

  lemma ShiftedFar(f: nat, k: nat)
    requires 0 < f && k >= 64
    ensures f * Pow2(k) >= Pow2(64)
  {
    Pow2Monotone(64, k);
    MulMonotone(1, f, Pow2(64), Pow2(k));
  }

  lemma NextMultiple(f: nat, q: nat, p: nat)
    requires f * p < q * p
    ensures (f + 1) * p <= q * p && (f + 1) * p == f * p + p
  {
    if f >= q { MulMonotone(q, f, p, p); }
    MulMonotone(f + 1, q, p, p);
  }

  lemma Pow2At64()
    ensures Pow2(64) == TWO_64
  {
    Pow2At63();
  }

  /** Doubling and stepping aside keeps the point within the top binade: the shift is one less. */
  lemma UpperShift(f: nat, k: nat, p: nat)
    requires k > 0 && p == Pow2(k - 1) && TWO_63 <= f * Pow2(k) && f * Pow2(k) + Pow2(k) <= TWO_64
    ensures (2 * f + 1) * p == f * Pow2(k) + p && TWO_63 <= (2 * f + 1) * p < TWO_64
    ensures 0 < 2 * f + 1 < TWO_64 && f > 0 ==> (2 * f - 1) * p == f * Pow2(k) - p
  {
    assert Pow2(k) == 2 * p;
    DoubleProduct(f, p);
    assert (2 * f + 1) * p == 2 * f * p + p;
    assert (2 * f - 1) * p == 2 * f * p - p;
  }

  // ---- scaling by the cached power of ten

  /** Multiply, as a rounded quotient. */
  function Scaled(x: nat, c: nat): nat { (x * c + TWO_63) / 0x1_0000_0000_0000_0000 }

  lemma RoundedQuotients(a: nat, b: nat)
    requires a <= b
    ensures (a + TWO_63) / 0x1_0000_0000_0000_0000 <= (b + TWO_63) / 0x1_0000_0000_0000_0000
    ensures b - a >= 3 * 0x1_0000_0000_0000_0000 ==>
              (b + TWO_63) / 0x1_0000_0000_0000_0000 - (a + TWO_63) / 0x1_0000_0000_0000_0000 >= 2
    ensures a >= 0x1_0000_0000_0000_0000 ==> (a + TWO_63) / 0x1_0000_0000_0000_0000 >= 1
    ensures b + TWO_63 < 0xffff_ffff_ffff_ffff * 0x1_0000_0000_0000_0000 ==>
              (b + TWO_63) / 0x1_0000_0000_0000_0000 < 0xffff_ffff_ffff_ffff
  {
  }

  /** After scaling, the interval is ordered, at least two units wide and clear of both ends of the 64-bit range. */
  lemma ScaledInterval(minus: nat, w: nat, plus: nat, c: nat)
    requires minus <= w <= plus <= 0xffff_ffff_ffff_fc00 && minus >= 0x4000_0000_0000_0000 && plus - minus >= 768
    requires TWO_63 <= c < TWO_64
    ensures 1 <= Scaled(minus, c) <= Scaled(w, c) <= Scaled(plus, c) < TWO_64 - 1
    ensures Scaled(plus, c) - Scaled(minus, c) >= 2
  {
    MulMonotone(minus, w, c, c);
    MulMonotone(w, plus, c, c);
    MulMonotone(768, plus - minus, 0x8000_0000_0000_0000, c);
    assert (plus - minus) * c == plus * c - minus * c;
    MulMonotone(0x4000_0000_0000_0000, minus, 0x8000_0000_0000_0000, c);
    MulMonotone(plus, 0xffff_ffff_ffff_fc00, c, 0xffff_ffff_ffff_ffff);
    RoundedQuotients(minus * c, w * c);
    RoundedQuotients(w * c, plus * c);
    RoundedQuotients(minus * c, plus * c);
  }

  /** The boundaries computed by grisu3 before scaling. */
  method Boundaries(u: nat) returns (minus: DiyFp, w: DiyFp, plus: DiyFp)
    requires Finite(u) && u > 0
    ensures minus == Lower(u) && w == Middle(u) && plus == Upper(u)
  {
    hide FromBits, Pow2, Headroom;
    var dfp := FromBits(u);
    ScaleFacts(u);
    ghost var k := Headroom(dfp.f);
    HeadroomShift(dfp.f);
    w := Normalize(dfp);
    ShiftUnique(dfp.f, k, dfp.e - w.e);
    var t := DiyFp(dfp.f * 2 + 1, dfp.e - 1);
    UpperShift(dfp.f, k, Pow2(k - 1));
    plus := Normalize(t);
    ShiftUnique(t.f, k - 1, t.e - plus.e);
    BoundaryRange(u);
    if LowerIsCloser(u) {
      minus := DiyFp(dfp.f * 4 - 1, dfp.e - 2);
      QuarterShift(dfp.f, Pow2(k), Pow2(k - 2));
    } else {
      minus := DiyFp(dfp.f * 2 - 1, dfp.e - 1);
    }
    minus := DiyFp(minus.f * Pow2(minus.e - plus.e), plus.e);
  }

  lemma QuarterShift(f: nat, p: nat, q: nat)
    requires p == 4 * q && f > 0
    ensures (f * 4 - 1) * q == f * p - q
  {
    DoubleProduct(f, 2 * q);
    DoubleProduct(2 * f, q);
    assert (4 * f - 1) * q == 4 * f * q - q;
  }

  // ---- the boundaries are where decimals start to round to another double

  /** A number at the scale of exponent e. */
  function ValueAt(x: DiyFp, e: int): nat
    requires x.e >= e
  {
    x.f * Pow2(x.e - e)
  }

  lemma NextDouble(u: nat)
    requires Finite(u)
    ensures var x, y := FromBits(u), FromBits(u + 1);
            (y.e == x.e && y.f == x.f + 1) || (y.e == x.e + 1 && 2 * y.f == x.f + 1)
    ensures FromBits(u + 1).e == FromBits(u).e + 1 <==> (u + 1) % TWO_52 == 0 && u + 1 != TWO_52
  {
  }

  lemma Neighbours(f: nat, g: nat, p: nat)
    ensures g == f + 1 ==> g * p == f * p + p
    ensures 2 * g == f + 1 ==> g * (2 * p) == f * p + p
    ensures g == 2 * f - 1 ==> g * p == f * (2 * p) - p
  {
    NextProduct(f, p);
    if 2 * g == f + 1 {
      DoubleProduct(g, p);
    }
    if g == 2 * f - 1 {
      DoubleProduct(f, p);
      NextProduct(2 * f - 1, p);
    }
  }

  lemma NextProduct(x: int, p: nat)
    ensures (x + 1) * p == x * p + p
  {
  }

  /** The upper boundary is the midpoint between a double and the next one. */
  lemma UpperIsMidpoint(u: nat)
    requires Finite(u) && u > 0
    ensures FromBits(u + 1).e >= Middle(u).e
    ensures 2 * Upper(u).f == Middle(u).f + ValueAt(FromBits(u + 1), Middle(u).e)
  {
    hide FromBits, Headroom;
    ScaleFacts(u);
    NextDouble(u);
    var x, y, k := FromBits(u), FromBits(u + 1), Headroom(FromBits(u).f);
    Neighbours(x.f, y.f, Pow2(k));
    assert Pow2(k + 1) == 2 * Pow2(k);
  }

  /** The previous double, at the scale of this one. */
  lemma PreviousValue(u: nat)
    requires Finite(u) && u > 0
    ensures FromBits(u - 1).e >= Middle(u).e && Headroom(FromBits(u).f) >= 11
    ensures var k := Headroom(FromBits(u).f);
            ValueAt(FromBits(u - 1), Middle(u).e) ==
            Middle(u).f - if u % TWO_52 == 0 && u != TWO_52 then Pow2(k - 1) else Pow2(k)
  {
    hide FromBits, Headroom;
    ScaleFacts(u);
    NextDouble(u - 1);
    var x, y, k := FromBits(u), FromBits(u - 1), Headroom(FromBits(u).f);
    if y.e == x.e {
      Neighbours(y.f, x.f, Pow2(k));
    } else {
      Neighbours(x.f, y.f, Pow2(k - 1));
    }
  }

  lemma LowerGap(u: nat)
    requires Finite(u) && u > 0
    ensures Headroom(FromBits(u).f) >= 11
    ensures var k := Headroom(FromBits(u).f);
            Lower(u).f == Middle(u).f - if u % TWO_52 == 0 then Pow2(k - 2) else Pow2(k - 1)
  {
    hide FromBits, Headroom, Pow2;
    ScaleFacts(u);
    Closeness(u);
    BoundaryRange(u);
  }

  /** The lower boundary is the midpoint to the previous double, except for the smallest normal double. */
  lemma LowerIsMidpoint(u: nat)
    requires Finite(u) && u > 0
    ensures FromBits(u - 1).e >= Middle(u).e
    ensures 2 * Lower(u).f == Middle(u).f + ValueAt(FromBits(u - 1), Middle(u).e) <==> u != TWO_52
  {
    hide FromBits, Headroom, Pow2, Lower, Middle, ValueAt, LowerIsCloser;
    ScaleFacts(u);
    PreviousValue(u);
    LowerGap(u);
  }

  lemma Closeness(u: nat)
    requires Finite(u) && u > 0
    ensures LowerIsCloser(u) <==> u % TWO_52 == 0
  {
  }

  // ---- the whole conversion

  /**
   * grisu3, given the cached power of ten c with decimal exponent mk that brings the
   * exponent of the scaled number into the range digit generation expects.
   */
  method Grisu3(u: nat, c: DiyFp, mk: int, buffer: array<int>) returns (ok: bool, length: nat, dExp: int)
    requires Finite(u) && u > 0 && TWO_63 <= c.f < TWO_64 && buffer.Length >= 28
    requires -60 <= Middle(u).e + c.e + 64 <= -32
    modifies buffer
    ensures 1 <= length <= 28 && AllDigits(buffer[..length])
    ensures Outcome(Scaled(Lower(u).f, c.f), Scaled(Middle(u).f, c.f), Scaled(Upper(u).f, c.f),
                    Pow2(-(Middle(u).e + c.e + 64)), dExp + mk, Number(buffer[..length]), ok)
  {
    hide Outcome, Multiply, AllDigits, Number, Scaled, Lower, Middle, Upper, Pow2, Finite;
    var minus, w, plus := Boundaries(u);
    ScaleFacts(u);
    BoundaryRange(u);
    ScaledInterval(minus.f, w.f, plus.f, c.f);
    ScaledProduct(w, c);
    ScaledProduct(minus, c);
    ScaledProduct(plus, c);
    var kappa;
    ok, length, kappa := DigitGen(Multiply(minus, c), Multiply(w, c), Multiply(plus, c), buffer);
    dExp := kappa - mk;
  }

  lemma ScaledProduct(x: DiyFp, c: DiyFp)
    requires x.f < TWO_64 && c.f < TWO_64
    ensures Multiply(x, c) == DiyFp(Scaled(x.f, c.f), x.e + c.e + 64)
  {
    MultiplyRounds(x, c);
  }

  lemma BoundaryRange(u: nat)
    requires Finite(u) && u > 0
    ensures Lower(u).e == Middle(u).e == Upper(u).e
    ensures 0x4000_0000_0000_0000 <= Lower(u).f <= Middle(u).f <= Upper(u).f <= 0xffff_ffff_ffff_fc00
    ensures Upper(u).f - Lower(u).f >= 768
  {
    ScaleFacts(u);
    GapSmall(u);
  }

  lemma GapSmall(u: nat)
    requires Finite(u) && u > 0
    ensures HalfGap(u) <= 0x4000_0000_0000_0000
  {
    var f, k := FromBits(u).f, Headroom(FromBits(u).f);
    ScaleFacts(u);
    HeadroomShift(f);
    if k > 63 { ShiftedFar(f, k); Pow2At64(); }
    Pow2At63();
    Pow2Monotone(k, 63);
  }
}
