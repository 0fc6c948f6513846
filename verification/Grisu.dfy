/** Digit generation of the Grisu3 printer: grisu3_digit_gen and grisu3_round_weed. */
module Grisu {
  import opened Words
  import opened DiyFloats

  const ZERO: int := 48   // '0'

  function Pow10(n: nat): (p: nat)
    ensures p > 0
  {
    if n == 0 then 1 else 10 * Pow10(n - 1)
  }

  lemma Pow10Values()
    ensures Pow10(0) == 1 && Pow10(1) == 10 && Pow10(2) == 100 && Pow10(3) == 1000 && Pow10(4) == 10000
    ensures Pow10(5) == 100000 && Pow10(6) == 1000000 && Pow10(7) == 10000000 && Pow10(8) == 100000000
    ensures Pow10(9) == 1000000000 && Pow10(10) == 10000000000
  {
    assert Pow10(2) == 10 * (10 * Pow10(0));
    assert Pow10(4) == 10 * (10 * Pow10(2));
    assert Pow10(6) == 10 * (10 * Pow10(4));
    assert Pow10(8) == 10 * (10 * Pow10(6));
    assert Pow10(10) == 10 * (10 * Pow10(8));
  }

  lemma Pow2Values()
    ensures Pow2(4) == 0x10 && Pow2(5) == 0x20 && Pow2(6) == 0x40 && Pow2(7) == 0x80 && Pow2(8) == 0x100
    ensures Pow2(9) == 0x200 && Pow2(10) == 0x400 && Pow2(11) == 0x800 && Pow2(12) == 0x1000 && Pow2(13) == 0x2000
    ensures Pow2(14) == 0x4000 && Pow2(15) == 0x8000 && Pow2(16) == 0x1_0000 && Pow2(17) == 0x2_0000
    ensures Pow2(18) == 0x4_0000 && Pow2(19) == 0x8_0000 && Pow2(20) == 0x10_0000 && Pow2(21) == 0x20_0000
    ensures Pow2(22) == 0x40_0000 && Pow2(23) == 0x80_0000 && Pow2(24) == 0x100_0000 && Pow2(25) == 0x200_0000
    ensures Pow2(26) == 0x400_0000 && Pow2(27) == 0x800_0000 && Pow2(28) == 0x1000_0000 && Pow2(29) == 0x2000_0000
    ensures Pow2(30) == 0x4000_0000 && Pow2(31) == 0x8000_0000 && Pow2(32) == 0x1_0000_0000
  {
    assert Pow2(2) == 2 * (2 * Pow2(0));
    assert Pow2(4) == 2 * (2 * Pow2(2));
    assert Pow2(6) == 2 * (2 * Pow2(4));
    assert Pow2(8) == 2 * (2 * Pow2(6));
    assert Pow2(10) == 2 * (2 * Pow2(8));
    assert Pow2(12) == 2 * (2 * Pow2(10));
    assert Pow2(14) == 2 * (2 * Pow2(12));
    assert Pow2(16) == 2 * (2 * Pow2(14));
    assert Pow2(18) == 2 * (2 * Pow2(16));
    assert Pow2(20) == 2 * (2 * Pow2(18));
    assert Pow2(22) == 2 * (2 * Pow2(20));
    assert Pow2(24) == 2 * (2 * Pow2(22));
    assert Pow2(26) == 2 * (2 * Pow2(24));
    assert Pow2(28) == 2 * (2 * Pow2(26));
    assert Pow2(30) == 2 * (2 * Pow2(28));
    assert Pow2(32) == 2 * (2 * Pow2(30));
  }

  /** grisu3_pow10_cache: entry i is 10^(i-1), entry 0 is 0. */
  function Pow10Cache(i: nat): nat {
    if i == 0 then 0 else Pow10(i - 1)
  }

  /** grisu3_largest_pow10 */
  method LargestPow10(n: nat, nBits: nat) returns (kappa: nat, power: nat)
    requires 4 <= nBits <= 32 && n < Pow2(nBits)
    ensures 1 <= kappa <= 10 && power == Pow10(kappa - 1)
    ensures n < Pow10(kappa) && power < Pow2(nBits)
    ensures n >= Pow2(nBits - 1) ==> n >= power
  {
    Pow10Values();
    Pow2Values();
    assert Pow2(4) == 2 * Pow2(3);
    var guess := (nBits + 1) * 1233 / 4096 + 1;
    hide Pow10, Pow2;
    assert 2 <= guess <= 10;
    assert Pow2(nBits) <= Pow10(guess) && Pow10(guess - 2) <= Pow2(nBits - 1) && Pow10(guess - 2) < Pow2(nBits);
    if n < Pow10Cache(guess) {
      guess := guess - 1;
    }
    kappa, power := guess, Pow10Cache(guess);
  }

  // ---- weeding

  function Gap(a: int, b: int): nat { if a < b then b - a else a - b }

  function Times(m: int, cell: nat): int { m * cell }

  /** A point i steps away. */
  function Away(rest: int, step: nat, i: int): int { rest + Times(i, step) }

  /**
   * Distances are measured downwards from the upper end of an interval of length delta.
   * Of all points a multiple of step away from the one at distance rest and inside the
   * interval, that one is a nearest to every point at most ulp away from the one at distance target.
   */
  ghost predicate Nearest(target: nat, ulp: nat, delta: nat, step: nat, rest: nat) {
    forall x: int, i: int ::
      target - ulp <= x <= target + ulp && 0 <= Away(rest, step, i) <= delta ==>
        Gap(rest, x) <= Gap(Away(rest, step, i), x)
  }

  /** The loop condition of the weeding: one step further does not lead away from the point at distance near. */
  predicate StepNearer(near: int, delta: nat, step: nat, rest: nat) {
    rest < near && delta - rest >= step && (rest + step < near || near - rest >= rest + step - near)
  }

  /** The final condition: one step further leads nearer to the point at distance far. */
  predicate Undecided(far: int, delta: nat, step: nat, rest: nat) {
    rest < far && delta - rest >= step && (rest + step < far || far - rest > rest + step - far)
  }

  lemma StepNearerGap(near: nat, delta: nat, step: nat, rest: nat)
    requires step > 0 && rest <= delta
    ensures StepNearer(near, delta, step, rest) <==> rest + step <= delta && Gap(rest + step, near) <= Gap(rest, near)
  {
  }

  lemma UndecidedGap(far: nat, delta: nat, step: nat, rest: nat)
    requires step > 0 && rest <= delta
    ensures Undecided(far, delta, step, rest) <==> rest + step <= delta && Gap(rest + step, far) < Gap(rest, far)
  {
  }

  /** The weeding stops after that many steps: each of them leads no further away from the point at distance near, the next one would. */
  ghost predicate StopsAfter(near: int, delta: nat, start: nat, step: nat, steps: nat) {
    && Away(start, step, steps) <= delta
    && (forall i :: 0 <= i < steps ==> Gap(Away(start, step, i + 1), near) <= Gap(Away(start, step, i), near))
    && !(Away(start, step, steps + 1) <= delta && Gap(Away(start, step, steps + 1), near) <= Gap(Away(start, step, steps), near))
  }

  /** The i-th point lies in the safe interval and is strictly nearer than any other to each point at most ulp from the target. */
  ghost predicate Unrivalled(target: nat, ulp: nat, delta: nat, start: nat, step: nat, i: nat) {
    && 2 * ulp <= Away(start, step, i) <= delta - 4 * ulp
    && forall j: int, x: int ::
         j != i && 0 <= Away(start, step, j) <= delta && target - ulp <= x <= target + ulp ==>
           Gap(Away(start, step, i), x) < Gap(Away(start, step, j), x)
  }

  /** Such a point is where the weeding stops. */
  lemma UnrivalledFound(target: nat, ulp: nat, delta: nat, start: nat, step: nat, steps: nat, i: nat)
    requires 0 < ulp <= target && step > 0 && Unrivalled(target, ulp, delta, start, step, i)
    requires StopsAfter(target - ulp, delta, start, step, steps)
    ensures steps == i
    ensures Away(start, step, i + 1) <= delta ==> Gap(Away(start, step, i), target + ulp) < Gap(Away(start, step, i + 1), target + ulp)
  {
    var near := target - ulp;
    StepsAway(start, step, i);
    StepsAway(start, step, steps);
    AwayFollows(start, step, 0, i);
    AwayFollows(start, step, 0, steps);
    if steps > i {
      AwayFollows(start, step, i + 1, steps);
      Rival(target, ulp, delta, start, step, i, i + 1, near);
    } else if steps < i {
      AwayFollows(start, step, steps + 1, i);
      Rival(target, ulp, delta, start, step, i, steps, near);
    } else if Away(start, step, i + 1) <= delta {
      Rival(target, ulp, delta, start, step, i, i + 1, target + ulp);
    }
    hide Away;
  }

  lemma Rival(target: nat, ulp: nat, delta: nat, start: nat, step: nat, i: nat, j: int, x: int)
    requires Unrivalled(target, ulp, delta, start, step, i)
    requires j != i && 0 <= Away(start, step, j) <= delta && target - ulp <= x <= target + ulp
    ensures Gap(Away(start, step, i), x) < Gap(Away(start, step, j), x)
  {
  }

  lemma AwayFollows(start: nat, step: nat, i: int, j: int)
    ensures i <= j ==> Away(start, step, i) <= Away(start, step, j)
    ensures Away(start, step, 0) == start
  {
    if i <= j { TimesApart(i, j, step); }
    ZeroTimes(step);
  }

  /** No point a step or more away is nearer. */
  lemma NoNearer(near: int, far: int, delta: nat, step: nat, rest: nat, x: int, other: int)
    requires near <= x <= far && step > 0 && rest <= delta
    requires rest < step || StepNearer(near, delta, step, rest - step)
    requires !Undecided(far, delta, step, rest)
    requires rest + step <= other <= delta || 0 <= other <= rest - step || other == rest
    ensures Gap(rest, x) <= Gap(other, x)
  {
  }

  lemma NearestByNeighbours(target: nat, ulp: nat, delta: nat, step: nat, rest: nat)
    requires ulp <= target && step > 0 && rest <= delta
    requires rest < step || StepNearer(target - ulp, delta, step, rest - step)
    requires !Undecided(target + ulp, delta, step, rest)
    ensures Nearest(target, ulp, delta, step, rest)
  {
    hide Undecided, StepNearer, Gap;
    forall x: int, i: int | target - ulp <= x <= target + ulp && 0 <= Away(rest, step, i) <= delta
      ensures Gap(rest, x) <= Gap(Away(rest, step, i), x)
    {
      StepsAway(rest, step, i);
      NoNearer(target - ulp, target + ulp, delta, step, rest, x, Away(rest, step, i));
    }
  }

  lemma StepsAway(rest: nat, step: nat, i: int)
    ensures i > 0 ==> Away(rest, step, i) >= rest + step
    ensures i < 0 ==> Away(rest, step, i) <= rest - step
    ensures i == 0 ==> Away(rest, step, i) == rest
    ensures Away(rest, step, i + 1) == Away(rest, step, i) + step
  {
    NextTimes(i, step);
    ZeroTimes(step);
    if i > 0 {
      TimesApart(0, i, step);
    } else if i < 0 {
      TimesApart(i, 0, step);
    }
    hide Times;
  }

  lemma NextTimes(i: int, step: nat)
    ensures Times(i + 1, step) == Times(i, step) + step
  {
  }

  lemma ZeroTimes(step: nat)
    ensures Times(0, step) == 0
  {
  }

  /**
   * grisu3_round_weed. The last digit is counted down while that leads nearer to the
   * wanted value; `steps` says how often.
   */
  method RoundWeed(buffer: array<int>, len: nat, target: nat, delta: nat, start: nat, tenKappa: nat, ulp: nat)
    returns (ok: bool, ghost steps: nat)
    requires 0 < len <= buffer.Length && ZERO <= buffer[len - 1] <= ZERO + 9
    requires 0 < ulp <= target && target + ulp <= delta < TWO_64 && 4 * ulp <= delta
    requires start < delta && start < tenKappa
    requires Away(start, tenKappa, buffer[len - 1] - ZERO) >= delta   // with digit 0 generation would have ended earlier
    modifies buffer
    ensures ZERO <= buffer[len - 1] == old(buffer[len - 1]) - steps
    ensures forall i :: 0 <= i < buffer.Length && i != len - 1 ==> buffer[i] == old(buffer[i])
    ensures ok ==> 2 * ulp <= Away(start, tenKappa, steps) <= delta - 4 * ulp
    ensures ok ==> Nearest(target, ulp, delta, tenKappa, Away(start, tenKappa, steps))
    ensures StopsAfter(target - ulp, delta, start, tenKappa, steps)
    ensures ok <==>
              && 2 * ulp <= Away(start, tenKappa, steps) <= delta - 4 * ulp
              && !(Away(start, tenKappa, steps + 1) <= delta
                   && Gap(Away(start, tenKappa, steps + 1), target + ulp) < Gap(Away(start, tenKappa, steps), target + ulp))
  {
    hide Away, Nearest, Undecided, StepNearer, Gap;
    ghost var digit := buffer[len - 1] - ZERO;
    var up, down, rest := target - ulp, target + ulp, start;
    steps := 0;
    StepsAway(start, tenKappa, 0);
    StepNearerGap(up, delta, tenKappa, rest);
    while StepNearer(up, delta, tenKappa, rest)
      invariant rest == Away(start, tenKappa, steps) && rest <= delta
      invariant steps <= digit && buffer[len - 1] == ZERO + digit - steps
      invariant forall i :: 0 <= i < buffer.Length && i != len - 1 ==> buffer[i] == old(buffer[i])
      invariant rest < tenKappa || StepNearer(up, delta, tenKappa, rest - tenKappa)
      invariant forall i :: 0 <= i < steps ==> Gap(Away(start, tenKappa, i + 1), up) <= Gap(Away(start, tenKappa, i), up)
      invariant StepNearer(up, delta, tenKappa, rest) <==>
                  rest + tenKappa <= delta && Gap(rest + tenKappa, up) <= Gap(rest, up)
      decreases delta - rest
    {
      RoomToStep(up, delta, tenKappa, rest);
      assert steps < digit && rest + tenKappa < TWO_64;
      buffer[len - 1] := buffer[len - 1] - 1;
      StepsAway(start, tenKappa, steps);
      rest, steps := rest + tenKappa, steps + 1;
      StepNearerGap(up, delta, tenKappa, rest);
    }
    StepsAway(start, tenKappa, steps);
    UndecidedGap(down, delta, tenKappa, rest);
    if Undecided(down, delta, tenKappa, rest) {
      return false, steps;
    }
    NearestByNeighbours(target, ulp, delta, tenKappa, rest);
    ok := 2 * ulp <= rest <= delta - 4 * ulp;
  }

  lemma RoomToStep(near: int, delta: nat, step: nat, rest: nat)
    requires StepNearer(near, delta, step, rest)
    ensures rest + step <= delta
  {
  }

  // ---- what the digits stand for

  predicate AllDigits(b: seq<int>) {
    forall i :: 0 <= i < |b| ==> ZERO <= b[i] <= ZERO + 9
  }

  function Number(b: seq<int>): int {
    if b == [] then 0 else 10 * Number(b[..|b| - 1]) + (b[|b| - 1] - ZERO)
  }

  lemma NumberSnoc(b: seq<int>, d: int)
    ensures Number(b + [d]) == 10 * Number(b) + (d - ZERO)
  {
    assert (b + [d])[..|b|] == b;
  }

  /** Fixed-point numbers are scaled by this when kappa digits behind the point are looked at. */
  function Scale(kappa: int): (n: nat)
    ensures n > 0
  {
    if kappa < 0 then Pow10(-kappa) else 1
  }

  /** The scaled weight of the last of the digits down to 10^kappa; `one` is the fixed-point 1. */
  function Cell(kappa: int, one: nat): nat {
    if kappa > 0 then Pow10(kappa) * one else one
  }

  /** No multiple of the cell lies above lo and at or below hi. */
  ghost predicate NoMultiple(lo: int, hi: int, cell: nat) {
    forall m: nat :: !(lo < Times(m, cell) <= hi)
  }

  /** No decimal of fewer places than those down to 10^kappa lies above lo and at or below hi. */
  ghost predicate Shortest(lo: int, hi: int, one: nat, kappa: int) {
    forall k: int :: k > kappa ==> NoMultiple(Times(lo, Scale(k)), Times(hi, Scale(k)), Cell(k, one))
  }

  /** Of all multiples of the cell from lo to hi, the number-th is a nearest to every point within ulp of w. */
  ghost predicate Closest(number: int, cell: nat, lo: int, hi: int, w: int, ulp: nat) {
    forall x: int, m: int ::
      w - ulp <= x <= w + ulp && lo <= Times(m, cell) <= hi ==> Gap(Times(number, cell), x) <= Gap(Times(m, cell), x)
  }

  /** The largest multiple at or below hi is the only one that can lie above lo. */
  lemma RemainderDecides(lo: int, hi: int, cell: nat, q: nat, rest: nat)
    requires lo <= hi && hi == Times(q, cell) + rest && rest < cell && rest >= hi - lo
    ensures NoMultiple(lo, hi, cell)
  {
    hide Times;
    forall m: nat
      ensures !(lo < Times(m, cell) <= hi)
    {
      if m > q { TimesApart(q, m, cell); } else { TimesApart(m, q, cell); }
    }
  }

  lemma TimesApart(a: int, b: int, cell: nat)
    requires a <= b
    ensures Times(a, cell) <= Times(b, cell)
    ensures a < b ==> Times(a, cell) + cell <= Times(b, cell)
  {
    var d := b - a;
    assert b * cell == a * cell + d * cell;
    if d > 0 {
      assert d * cell == (d - 1) * cell + cell;
      assert (d - 1) * cell >= 0;
    }
  }

  lemma ClosestFromNearest(number: int, cell: nat, lo: int, hi: int, w: int, ulp: nat, rest: nat)
    requires lo <= hi && w <= hi && hi == Times(number, cell) + rest
    requires Nearest(hi - w, ulp, hi - lo, cell, rest)
    ensures Closest(number, cell, lo, hi, w, ulp)
  {
    forall x: int, m: int | w - ulp <= x <= w + ulp && lo <= Times(m, cell) <= hi
      ensures Gap(Times(number, cell), x) <= Gap(Times(m, cell), x)
    {
      assert Away(rest, cell, number - m) == hi - Times(m, cell) by {
        assert (number - m) * cell == number * cell - m * cell;
      }
      assert Gap(rest, hi - x) <= Gap(Away(rest, cell, number - m), hi - x);
    }
  }

  // ---- digit generation

  lemma TimesSum(a: int, b: int, c: nat)
    ensures Times(a + b, c) == Times(a, c) + Times(b, c)
  {
  }

  lemma TimesRegroup(a: int, b: nat, c: nat)
    ensures Times(Times(a, b), c) == Times(a, b * c) && b * c == Times(b, c) && b * c >= 0
    ensures Times(a, 10 * b) == Times(10 * a, b) == 10 * Times(a, b)
  {
  }

  lemma Division(x: nat, m: nat)
    requires m > 0
    ensures x == Times(x / m, m) + x % m && x % m < m
    ensures x < 10 * m ==> x / m <= 9
  {
    if x / m >= 10 { TimesApart(10, x / m, m); }
  }

  /** Quotient and remainder; for powers of two, a shift and a mask. */
  function Whole(x: nat, one: nat): nat
    requires one > 0
  {
    x / one
  }

  function Part(x: nat, one: nat): nat
    requires one > 0
  {
    x % one
  }

  /** Of the integer part p1 < 10^kappa one more digit is split off. */
  lemma IntegerDigit(value: nat, number: nat, ten: nat, div: nat, p1: nat, p2: nat, one: nat)
    requires div > 0 && ten == 10 * div && p1 < ten && p2 < one
    requires value == Times(Times(number, ten) + p1, one) + p2
    ensures Whole(p1, div) <= 9 && Part(p1, div) < div
    ensures value == Times(Times(10 * number + Whole(p1, div), div) + Part(p1, div), one) + p2
    ensures value == Times(10 * number + Whole(p1, div), Times(div, one)) + (Times(Part(p1, div), one) + p2)
    ensures Times(Part(p1, div), one) + p2 < Times(div, one)
    ensures Times(Part(p1, div), one) + p2 + Times(Whole(p1, div), Times(div, one)) == Times(p1, one) + p2
  {
    hide Times, Whole, Part;
    var d, r := Whole(p1, div), Part(p1, div);
    Quotient(p1, div);
    TimesRegroup(number, div, 0);
    TimesSum(10 * number, d, div);
    TimesSum(Times(10 * number + d, div), r, one);
    TimesRegroup(10 * number + d, div, one);
    TimesApart(r, div, one);
    TimesRegroup(d, div, one);
    TimesSum(Times(d, div), r, one);
  }

  lemma Quotient(x: nat, m: nat)
    requires m > 0
    ensures x == Times(Whole(x, m), m) + Part(x, m) && Part(x, m) < m
    ensures x < 10 * m ==> Whole(x, m) <= 9
  {
    Division(x, m);
  }

  /** Behind the point, one more digit is split off 10 * p2. */
  lemma FractionDigit(value: nat, number: nat, p2: nat, one: nat)
    requires p2 < one && value == Times(number, one) + p2
    ensures 10 * p2 / one <= 9
    ensures 10 * value == Times(10 * number + 10 * p2 / one, one) + 10 * p2 % one
    ensures 10 * p2 % one + Times(10 * p2 / one, one) == 10 * p2
  {
    Division(10 * p2, one);
    TimesRegroup(number, one, 0);
    TimesSum(10 * number, 10 * p2 / one, one);
    hide Times;
  }

  lemma {:induction false} Pow10Monotone(a: nat, b: nat)
    requires a <= b
    ensures Pow10(a) <= Pow10(b)
    decreases b
  {
    if a < b { Pow10Monotone(a, b - 1); }
  }

  /** Multiples of powers of ten beyond the number of digits: only zero is in range. */
  lemma NothingBeyond(lo: nat, hi: nat, one: nat, kappa: nat)
    requires lo <= hi && kappa > 0 && hi < Times(Pow10(kappa), one)
    ensures Shortest(lo, hi, one, kappa - 1)
  {
    hide Times, Pow10, NoMultiple;
    forall k: int | k > kappa - 1
      ensures NoMultiple(Times(lo, Scale(k)), Times(hi, Scale(k)), Cell(k, one))
    {
      Pow10Monotone(kappa, k);
      TimesApart(Pow10(kappa), Pow10(k), one);
      CellOf(k, one);
      UnitTimes(lo);
      UnitTimes(hi);
      ZeroTimes(Cell(k, one));
      RemainderDecides(lo, hi, Cell(k, one), 0, hi);
    }
  }

  lemma ShortestNext(lo: nat, hi: nat, one: nat, kappa: int)
    requires Shortest(lo, hi, one, kappa)
    requires NoMultiple(Times(lo, Scale(kappa)), Times(hi, Scale(kappa)), Cell(kappa, one))
    ensures Shortest(lo, hi, one, kappa - 1)
  {
  }

  /** While digits before the point are split off: number is printed, p1 and p2 are not yet. */
  ghost predicate IntegerPhase(hi: nat, lo: nat, one: nat, kappa: nat, number: int, p1: nat, p2: nat) {
    && lo <= hi && p1 < Pow10(kappa) && p2 < one
    && number >= 0 && hi == Times(Times(number, Pow10(kappa)) + p1, one) + p2
    && Times(p1, one) + p2 >= hi - lo
    && Shortest(lo, hi, one, kappa - 1)
  }

  /** Behind the point, everything is scaled by 10^-kappa. */
  ghost predicate FractionPhase(hi: nat, lo: nat, one: nat, kappa: int, number: int, p2: nat) {
    && lo <= hi && kappa <= 0 && p2 < one
    && number >= 0 && Times(hi, Scale(kappa)) == Times(number, one) + p2
    && p2 >= Times(hi - lo, Scale(kappa))
    && Shortest(lo, hi, one, kappa - 1)
  }

  /** One turn of the first loop; found says that the rest is inside the interval. */
  lemma IntegerTurn(hi: nat, lo: nat, one: nat, kappa: nat, number: int, p1: nat, p2: nat, div: nat)
    requires IntegerPhase(hi, lo, one, kappa, number, p1, p2) && kappa > 0 && div == Pow10(kappa - 1)
    ensures var d, r := Whole(p1, div), Part(p1, div);
            var rest := Times(r, one) + p2;
            && 0 <= d <= 9 && hi == Times(10 * number + d, Times(div, one)) + rest && rest < Times(div, one)
            && Away(rest, Times(div, one), d) >= hi - lo
            && Times(div, one) == Cell(kappa - 1, one)
            && (rest >= hi - lo ==> IntegerPhase(hi, lo, one, kappa - 1, 10 * number + d, r, p2))
  {
    hide Times, Shortest, NoMultiple, Away, Whole, Part;
    var d, r := Whole(p1, div), Part(p1, div);
    IntegerDigit(hi, number, Pow10(kappa), div, p1, p2, one);
    TimesTen(r, one);
    SplitOff(Times(r, one) + p2, Times(div, one), d);
    CellOf(kappa - 1, one);
    if Times(r, one) + p2 >= hi - lo {
      RemainderDecides(lo, hi, Times(div, one), 10 * number + d, Times(r, one) + p2);
      UnitTimes(lo);
      UnitTimes(hi);
      ShortestNext(lo, hi, one, kappa - 1);
    }
  }

  lemma SplitOff(rest: int, step: nat, d: int)
    ensures Away(rest, step, d) == rest + Times(d, step)
  {
  }

  lemma CellOf(kappa: nat, one: nat)
    ensures Cell(kappa, one) == Times(Pow10(kappa), one) && Scale(kappa) == 1
  {
  }

  lemma UnitTimes(x: int)
    ensures Times(x, 1) == x
  {
  }

  lemma ScaleNext(kappa: int)
    requires kappa <= 0
    ensures Scale(kappa - 1) == 10 * Scale(kappa)
  {
    var j := -kappa;
    assert Pow10(j + 1) == 10 * Pow10(j) && Pow10(0) == 1;
    assert Scale(kappa - 1) == Pow10(j + 1);
  }

  lemma FractionTurn(hi: nat, lo: nat, one: nat, kappa: int, number: int, p2: nat)
    requires FractionPhase(hi, lo, one, kappa, number, p2)
    ensures var d, r, unit := 10 * p2 / one, 10 * p2 % one, Scale(kappa - 1);
            && unit == 10 * Scale(kappa) && 0 <= d <= 9 && r < one
            && Times(hi, unit) == Times(10 * number + d, one) + r
            && Away(r, one, d) >= Times(hi - lo, unit) == Times(hi, unit) - Times(lo, unit)
            && Cell(kappa - 1, one) == one
            && (r >= Times(hi - lo, unit) ==> FractionPhase(hi, lo, one, kappa - 1, 10 * number + d, r))
  {
    hide Times, Shortest, NoMultiple, Away;
    var d, r, unit := 10 * p2 / one, 10 * p2 % one, Scale(kappa - 1);
    ScaleNext(kappa);
    TimesTen(hi, Scale(kappa));
    FractionDigit(Times(hi, Scale(kappa)), number, p2, one);
    Division(10 * p2, one);
    SplitOff(r, one, d);
    TimesTen(hi - lo, Scale(kappa));
    TimesSum(lo, hi - lo, unit);
    if r >= Times(hi - lo, unit) {
      TimesApart(lo, hi, unit);
      RemainderDecides(Times(lo, unit), Times(hi, unit), one, 10 * number + d, r);
      ShortestNext(lo, hi, one, kappa - 1);
    }
  }

  lemma TimesTen(x: int, scale: nat)
    ensures Times(x, 10 * scale) == 10 * Times(x, scale)
    ensures x >= 0 ==> Times(x, scale) >= 0
  {
  }

  /**
   * The printed number at 10^kappa: strictly between the boundaries by a margin of one unit
   * and more, of the fewest places, and nearest to every point within a unit of w.
   */
  ghost predicate Printed(low: nat, w: nat, high: nat, one: nat, kappa: int, number: int) {
    var cell, scale := Cell(kappa, one), Scale(kappa);
    && Times(low + 3, scale) <= Times(number, cell) <= Times(high - 1, scale)
    && Shortest(low - 1, high + 1, one, kappa)
    && Closest(number, cell, Times(low - 1, scale), Times(high + 1, scale), Times(w, scale), scale)
  }

  /**
   * The m-th multiple lies in the interval by the margin of Printed, and is strictly nearer
   * than any other multiple in the interval to every point within a unit of w.
   */
  ghost predicate Certain(low: nat, w: nat, high: nat, one: nat, kappa: int, m: int) {
    var cell, scale := Cell(kappa, one), Scale(kappa);
    && Times(low + 3, scale) <= Times(m, cell) <= Times(high - 1, scale)
    && forall x: int, n: int ::
         && n != m
         && Times(w, scale) - scale <= x <= Times(w, scale) + scale
         && Times(low - 1, scale) <= Times(n, cell) <= Times(high + 1, scale) ==>
           Gap(Times(m, cell), x) < Gap(Times(n, cell), x)
  }

  /** 10^kappa is the largest power of ten with a multiple in the interval. */
  ghost predicate StopsAt(low: nat, high: nat, one: nat, kappa: int) {
    && Shortest(low - 1, high + 1, one, kappa)
    && !NoMultiple(Times(low - 1, Scale(kappa)), Times(high + 1, Scale(kappa)), Cell(kappa, one))
  }

  /**
   * How digit generation ends. A success is Printed; it succeeds whenever a multiple of the
   * power at which it stops is Certain, and prints that one.
   */
  ghost predicate Outcome(low: nat, w: nat, high: nat, one: nat, kappa: int, number: int, ok: bool) {
    && StopsAt(low, high, one, kappa)
    && (ok ==> Printed(low, w, high, one, kappa, number))
    && forall m: int :: Certain(low, w, high, one, kappa, m) ==> ok && number == m
  }

  lemma AwayOf(hi: int, number: int, cell: nat, rest: nat, n: int)
    requires hi == Times(number, cell) + rest
    ensures Away(rest, cell, number - n) == hi - Times(n, cell)
  {
    TimesSum(number - n, n, cell);
  }

  /** A certain multiple is an unrivalled point, that many steps below the number generated. */
  lemma CertainUnrivalled(low: nat, w: nat, high: nat, one: nat, kappa: int, number: int, rest: nat, m: int)
    requires 1 <= low <= w <= high && Certain(low, w, high, one, kappa, m)
    requires var cell, scale := Cell(kappa, one), Scale(kappa);
             Times(high + 1, scale) == Times(number, cell) + rest && rest < cell
    ensures m <= number && Times(high + 1 - w, Scale(kappa)) >= 0 && Times(high + 2 - low, Scale(kappa)) >= 0
    ensures Unrivalled(Times(high + 1 - w, Scale(kappa)), Scale(kappa), Times(high + 2 - low, Scale(kappa)), rest,
                       Cell(kappa, one), number - m)
  {
    var cell, scale := Cell(kappa, one), Scale(kappa);
    var hi, target, delta := Times(high + 1, scale), Times(high + 1 - w, scale), Times(high + 2 - low, scale);
    ScaledDifferences(low, w, high, scale);
    hide Times, Away, Cell, Scale;
    if m > number {
      TimesApart(number, m, cell);
    }
    AwayOf(hi, number, cell, rest, m);
    forall j: int, x: int | j != number - m && 0 <= Away(rest, cell, j) <= delta && target - scale <= x <= target + scale
      ensures Gap(Away(rest, cell, number - m), x) < Gap(Away(rest, cell, j), x)
    {
      AwayOf(hi, number, cell, rest, number - j);
      RivalMultiple(low, w, high, one, kappa, m, hi - x, number - j);
    }
  }

  lemma RivalMultiple(low: nat, w: nat, high: nat, one: nat, kappa: int, m: int, x: int, n: int)
    requires low >= 1 && Certain(low, w, high, one, kappa, m) && n != m
    requires var scale := Scale(kappa); Times(w, scale) - scale <= x <= Times(w, scale) + scale
    requires Times(low - 1, Scale(kappa)) <= Times(n, Cell(kappa, one)) <= Times(high + 1, Scale(kappa))
    ensures Gap(Times(m, Cell(kappa, one)), x) < Gap(Times(n, Cell(kappa, one)), x)
  {
  }

  /** Where the weeding stopped, if there is a certain multiple. */
  lemma CertainWeeded(low: nat, w: nat, high: nat, one: nat, kappa: int, number: int, rest: nat, steps: nat, m: int)
    requires 1 <= low <= w <= high && Certain(low, w, high, one, kappa, m)
    requires var cell, scale := Cell(kappa, one), Scale(kappa);
             && Times(high + 1, scale) == Times(number, cell) + rest && rest < cell
             && 0 < scale <= Times(high + 1 - w, scale)
             && 0 <= Times(high + 2 - low, scale)
             && StopsAfter(Times(high + 1 - w, scale) - scale, Times(high + 2 - low, scale), rest, cell, steps)
    ensures var cell, scale := Cell(kappa, one), Scale(kappa);
            var far := Times(high + 1 - w, scale) + scale;
            && steps == number - m
            && 2 * scale <= Away(rest, cell, steps) <= Times(high + 2 - low, scale) - 4 * scale
            && !(Away(rest, cell, steps + 1) <= Times(high + 2 - low, scale)
                 && Gap(Away(rest, cell, steps + 1), far) < Gap(Away(rest, cell, steps), far))
  {
    hide Certain, StopsAfter, Times, Away, Cell, Gap;
    CertainUnrivalled(low, w, high, one, kappa, number, rest, m);
    UnrivalledFound(Times(high + 1 - w, Scale(kappa)), Scale(kappa), Times(high + 2 - low, Scale(kappa)), rest,
                    Cell(kappa, one), steps, number - m);
  }

  /** The number generated is itself a multiple in the interval. */
  lemma GeneratedInside(low: nat, w: nat, high: nat, one: nat, kappa: int, number: int, rest: nat)
    requires 1 <= low <= w <= high
    requires Times(high + 1, Scale(kappa)) == Times(number, Cell(kappa, one)) + rest
    requires rest < Times(high + 2 - low, Scale(kappa))
    ensures !NoMultiple(Times(low - 1, Scale(kappa)), Times(high + 1, Scale(kappa)), Cell(kappa, one))
  {
    ScaledDifferences(low, w, high, Scale(kappa));
    ZeroTimes(Cell(kappa, one));
    TimesApart(0, low - 1, Scale(kappa));
    ZeroTimes(Scale(kappa));
    hide Times, Scale, Cell;
    if number < 0 {
      TimesApart(number, 0, Cell(kappa, one));
    }
    var m: nat := number;
    assert Times(low - 1, Scale(kappa)) < Times(m, Cell(kappa, one)) <= Times(high + 1, Scale(kappa));
  }

  lemma WeedingDone(low: nat, w: nat, high: nat, one: nat, kappa: int, number: int, rest: nat, steps: nat)
    requires 1 <= low <= w <= high && Shortest(low - 1, high + 1, one, kappa)
    requires var cell, scale := Cell(kappa, one), Scale(kappa);
             var delta := Times(high + 2 - low, scale);
             && Times(high + 1, scale) == Times(number, cell) + rest
             && 2 * scale <= Away(rest, cell, steps) <= delta - 4 * scale
             && Times(high + 1 - w, scale) >= 0 && delta >= 0
             && Nearest(Times(high + 1 - w, scale), scale, delta, cell, Away(rest, cell, steps))
    ensures Printed(low, w, high, one, kappa, number - steps)
  {
    hide Nearest, Shortest, Closest;
    var cell, scale := Cell(kappa, one), Scale(kappa);
    TimesSum(number - steps, steps, cell);
    SplitOff(rest, cell, steps);
    ScaledDifferences(low, w, high, scale);
    hide Times, Away;
    ClosestFromNearest(number - steps, cell, Times(low - 1, scale), Times(high + 1, scale), Times(w, scale), scale,
                       Away(rest, cell, steps));
  }

  lemma ScaledDifferences(low: nat, w: nat, high: nat, scale: nat)
    requires 1 <= low <= w <= high
    ensures Times(high + 2 - low, scale) == Times(high + 1, scale) - Times(low - 1, scale)
    ensures Times(high + 1 - w, scale) == Times(high + 1, scale) - Times(w, scale)
    ensures Times(low + 3, scale) == Times(low - 1, scale) + 4 * scale
    ensures Times(high - 1, scale) == Times(high + 1, scale) - 2 * scale
    ensures Times(low - 1, scale) <= Times(w, scale) <= Times(high + 1, scale)
  {
    TimesSum(low - 1, high + 2 - low, scale);
    TimesSum(w, high + 1 - w, scale);
    TimesSum(low - 1, 4, scale);
    TimesSum(high - 1, 2, scale);
    TimesApart(low - 1, w, scale);
    TimesApart(w, high + 1, scale);
  }

  // ---- the method

  lemma Pow2At60(s: nat)
    requires 32 <= s <= 60
    ensures Pow2(s) <= 0x1000_0000_0000_0000 && Pow2(64 - s) <= 0x1_0000_0000
    ensures Pow2(64 - s) * Pow2(s) == TWO_64
  {
    Pow2Values();
    Pow2Sum(32, 28);
    Pow2Sum(32, 32);
    Pow2Sum(64 - s, s);
    Pow2Monotone(s, 60);
    Pow2Monotone(64 - s, 32);
  }

  /** Before the point: what the first loop starts from. */
  lemma StartOfDigits(hi: nat, lo: nat, one: nat, kappa: nat, p1: nat, p2: nat)
    requires lo <= hi && kappa > 0 && hi == Times(p1, one) + p2 && p1 < Pow10(kappa) && p2 < one
    ensures IntegerPhase(hi, lo, one, kappa, 0, p1, p2)
  {
    TimesApart(p1, Pow10(kappa), one);
    NothingBeyond(lo, hi, one, kappa);
    assert Times(0, Pow10(kappa)) == 0;
  }

  lemma IntegerPartFits(hi: nat, s: nat)
    requires 32 <= s <= 60 && hi < TWO_64
    ensures hi / Pow2(s) < Pow2(64 - s)
  {
    Pow2At60(s);
    Division(hi, Pow2(s));
    if hi / Pow2(s) >= Pow2(64 - s) { TimesApart(Pow2(64 - s), hi / Pow2(s), Pow2(s)); }
  }

  /** Behind the point the interval is still narrower than one, so nothing overflows and few digits follow. */
  lemma FractionBounds(hi: nat, lo: nat, w: nat, one: nat, kappa: int, number: int, p2: nat)
    requires FractionPhase(hi, lo, one, kappa, number, p2) && one <= 0x1000_0000_0000_0000
    requires lo < w < hi && hi - lo >= 4
    ensures 0 <= 10 * Times(hi - lo, Scale(kappa)) <= 10 * p2 < TWO_64
    ensures Times(hi - lo, 10 * Scale(kappa)) == 10 * Times(hi - lo, Scale(kappa))
    ensures 40 * Scale(kappa) <= Times(hi - lo, 10 * Scale(kappa))
    ensures 10 * Scale(kappa) <= Times(hi - w, 10 * Scale(kappa))
    ensures Times(hi - w, 10 * Scale(kappa)) + 10 * Scale(kappa) <= Times(hi - lo, 10 * Scale(kappa))
    ensures -17 <= kappa
  {
    var scale := Scale(kappa);
    TimesTen(hi - lo, scale);
    TimesApart(4, hi - lo, scale);
    TimesApart(4, hi - lo, 10 * scale);
    TimesApart(1, hi - w, 10 * scale);
    TimesApart(hi - w, hi - lo, 10 * scale);
    if kappa < -17 {
      Pow10Values();
      Pow10Monotone(18, -kappa);
      assert Pow10(18) == 100000000 * Pow10(10) by { HundredMillion(10); }
    }
  }

  /** The second loop's invariant: unit and the interval are scaled by 10^-kappa, and the rest is outside the interval. */
  ghost predicate FractionReady(hi: nat, lo: nat, one: nat, kappa: int, number: int, p2: nat, unit: nat, unsafe: nat) {
    && FractionPhase(hi, lo, one, kappa, number, p2) && -17 <= kappa <= 0
    && unit == Scale(kappa) && 0 < unsafe == Times(hi - lo, unit) <= p2 < one
  }

  lemma FractionStart(hi: nat, lo: nat, w: nat, one: nat, number: int, p2: nat)
    requires FractionPhase(hi, lo, one, 0, number, p2) && one <= 0x1000_0000_0000_0000
    requires lo < w < hi && hi - lo >= 4
    ensures FractionReady(hi, lo, one, 0, number, p2, 1, hi - lo)
  {
    UnitTimes(hi - lo);
    FractionBounds(hi, lo, w, one, 0, number, p2);
  }

  /** One turn of the second loop, with the values it has after scaling by ten. */
  lemma FractionStep(hi: nat, lo: nat, w: nat, one: nat, kappa: int, number: int, p2: nat, unit: nat, unsafe: nat)
    requires FractionReady(hi, lo, one, kappa, number, p2, unit, unsafe) && one <= 0x1000_0000_0000_0000
    requires lo < w < hi && hi - lo >= 4
    ensures unsafe < one && -17 <= kappa <= 0
    ensures p2 * 10 < TWO_64 && unsafe * 10 < TWO_64 && 4 * (unit * 10) <= unsafe * 10
    ensures unit * 10 == Scale(kappa - 1) && unsafe * 10 == Times(hi - lo, unit * 10) && one == Cell(kappa - 1, one)
    ensures unit * 10 <= Times(hi - w, unit * 10) && Times(hi - w, unit * 10) + unit * 10 <= unsafe * 10
    ensures var d, r := Whole(p2 * 10, one), Part(p2 * 10, one);
            && 0 <= d <= 9 && r < one && Times(hi, unit * 10) == Times(10 * number + d, one) + r
            && Away(r, one, d) >= unsafe * 10 && Shortest(lo, hi, one, kappa - 1)
            && (r >= unsafe * 10 ==>
                  -17 <= kappa - 1 && FractionReady(hi, lo, one, kappa - 1, 10 * number + d, r, unit * 10, unsafe * 10))
  {
    hide Times, Shortest, Away, Scale, Cell;
    assert Whole(p2 * 10, one) == 10 * p2 / one && Part(p2 * 10, one) == 10 * p2 % one;
    FractionBounds(hi, lo, w, one, kappa, number, p2);
    FractionTurn(hi, lo, one, kappa, number, p2);
    if Part(p2 * 10, one) >= unsafe * 10 {
      FractionBounds(hi, lo, w, one, kappa - 1, 10 * number + Whole(p2 * 10, one), Part(p2 * 10, one));
    }
  }

  lemma HundredMillion(n: nat)
    ensures Pow10(n + 8) == 100000000 * Pow10(n)
  {
    assert Pow10(n + 2) == 10 * (10 * Pow10(n));
    assert Pow10(n + 4) == 10 * (10 * Pow10(n + 2));
    assert Pow10(n + 6) == 10 * (10 * Pow10(n + 4));
    assert Pow10(n + 8) == 10 * (10 * Pow10(n + 6));
  }

  lemma DigitAdded(b: seq<int>, d: int)
    requires AllDigits(b) && 0 <= d <= 9
    ensures AllDigits(b + [ZERO + d]) && Number(b + [ZERO + d]) == 10 * Number(b) + d
  {
    NumberSnoc(b, ZERO + d);
  }

  /** Weeding counts the number down. */
  lemma DigitWeeded(b: seq<int>, c: seq<int>, steps: nat)
    requires |b| == |c| > 0 && b[..|b| - 1] == c[..|c| - 1] && AllDigits(b)
    requires ZERO <= c[|c| - 1] == b[|b| - 1] - steps
    ensures AllDigits(c) && Number(c) == Number(b) - steps
  {
    forall i | 0 <= i < |c|
      ensures ZERO <= c[i] <= ZERO + 9
    {
      if i < |c| - 1 { assert c[i] == c[..|c| - 1][i] == b[i]; }
    }
  }

  lemma NextDiv(kappa: nat, div: nat, one: nat)
    requires div == Pow10(kappa)
    ensures kappa > 0 ==> div / 10 == Pow10(kappa - 1)
    ensures 0 <= Times(div / 10, one) <= Times(div, one)
  {
    TimesApart(div / 10, div, one);
    TimesTen(div / 10, one);
  }

  lemma InitialShortest(hi: nat, lo: nat, one: nat, kappa: nat, number: int, p1: nat, p2: nat)
    requires IntegerPhase(hi, lo, one, kappa, number, p1, p2)
    ensures Shortest(lo, hi, one, kappa - 1)
    ensures kappa == 0 ==> FractionPhase(hi, lo, one, kappa, number, p2) && Scale(kappa) == 1
  {
    hide Shortest;
    if kappa == 0 {
      UnitTimes(number);
      UnitTimes(hi);
      UnitTimes(hi - lo);
      assert Times(0, one) == 0;
    }
  }

  /** Writes the next digit behind those already in the buffer. */
  method PushDigit(buffer: array<int>, length: nat, digit: nat)
    requires length < buffer.Length && digit <= 9 && AllDigits(buffer[..length])
    modifies buffer
    ensures AllDigits(buffer[..length + 1]) && buffer[length] == ZERO + digit
    ensures Number(buffer[..length + 1]) == 10 * old(Number(buffer[..length])) + digit
  {
    ghost var was := buffer[..length];
    DigitAdded(was, digit);
    buffer[length] := ZERO + digit;
    assert buffer[..length + 1] == was + [ZERO + digit];
  }

  /** The end of digit generation: the last digit is weeded. */
  method WeedDigits(buffer: array<int>, length: nat, target: nat, delta: nat, rest: nat, cell: nat, unit: nat,
                    ghost low: nat, ghost w: nat, ghost high: nat, ghost one: nat, ghost kappa: int)
    returns (ok: bool)
    requires 1 <= low <= w <= high && Shortest(low - 1, high + 1, one, kappa)
    requires 0 < length <= buffer.Length && AllDigits(buffer[..length])
    requires cell == Cell(kappa, one) && unit == Scale(kappa)
    requires target == Times(high + 1 - w, unit) && delta == Times(high + 1 - (low - 1), unit)
    requires Times(high + 1, unit) == Times(Number(buffer[..length]), cell) + rest
    requires unit <= target && target + unit <= delta < TWO_64 && 4 * unit <= delta && rest < delta && rest < cell
    requires Away(rest, cell, buffer[length - 1] - ZERO) >= delta
    modifies buffer
    ensures AllDigits(buffer[..length])
    ensures Outcome(low, w, high, one, kappa, Number(buffer[..length]), ok)
  {
    hide Number, Printed, Shortest, Nearest, Times, Away, Cell, Certain, StopsAfter, Gap, NoMultiple;
    ghost var was := buffer[..length];
    ghost var steps;
    ok, steps := RoundWeed(buffer, length, target, delta, rest, cell, unit);
    ghost var now := buffer[..length];
    assert was[..length - 1] == now[..length - 1];
    DigitWeeded(was, now, steps);
    if ok {
      WeedingDone(low, w, high, one, kappa, Number(was), rest, steps);
    }
    GeneratedInside(low, w, high, one, kappa, Number(was), rest);
    forall m: int | Certain(low, w, high, one, kappa, m)
      ensures ok && Number(now) == m
    {
      CertainWeeded(low, w, high, one, kappa, Number(was), rest, steps, m);
    }
  }

  /** The body of the first loop: one digit before the point. */
  method PrintIntegerDigit(low: nat, w: nat, high: nat, one: nat, kappa: nat, p1: nat, p2: nat, div: nat,
                           buffer: array<int>, length: nat)
    returns (done: bool, ok: bool, r: nat)
    requires 1 <= low <= w <= high && high + 1 < TWO_64 && high - low >= 2
    requires kappa > 0 && div == Pow10(kappa - 1) && 0 <= Times(div, one)
    requires length < buffer.Length && AllDigits(buffer[..length])
    requires IntegerPhase(high + 1, low - 1, one, kappa, Number(buffer[..length]), p1, p2)
    modifies buffer
    ensures AllDigits(buffer[..length + 1])
    ensures done ==> Outcome(low, w, high, one, kappa - 1, Number(buffer[..length + 1]), ok)
    ensures !done ==> IntegerPhase(high + 1, low - 1, one, kappa - 1, Number(buffer[..length + 1]), r, p2)
  {
    hide *;
    IntegerTurn(high + 1, low - 1, one, kappa, Number(buffer[..length]), p1, p2, div);
    InitialShortest(high + 1, low - 1, one, kappa, Number(buffer[..length]), p1, p2);
    PushDigit(buffer, length, Whole(p1, div));
    r := Part(p1, div);
    TimesTen(r, one);
    var rest := Times(r, one) + p2;
    done, ok := rest < high + 2 - low, false;
    if done {
      ok := WeedInteger(buffer, length + 1, low, w, high, rest, Times(div, one), one, kappa - 1);
    }
  }

  /** The first loop: digits before the point. */
  method IntegerDigits(low: nat, w: nat, high: nat, one: nat, start: nat, power: nat, rest1: nat, p2: nat, buffer: array<int>)
    returns (done: bool, ok: bool, length: nat, kappa: int)
    requires 1 <= low <= w <= high && high + 1 < TWO_64 && high - low >= 2 && one > 0
    requires 1 <= start <= 10 && power == Pow10(start - 1) && Times(power, one) < TWO_64
    requires IntegerPhase(high + 1, low - 1, one, start, 0, rest1, p2) && buffer.Length >= 10
    modifies buffer
    ensures 0 <= kappa && length + kappa == start && (kappa < start || !done)
    ensures AllDigits(buffer[..length])
    ensures done ==> Outcome(low, w, high, one, kappa, Number(buffer[..length]), ok)
    ensures !done ==> kappa == 0 && FractionPhase(high + 1, low - 1, one, 0, Number(buffer[..length]), p2)
  {
    var p1: nat, div: nat := rest1, power;
    kappa, length, done, ok := start, 0, false, false;
    NoDigits(buffer[..0]);
    StartBounds(power, one);
    hide *;
    while kappa > 0
      invariant 0 <= kappa <= start && length + kappa == start
      invariant kappa > 0 ==> div == Pow10(kappa - 1) && 0 <= Times(div, one) < TWO_64
      invariant AllDigits(buffer[..length])
      invariant IntegerPhase(high + 1, low - 1, one, kappa, Number(buffer[..length]), p1, p2)
    {
      done, ok, p1 := PrintIntegerDigit(low, w, high, one, kappa, p1, p2, div, buffer, length);
      length, kappa := length + 1, kappa - 1;
      if done {
        return;
      }
      NextDiv(kappa, div, one);
      div := div / 10;
    }
    InitialShortest(high + 1, low - 1, one, kappa, Number(buffer[..length]), p1, p2);
  }

  lemma NoDigits(b: seq<int>)
    requires b == []
    ensures AllDigits(b) && Number(b) == 0
  {
  }

  lemma StartBounds(power: nat, one: nat)
    ensures 0 <= Times(power, one)
  {
    TimesTen(power, one);
  }

  /** Before the point nothing is scaled. */
  method WeedInteger(buffer: array<int>, length: nat, low: nat, w: nat, high: nat, rest: nat, cell: nat, ghost one: nat, ghost kappa: nat)
    returns (ok: bool)
    requires 1 <= low <= w <= high && high + 1 < TWO_64 && high - low >= 2 && Shortest(low - 1, high + 1, one, kappa)
    requires 0 < length <= buffer.Length && AllDigits(buffer[..length]) && cell == Cell(kappa, one)
    requires high + 1 == Times(Number(buffer[..length]), cell) + rest && rest < high + 2 - low && rest < cell
    requires Away(rest, cell, buffer[length - 1] - ZERO) >= high + 2 - low
    modifies buffer
    ensures AllDigits(buffer[..length])
    ensures Outcome(low, w, high, one, kappa, Number(buffer[..length]), ok)
  {
    hide *;
    CellOf(kappa, one);
    UnitTimes(high + 1);
    UnitTimes(high + 2 - low);
    UnitTimes(high + 1 - w);
    ok := WeedDigits(buffer, length, high + 1 - w, high + 2 - low, rest, cell, 1, low, w, high, one, kappa);
  }

  /** The body of the second loop: one digit behind the point. */
  method PrintFractionDigit(low: nat, w: nat, high: nat, one: nat, kappa: int, rest: nat, unit: nat, unsafe: nat,
                        buffer: array<int>, length: nat)
    returns (done: bool, ok: bool, p2: nat)
    requires 1 <= low <= w <= high && high + 1 < TWO_64 && high - low >= 2 && 0 < one <= 0x1000_0000_0000_0000
    requires length < buffer.Length && AllDigits(buffer[..length])
    requires FractionReady(high + 1, low - 1, one, kappa, Number(buffer[..length]), rest, unit, unsafe)
    modifies buffer
    ensures AllDigits(buffer[..length + 1]) && unsafe < one
    ensures done ==> Outcome(low, w, high, one, kappa - 1, Number(buffer[..length + 1]), ok)
    ensures !done ==>
              && -17 <= kappa - 1
              && FractionReady(high + 1, low - 1, one, kappa - 1, Number(buffer[..length + 1]), p2, unit * 10, unsafe * 10)
  {
    hide *;
    FractionStep(high + 1, low - 1, w, one, kappa, Number(buffer[..length]), rest, unit, unsafe);
    p2 := rest * 10;
    PushDigit(buffer, length, Whole(p2, one));
    p2 := Part(p2, one);
    done, ok := p2 < unsafe * 10, false;
    if done {
      ok := WeedDigits(buffer, length + 1, Times(high + 1 - w, unit * 10), unsafe * 10, p2, one, unit * 10,
                       low, w, high, one, kappa - 1);
    }
  }

  /** The second loop: digits behind the point, until the rest falls into the interval, which grows tenfold each time. */
  method FractionDigits(low: nat, w: nat, high: nat, one: nat, start: nat, rest2: nat, buffer: array<int>)
    returns (ok: bool, length: nat, kappa: int)
    requires 1 <= low <= w <= high && high + 1 < TWO_64 && high - low >= 2 && 0 < one <= 0x1000_0000_0000_0000
    requires start <= 10 && buffer.Length >= 28 && AllDigits(buffer[..start])
    requires FractionPhase(high + 1, low - 1, one, 0, Number(buffer[..start]), rest2)
    modifies buffer
    ensures 1 <= length <= 28 && AllDigits(buffer[..length])
    ensures Outcome(low, w, high, one, kappa, Number(buffer[..length]), ok)
  {
    hide *;
    var unsafe: nat, unit: nat, p2: nat := high + 2 - low, 1, rest2;
    kappa, length, ok := 0, start, false;
    FractionStart(high + 1, low - 1, w, one, Number(buffer[..length]), p2);
    var done := false;
    while !done
      invariant 0 <= length <= 28 && length + kappa == start && (done ==> length > 0)
      invariant AllDigits(buffer[..length])
      invariant done ==> Outcome(low, w, high, one, kappa, Number(buffer[..length]), ok)
      invariant !done ==>
                  -17 <= kappa && FractionReady(high + 1, low - 1, one, kappa, Number(buffer[..length]), p2, unit, unsafe)
      decreases !done, one - unsafe
    {
      done, ok, p2 := PrintFractionDigit(low, w, high, one, kappa, p2, unit, unsafe, buffer, length);
      unit, unsafe, length, kappa := unit * 10, unsafe * 10, length + 1, kappa - 1;
    }
  }

  /** The parts of the upper boundary before and behind the binary point. */
  method SplitPoint(hi: nat, s: nat) returns (p1: nat, p2: nat)
    requires 32 <= s <= 60 && hi < TWO_64
    ensures p1 < Pow2(64 - s) && p2 < Pow2(s) && hi == Times(p1, Pow2(s)) + p2
  {
    var one := Pow2(s);
    hide Pow2, Times;
    Division(hi, one);
    IntegerPartFits(hi, s);
    p1, p2 := Whole(hi, one), Part(hi, one);
  }

  /**
   * grisu3_digit_gen, given boundaries low <= w <= high with one exponent -s.
   * When it succeeds, the digits printed and the exponent kappa stand for a decimal that
   * is Printed: sound, shortest and closest. It does succeed when some decimal of that many
   * places is Certain. At most 28 digits are ever written.
   */
  method DigitGen(low: DiyFp, w: DiyFp, high: DiyFp, buffer: array<int>) returns (ok: bool, length: nat, kappa: int)
    requires low.e == w.e == high.e && -60 <= w.e <= -32
    requires 1 <= low.f <= w.f <= high.f && high.f + 1 < TWO_64 && high.f - low.f >= 2
    requires buffer.Length >= 28
    modifies buffer
    ensures 1 <= length <= 28 && AllDigits(buffer[..length])
    ensures Outcome(low.f, w.f, high.f, Pow2(-w.e), kappa, Number(buffer[..length]), ok)
  {
    var s := -w.e;
    var tooHigh, one := high.f + 1, Pow2(s);
    Pow2At60(s);
    hide *;
    var p1, p2 := SplitPoint(tooHigh, s);
    var div;
    kappa, div := LargestPow10(p1, 64 - s);
    StartOfDigits(tooHigh, low.f - 1, one, kappa, p1, p2);
    DivFits(div, s);
    var done;
    done, ok, length, kappa := IntegerDigits(low.f, w.f, high.f, one, kappa, div, p1, p2, buffer);
    if !done {
      ok, length, kappa := FractionDigits(low.f, w.f, high.f, one, length, p2, buffer);
    }
  }

  lemma DivFits(div: nat, s: nat)
    requires 32 <= s <= 60 && div < Pow2(64 - s)
    ensures Times(div, Pow2(s)) < TWO_64
  {
    Pow2At60(s);
    TimesApart(div, Pow2(64 - s), Pow2(s));
  }
}
