/** Inserting behind a bucket: offsets go up, a run of items moves up. */
module RobinInsert {
  import opened Words
  import opened Rows
  import opened Hashing
  import opened RobinLayout

  // ---- the loops

  /** Offsets of the buckets more than lo and at most hi slots past c are up by one. */
  ghost predicate Bumped(now: seq<nat>, off: seq<nat>, c: nat, lo: nat, hi: nat) {
    && |now| == |off| && c < |off|
    && forall p :: 0 <= p < |off| ==> now[p] == off[p] + if lo < Dist(c, p, |off|) <= hi then 1 else 0
  }

  /** The sign bit of some offset has been reached if and only if an overflow is reported. */
  ghost predicate Watched(now: seq<nat>, off: seq<nat>, overflow: bool) {
    && |now| == |off|
    && (overflow ==> exists p :: 0 <= p < |now| && now[p] >= 128)
    && (!overflow ==> forall p :: 0 <= p < |now| ==> now[p] < 128 || now[p] == off[p])
  }

  /** Offsets whose sign bit is clear in a signed byte. */
  ghost predicate Narrow(off: seq<nat>) {
    forall p :: 0 <= p < |off| ==> off[p] < 128
  }

  lemma StaysNarrow(now: seq<nat>, off: seq<nat>, overflow: bool)
    requires Watched(now, off, overflow) && !overflow && Narrow(off)
    ensures Narrow(now)
  {
  }

  lemma BumpNext(now: seq<nat>, off: seq<nat>, c: nat, lo: nat, hi: nat)
    requires Bumped(now, off, c, lo, hi) && lo <= hi && hi + 1 < |off|
    ensures var j := Wrap(c + (hi + 1), |off|); Bumped(now[j := now[j] + 1], off, c, lo, hi + 1)
  {
  }

  lemma WatchNext(now: seq<nat>, off: seq<nat>, overflow: bool, j: nat)
    requires Watched(now, off, overflow) && j < |now|
    ensures Watched(now[j := now[j] + 1], off, overflow || now[j] + 1 >= 128)
  {
    var next := now[j := now[j] + 1];
    if overflow {
      var p :| 0 <= p < |now| && now[p] >= 128;
      assert next[p] >= 128;
    } else if now[j] + 1 >= 128 {
      assert next[j] >= 128;
    }
  }

  lemma NextAlong(c: nat, b: nat, n: nat)
    requires c < n && b + 1 < n
    ensures Wrap(Wrap(c + b, n) + 1, n) == Wrap(c + (b + 1), n)
  {
  }

  lemma Along(c: nat, p: nat, n: nat)
    requires c < n && p < n
    ensures Wrap(c + Dist(c, p, n), n) == p && Dist(c, p, n) < n
  {
  }

  /** Raises one offset and notes whether it reaches 128. */
  method BumpOne(offsets: array<nat>, k: nat, overflowed: bool, ghost off: seq<nat>) returns (overflow: bool)
    requires k < offsets.Length && Watched(offsets[..], off, overflowed)
    modifies offsets
    ensures offsets[..] == old(offsets[..])[k := old(offsets[k]) + 1] && Watched(offsets[..], off, overflow)
  {
    hide Watched;
    WatchNext(offsets[..], off, overflowed, k);
    offsets[k] := offsets[k] + 1;
    overflow := overflowed || offsets[k] >= 128;
    assert offsets[..] == old(offsets[..])[k := old(offsets[k]) + 1];
  }

  /** Raises the offset of every bucket after `home` up to `end`, around the circle. */
  method BumpBuckets(offsets: array<nat>, home: nat, end: nat, ghost c: nat) returns (overflow: bool)
    requires c < offsets.Length && home < offsets.Length && end < offsets.Length
    requires Dist(c, home, offsets.Length) <= Dist(c, end, offsets.Length)
    modifies offsets
    ensures Bumped(offsets[..], old(offsets[..]), c, Dist(c, home, offsets.Length), Dist(c, end, offsets.Length))
    ensures Watched(offsets[..], old(offsets[..]), overflow)
  {
    var n := offsets.Length;
    ghost var a, J, off := Dist(c, home, n), Dist(c, end, n), offsets[..];
    var k := home;
    overflow := false;
    ghost var b := a;
    hide Dist, Wrap;
    Along(c, home, n);
    Along(c, end, n);
    assert Bumped(off, off, c, a, a) && Watched(off, off, false);
    hide Bumped, Watched;
    while k != end
      invariant a <= b <= J && k == Wrap(c + b, n)
      invariant Bumped(offsets[..], off, c, a, b) && Watched(offsets[..], off, overflow)
      decreases J - b
    {
      ghost var now := offsets[..];
      NextAlong(c, b, n);
      BumpNext(now, off, c, a, b);
      k := Wrap(k + 1, n);
      overflow := BumpOne(offsets, k, overflow, off);
      b := b + 1;
    }
  }

  /** The items from the J-th slot after c on have moved up by one behind x, as far as the b-th. */
  ghost predicate MovedUp<K, V>(now: seq<Slot<K, V>>, T: seq<Slot<K, V>>, c: nat, J: nat, x: Item<K, V>, b: nat) {
    && |now| == |T| && c < |T|
    && forall p :: 0 <= p < |T| ==>
         now[p] == var q := Dist(c, p, |T|);
                   if q < J || q >= b then T[p] else if q == J then Some(x) else T[Wrap(c + q - 1, |T|)]
  }

  /** The item in hand when the run has moved up as far as the b-th slot after c. */
  ghost function InHand<K, V>(T: seq<Slot<K, V>>, c: nat, J: nat, x: Item<K, V>, b: nat): Slot<K, V>
    requires c < |T| && b <= |T|
  {
    if b <= J then Some(x) else T[Wrap(c + b - 1, |T|)]
  }

  lemma MoveNext<K, V>(now: seq<Slot<K, V>>, T: seq<Slot<K, V>>, c: nat, J: nat, x: Item<K, V>, b: nat)
    requires MovedUp(now, T, c, J, x, b) && J <= b < |T|
    ensures var j := Wrap(c + b, |T|);
            && now[j] == T[j] && MovedUp(now[j := InHand(T, c, J, x, b)], T, c, J, x, b + 1)
            && InHand(T, c, J, x, b + 1) == T[j]
  {
    DistWrap(c, b, |T|);
    assert c + (b + 1) - 1 == c + b;
  }

  lemma NothingMoved<K, V>(T: seq<Slot<K, V>>, was: seq<nat>, c: nat, J: nat, x: Item<K, V>)
    requires |was| == |T| && c < |T| && J < |T|
    ensures MovedUp(T, T, c, J, x, J) && Bumped(was, was, c, J, J) && InHand(T, c, J, x, J) == Some(x)
  {
  }

  /** The item in hand goes into slot j, the b-th after c; what was there is in hand next. */
  method Exchange<K, V>(table: array<Slot<K, V>>, j: nat, inHand: Item<K, V>,
                        ghost T: seq<Slot<K, V>>, ghost c: nat, ghost J: nat, ghost x: Item<K, V>, ghost b: nat)
    returns (next: Slot<K, V>)
    requires c < |T| && J <= b < |T| && j == Wrap(c + b, |T|) && MovedUp(table[..], T, c, J, x, b) && j < table.Length
    requires Some(inHand) == InHand(T, c, J, x, b)
    modifies table
    ensures next == T[j] == old(table[j]) == InHand(T, c, J, x, b + 1) && MovedUp(table[..], T, c, J, x, b + 1)
  {
    MoveNext(table[..], T, c, J, x, b);
    hide *;
    ghost var slots := table[..];
    next := table[j];
    table[j] := Some(inHand);
    assert table[..] == slots[j := Some(inHand)];
  }

  /** The state of the loop that moves the run up, as far as the b-th slot after c. */
  ghost predicate Moving<K, V>(slots: seq<Slot<K, V>>, T: seq<Slot<K, V>>, now: seq<nat>, was: seq<nat>, off: seq<nat>,
                               c: nat, J: nat, x: Item<K, V>, b: nat, inHand: Item<K, V>, overflow: bool)
  {
    && |T| == |was| && c < |T| && J <= b < |T|
    && MovedUp(slots, T, c, J, x, b) && Some(inHand) == InHand(T, c, J, x, b)
    && Bumped(now, was, c, J, b) && Watched(now, off, overflow)
    && (forall q :: J <= q < |T| ==> (At(T, c, q).None? <==> q == |T| - 1))
  }

  lemma MovingStarts<K, V>(T: seq<Slot<K, V>>, was: seq<nat>, off: seq<nat>, c: nat, end: nat, x: Item<K, V>, overflow: bool)
    requires |T| == |was| && c < |T| && end < |T| && RunTo(T, end, Wrap(c + |T| - 1, |T|)) && Watched(was, off, overflow)
    ensures Moving(T, T, was, was, off, c, Dist(c, end, |T|), x, Dist(c, end, |T|), x, overflow)
    ensures end == Wrap(c + Dist(c, end, |T|), |T|)
  {
    RunAlong(T, end, c);
    Along(c, end, |T|);
    NothingMoved(T, was, c, Dist(c, end, |T|), x);
  }

  /** What stands in the next slot, and whether it is the last. */
  lemma MovingAt<K, V>(slots: seq<Slot<K, V>>, T: seq<Slot<K, V>>, now: seq<nat>, was: seq<nat>, off: seq<nat>,
                       c: nat, J: nat, x: Item<K, V>, b: nat, inHand: Item<K, V>, overflow: bool)
    requires Moving(slots, T, now, was, off, c, J, x, b, inHand, overflow)
    ensures c < |T| == |slots| == |now| && b < |T|
    ensures slots[Wrap(c + b, |T|)].None? <==> b == |T| - 1
  {
    AtWrap(T, c, b);
    MoveNext(slots, T, c, J, x, b);
  }

  /** One item of the run is exchanged for the one in hand, and the offset of the next slot is raised. */
  method MoveOne<K, V>(table: array<Slot<K, V>>, offsets: array<nat>, j: nat, inHand: Item<K, V>, overflowed: bool,
                       ghost T: seq<Slot<K, V>>, ghost was: seq<nat>, ghost off: seq<nat>,
                       ghost c: nat, ghost J: nat, ghost x: Item<K, V>, ghost b: nat)
    returns (next: Item<K, V>, j': nat, overflow: bool)
    requires Moving(table[..], T, offsets[..], was, off, c, J, x, b, inHand, overflowed)
    requires c + b < 2 * |T| && j == Wrap(c + b, |T|) && j < table.Length && table[j].Some?
    modifies table, offsets
    ensures Moving(table[..], T, offsets[..], was, off, c, J, x, b + 1, next, overflow)
    ensures c + (b + 1) < 2 * |T| && j' == Wrap(c + (b + 1), |T|) < table.Length
  {
    hide Dist, Wrap, MovedUp, Bumped, Watched, InHand, At;
    MovingAt(table[..], T, offsets[..], was, off, c, J, x, b, inHand, overflowed);
    var slot := Exchange(table, j, inHand, T, c, J, x, b);
    next := slot.value;
    NextAlong(c, b, |T|);
    BumpNext(offsets[..], was, c, J, b);
    j' := Wrap(j + 1, offsets.Length);
    overflow := BumpOne(offsets, j', overflowed, off);
  }

  /**
   * Carries the new item along the run: each item met is exchanged for the one in hand and
   * the next offset is raised, until a slot is empty.
   */
  method MoveUp<K, V>(table: array<Slot<K, V>>, offsets: array<nat>, end: nat, item: Item<K, V>, overflowed: bool,
                      ghost c: nat, ghost off: seq<nat>)
    returns (overflow: bool)
    requires table.Length == offsets.Length && c < table.Length && end < table.Length
    requires RunTo(table[..], end, Wrap(c + table.Length - 1, table.Length))
    requires Watched(offsets[..], off, overflowed)
    modifies table, offsets
    ensures MovedUp(table[..], old(table[..]), c, Dist(c, end, table.Length), item, table.Length)
    ensures Bumped(offsets[..], old(offsets[..]), c, Dist(c, end, offsets.Length), offsets.Length)
    ensures Watched(offsets[..], off, overflow)
  {
    hide *;
    ghost var T, J, was := table[..], Dist(c, end, table.Length), offsets[..];
    var j, inHand := end, item;
    overflow := overflowed;
    ghost var b := J;
    MovingStarts(T, was, off, c, end, item, overflowed);
    while table[j].Some?
      invariant c + b < 2 * |T| && j == Wrap(c + b, |T|) < table.Length
      invariant Moving(table[..], T, offsets[..], was, off, c, J, item, b, inHand, overflow)
      decreases |T| - b
    {
      MovingAt(table[..], T, offsets[..], was, off, c, J, item, b, inHand, overflow);
      inHand, j, overflow := MoveOne(table, offsets, j, inHand, overflow, T, was, off, c, J, item, b);
      b := b + 1;
    }
    MovingAt(table[..], T, offsets[..], was, off, c, J, item, b, inHand, overflow);
    MovingEnds(table[..], T, offsets[..], was, off, c, J, item, b, inHand, overflow);
    var last := Exchange(table, j, inHand, T, c, J, item, b);
  }

  lemma MovingEnds<K, V>(slots: seq<Slot<K, V>>, T: seq<Slot<K, V>>, now: seq<nat>, was: seq<nat>, off: seq<nat>,
                         c: nat, J: nat, x: Item<K, V>, b: nat, inHand: Item<K, V>, overflow: bool)
    requires Moving(slots, T, now, was, off, c, J, x, b, inHand, overflow)
    requires |slots| == |T| && c < |T| && b < |T| && slots[Wrap(c + b, |T|)].None?
    ensures b == |T| - 1 && c < |T| && J <= b && MovedUp(slots, T, c, J, x, b) && Some(inHand) == InHand(T, c, J, x, b)
    ensures Bumped(now, was, c, J, |was|) && Watched(now, off, overflow)
  {
    MovingAt(slots, T, now, was, off, c, J, x, b, inHand, overflow);
    BumpedAll(now, was, c, J);
  }

  lemma AtWrap<A>(T: seq<A>, c: nat, b: nat)
    requires c < |T| && b < |T|
    ensures At(T, c, b) == T[Wrap(c + b, |T|)]
  {
  }

  lemma RunAlong<K, V>(T: seq<Slot<K, V>>, end: nat, c: nat)
    requires c < |T| && end < |T| && RunTo(T, end, Wrap(c + |T| - 1, |T|))
    ensures forall b :: Dist(c, end, |T|) <= b < |T| ==> (At(T, c, b).None? <==> b == |T| - 1)
  {
    forall b | Dist(c, end, |T|) <= b < |T|
      ensures At(T, c, b).None? <==> b == |T| - 1
    {
      if b < |T| - 1 {
        assert At(T, end, b - Dist(c, end, |T|)).Some?;
      }
    }
  }

  lemma BumpedAll(now: seq<nat>, off: seq<nat>, c: nat, lo: nat)
    requires |off| > 0 && Bumped(now, off, c, lo, |off| - 1)
    ensures Bumped(now, off, c, lo, |off|)
  {
  }

  lemma ShiftedBy<K, V>(hash: K -> nat, T: seq<Slot<K, V>>, off: seq<nat>, mid: seq<nat>,
                        T': seq<Slot<K, V>>, off': seq<nat>, c: nat, k: nat, end: nat, x: Item<K, V>)
    requires |off| == |T| && c < |T| && k < |T| && end < |T|
    requires Dist(c, k, |T|) + 1 + Around(off, c)[Dist(c, k, |T|) + 1] == Dist(c, end, |T|)
    requires MovedUp(T', T, c, Dist(c, end, |T|), x, |T|)
    requires Bumped(mid, off, c, Dist(c, k, |T|), Dist(c, end, |T|)) && Bumped(off', mid, c, Dist(c, end, |T|), |T|)
    ensures Shifted(hash, T, off, T', off', c, k, x)
  {
    hide Dist, Wrap;
    forall p | 0 <= p < |T|
      ensures off'[p] == off[p] + if Dist(c, k, |T|) < Dist(c, p, |T|) then 1 else 0
    {
      assert off'[p] == mid[p] + if Dist(c, end, |T|) < Dist(c, p, |T|) then 1 else 0;
    }
  }

  lemma EmptyFill<K, V>(hash: K -> nat, T: seq<Slot<K, V>>, off: seq<nat>, x: Item<K, V>)
    requires Laid(hash, T, off) && |T| > 0
    requires var k := Home(hash, x.key, |T|); T[k].None?
    ensures var k := Home(hash, x.key, |T|);
            var T' := T[k := Some(x)];
            && Laid(hash, T', off) && Filled(T') == Filled(T) + 1
            && forall b :: 0 <= b < |T| ==> Bucket(hash, T', b) == Bucket(hash, T, b) + if b == k then [x] else []
  {
    hide Laid, Filled, Bucket, Region, Values, InOrder;
    var n, k := |T|, Home(hash, x.key, |T|);
    var T' := T[k := Some(x)];
    CutAfterEmpty(hash, T, off, k);
    var c := Wrap(k + 1, n);
    var row, offs, a := Unrolled(hash, T, c), Around(off, c), Dist(c, k, n);
    Unroll(hash, T, off, c);
    assert Unrolled(hash, T', c) == row[a := Some(Entry(a, x))];
    FillEmpty(row, offs, a, x);
    Reroll(hash, T', off, c);
    forall b | 0 <= b < n
      ensures Bucket(hash, T', b) == Bucket(hash, T, b) + if b == k then [x] else []
    {
      FillRegions(row, offs, a, x, Dist(c, b, n));
      BucketAtCut(hash, T, off, c, b);
      BucketAtCut(hash, T', off, c, b);
    }
    FillCount(row, a, Entry(a, x));
    FilledUnrolled(hash, T, c);
    FilledUnrolled(hash, T', c);
  }

  /** One more item in its bucket is one more item under its key. */
  lemma ChainGrows<K, V>(hash: K -> nat, T: seq<Slot<K, V>>, T': seq<Slot<K, V>>, x: Item<K, V>, key: K)
    requires |T'| == |T| > 0
    requires var b := Home(hash, key, |T|);
             Bucket(hash, T', b) == Bucket(hash, T, b) + if b == Home(hash, x.key, |T|) then [x] else []
    ensures Chain(hash, T', key) == Chain(hash, T, key) + if key == x.key then [x] else []
  {
    hide Keyed, Homed, Home;
    var b := Home(hash, key, |T|);
    KeyedHomed(hash, |T|, T[b..] + T[..b], key);
    KeyedHomed(hash, |T|, T'[b..] + T'[..b], key);
    WithKeyConcat(Bucket(hash, T, b), [x], key);
    assert WithKey([x][1..], key) == [];
    assert Bucket(hash, T, b) + [] == Bucket(hash, T, b) && Chain(hash, T, key) + [] == Chain(hash, T, key);
  }
}
