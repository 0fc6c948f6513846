/** Taking an item out of a bucket: offsets go down, displaced items move down. */
module RobinRemove {
  import opened Words
  import opened Rows
  import opened Hashing
  import opened RobinLayout
  import opened RobinInsert

  // ---- removal

  /** Slots j + 1 up to the one before c do not start a bucket in place; c does. */
  ghost predicate DisplacedTo(off: seq<nat>, j: nat, c: nat) {
    && j < |off| && CutAt(off, c)
    && forall q :: Dist(c, j, |off|) < q < |off| ==> At(off, c, q) > 0
  }

  lemma {:induction false} FirstZero(off: seq<nat>, j: nat, z: nat, from: nat) returns (d: nat)
    requires j < |off| && CutAt(off, z) && 1 <= from <= |off|
    requires forall i :: 1 <= i < from ==> At(off, j, i) > 0
    ensures 1 <= d <= |off| && At(off, j, d) == 0 && forall i :: 1 <= i < d ==> At(off, j, i) > 0
    decreases |off| - from
  {
    assert At(off, j, Dist(j, z, |off|)) == 0 && At(off, j, |off|) == off[j];
    if At(off, j, from) == 0 {
      d := from;
    } else {
      d := FirstZero(off, j, z, from + 1);
    }
  }

  lemma DisplacedExists(off: seq<nat>, j: nat, z: nat) returns (c: nat)
    requires j < |off| && CutAt(off, z)
    ensures DisplacedTo(off, j, c)
  {
    var n := |off|;
    var d := FirstZero(off, j, z, 1);
    c := Wrap(j + d, n);
    assert At(off, j, d) == 0;
    forall q | Dist(c, j, n) < q < n
      ensures At(off, c, q) > 0
    {
      assert At(off, j, q - Dist(c, j, n)) > 0;
    }
  }

  /** Offsets of the buckets more than lo and at most hi slots past c are down by one. */
  ghost predicate Dropped(now: seq<nat>, off: seq<nat>, c: nat, lo: nat, hi: nat) {
    && |now| == |off| && c < |off|
    && forall p :: 0 <= p < |off| ==>
         now[p] == if lo < Dist(c, p, |off|) <= hi && off[p] > 0 then off[p] - 1 else off[p]
  }

  lemma DropNext(now: seq<nat>, off: seq<nat>, c: nat, lo: nat, hi: nat)
    requires Dropped(now, off, c, lo, hi) && lo <= hi && hi + 1 < |off| && At(off, c, hi + 1) > 0
    ensures var j := Wrap(c + (hi + 1), |off|);
            now[j] == off[j] > 0 && Dropped(now[j := now[j] - 1], off, c, lo, hi + 1)
  {
  }

  /** The items from the J-th slot after c on have moved down by one, as far as the b-th. */
  ghost predicate MovedDown<K, V>(now: seq<Slot<K, V>>, T: seq<Slot<K, V>>, c: nat, J: nat, b: nat) {
    && |now| == |T| && c < |T| && b < |T|
    && forall p :: 0 <= p < |T| ==>
         now[p] == var q := Dist(c, p, |T|); if J <= q < b then T[Wrap(c + q + 1, |T|)] else T[p]
  }

  lemma DownNext<K, V>(now: seq<Slot<K, V>>, T: seq<Slot<K, V>>, c: nat, J: nat, b: nat)
    requires MovedDown(now, T, c, J, b) && J <= b < |T| - 1
    ensures var k, j := Wrap(c + b, |T|), Wrap(c + (b + 1), |T|);
            now[j] == T[j] && MovedDown(now[k := T[j]], T, c, J, b + 1)
  {
    DistWrap(c, b, |T|);
    DistWrap(c, b + 1, |T|);
    assert c + b + 1 == c + (b + 1);
  }

  /** Bucket k without the item of slot end, the items displaced behind it moved down by one. */
  ghost predicate ClosedUp<K, V>(T: seq<Slot<K, V>>, off: seq<nat>,
                               T': seq<Slot<K, V>>, off': seq<nat>, c: nat, k: nat, end: nat)
    requires |off| == |T| && c < |T| && k < |T| && end < |T|
  {
    && |T'| == |off'| == |T|
    && (forall p :: 0 <= p < |T| ==>
          off'[p] == if Dist(c, k, |T|) < Dist(c, p, |T|) && off[p] > 0 then off[p] - 1 else off[p])
    && (forall p :: 0 <= p < |T| ==>
          T'[p] == var q := Dist(c, p, |T|);
                   if q < Dist(c, end, |T|) then T[p] else if q == |T| - 1 then None else T[Wrap(c + q + 1, |T|)])
  }

  lemma ClosedAt<K, V>(hash: K -> nat, T: seq<Slot<K, V>>, off: seq<nat>,
                       T': seq<Slot<K, V>>, off': seq<nat>, c: nat, k: nat, end: nat, q: nat)
    requires |off| == |T| && c < |T| && k < |T| && end < |T| && q < |T|
    requires ClosedUp(T, off, T', off', c, k, end)
    ensures Unrolled(hash, T', c)[q] == Removal(Unrolled(hash, T, c), Dist(c, end, |T|))[q]
  {
    hide Home, Dist;
    var row := Unrolled(hash, T, c);
    assert row[q] == Tag(hash, T[Wrap(c + q, |T|)], c, |T|);
    assert q < |T| - 1 ==> row[q + 1] == Tag(hash, T[Wrap(c + q + 1, |T|)], c, |T|);
    DistWrap(c, q, |T|);
  }

  lemma DroppedAt<K, V>(T: seq<Slot<K, V>>, off: seq<nat>,
                        T': seq<Slot<K, V>>, off': seq<nat>, c: nat, k: nat, end: nat, q: nat)
    requires |off| == |T| && c < |T| && k < |T| && end < |T| && q <= |T| && off[c] == 0
    requires ClosedUp(T, off, T', off', c, k, end)
    ensures Around(off', c)[q] == Drop(Around(off, c), Dist(c, k, |T|))[q]
  {
    DistWrap(c, if q < |T| then q else 0, |T|);
  }

  lemma ClosedRow<K, V>(hash: K -> nat, T: seq<Slot<K, V>>, off: seq<nat>,
                        T': seq<Slot<K, V>>, off': seq<nat>, c: nat, k: nat, end: nat)
    requires |off| == |T| && c < |T| && k < |T| && end < |T| && off[c] == 0
    requires ClosedUp(T, off, T', off', c, k, end)
    ensures |T'| == |off'| == |T|
    ensures Unrolled(hash, T', c) == Removal(Unrolled(hash, T, c), Dist(c, end, |T|))
    ensures Around(off', c) == Drop(Around(off, c), Dist(c, k, |T|))
  {
    hide Dist, Removal, Drop, Home;
    var removed, dropped := Removal(Unrolled(hash, T, c), Dist(c, end, |T|)), Drop(Around(off, c), Dist(c, k, |T|));
    forall q | 0 <= q < |T|
      ensures Unrolled(hash, T', c)[q] == removed[q]
    {
      ClosedAt(hash, T, off, T', off', c, k, end, q);
    }
    forall q | 0 <= q <= |T|
      ensures Around(off', c)[q] == dropped[q]
    {
      DroppedAt(T, off, T', off', c, k, end, q);
    }
    assert Unrolled(hash, T', c) == removed;
    assert Around(off', c) == dropped;
  }

  /** The slot of the i-th item of bucket k, seen from a cut. */
  lemma ItemAlong<K, V>(hash: K -> nat, T: seq<Slot<K, V>>, off: seq<nat>, c: nat, k: nat, i: nat)
    requires Laid(hash, T, off) && CutAt(off, c) && k < |T|
    requires off[k] < |T| && off[k] + i <= off[Wrap(k + 1, |T|)]
    requires i <= |T|
    ensures Dist(c, Wrap(Wrap(k + off[k], |T|) + i, |T|), |T|) == Dist(c, k, |T|) + off[k] + i
    ensures Dist(c, k, |T|) + 1 + off[Wrap(k + 1, |T|)] <= |T|
  {
    hide Laid;
    LaidSizes(hash, T, off, c);
    var n, a := |T|, Dist(c, k, |T|);
    AroundFollows(hash, T, off, c, a + 1, n);
    AroundAt(off, c, k);
    assert Around(off, c)[n] == 0;
    assert Wrap(k + off[k], n) == Wrap(c + (a + off[k]), n);
    assert Wrap(Wrap(k + off[k], n) + i, n) == Wrap(c + (a + off[k] + i), n);
    DistWrap(c, a + off[k] + i, n);
  }

  /** Removal keeps the layout, takes the i-th item out of its bucket and touches no other bucket. */
  lemma CloseKeepsLayout<K, V>(hash: K -> nat, T: seq<Slot<K, V>>, off: seq<nat>,
                               T': seq<Slot<K, V>>, off': seq<nat>, c: nat, k: nat, i: nat)
    requires Laid(hash, T, off) && k < |T|
    requires off[k] < |T| && off[k] + i <= off[Wrap(k + 1, |T|)] && i <= |T|
    requires var end := Wrap(Wrap(k + off[k], |T|) + i, |T|);
             T[end].Some? && DisplacedTo(off, end, c) && ClosedUp(T, off, T', off', c, k, end)
    ensures Laid(hash, T', off') && Filled(T') == Filled(T) - 1
    ensures forall b :: 0 <= b < |T| ==>
              var was, now := Bucket(hash, T, b), Bucket(hash, T', b);
              if b == k then i < |was| && now == was[..i] + was[i + 1..] else now == was
  {
    hide Laid, ClosedUp, Bucket, Filled, Removal, Drop, Region, Values, InOrder, Home, Dist, Wrap;
    LaidSizes(hash, T, off, c);
    var n, end := |T|, Wrap(Wrap(k + off[k], |T|) + i, |T|);
    var row, offs, a, J := Unrolled(hash, T, c), Around(off, c), Dist(c, k, n), Dist(c, end, n);
    Unroll(hash, T, off, c);
    ItemAlong(hash, T, off, c, k, i);
    AroundAt(off, c, k);
    ClosedRow(hash, T, off, T', off', c, k, end);
    RemovableRow(hash, T, off, c, end);
    assert CanRemove(row, offs, a, J);
    RemoveKeepsOrder(row, offs, a, J);
    Reroll(hash, T', off', c);
    forall b | 0 <= b < n
      ensures var was, now := Bucket(hash, T, b), Bucket(hash, T', b);
              if b == k then i < |was| && now == was[..i] + was[i + 1..] else now == was
    {
      SameDist(c, b, k, n);
      RemoveRegions(row, offs, a, J, Dist(c, b, n));
      BucketAtCut(hash, T, off, c, b);
      BucketAtCut(hash, T', off', c, b);
    }
    RemovalCount(row, J);
    FilledUnrolled(hash, T, c);
    FilledUnrolled(hash, T', c);
  }

  lemma RemovableRow<K, V>(hash: K -> nat, T: seq<Slot<K, V>>, off: seq<nat>, c: nat, end: nat)
    requires |off| == |T| && DisplacedTo(off, end, c) && end < |T| && T[end].Some?
    ensures var J := Dist(c, end, |T|);
            && Unrolled(hash, T, c)[J].Some?
            && forall q :: J < q < |T| ==> Around(off, c)[q] > 0
  {
    Along(c, end, |T|);
    forall q | Dist(c, end, |T|) < q < |T|
      ensures Around(off, c)[q] > 0
    {
      assert At(off, c, q) > 0;
    }
  }

  method DropOne(offsets: array<nat>, k: nat)
    requires k < offsets.Length && offsets[k] > 0
    modifies offsets
    ensures offsets[..] == old(offsets[..])[k := old(offsets[k]) - 1]
  {
    offsets[k] := offsets[k] - 1;
  }

  /** Lowers the offset of every bucket after `home` up to `end`, around the circle. */
  method DropBuckets(offsets: array<nat>, home: nat, end: nat, ghost c: nat)
    requires c < offsets.Length && home < offsets.Length && end < offsets.Length
    requires Dist(c, home, offsets.Length) <= Dist(c, end, offsets.Length)
    requires forall q :: Dist(c, home, offsets.Length) < q <= Dist(c, end, offsets.Length) ==> At(offsets[..], c, q) > 0
    modifies offsets
    ensures Dropped(offsets[..], old(offsets[..]), c, Dist(c, home, offsets.Length), Dist(c, end, offsets.Length))
  {
    var n := offsets.Length;
    ghost var a, J, off := Dist(c, home, n), Dist(c, end, n), offsets[..];
    var k := home;
    ghost var b := a;
    hide Dist, Wrap, At;
    Along(c, home, n);
    Along(c, end, n);
    assert Dropped(off, off, c, a, a);
    hide Dropped;
    while k != end
      invariant a <= b <= J && k == Wrap(c + b, n) && Dropped(offsets[..], off, c, a, b)
      decreases J - b
    {
      ghost var now := offsets[..];
      NextAlong(c, b, n);
      DropNext(now, off, c, a, b);
      k := Wrap(k + 1, n);
      assert offsets[k] == now[k];
      DropOne(offsets, k);
      b := b + 1;
    }
  }

  /**
   * One turn: the next item moves into the slot left open and its slot's offset is lowered,
   * unless that offset is 0 and the turn is the last.
   */
  method CloseOne<K, V>(table: array<Slot<K, V>>, offsets: array<nat>, k: nat,
                        ghost T: seq<Slot<K, V>>, ghost off: seq<nat>, ghost end: nat, ghost c: nat, ghost b: nat)
    returns (done: bool, j: nat)
    requires HalfClosed(table[..], T, offsets[..], off, end, c, b) && c + b < 2 * |T| && k == Wrap(c + b, |T|)
    modifies table, offsets
    ensures done ==> b == |T| - 1 && HalfClosed(table[..], T, offsets[..], off, end, c, b)
    ensures !done ==>
              && b < |T| - 1 && j == Wrap(c + (b + 1), |T|)
              && HalfClosed(table[..], T, offsets[..], off, end, c, b + 1)
  {
    ghost var slots, now := table[..], offsets[..];
    DownTurn(slots, T, now, off, end, c, b);
    hide *;
    j := Wrap(k + 1, table.Length);
    if offsets[j] == 0 {
      return true, j;
    }
    offsets[j] := offsets[j] - 1;
    table[k] := table[j];
    assert offsets[..] == now[j := now[j] - 1] && table[..] == slots[k := slots[j]];
    done := false;
  }

  lemma NothingClosed<K, V>(T: seq<Slot<K, V>>, off: seq<nat>, end: nat, c: nat)
    requires |T| == |off| && DisplacedTo(off, end, c)
    ensures var J := Dist(c, end, |off|);
            HalfClosed(T, T, off, off, end, c, J) && c < |T| && J < |T| && end == Wrap(c + J, |T|)
  {
    Along(c, end, |T|);
  }

  /** Turn after turn until an offset is 0; the slot left open then is cleared. */
  method MoveDown<K, V>(table: array<Slot<K, V>>, offsets: array<nat>, end: nat, ghost c: nat)
    returns (ghost moved: seq<Slot<K, V>>)
    requires table.Length == offsets.Length && DisplacedTo(offsets[..], end, c)
    modifies table, offsets
    ensures Dropped(offsets[..], old(offsets[..]), c, Dist(c, end, offsets.Length), offsets.Length - 1)
    ensures MovedDown(moved, old(table[..]), c, Dist(c, end, table.Length), table.Length - 1)
    ensures table[..] == moved[Wrap(c + (table.Length - 1), table.Length) := None]
  {
    ghost var T, J, off := table[..], Dist(c, end, offsets.Length), offsets[..];
    var k, done := end, false;
    ghost var b := J;
    hide *;
    NothingClosed(T, off, end, c);
    while !done
      invariant 0 <= b < |T| && k == Wrap(c + b, |T|) && HalfClosed(table[..], T, offsets[..], off, end, c, b)
      invariant done ==> b == |T| - 1
      decreases |T| - b, !done
    {
      var j;
      done, j := CloseOne(table, offsets, k, T, off, end, c, b);
      if !done {
        k := j;
        b := b + 1;
      }
    }
    moved := table[..];
    ClosedFar(moved, T, offsets[..], off, end, c, b);
    SetLast(table, k);
  }

  method SetLast<K, V>(table: array<Slot<K, V>>, k: nat)
    requires k < table.Length
    modifies table
    ensures table[..] == old(table[..])[k := None]
  {
    table[k] := None;
  }

  /** The state of that loop with k at the b-th slot after the cut. */
  ghost predicate HalfClosed<K, V>(slots: seq<Slot<K, V>>, T: seq<Slot<K, V>>, now: seq<nat>, off: seq<nat>, end: nat, c: nat, b: nat) {
    && |T| == |off| && DisplacedTo(off, end, c) && Dist(c, end, |T|) <= b < |T|
    && MovedDown(slots, T, c, Dist(c, end, |T|), b) && Dropped(now, off, c, Dist(c, end, |T|), b)
  }

  /** One turn: the loop ends exactly when it comes back to the cut. */
  lemma DownTurn<K, V>(slots: seq<Slot<K, V>>, T: seq<Slot<K, V>>, now: seq<nat>, off: seq<nat>, end: nat, c: nat, b: nat)
    requires HalfClosed(slots, T, now, off, end, c, b)
    ensures c < |T| && b < |T| == |now| == |slots|
    ensures var n, k := |T|, Wrap(c + b, |T|);
            var j := Wrap(k + 1, n);
            && (now[j] == 0 <==> b == n - 1)
            && (b < n - 1 ==>
                  && j == Wrap(c + (b + 1), n)
                  && HalfClosed(slots[k := slots[j]], T, now[j := now[j] - 1], off, end, c, b + 1))
  {
    if b < |T| - 1 {
      NextAlong(c, b, |T|);
      assert At(off, c, b + 1) > 0;
      DropNext(now, off, c, Dist(c, end, |T|), b);
      DownNext(slots, T, c, Dist(c, end, |T|), b);
    } else {
      BackAtCut(now, off, c, Dist(c, end, |T|), b);
    }
  }

  lemma ClosedFar<K, V>(slots: seq<Slot<K, V>>, T: seq<Slot<K, V>>, now: seq<nat>, off: seq<nat>, end: nat, c: nat, b: nat)
    requires HalfClosed(slots, T, now, off, end, c, b) && b == |T| - 1
    ensures |slots| == |now| == |T| && Wrap(c + b, |T|) < |T|
    ensures MovedDown(slots, T, c, Dist(c, end, |T|), |T| - 1) && Dropped(now, off, c, Dist(c, end, |T|), |T| - 1)
  {
  }

  lemma BackAtCut(now: seq<nat>, off: seq<nat>, c: nat, lo: nat, hi: nat)
    requires Dropped(now, off, c, lo, hi) && CutAt(off, c) && hi == |off| - 1
    ensures var j := Wrap(Wrap(c + hi, |off|) + 1, |off|); j == c && now[j] == 0
  {
  }

  /** BucketSlots in the form the methods use. */
  lemma BucketLies<K, V>(hash: K -> nat, T: seq<Slot<K, V>>, off: seq<nat>, k: nat)
    requires Laid(hash, T, off) && k < |T|
    ensures |off| == |T| && off[k] < |T| && off[k] <= off[Wrap(k + 1, |T|)] + 1 <= |T| + off[k]
    ensures var bucket := Bucket(hash, T, k);
            if off[k] == 0 && T[Wrap(k + off[k], |T|)].None? then bucket == []
            else |bucket| == off[Wrap(k + 1, |T|)] + 1 - off[k] && LiesAt(T, Wrap(k + off[k], |T|), bucket)
  {
    BucketSlots(hash, T, off, k);
  }
}
