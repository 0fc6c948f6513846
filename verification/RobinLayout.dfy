/** How a Robin Hood table lies in memory: buckets, offsets, and the circle cut open. */
module RobinLayout {
  import opened Words
  import opened Rows
  import opened Hashing

  /** ht_item_t; None is HT_MISSING. */
  type Slot<K, V> = Option<Item<K, V>>

  /** x & (n - 1) for a power of two n and x < 2 n. */
  function Wrap(x: nat, n: nat): (r: nat)
    requires x < 2 * n
    ensures r < n
  {
    if x < n then x else x - n
  }

  /** How far slot p is past slot c, going around. */
  function Dist(c: nat, p: nat, n: nat): (d: nat)
    requires c < n && p < n
    ensures d < n && Wrap(c + d, n) == p
  {
    if p >= c then p - c else p + n - c
  }

  lemma DistWrap(c: nat, d: nat, n: nat)
    requires c < n && d < n
    ensures Dist(c, Wrap(c + d, n), n) == d
  {
  }

  /** The entry i slots past slot j. */
  function At<A>(s: seq<A>, j: nat, i: nat): A
    requires j < |s| && i <= |s|
  {
    s[Wrap(j + i, |s|)]
  }

  function Home<K>(hash: K -> nat, key: K, n: nat): (k: nat)
    requires n > 0
    ensures k < n
  {
    hash(key) % n
  }

  // ---- the layout

  /**
   * Slot p is laid out: an item lies at an offset from its home bucket k between
   * offsets[k] and the end of the bucket, where bucket k + 1 begins; an empty slot has
   * offset 0 and so has the next; buckets do not overlap.
   */
  ghost predicate SlotLaid<K, V>(hash: K -> nat, T: seq<Slot<K, V>>, off: seq<nat>, p: nat)
    requires |off| == |T| && p < |T|
  {
    var n := |T|;
    && off[p] <= off[Wrap(p + 1, n)] + 1
    && match T[p]
       case None => off[p] == 0 && off[Wrap(p + 1, n)] == 0
       case Some(x) =>
         var k := Home(hash, x.key, n);
         off[k] <= Dist(k, p, n) <= off[Wrap(k + 1, n)]
  }

  predicate CutAt(off: seq<nat>, c: nat) {
    c < |off| && off[c] == 0
  }

  ghost predicate Laid<K, V>(hash: K -> nat, T: seq<Slot<K, V>>, off: seq<nat>) {
    && |off| == |T|
    && (|T| > 0 ==> exists c: nat :: CutAt(off, c))
    && forall p :: 0 <= p < |T| ==> SlotLaid(hash, T, off, p)
  }

  // ---- contents

  /** Items of some slots with home bucket k of n. */
  function Homed<K, V>(hash: K -> nat, n: nat, s: seq<Slot<K, V>>, k: nat): seq<Item<K, V>>
    requires n > 0
  {
    if s == [] then []
    else (if s[0].Some? && Home(hash, s[0].value.key, n) == k then [s[0].value] else []) + Homed(hash, n, s[1..], k)
  }

  /** Items of some slots with this key. */
  function Keyed<K(==), V>(s: seq<Slot<K, V>>, key: K): seq<Item<K, V>> {
    if s == [] then [] else (if s[0].Some? && s[0].value.key == key then [s[0].value] else []) + Keyed(s[1..], key)
  }

  function WithKey<K(==), V>(xs: seq<Item<K, V>>, key: K): seq<Item<K, V>> {
    if xs == [] then [] else (if xs[0].key == key then [xs[0]] else []) + WithKey(xs[1..], key)
  }

  function Filled<K, V>(s: seq<Slot<K, V>>): nat {
    if s == [] then 0 else (if s[0].Some? then 1 else 0) + Filled(s[1..])
  }

  /** The items of bucket k, in cyclic order from slot k. */
  function Bucket<K, V>(hash: K -> nat, T: seq<Slot<K, V>>, k: nat): seq<Item<K, V>>
    requires k < |T|
  {
    Homed(hash, |T|, T[k..] + T[..k], k)
  }

  /** All items stored under a key, in cyclic order from their home slot. */
  function Chain<K(==), V>(hash: K -> nat, T: seq<Slot<K, V>>, key: K): seq<Item<K, V>> {
    if |T| == 0 then [] else
      var k := Home(hash, key, |T|);
      Keyed(T[k..] + T[..k], key)
  }

  lemma {:induction false} KeyedHomed<K, V>(hash: K -> nat, n: nat, s: seq<Slot<K, V>>, key: K)
    requires n > 0
    ensures Keyed(s, key) == WithKey(Homed(hash, n, s, Home(hash, key, n)), key)
  {
    if s != [] {
      KeyedHomed(hash, n, s[1..], key);
      var k, rest := Home(hash, key, n), Homed(hash, n, s[1..], Home(hash, key, n));
      var first := if s[0].Some? && Home(hash, s[0].value.key, n) == k then [s[0].value] else [];
      assert Homed(hash, n, s, k) == first + rest;
      WithKeyConcat(first, rest, key);
      OneWithKey(first, key);
    }
  }

  lemma OneWithKey<K, V>(xs: seq<Item<K, V>>, key: K)
    requires |xs| <= 1
    ensures WithKey(xs, key) == if |xs| == 1 && xs[0].key == key then xs else []
  {
    if |xs| == 1 {
      assert xs[1..] == [];
    }
  }

  lemma {:induction false} KeyedConcat<K, V>(a: seq<Slot<K, V>>, b: seq<Slot<K, V>>, key: K)
    ensures Keyed(a + b, key) == Keyed(a, key) + Keyed(b, key)
  {
    if a == [] {
      assert a + b == b;
    } else {
      assert (a + b)[1..] == a[1..] + b;
      KeyedConcat(a[1..], b, key);
      Associate(if a[0].Some? && a[0].value.key == key then [a[0].value] else [], Keyed(a[1..], key), Keyed(b, key));
    }
  }

  lemma {:induction false} WithKeyConcat<K, V>(a: seq<Item<K, V>>, b: seq<Item<K, V>>, key: K)
    ensures WithKey(a + b, key) == WithKey(a, key) + WithKey(b, key)
  {
    if a == [] {
      assert a + b == b;
    } else {
      assert (a + b)[1..] == a[1..] + b;
      WithKeyConcat(a[1..], b, key);
      Associate(if a[0].key == key then [a[0]] else [], WithKey(a[1..], key), WithKey(b, key));
    }
  }

  // ---- cutting the circle open

  function Tag<K, V>(hash: K -> nat, x: Slot<K, V>, c: nat, n: nat): Option<Entry<Item<K, V>>>
    requires c < n
  {
    if x.None? then None else Some(Entry(Dist(c, Home(hash, x.value.key, n), n), x.value))
  }

  /** The slots from c once around, with homes counted from c. */
  function Unrolled<K, V>(hash: K -> nat, T: seq<Slot<K, V>>, c: nat): (row: Row<Item<K, V>>)
    requires c < |T|
    ensures |row| == |T| && forall q :: 0 <= q < |T| ==> row[q] == Tag(hash, T[Wrap(c + q, |T|)], c, |T|)
  {
    seq(|T|, q requires 0 <= q < |T| => Tag(hash, T[Wrap(c + q, |T|)], c, |T|))
  }

  /** The offsets from c once around, and that of c again. */
  function Around(off: seq<nat>, c: nat): (offs: seq<nat>)
    requires c < |off|
    ensures |offs| == |off| + 1 && forall q :: 0 <= q <= |off| ==> offs[q] == off[Wrap(c + q, |off|)]
  {
    seq(|off| + 1, q requires 0 <= q <= |off| => off[Wrap(c + q, |off|)])
  }

  lemma {:induction false} AroundFollows<K, V>(hash: K -> nat, T: seq<Slot<K, V>>, off: seq<nat>, c: nat, a: nat, b: nat)
    requires Laid(hash, T, off) && c < |T| && a <= b <= |T|
    ensures a + Around(off, c)[a] <= b + Around(off, c)[b]
    decreases b
  {
    if a < b {
      AroundFollows(hash, T, off, c, a, b - 1);
      assert SlotLaid(hash, T, off, Wrap(c + b - 1, |T|));
    }
  }

  /** Cut open in front of a bucket with offset 0, the table is in linear order. */
  lemma Unroll<K, V>(hash: K -> nat, T: seq<Slot<K, V>>, off: seq<nat>, c: nat)
    requires Laid(hash, T, off) && CutAt(off, c)
    ensures InOrder(Unrolled(hash, T, c), Around(off, c))
  {
    var n := |T|;
    var row, offs := Unrolled(hash, T, c), Around(off, c);
    forall q | 0 <= q < n
      ensures SlotInOrder(row, offs, q)
    {
      UnrollSlot(hash, T, off, c, q);
    }
  }

  lemma UnrollSlot<K, V>(hash: K -> nat, T: seq<Slot<K, V>>, off: seq<nat>, c: nat, q: nat)
    requires Laid(hash, T, off) && CutAt(off, c) && q < |T|
    ensures |off| == |T| && SlotInOrder(Unrolled(hash, T, c), Around(off, c), q)
  {
    hide Home;
    var n, p := |T|, Wrap(c + q, |T|);
    assert SlotLaid(hash, T, off, p);
    if T[p].Some? {
      var k := Home(hash, T[p].value.key, n);
      AroundFollows(hash, T, off, c, Dist(c, k, n) + 1, n);
    }
  }

  /** And back. */
  lemma Reroll<K, V>(hash: K -> nat, T: seq<Slot<K, V>>, off: seq<nat>, c: nat)
    requires |off| == |T| && c < |T| && InOrder(Unrolled(hash, T, c), Around(off, c))
    ensures Laid(hash, T, off)
  {
    var n := |T|;
    var row, offs := Unrolled(hash, T, c), Around(off, c);
    assert CutAt(off, c);
    forall p | 0 <= p < n
      ensures SlotLaid(hash, T, off, p)
    {
      assert SlotInOrder(row, offs, Dist(c, p, n));
    }
  }

  lemma {:induction false} HomedTagged<K, V>(hash: K -> nat, n: nat, s: seq<Slot<K, V>>, row: Row<Item<K, V>>, c: nat, k: nat)
    requires c < n && k < n && |s| == |row|
    requires forall q :: 0 <= q < |s| ==> row[q] == Tag(hash, s[q], c, n)
    ensures Homed(hash, n, s, k) == AtHome(row, Dist(c, k, n))
  {
    if s != [] {
      HomedTagged(hash, n, s[1..], row[1..], c, k);
      assert row[0] == Tag(hash, s[0], c, n);
    }
  }

  /** The items of bucket k are those of its region, at every cut. */
  lemma BucketAtCut<K, V>(hash: K -> nat, T: seq<Slot<K, V>>, off: seq<nat>, c: nat, k: nat)
    requires |off| == |T| && c < |T| && k < |T| && InOrder(Unrolled(hash, T, c), Around(off, c))
    ensures Bucket(hash, T, k) == Values(Region(Unrolled(hash, T, c), Around(off, c), Dist(c, k, |T|)))
  {
    var n := |T|;
    var row, q := Unrolled(hash, T, c), Dist(c, k, n);
    BucketIsRegion(row, Around(off, c), q);
    HomedTagged(hash, n, T[k..] + T[..k], row[q..] + row[..q], c, k);
  }

  /** Where bucket k lies: nowhere, or in consecutive slots from k + offsets[k] up to k + 1 + offsets[k + 1]. */
  lemma BucketSlots<K, V>(hash: K -> nat, T: seq<Slot<K, V>>, off: seq<nat>, k: nat)
    requires Laid(hash, T, off) && k < |T|
    ensures var n, bucket := |T|, Bucket(hash, T, k);
            var next := off[Wrap(k + 1, n)];
            && off[k] < n && off[k] <= next + 1 <= n + off[k]
            && var j := Wrap(k + off[k], n);
            if off[k] == 0 && T[j].None? then bucket == []
            else
              && |bucket| == next + 1 - off[k]
              && forall i :: 0 <= i < |bucket| ==> At(T, j, i) == Some(bucket[i])
  {
    hide InOrder, Region, Values, Bucket, Around, Unrolled;
    var n := |T|;
    var c: nat :| CutAt(off, c);
    hide Laid;
    var row, offs, a := Unrolled(hash, T, c), Around(off, c), Dist(c, k, n);
    Unroll(hash, T, off, c);
    BucketAtCut(hash, T, off, c, k);
    RegionShape(row, offs, a);
    AroundAt(off, c, k);
    RowAt(hash, T, c, k, 0, 0);
    forall i | 0 <= i < |Bucket(hash, T, k)|
      ensures At(T, Wrap(k + off[k], n), i) == Some(Bucket(hash, T, k)[i])
    {
      RowAt(hash, T, c, k, off[k], i);
    }
  }

  lemma AroundAt(off: seq<nat>, c: nat, k: nat)
    requires c < |off| && k < |off|
    ensures Around(off, c)[Dist(c, k, |off|)] == off[k]
    ensures Around(off, c)[Dist(c, k, |off|) + 1] == off[Wrap(k + 1, |off|)]
  {
  }

  /** The slot i past the one d past k, seen from c. */
  lemma RowAt<K, V>(hash: K -> nat, T: seq<Slot<K, V>>, c: nat, k: nat, d: nat, i: nat)
    requires c < |T| && k < |T| && Dist(c, k, |T|) + d + i < |T|
    ensures Unrolled(hash, T, c)[Dist(c, k, |T|) + d + i] == Tag(hash, At(T, Wrap(k + d, |T|), i), c, |T|)
  {
  }

  lemma {:induction false} EmptyExists<K, V>(T: seq<Slot<K, V>>) returns (e: nat)
    requires Filled(T) < |T|
    ensures e < |T| && T[e].None?
  {
    if T[0].None? {
      e := 0;
    } else {
      e := EmptyExists(T[1..]);
      e := e + 1;
    }
  }

  /** Distance from slot j to the first empty slot. */
  lemma {:induction false} FirstEmpty<K, V>(T: seq<Slot<K, V>>, j: nat, e: nat, from: nat) returns (d: nat)
    requires j < |T| && e < |T| && T[e].None? && from <= |T|
    requires forall i :: 0 <= i < from ==> At(T, j, i).Some?
    ensures d < |T| && At(T, j, d).None? && forall i :: 0 <= i < d ==> At(T, j, i).Some?
    decreases |T| - from
  {
    assert At(T, j, Dist(j, e, |T|)).None?;
    if At(T, j, from).None? {
      d := from;
    } else {
      d := FirstEmpty(T, j, e, from + 1);
    }
  }

  /** What insertion behind bucket k leaves: the run of items from there to the first empty slot is moved up by one. */
  ghost predicate Shifted<K, V>(hash: K -> nat, T: seq<Slot<K, V>>, off: seq<nat>,
                                T': seq<Slot<K, V>>, off': seq<nat>, c: nat, k: nat, x: Item<K, V>)
    requires |off| == |T| && c < |T| && k < |T|
  {
    var n, a := |T|, Dist(c, k, |T|);
    var j := a + 1 + Around(off, c)[a + 1];
    && |T'| == n && |off'| == n && j < n
    && (forall p :: 0 <= p < n ==> off'[p] == off[p] + if a < Dist(c, p, n) then 1 else 0)
    && (forall p :: 0 <= p < n ==>
          T'[p] == var q := Dist(c, p, n);
                   if q < j then T[p] else if q == j then Some(x) else T[Wrap(c + q - 1, n)])
  }

  lemma ShiftedAt<K, V>(hash: K -> nat, T: seq<Slot<K, V>>, off: seq<nat>,
                        T': seq<Slot<K, V>>, off': seq<nat>, c: nat, k: nat, x: Item<K, V>, q: nat)
    requires |off| == |T| && c < |T| && k < |T| && Home(hash, x.key, |T|) == k && q < |T|
    requires Shifted(hash, T, off, T', off', c, k, x)
    ensures var a := Dist(c, k, |T|);
            var j := a + 1 + Around(off, c)[a + 1];
            Unrolled(hash, T', c)[q] == Insertion(Unrolled(hash, T, c), j, Entry(a, x))[q]
  {
    var row := Unrolled(hash, T, c);
    assert row[q] == Tag(hash, T[Wrap(c + q, |T|)], c, |T|);
    assert q > 0 ==> row[q - 1] == Tag(hash, T[Wrap(c + q - 1, |T|)], c, |T|);
    DistWrap(c, q, |T|);
  }

  lemma BumpedAt<K, V>(hash: K -> nat, T: seq<Slot<K, V>>, off: seq<nat>,
                       T': seq<Slot<K, V>>, off': seq<nat>, c: nat, k: nat, x: Item<K, V>, q: nat)
    requires |off| == |T| && c < |T| && k < |T| && q <= |T|
    requires Shifted(hash, T, off, T', off', c, k, x)
    ensures Around(off', c)[q] == Bump(Around(off, c), Dist(c, k, |T|))[q]
  {
    DistWrap(c, if q < |T| then q else 0, |T|);
  }

  lemma ShiftedRow<K, V>(hash: K -> nat, T: seq<Slot<K, V>>, off: seq<nat>,
                         T': seq<Slot<K, V>>, off': seq<nat>, c: nat, k: nat, x: Item<K, V>)
    requires |off| == |T| && c < |T| && k < |T| && Home(hash, x.key, |T|) == k
    requires Shifted(hash, T, off, T', off', c, k, x)
    ensures var a := Dist(c, k, |T|);
            && a + 1 + Around(off, c)[a + 1] < |T|
            && Unrolled(hash, T', c) == Insertion(Unrolled(hash, T, c), a + 1 + Around(off, c)[a + 1], Entry(a, x))
            && Around(off', c) == Bump(Around(off, c), a)
  {
    hide *;
    Sizes(hash, T, off, T', off', c, k, x);
    var a, offs := Dist(c, k, |T|), Around(off, c);
    var inserted, bumped := Insertion(Unrolled(hash, T, c), a + 1 + offs[a + 1], Entry(a, x)), Bump(offs, a);
    forall q | 0 <= q < |T|
      ensures Unrolled(hash, T', c)[q] == inserted[q]
    {
      ShiftedAt(hash, T, off, T', off', c, k, x, q);
    }
    forall q | 0 <= q <= |T|
      ensures Around(off', c)[q] == bumped[q]
    {
      BumpedAt(hash, T, off, T', off', c, k, x, q);
    }
    assert Unrolled(hash, T', c) == inserted;
    assert Around(off', c) == bumped;
  }

  /** Insertion keeps the layout, adds the item at the end of its bucket and touches no other bucket. */
  lemma ShiftKeepsLayout<K, V>(hash: K -> nat, T: seq<Slot<K, V>>, off: seq<nat>,
                               T': seq<Slot<K, V>>, off': seq<nat>, c: nat, k: nat, x: Item<K, V>)
    requires Laid(hash, T, off) && CutAt(off, c) && k < |T| && Home(hash, x.key, |T|) == k
    requires CanInsert(Unrolled(hash, T, c), Around(off, c), Dist(c, k, |T|))
    requires Shifted(hash, T, off, T', off', c, k, x)
    ensures Laid(hash, T', off') && Filled(T') == Filled(T) + 1
    ensures forall b :: 0 <= b < |T| ==> Bucket(hash, T', b) == Bucket(hash, T, b) + if b == k then [x] else []
  {
    hide *;
    LaidSizes(hash, T, off, c);
    Sizes(hash, T, off, T', off', c, k, x);
    var row, offs, a := Unrolled(hash, T, c), Around(off, c), Dist(c, k, |T|);
    ShiftedRow(hash, T, off, T', off', c, k, x);
    Unroll(hash, T, off, c);
    InsertKeepsOrder(row, offs, a, x);
    Reroll(hash, T', off', c);
    forall b | 0 <= b < |T|
      ensures Bucket(hash, T', b) == Bucket(hash, T, b) + if b == k then [x] else []
    {
      SameDist(c, b, k, |T|);
      InsertRegions(row, offs, a, x, Dist(c, b, |T|));
      BucketAtCut(hash, T, off, c, b);
      BucketAtCut(hash, T', off', c, b);
    }
    LastEmpty(row, offs, a);
    InsertionCount(row, a + 1 + offs[a + 1], Entry(a, x));
    FilledUnrolled(hash, T, c);
    FilledUnrolled(hash, T', c);
  }

  lemma LaidSizes<K, V>(hash: K -> nat, T: seq<Slot<K, V>>, off: seq<nat>, c: nat)
    requires Laid(hash, T, off)
    ensures |off| == |T| && (CutAt(off, c) ==> c < |T|)
  {
  }

  lemma SameDist(c: nat, a: nat, b: nat, n: nat)
    requires c < n && a < n && b < n
    ensures Dist(c, a, n) == Dist(c, b, n) <==> a == b
  {
  }

  lemma Sizes<K, V>(hash: K -> nat, T: seq<Slot<K, V>>, off: seq<nat>,
                    T': seq<Slot<K, V>>, off': seq<nat>, c: nat, k: nat, x: Item<K, V>)
    requires |off| == |T| && c < |T| && k < |T| && Shifted(hash, T, off, T', off', c, k, x)
    ensures |T'| == |off'| == |T| && Dist(c, k, |T|) + 1 + Around(off, c)[Dist(c, k, |T|) + 1] < |T|
  {
  }

  lemma LastEmpty<I>(row: Row<I>, offs: seq<nat>, k: nat)
    requires CanInsert(row, offs, k)
    ensures row[|row| - 1].None?
  {
  }

  lemma {:induction false} FilledTagged<K, V>(hash: K -> nat, s: seq<Slot<K, V>>, row: Row<Item<K, V>>, c: nat, n: nat)
    requires c < n && |s| == |row| && forall q :: 0 <= q < |s| ==> row[q] == Tag(hash, s[q], c, n)
    ensures |Values(row)| == Filled(s)
  {
    if s != [] {
      FilledTagged(hash, s[1..], row[1..], c, n);
      assert row[0] == Tag(hash, s[0], c, n);
    }
  }

  lemma {:induction false} FilledConcat<K, V>(a: seq<Slot<K, V>>, b: seq<Slot<K, V>>)
    ensures Filled(a + b) == Filled(a) + Filled(b)
  {
    if a == [] {
      assert a + b == b;
    } else {
      assert (a + b)[1..] == a[1..] + b;
      FilledConcat(a[1..], b);
    }
  }

  lemma FilledUnrolled<K, V>(hash: K -> nat, T: seq<Slot<K, V>>, c: nat)
    requires c < |T|
    ensures |Values(Unrolled(hash, T, c))| == Filled(T)
  {
    FilledTagged(hash, T[c..] + T[..c], Unrolled(hash, T, c), c, |T|);
    FilledConcat(T[c..], T[..c]);
    FilledConcat(T[..c], T[c..]);
    assert T[..c] + T[c..] == T;
  }

  /** The slot behind bucket k. */
  ghost predicate EndsAt(off: seq<nat>, k: nat, j: nat) {
    && k < |off|
    && var n, next := |off|, off[Wrap(k + 1, |off|)];
    && off[k] < n && off[k] <= next + 1 <= n + off[k]
    && j == Wrap(Wrap(k + off[k], n) + (next + 1 - off[k]), n)
  }

  /** Slot f is empty and those from j up to it are not. */
  ghost predicate RunTo<K, V>(T: seq<Slot<K, V>>, j: nat, f: nat) {
    && j < |T| && f < |T| && T[f].None?
    && forall i :: 0 <= i < Dist(j, f, |T|) ==> At(T, j, i).Some?
  }

  lemma RunExists<K, V>(T: seq<Slot<K, V>>, j: nat) returns (f: nat)
    requires Filled(T) < |T| && j < |T|
    ensures RunTo(T, j, f)
  {
    var e := EmptyExists(T);
    var d := FirstEmpty(T, j, e, 0);
    f := Wrap(j + d, |T|);
  }

  lemma CutAfterEmpty<K, V>(hash: K -> nat, T: seq<Slot<K, V>>, off: seq<nat>, f: nat)
    requires Laid(hash, T, off) && f < |T| && T[f].None?
    ensures |off| == |T| && CutAt(off, Wrap(f + 1, |T|)) && off[f] == 0
    ensures Unrolled(hash, T, Wrap(f + 1, |T|))[|T| - 1].None?
  {
    assert SlotLaid(hash, T, off, f);
  }

  lemma EndAlong(off: seq<nat>, k: nat, j: nat, c: nat)
    requires EndsAt(off, k, j) && c < |off|
    requires Dist(c, k, |off|) + 1 + off[Wrap(k + 1, |off|)] < |off| && Dist(c, k, |off|) + off[k] < |off|
    ensures Dist(c, j, |off|) == Dist(c, k, |off|) + 1 + off[Wrap(k + 1, |off|)]
  {
    var n, a := |off|, Dist(c, k, |off|);
    assert Wrap(k + off[k], n) == Wrap(c + (a + off[k]), n);
    assert j == Wrap(c + (a + 1 + off[Wrap(k + 1, n)]), n);
  }

  /** In front of the slot after the first empty slot behind a bucket, the table can be cut for an insertion. */
  lemma CutBehind<K, V>(hash: K -> nat, T: seq<Slot<K, V>>, off: seq<nat>, k: nat, j: nat, f: nat) returns (c: nat)
    requires Laid(hash, T, off) && EndsAt(off, k, j) && RunTo(T, j, f) && !(off[k] == 0 && T[k].None?)
    ensures c == Wrap(f + 1, |T|) && CutAt(off, c)
    ensures CanInsert(Unrolled(hash, T, c), Around(off, c), Dist(c, k, |T|))
    ensures var a := Dist(c, k, |T|); a + 1 + Around(off, c)[a + 1] == Dist(c, j, |T|)
  {
    hide InOrder, Laid, Around;
    var n := |T|;
    assert |off| == n by { CutAfterEmpty(hash, T, off, f); }
    c := Wrap(f + 1, n);
    CutAfterEmpty(hash, T, off, f);
    Unroll(hash, T, off, c);
    var row, offs, a := Unrolled(hash, T, c), Around(off, c), Dist(c, k, n);
    Closed(row, offs);
    assert T[k].Some? by {
      if T[k].None? { CutAfterEmpty(hash, T, off, k); }
    }
    assert row[a].Some? && a < n - 1;
    LastIsEmpty(row, offs);
    RegionsFollow(row, offs, a + 1, n - 1);
    RegionsFollow(row, offs, a, a + 1);
    AroundAt(off, c, k);
    EndAlong(off, k, j, c);
    RunInRow(hash, T, j, f, c);
  }

  lemma RunInRow<K, V>(hash: K -> nat, T: seq<Slot<K, V>>, j: nat, f: nat, c: nat)
    requires RunTo(T, j, f) && c == Wrap(f + 1, |T|)
    ensures forall q :: Dist(c, j, |T|) <= q < |T| - 1 ==> Unrolled(hash, T, c)[q].Some?
  {
    forall q | Dist(c, j, |T|) <= q < |T| - 1
      ensures Unrolled(hash, T, c)[q].Some?
    {
      assert At(T, j, q - Dist(c, j, |T|)).Some?;
    }
  }

  // ---- searching a bucket

  lemma {:induction false} HomedAreHome<K, V>(hash: K -> nat, n: nat, s: seq<Slot<K, V>>, k: nat)
    requires n > 0
    ensures forall i :: 0 <= i < |Homed(hash, n, s, k)| ==> Home(hash, Homed(hash, n, s, k)[i].key, n) == k
  {
    if s != [] { HomedAreHome(hash, n, s[1..], k); }
  }

  lemma {:induction false} HomedConcat<K, V>(hash: K -> nat, n: nat, a: seq<Slot<K, V>>, b: seq<Slot<K, V>>, k: nat)
    requires n > 0
    ensures Homed(hash, n, a + b, k) == Homed(hash, n, a, k) + Homed(hash, n, b, k)
  {
    if a == [] {
      assert a + b == b;
    } else {
      assert (a + b)[1..] == a[1..] + b;
      HomedConcat(hash, n, a[1..], b, k);
      Associate(if a[0].Some? && Home(hash, a[0].value.key, n) == k then [a[0].value] else [],
                Homed(hash, n, a[1..], k), Homed(hash, n, b, k));
    }
  }

  /** Changing a slot from one item to another of the same other bucket is not seen in bucket k. */
  lemma HomedUpdate<K, V>(hash: K -> nat, n: nat, s: seq<Slot<K, V>>, q: nat, y: Item<K, V>, k: nat)
    requires n > 0 && q < |s| && s[q].Some?
    requires Home(hash, s[q].value.key, n) != k && Home(hash, y.key, n) != k
    ensures Homed(hash, n, s[q := Some(y)], k) == Homed(hash, n, s, k)
  {
    assert s == s[..q] + ([s[q]] + s[q + 1..]);
    assert s[q := Some(y)] == s[..q] + ([Some(y)] + s[q + 1..]);
    HomedConcat(hash, n, s[..q], [s[q]] + s[q + 1..], k);
    HomedConcat(hash, n, s[..q], [Some(y)] + s[q + 1..], k);
    assert ([s[q]] + s[q + 1..])[1..] == s[q + 1..] && ([Some(y)] + s[q + 1..])[1..] == s[q + 1..];
  }

  lemma FilledUpdate<K, V>(s: seq<Slot<K, V>>, q: nat, y: Item<K, V>)
    requires q < |s| && s[q].Some?
    ensures Filled(s[q := Some(y)]) == Filled(s)
  {
    assert s == s[..q] + ([s[q]] + s[q + 1..]);
    assert s[q := Some(y)] == s[..q] + ([Some(y)] + s[q + 1..]);
    FilledConcat(s[..q], [s[q]] + s[q + 1..]);
    FilledConcat(s[..q], [Some(y)] + s[q + 1..]);
    assert ([s[q]] + s[q + 1..])[1..] == s[q + 1..] && ([Some(y)] + s[q + 1..])[1..] == s[q + 1..];
  }

  /** Slot p and its position in a bucket that lies in slots j, j + 1, ... */
  ghost predicate LiesAt<K, V>(T: seq<Slot<K, V>>, j: nat, bucket: seq<Item<K, V>>) {
    && j < |T| && |bucket| <= |T|
    && forall i :: 0 <= i < |bucket| ==> At(T, j, i) == Some(bucket[i])
  }

  /** Replacing the i-th item of bucket k by another one with the same key. */
  lemma ReplaceKeepsLayout<K, V>(hash: K -> nat, T: seq<Slot<K, V>>, off: seq<nat>, k: nat, i: nat, y: Item<K, V>)
    requires Laid(hash, T, off) && k < |T| && off[k] < |T|
    requires LiesAt(T, Wrap(k + off[k], |T|), Bucket(hash, T, k))
    requires i < |Bucket(hash, T, k)| && y.key == Bucket(hash, T, k)[i].key
    ensures var T' := T[Wrap(Wrap(k + off[k], |T|) + i, |T|) := Some(y)];
            && Laid(hash, T', off) && Filled(T') == Filled(T)
            && Bucket(hash, T', k) == Bucket(hash, T, k)[i := y]
            && forall b :: 0 <= b < |T| && b != k ==> Bucket(hash, T', b) == Bucket(hash, T, b)
  {
    var n, j, was := |T|, Wrap(k + off[k], |T|), Bucket(hash, T, k);
    var p := Wrap(j + i, n);
    var T' := T[p := Some(y)];
    assert At(T, j, i) == Some(was[i]);
    HomedAreHome(hash, n, T[k..] + T[..k], k);
    assert Laid(hash, T', off) by {
      forall q | 0 <= q < n
        ensures SlotLaid(hash, T', off, q)
      {
        assert SlotLaid(hash, T, off, q);
      }
    }
    FilledUpdate(T, p, y);
    hide Laid, Homed, SlotLaid, Home;
    forall b | 0 <= b < n && b != k
      ensures Bucket(hash, T', b) == Bucket(hash, T, b)
    {
      RotatedUpdate(T, p, Some(y), b);
      HomedUpdate(hash, n, T[b..] + T[..b], Dist(b, p, n), y, b);
    }
    ReplacedInBucket(hash, T, off, k, i, y);
  }

  lemma RotatedUpdate<A>(s: seq<A>, p: nat, y: A, b: nat)
    requires p < |s| && b < |s|
    ensures var r := s[b..] + s[..b];
            && r[Dist(b, p, |s|)] == s[p]
            && s[p := y][b..] + s[p := y][..b] == r[Dist(b, p, |s|) := y]
  {
  }

  lemma ReplacedInBucket<K, V>(hash: K -> nat, T: seq<Slot<K, V>>, off: seq<nat>, k: nat, i: nat, y: Item<K, V>)
    requires Laid(hash, T, off) && k < |T| && off[k] < |T|
    requires LiesAt(T, Wrap(k + off[k], |T|), Bucket(hash, T, k)) && i < |Bucket(hash, T, k)|
    requires Laid(hash, T[Wrap(Wrap(k + off[k], |T|) + i, |T|) := Some(y)], off)
    ensures Bucket(hash, T[Wrap(Wrap(k + off[k], |T|) + i, |T|) := Some(y)], k) == Bucket(hash, T, k)[i := y]
  {
    hide Laid, Bucket;
    LaidSizes(hash, T, off, 0);
    var n, j, was := |T|, Wrap(k + off[k], |T|), Bucket(hash, T, k);
    var p := Wrap(j + i, n);
    var T' := T[p := Some(y)];
    var now := Bucket(hash, T', k);
    assert At(T, j, i) == Some(was[i]);
    BucketSlots(hash, T, off, k);
    BucketSlots(hash, T', off, k);
    assert T[j].Some? ==> T'[j].Some?;
    assert |now| == |was|;
    forall q | 0 <= q < |was|
      ensures now[q] == was[i := y][q]
    {
      assert At(T', j, q) == Some(now[q]) && At(T, j, q) == Some(was[q]);
    }
    assert now == was[i := y];
  }

  /** No item before the i-th has the key. */
  ghost predicate Unmatched<K, V>(bucket: seq<Item<K, V>>, key: K, i: nat) {
    i <= |bucket| && forall q :: 0 <= q < i ==> bucket[q].key != key
  }

  lemma {:induction false} SearchOutcome<K, V>(bucket: seq<Item<K, V>>, key: K, i: nat)
    requires Unmatched(bucket, key, i) && (i < |bucket| ==> bucket[i].key == key)
    ensures WithKey(bucket[..i], key) == []
    ensures WithKey(bucket, key) == if i < |bucket| then [bucket[i]] + WithKey(bucket[i + 1..], key) else []
    decreases i
  {
    if i > 0 {
      SearchOutcome(bucket[1..], key, i - 1);
      assert bucket[..i][1..] == bucket[1..][..i - 1];
      if i < |bucket| { assert bucket[1..][i..] == bucket[i + 1..]; }
    } else if bucket != [] {
      assert bucket[1..] == bucket[i + 1..];
    }
  }
}
