/**
 * The linear picture of a Robin Hood table: cut open in front of a bucket with
 * offset 0, the regions of the buckets follow each other without wrapping.
 */
module Rows {
  import opened Words

  datatype Entry<I> = Entry(home: nat, item: I)

  type Row<I> = seq<Option<Entry<I>>>

  /** The items of some slots, in order. */
  function Values<I>(s: Row<I>): (v: seq<I>)
    ensures |v| <= |s|
  {
    if s == [] then [] else (if s[0].Some? then [s[0].value.item] else []) + Values(s[1..])
  }

  lemma {:induction false} ValuesConcat<I>(a: Row<I>, b: Row<I>)
    ensures Values(a + b) == Values(a) + Values(b)
  {
    if a == [] {
      assert a + b == b;
    } else {
      assert (a + b)[1..] == a[1..] + b;
      ValuesConcat(a[1..], b);
      Associate(if a[0].Some? then [a[0].value.item] else [], Values(a[1..]), Values(b));
    }
  }

  ghost predicate Occupied<I>(s: Row<I>) {
    forall q :: 0 <= q < |s| ==> s[q].Some?
  }

  lemma {:induction false} ValuesOccupied<I>(s: Row<I>)
    requires Occupied(s)
    ensures |Values(s)| == |s| && forall q :: 0 <= q < |s| ==> Values(s)[q] == s[q].value.item
  {
    if s != [] {
      ValuesOccupied(s[1..]);
      assert forall q :: 0 < q < |s| ==> s[1..][q - 1] == s[q];
    }
  }

  /**
   * Bucket k owns the slots from k + offs[k] up to k + 1 + offs[k + 1]; an item lies in
   * a slot of its home bucket; an empty slot is its own bucket's only slot.
   */
  ghost predicate SlotInOrder<I>(row: Row<I>, offs: seq<nat>, q: nat)
    requires q < |row| && |offs| == |row| + 1
  {
    && offs[q] <= offs[q + 1] + 1
    && match row[q]
       case None => offs[q] == 0 && offs[q + 1] == 0
       case Some(e) => e.home < |row| && e.home + offs[e.home] <= q <= e.home + offs[e.home + 1]
  }

  /** The last entry of offs is that of the first bucket again. */
  ghost predicate InOrder<I>(row: Row<I>, offs: seq<nat>) {
    && |offs| == |row| + 1 && offs[0] == 0 && offs[|row|] == 0
    && forall q :: 0 <= q < |row| ==> SlotInOrder(row, offs, q)
  }

  /** Regions follow each other. */
  lemma {:induction false} RegionsFollow<I>(row: Row<I>, offs: seq<nat>, a: nat, b: nat)
    requires InOrder(row, offs) && a <= b <= |row|
    ensures a + offs[a] <= b + offs[b]
    decreases b
  {
    if a < b {
      RegionsFollow(row, offs, a, b - 1);
      assert SlotInOrder(row, offs, b - 1);
    }
  }

  function Region<I>(row: Row<I>, offs: seq<nat>, k: nat): Row<I> {
    if k + 1 < |offs| && k + offs[k] <= k + 1 + offs[k + 1] <= |row| then row[k + offs[k]..k + 1 + offs[k + 1]] else []
  }

  lemma RegionFits<I>(row: Row<I>, offs: seq<nat>, k: nat)
    requires InOrder(row, offs) && k < |row|
    ensures k + offs[k] <= k + 1 + offs[k + 1] <= |row|
    ensures Region(row, offs, k) == row[k + offs[k]..k + 1 + offs[k + 1]]
  {
    RegionsFollow(row, offs, k, k + 1);
    RegionsFollow(row, offs, k + 1, |row|);
  }

  /** A slot inside a region holds an item of that bucket, or is the bucket's own empty slot. */
  lemma RegionOwns<I>(row: Row<I>, offs: seq<nat>, k: nat, q: nat)
    requires InOrder(row, offs) && k < |row| && k + offs[k] <= q <= k + offs[k + 1] && q < |row|
    ensures if row[q].Some? then row[q].value.home == k else q == k && offs[k] == 0 && offs[k + 1] == 0
  {
    assert SlotInOrder(row, offs, q);
    var h := if row[q].Some? then row[q].value.home else q;
    if h < k { RegionsFollow(row, offs, h + 1, k); }
    if k < h { RegionsFollow(row, offs, k + 1, h); }
  }

  /** Slots from an occupied bucket slot to the end of its region are occupied. */
  lemma OccupiedRun<I>(row: Row<I>, offs: seq<nat>, k: nat, q: nat)
    requires InOrder(row, offs) && k < |row| && row[k].Some? && k <= q <= k + offs[k + 1] && q < |row|
    ensures row[q].Some?
  {
    assert SlotInOrder(row, offs, q);
    if row[q].None? {
      if k < q { RegionsFollow(row, offs, k + 1, q); }
    }
  }

  /** The items of a region fill its slots one by one, unless it is an empty slot. */
  lemma RegionShape<I>(row: Row<I>, offs: seq<nat>, k: nat)
    requires InOrder(row, offs) && k < |row|
    ensures k + offs[k] <= k + 1 + offs[k + 1] <= |row|
    ensures var items := Values(Region(row, offs, k));
            if offs[k] == 0 && row[k].None? then items == []
            else
              && |items| == offs[k + 1] + 1 - offs[k]
              && forall i :: 0 <= i < |items| ==>
                   row[k + offs[k] + i].Some? && row[k + offs[k] + i].value.item == items[i]
  {
    RegionFits(row, offs, k);
    var region := Region(row, offs, k);
    if offs[k] == 0 && row[k].None? {
      assert SlotInOrder(row, offs, k);
      assert region == [row[k]] && region[1..] == [];
    } else {
      forall i | 0 <= i < |region|
        ensures region[i].Some?
      {
        RegionOwns(row, offs, k, k + offs[k] + i);
      }
      ValuesOccupied(region);
    }
  }

  function Bump(offs: seq<nat>, k: nat): (r: seq<nat>)
    requires |offs| > 0
    ensures |r| == |offs|
    ensures forall q :: 0 <= q < |offs| ==> r[q] == offs[q] + if k < q < |offs| - 1 then 1 else 0
  {
    seq(|offs|, q requires 0 <= q < |offs| => offs[q] + if k < q < |offs| - 1 then 1 else 0)
  }

  /** Later items move up by one into the empty last slot. */
  function Insertion<I>(row: Row<I>, j: nat, e: Entry<I>): (r: Row<I>)
    requires j < |row|
    ensures |r| == |row|
    ensures forall q :: 0 <= q < |row| ==> r[q] == if q < j then row[q] else if q == j then Some(e) else row[q - 1]
  {
    row[..j] + [Some(e)] + row[j..|row| - 1]
  }

  /** An item can be put behind bucket k by moving the run of items there up by one. */
  ghost predicate CanInsert<I>(row: Row<I>, offs: seq<nat>, k: nat) {
    && InOrder(row, offs) && k < |row| && row[k].Some? && row[|row| - 1].None?
    && k + 1 + offs[k + 1] < |row|
    && forall q :: k + 1 + offs[k + 1] <= q < |row| - 1 ==> row[q].Some?
  }

  lemma InsertSlot<I>(row: Row<I>, offs: seq<nat>, k: nat, x: I, q: nat)
    requires CanInsert(row, offs, k) && q < |row|
    ensures SlotInOrder(Insertion(row, k + 1 + offs[k + 1], Entry(k, x)), Bump(offs, k), q)
  {
    hide Bump;
    var n, j := |row|, k + 1 + offs[k + 1];
    assert SlotInOrder(row, offs, q) && SlotInOrder(row, offs, k) && SlotInOrder(row, offs, n - 1);
    if q < j {
      if k <= q { OccupiedRun(row, offs, k, q); }
      if row[q].Some? {
        var h := row[q].value.home;
        if k < h { RegionsFollow(row, offs, k + 1, h); }
      }
    } else if q == j {
      RegionsFollow(row, offs, k, k + 1);
    } else {
      assert SlotInOrder(row, offs, q - 1);
      var h := row[q - 1].value.home;
      if h <= k { RegionsFollow(row, offs, h + 1, k + 1); }
    }
  }

  lemma InsertKeepsOrder<I>(row: Row<I>, offs: seq<nat>, k: nat, x: I)
    requires CanInsert(row, offs, k)
    ensures InOrder(Insertion(row, k + 1 + offs[k + 1], Entry(k, x)), Bump(offs, k))
  {
    hide Bump;
    var j := k + 1 + offs[k + 1];
    var row', offs' := Insertion(row, j, Entry(k, x)), Bump(offs, k);
    forall q | 0 <= q < |row|
      ensures SlotInOrder(row', offs', q)
    {
      InsertSlot(row, offs, k, x, q);
    }
  }

  /** Equal stretches of two sequences, one d further along. */
  lemma SameStretch<A>(s: seq<A>, t: seq<A>, lo: nat, hi: nat, d: int)
    requires lo <= hi <= |s| && 0 <= lo + d && hi + d <= |t|
    requires forall i :: lo <= i < hi ==> s[i] == t[i + d]
    ensures s[lo..hi] == t[lo + d..hi + d]
  {
    forall i | 0 <= i < hi - lo
      ensures s[lo..hi][i] == t[lo + d..hi + d][i]
    {
      assert s[lo + i] == t[lo + i + d];
    }
  }

  /** Buckets in front keep their region. */
  lemma InsertBefore<I>(row: Row<I>, offs: seq<nat>, k: nat, x: I, b: nat)
    requires CanInsert(row, offs, k) && b < k
    ensures Region(Insertion(row, k + 1 + offs[k + 1], Entry(k, x)), Bump(offs, k), b) == Region(row, offs, b)
  {
    hide Bump, Region, InOrder;
    Closed(row, offs);
    var row', offs' := Insertion(row, k + 1 + offs[k + 1], Entry(k, x)), Bump(offs, k);
    InsertKeepsOrder(row, offs, k, x);
    RegionFits(row, offs, b);
    RegionFits(row', offs', b);
    RegionsFollow(row, offs, b + 1, k);
    RegionsFollow(row, offs, k, k + 1);
    SameStretch(row, row', b + offs[b], b + 1 + offs[b + 1], 0);
  }

  /** Regions of buckets behind move up by one; the last, an empty slot, is taken by the one before. */
  lemma InsertBehind<I>(row: Row<I>, offs: seq<nat>, k: nat, x: I, b: nat)
    requires CanInsert(row, offs, k) && k < b < |row|
    ensures Values(Region(Insertion(row, k + 1 + offs[k + 1], Entry(k, x)), Bump(offs, k), b)) == Values(Region(row, offs, b))
  {
    hide Bump, Region, Values, InOrder;
    Closed(row, offs);
    var n := |row|;
    var row', offs' := Insertion(row, k + 1 + offs[k + 1], Entry(k, x)), Bump(offs, k);
    InsertKeepsOrder(row, offs, k, x);
    RegionFits(row, offs, b);
    RegionFits(row', offs', b);
    RegionsFollow(row, offs, k + 1, b);
    RegionsFollow(row, offs, b, n - 1);
    assert offs[n - 1] == 0 by { LastIsEmpty(row, offs); }
    if b < n - 1 {
      RegionsFollow(row, offs, b + 1, n - 1);
      SameStretch(row, row', b + offs[b], b + 1 + offs[b + 1], 1);
    } else {
      assert Region(row', offs', b) == [] && Region(row, offs, b) == [row[n - 1]];
      OneValue(row[n - 1]);
      NoValues<I>();
    }
  }

  /** The new item is the last of its bucket; no other bucket changes. */
  lemma InsertRegions<I>(row: Row<I>, offs: seq<nat>, k: nat, x: I, b: nat)
    requires CanInsert(row, offs, k) && b < |row|
    ensures var row', offs' := Insertion(row, k + 1 + offs[k + 1], Entry(k, x)), Bump(offs, k);
            Values(Region(row', offs', b)) == Values(Region(row, offs, b)) + if b == k then [x] else []
  {
    hide Bump, Region, Values, InOrder;
    Closed(row, offs);
    if b < k {
      InsertBefore(row, offs, k, x, b);
    } else if b == k {
      var j := k + 1 + offs[k + 1];
      var row', offs' := Insertion(row, j, Entry(k, x)), Bump(offs, k);
      InsertKeepsOrder(row, offs, k, x);
      RegionFits(row, offs, b);
      RegionFits(row', offs', b);
      var was, one: Row<I> := Region(row, offs, b), [Some(Entry(k, x))];
      assert Region(row', offs', b) == was + one;
      ValuesConcat(was, one);
      OneValue(Some(Entry(k, x)));
    } else {
      InsertBehind(row, offs, k, x, b);
    }
  }

  lemma Closed<I>(row: Row<I>, offs: seq<nat>)
    requires InOrder(row, offs)
    ensures |offs| == |row| + 1 && offs[0] == 0 && offs[|row|] == 0
  {
  }

  lemma LastIsEmpty<I>(row: Row<I>, offs: seq<nat>)
    requires InOrder(row, offs) && |row| > 0 && row[|row| - 1].None?
    ensures offs[|row| - 1] == 0
  {
    assert SlotInOrder(row, offs, |row| - 1);
  }

  lemma OneValue<I>(s: Option<Entry<I>>)
    ensures Values([s]) == if s.Some? then [s.value.item] else []
  {
    assert Values([s][1..]) == [];
  }

  lemma NoValues<I>()
    ensures Values<I>([]) == []
  {
  }

  /** Putting an item into the empty slot of its own bucket. */
  lemma FillEmpty<I>(row: Row<I>, offs: seq<nat>, k: nat, x: I)
    requires InOrder(row, offs) && k < |row| && row[k].None?
    ensures InOrder(row[k := Some(Entry(k, x))], offs)
  {
    var row' := row[k := Some(Entry(k, x))];
    assert SlotInOrder(row, offs, k);
    forall q | 0 <= q < |row|
      ensures SlotInOrder(row', offs, q)
    {
      assert SlotInOrder(row, offs, q);
    }
  }

  lemma FillRegions<I>(row: Row<I>, offs: seq<nat>, k: nat, x: I, b: nat)
    requires InOrder(row, offs) && k < |row| && row[k].None? && b < |row|
    ensures var row' := row[k := Some(Entry(k, x))];
            Values(Region(row', offs, b)) == Values(Region(row, offs, b)) + if b == k then [x] else []
  {
    hide Region, Values;
    var row' := row[k := Some(Entry(k, x))];
    FillEmpty(row, offs, k, x);
    RegionFits(row, offs, b);
    RegionFits(row', offs, b);
    assert SlotInOrder(row, offs, k);
    if b == k {
      assert Region(row, offs, b) == [row[k]] && Region(row', offs, b) == [row'[k]];
      OneValue(row[k]);
      OneValue(row'[k]);
    } else {
      if b < k { RegionsFollow(row, offs, b + 1, k); } else { RegionsFollow(row, offs, k + 1, b); }
      assert Region(row', offs, b) == Region(row, offs, b);
    }
  }

  function Drop(offs: seq<nat>, k: nat): (r: seq<nat>)
    requires |offs| > 0
    ensures |r| == |offs|
    ensures forall q :: 0 <= q < |offs| ==> r[q] == if k < q < |offs| - 1 && offs[q] > 0 then offs[q] - 1 else offs[q]
  {
    seq(|offs|, q requires 0 <= q < |offs| => if k < q < |offs| - 1 && offs[q] > 0 then offs[q] - 1 else offs[q])
  }

  /** Later items move down by one. */
  function Removal<I>(row: Row<I>, j: nat): (r: Row<I>)
    requires j < |row|
    ensures |r| == |row|
    ensures forall q :: 0 <= q < |row| ==> r[q] == if q < j then row[q] else if q == |row| - 1 then None else row[q + 1]
  {
    row[..j] + row[j + 1..] + [None]
  }

  /** Slot j holds an item of bucket k, and no bucket behind it starts in place. */
  ghost predicate CanRemove<I>(row: Row<I>, offs: seq<nat>, k: nat, j: nat) {
    && InOrder(row, offs) && k < |row| && k + offs[k] <= j <= k + offs[k + 1] && j < |row| && row[j].Some?
    && forall q :: j < q < |row| ==> offs[q] > 0
  }

  lemma Displaced<I>(row: Row<I>, offs: seq<nat>, k: nat, j: nat, q: nat)
    requires CanRemove(row, offs, k, j) && k < q < |row|
    ensures offs[q] > 0 && (q == |row| - 1 ==> offs[q] == 1) && row[q].Some?
  {
    assert SlotInOrder(row, offs, q);
    RegionsFollow(row, offs, k + 1, q);
    RegionsFollow(row, offs, |row| - 1, |row|);
  }

  lemma RemoveSlot<I>(row: Row<I>, offs: seq<nat>, k: nat, j: nat, q: nat)
    requires CanRemove(row, offs, k, j) && q < |row|
    ensures SlotInOrder(Removal(row, j), Drop(offs, k), q)
  {
    hide Drop;
    var n := |row|;
    assert SlotInOrder(row, offs, q);
    RegionOwns(row, offs, k, j);
    if q < j {
      if k < q { Displaced(row, offs, k, j, q); }
      if row[q].Some? {
        var h := row[q].value.home;
        if k < h { RegionsFollow(row, offs, k + 1, h); }
        if h <= k && h + 1 < n && k < h + 1 { Displaced(row, offs, k, j, k + 1); }
      }
    } else if q < n - 1 {
      assert SlotInOrder(row, offs, q + 1);
      var h := row[q + 1].value.home;
      if h < k { RegionsFollow(row, offs, h + 1, k); }
      if k < h { Displaced(row, offs, k, j, h); }
      if k <= h && h + 1 < n { Displaced(row, offs, k, j, h + 1); }
    } else {
      if k < q { Displaced(row, offs, k, j, q); }
    }
  }

  lemma RemoveKeepsOrder<I>(row: Row<I>, offs: seq<nat>, k: nat, j: nat)
    requires CanRemove(row, offs, k, j)
    ensures InOrder(Removal(row, j), Drop(offs, k))
  {
    hide Drop;
    var row', offs' := Removal(row, j), Drop(offs, k);
    forall q | 0 <= q < |row|
      ensures SlotInOrder(row', offs', q)
    {
      RemoveSlot(row, offs, k, j, q);
    }
  }

  /** Buckets in front keep their region. */
  lemma RemoveBefore<I>(row: Row<I>, offs: seq<nat>, k: nat, j: nat, b: nat)
    requires CanRemove(row, offs, k, j) && b < k
    ensures Region(Removal(row, j), Drop(offs, k), b) == Region(row, offs, b)
  {
    hide Drop, Region, InOrder;
    Closed(row, offs);
    var row', offs' := Removal(row, j), Drop(offs, k);
    RemoveKeepsOrder(row, offs, k, j);
    RegionFits(row, offs, b);
    RegionFits(row', offs', b);
    RegionsFollow(row, offs, b + 1, k);
    SameStretch(row, row', b + offs[b], b + 1 + offs[b + 1], 0);
  }

  /** Regions of displaced buckets move down by one; the last gives its slot back. */
  lemma RemoveBehind<I>(row: Row<I>, offs: seq<nat>, k: nat, j: nat, b: nat)
    requires CanRemove(row, offs, k, j) && k < b < |row|
    ensures Values(Region(Removal(row, j), Drop(offs, k), b)) == Values(Region(row, offs, b))
  {
    hide Drop, Region, Values, InOrder;
    Closed(row, offs);
    var n := |row|;
    var row', offs' := Removal(row, j), Drop(offs, k);
    RemoveKeepsOrder(row, offs, k, j);
    RegionFits(row, offs, b);
    RegionFits(row', offs', b);
    RegionsFollow(row, offs, k + 1, b);
    Displaced(row, offs, k, j, b);
    if b < n - 1 {
      Displaced(row, offs, k, j, b + 1);
      SameStretch(row, row', b + offs[b], b + 1 + offs[b + 1], -1);
    } else {
      assert Region(row, offs, b) == [] && Region(row', offs', b) == [row'[n - 1]];
      OneValue(row'[n - 1]);
      NoValues<I>();
    }
  }

  /** The bucket loses the item of slot j and no other; no other bucket changes. */
  lemma RemoveRegions<I>(row: Row<I>, offs: seq<nat>, k: nat, j: nat, b: nat)
    requires CanRemove(row, offs, k, j) && b < |row|
    ensures var was, now := Values(Region(row, offs, b)), Values(Region(Removal(row, j), Drop(offs, k), b));
            var i := j - (k + offs[k]);
            if b == k then i < |was| && was[i] == row[j].value.item && now == was[..i] + was[i + 1..] else now == was
  {
    hide Drop, Removal, Region, Values, InOrder;
    Closed(row, offs);
    if b < k {
      RemoveBefore(row, offs, k, j, b);
    } else if b == k {
      BucketLoses(row, offs, k, j);
    } else {
      RemoveBehind(row, offs, k, j, b);
    }
  }

  lemma RegionOccupied<I>(row: Row<I>, offs: seq<nat>, k: nat, j: nat)
    requires InOrder(row, offs) && k < |row| && k + offs[k] <= j <= k + offs[k + 1] && j < |row| && row[j].Some?
    ensures k + 1 + offs[k + 1] <= |row| && Occupied(row[k + offs[k]..k + 1 + offs[k + 1]])
  {
    RegionFits(row, offs, k);
    forall q | k + offs[k] <= q < k + 1 + offs[k + 1]
      ensures row[q].Some?
    {
      RegionOwns(row, offs, k, q);
      RegionOwns(row, offs, k, j);
    }
  }

  lemma {:induction false} ValuesWithout<I>(s: Row<I>, i: nat)
    requires Occupied(s) && i < |s|
    ensures |Values(s)| == |s| && Values(s)[i] == s[i].value.item
    ensures Values(s[..i] + s[i + 1..]) == Values(s)[..i] + Values(s)[i + 1..]
  {
    ValuesOccupied(s);
    ValuesOccupied(s[..i]);
    ValuesOccupied(s[i + 1..]);
    ValuesConcat(s[..i], s[i + 1..]);
    assert Values(s[..i]) == Values(s)[..i];
    assert Values(s[i + 1..]) == Values(s)[i + 1..];
  }

  lemma StretchWithout<I>(row: Row<I>, lo: nat, j: nat, hi: nat)
    requires lo <= j < hi <= |row|
    ensures Removal(row, j)[lo..hi - 1] == row[lo..hi][..j - lo] + row[lo..hi][j - lo + 1..]
  {
    var row' := Removal(row, j);
    SameStretch(row, row', lo, j, 0);
    SameStretch(row, row', j + 1, hi, -1);
    assert row'[lo..hi - 1] == row'[lo..j] + row'[j..hi - 1];
  }

  lemma BucketLoses<I>(row: Row<I>, offs: seq<nat>, k: nat, j: nat)
    requires CanRemove(row, offs, k, j)
    ensures var was, now := Values(Region(row, offs, k)), Values(Region(Removal(row, j), Drop(offs, k), k));
            var i := j - (k + offs[k]);
            i < |was| && was[i] == row[j].value.item && now == was[..i] + was[i + 1..]
  {
    hide Drop, Region, Values, InOrder, Occupied;
    Closed(row, offs);
    var n := |row|;
    var row', offs' := Removal(row, j), Drop(offs, k);
    RemoveKeepsOrder(row, offs, k, j);
    RegionFits(row, offs, k);
    RegionFits(row', offs', k);
    RegionOccupied(row, offs, k, j);
    var was, now, lo := Region(row, offs, k), Region(row', offs', k), k + offs[k];
    ValuesWithout(was, j - lo);
    if k + 1 < n {
      Displaced(row, offs, k, j, k + 1);
      StretchWithout(row, lo, j, k + 1 + offs[k + 1]);
    } else {
      assert was == [row[j]] && now == [row'[k]];
      OneValue(row'[k]);
      OneValue(row[j]);
    }
  }

  // ---- items by home bucket, and their number

  function AtHome<I>(s: Row<I>, k: nat): seq<I> {
    if s == [] then []
    else (if s[0].Some? && s[0].value.home == k then [s[0].value.item] else []) + AtHome(s[1..], k)
  }

  lemma {:induction false} AtHomeConcat<I>(a: Row<I>, b: Row<I>, k: nat)
    ensures AtHome(a + b, k) == AtHome(a, k) + AtHome(b, k)
  {
    if a == [] {
      assert a + b == b;
    } else {
      assert (a + b)[1..] == a[1..] + b;
      AtHomeConcat(a[1..], b, k);
      Associate(if a[0].Some? && a[0].value.home == k then [a[0].value.item] else [], AtHome(a[1..], k), AtHome(b, k));
    }
  }

  lemma {:induction false} NoneAtHome<I>(s: Row<I>, k: nat)
    requires forall q :: 0 <= q < |s| && s[q].Some? ==> s[q].value.home != k
    ensures AtHome(s, k) == []
  {
    if s != [] { NoneAtHome(s[1..], k); }
  }

  lemma {:induction false} AllAtHome<I>(s: Row<I>, k: nat)
    requires forall q :: 0 <= q < |s| && s[q].Some? ==> s[q].value.home == k
    ensures AtHome(s, k) == Values(s)
  {
    if s != [] { AllAtHome(s[1..], k); }
  }

  /** The region of bucket k holds exactly its items. */
  lemma OwnersOf<I>(row: Row<I>, offs: seq<nat>, k: nat, q: nat)
    requires InOrder(row, offs) && k < |row| && q < |row|
    ensures row[q].Some? ==> (row[q].value.home == k <==> k + offs[k] <= q < k + 1 + offs[k + 1])
  {
    assert SlotInOrder(row, offs, q);
    if k + offs[k] <= q < k + 1 + offs[k + 1] { RegionOwns(row, offs, k, q); }
  }

  lemma BetweenBounds<I>(row: Row<I>, lo: nat, hi: nat, k: nat)
    requires k <= lo <= hi <= |row|
    requires forall q :: 0 <= q < |row| && row[q].Some? ==> (row[q].value.home == k <==> lo <= q < hi)
    ensures AtHome(row[k..] + row[..k], k) == Values(row[lo..hi])
  {
    hide AtHome, Values;
    AtHomeConcat(row[k..], row[..k], k);
    NoneAtHome(row[..k], k);
    assert row[k..] == row[k..lo] + (row[lo..hi] + row[hi..]);
    AtHomeConcat(row[k..lo], row[lo..hi] + row[hi..], k);
    AtHomeConcat(row[lo..hi], row[hi..], k);
    NoneAtHome(row[k..lo], k);
    NoneAtHome(row[hi..], k);
    AllAtHome(row[lo..hi], k);
  }

  /** Read from its own slot once around, the items of a bucket are those of its region. */
  lemma BucketIsRegion<I>(row: Row<I>, offs: seq<nat>, k: nat)
    requires InOrder(row, offs) && k < |row|
    ensures AtHome(row[k..] + row[..k], k) == Values(Region(row, offs, k))
  {
    hide *;
    Closed(row, offs);
    RegionFits(row, offs, k);
    forall q | 0 <= q < |row| && row[q].Some?
      ensures row[q].value.home == k <==> k + offs[k] <= q < k + 1 + offs[k + 1]
    {
      OwnersOf(row, offs, k, q);
    }
    BetweenBounds(row, k + offs[k], k + 1 + offs[k + 1], k);
  }

  lemma InsertionCount<I>(row: Row<I>, j: nat, e: Entry<I>)
    requires j < |row| && row[|row| - 1].None?
    ensures |Values(Insertion(row, j, e))| == |Values(row)| + 1
  {
    var n := |row|;
    assert row == row[..j] + row[j..n - 1] + [row[n - 1]];
    ValuesConcat(row[..j] + row[j..n - 1], [row[n - 1]]);
    ValuesConcat(row[..j], row[j..n - 1]);
    ValuesConcat(row[..j] + [Some(e)], row[j..n - 1]);
    ValuesConcat(row[..j], [Some(e)]);
    OneValue(row[n - 1]);
    OneValue(Some(e));
  }

  lemma FillCount<I>(row: Row<I>, k: nat, e: Entry<I>)
    requires k < |row| && row[k].None?
    ensures |Values(row[k := Some(e)])| == |Values(row)| + 1
  {
    assert row == row[..k] + [row[k]] + row[k + 1..];
    assert row[k := Some(e)] == row[..k] + [Some(e)] + row[k + 1..];
    ValuesConcat(row[..k] + [row[k]], row[k + 1..]);
    ValuesConcat(row[..k], [row[k]]);
    ValuesConcat(row[..k] + [Some(e)], row[k + 1..]);
    ValuesConcat(row[..k], [Some(e)]);
    OneValue(row[k]);
    OneValue(Some(e));
  }

  lemma RemovalCount<I>(row: Row<I>, j: nat)
    requires j < |row| && row[j].Some?
    ensures |Values(Removal(row, j))| == |Values(row)| - 1
  {
    var none: Option<Entry<I>> := None;
    assert row == row[..j] + [row[j]] + row[j + 1..];
    ValuesConcat(row[..j] + [row[j]], row[j + 1..]);
    ValuesConcat(row[..j], [row[j]]);
    ValuesConcat(row[..j] + row[j + 1..], [none]);
    ValuesConcat(row[..j], row[j + 1..]);
    OneValue(row[j]);
    OneValue(none);
  }
}
