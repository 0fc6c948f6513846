/** int_range_lookup over field ids compressed into ranges, and the last_field cache in front of it. */
module Ranges {
  import opened Words
  import opened Descriptors
  import opened Scalars

  ghost predicate Increasing(ids: seq<nat>) {
    forall i, j :: 0 <= i < j < |ids| ==> ids[i] < ids[j]
  }

  /** Range k stands for ids[orig_k .. orig_k+1], which are consecutive; the last entry is a sentinel. */
  ghost predicate Covers(ranges: seq<IntRange>, ids: seq<nat>) {
    && |ranges| >= 1 && ranges[0].orig == 0 && ranges[|ranges| - 1].orig == |ids|
    && (forall k :: 0 <= k < |ranges| - 1 ==> RangeOk(ranges, ids, k))
  }

  ghost predicate RangeOk(ranges: seq<IntRange>, ids: seq<nat>, k: nat)
    requires k + 1 < |ranges|
  {
    && ranges[k].orig < ranges[k + 1].orig <= |ids|
    && forall j :: ranges[k].orig <= j < ranges[k + 1].orig ==> ids[j] == ranges[k].start + (j - ranges[k].orig)
  }

  /** The ids a range covers. */
  predicate InRange(ranges: seq<IntRange>, k: nat, value: int)
    requires k + 1 < |ranges|
  {
    ranges[k].start <= value < ranges[k].start + (ranges[k + 1].orig - ranges[k].orig)
  }

  /** Ranges are sorted: below one range means below all later ones. */
  lemma {:induction false} RangesSorted(ranges: seq<IntRange>, ids: seq<nat>, k: nat, l: nat)
    requires Increasing(ids) && Covers(ranges, ids) && k < l < |ranges| - 1
    ensures ranges[k].orig < ranges[l].orig <= |ids|
    ensures ranges[k].start + (ranges[k + 1].orig - ranges[k].orig) <= ranges[l].start
    decreases l
  {
    assert RangeOk(ranges, ids, k) && RangeOk(ranges, ids, l) && RangeOk(ranges, ids, l - 1);
    if k < l - 1 {
      RangesSorted(ranges, ids, k, l - 1);
    }
    assert ids[ranges[l].orig - 1] < ids[ranges[l].orig];
  }

  /** Every id lies in some range. */
  lemma {:induction false} IdInRange(ranges: seq<IntRange>, ids: seq<nat>, j: nat, hi: nat) returns (k: nat)
    requires Covers(ranges, ids) && hi < |ranges| && j < ranges[hi].orig && j < |ids|
    ensures k < hi && ranges[k].orig <= j < ranges[k + 1].orig && InRange(ranges, k, ids[j])
    decreases hi
  {
    assert RangeOk(ranges, ids, hi - 1);
    if ranges[hi - 1].orig <= j {
      k := hi - 1;
    } else {
      k := IdInRange(ranges, ids, j, hi - 1);
    }
  }

  /** int_range_lookup: the index of `value` among the ids, or -1. */
  method IntRangeLookup(ranges: seq<IntRange>, value: int, ghost ids: seq<nat>) returns (r: int)
    requires Increasing(ids) && Covers(ranges, ids)
    ensures r >= 0 ==> r < |ids| && ids[r] == value
    ensures r < 0 ==> r == -1 && value !in ids
  {
    var nRanges := |ranges| - 1;
    var start, n := 0, nRanges;
    while n > 1
      invariant 0 <= start && 0 <= n && start + n <= nRanges
      invariant forall k :: 0 <= k < nRanges && InRange(ranges, k, value) ==> start <= k < start + n
    {
      var mid := start + n / 2;
      assert RangeOk(ranges, ids, mid);
      if value < ranges[mid].start {
        forall k | mid <= k < nRanges
          ensures !InRange(ranges, k, value)
        {
          if mid < k { RangesSorted(ranges, ids, mid, k); }
        }
        n := mid - start;
      } else if value >= ranges[mid].start + (ranges[mid + 1].orig - ranges[mid].orig) {
        forall k | 0 <= k <= mid
          ensures !InRange(ranges, k, value)
        {
          if k < mid { RangesSorted(ranges, ids, k, mid); }
        }
        n := start + n - (mid + 1);
        start := mid + 1;
      } else {
        return (value - ranges[mid].start) + ranges[mid].orig;
      }
    }
    if n > 0 {
      assert RangeOk(ranges, ids, start);
      if InRange(ranges, start, value) {
        return (value - ranges[start].start) + ranges[start].orig;
      }
    }
    if j :| 0 <= j < |ids| && ids[j] == value {
      ghost var k := IdInRange(ranges, ids, j, nRanges);
    }
    return -1;
  }

  /** The ranges a generator writes for sorted ids: maximal runs, then the sentinel. */
  function Compress(ids: seq<nat>, from: nat): (ranges: seq<IntRange>)
    requires from <= |ids|
    ensures |ranges| >= 1
    decreases |ids| - from
  {
    if from == |ids| then [IntRange(0, from)]
    else
      var n := RunLength(ids, from);
      [IntRange(ids[from], from)] + Compress(ids, from + n)
  }

  function RunLength(ids: seq<nat>, from: nat): (n: nat)
    requires from < |ids|
    ensures 1 <= n && from + n <= |ids|
    ensures forall j :: from <= j < from + n ==> ids[j] == ids[from] + (j - from)
    decreases |ids| - from
  {
    if from + 1 < |ids| && ids[from + 1] == ids[from] + 1 then 1 + RunLength(ids, from + 1) else 1
  }

  /** Such ranges cover the ids they were made from. */
  lemma {:induction false} CompressCovers(ids: seq<nat>, from: nat)
    requires from <= |ids|
    ensures var ranges := Compress(ids, from);
            && ranges[0].orig == from && ranges[|ranges| - 1].orig == |ids|
            && forall k :: 0 <= k < |ranges| - 1 ==> RangeOk(ranges, ids, k)
    decreases |ids| - from
  {
    if from < |ids| {
      var ranges, rest := Compress(ids, from), Compress(ids, from + RunLength(ids, from));
      CompressCovers(ids, from + RunLength(ids, from));
      forall k | 0 <= k < |ranges| - 1
        ensures RangeOk(ranges, ids, k)
      {
        if k > 0 {
          assert RangeOk(rest, ids, k - 1);
        }
      }
    }
  }

  // ---- field lookup

  function Ids(D: Desc): seq<nat> {
    seq(|D.fields|, i requires 0 <= i < |D.fields| => D.fields[i].id)
  }

  /** The descriptor's ranges encode its field ids. */
  ghost predicate Indexed(D: Desc) {
    Covers(D.ranges, Ids(D))
  }

  ghost predicate IndexedSchema(S: Schema) {
    forall d :: 0 <= d < |S| ==> Indexed(S[d])
  }

  lemma KnownTag(S: Schema, D: Desc, tag: nat)
    requires DescOk(S, D)
    ensures Lookup(D, tag).Some? ==> tag <= MAX_FIELD_ID && tag in Ids(D)
  {
    var r := Lookup(D, tag);
    if r.Some? {
      assert FieldOk(S, D, r.value);
      assert Ids(D)[r.value] == tag;
    }
  }

  /**
   * The field of a scanned tag: the last field found is tried first, then the
   * ranges are searched for the tag taken as an int.
   */
  method FindField(S: Schema, D: Desc, tag: nat, last: nat) returns (r: Option<nat>, newLast: nat)
    requires DescOk(S, D) && Indexed(D) && tag < TWO_32
    requires |D.fields| > 0 ==> last < |D.fields|
    ensures r == Lookup(D, tag)
    ensures newLast == if r.Some? then r.value else last
  {
    KnownTag(S, D, tag);
    if |D.fields| == 0 || D.fields[last].id != tag {
      var index := IntRangeLookup(D.ranges, Signed(tag, TWO_32), Ids(D));
      if index < 0 {
        r, newLast := None, last;
      } else {
        r, newLast := Some(index), index;
        assert FieldOk(S, D, index);
        LookupField(S, D, index);
      }
    } else {
      r, newLast := Some(last), last;
      LookupField(S, D, last);
    }
  }
}
