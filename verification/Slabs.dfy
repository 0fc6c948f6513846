/** The doubling slabs of scanned members: appending and walking them visits one flat sequence. */
module Slabs {
  import opened Words
  import opened Decoding

  /** MAX_SCANNED_MEMBER_SLAB: 32 - 1 - 5 - 4 */
  const MAX_SLAB: nat := 22

  /** Size of slab i: 1 << (i + FIRST_SCANNED_MEMBER_SLAB_SIZE_LOG2). */
  function SlabSize(i: nat): (n: nat)
    ensures n > 0
  {
    16 * Pow2(i)
  }

  /** Room in slabs 0 .. i-1. */
  function RoomBefore(i: nat): nat {
    16 * (Pow2(i) - 1)
  }

  lemma AllRoom()
    ensures RoomBefore(MAX_SLAB + 1) == MAX_RECORDS
  {
    assert Pow2(4) == 2 * (2 * (2 * (2 * Pow2(0))));
    assert Pow2(8) == 2 * (2 * (2 * (2 * Pow2(4))));
    assert Pow2(12) == 2 * (2 * (2 * (2 * Pow2(8))));
    assert Pow2(16) == 2 * (2 * (2 * (2 * Pow2(12))));
    assert Pow2(20) == 2 * (2 * (2 * (2 * Pow2(16))));
    assert Pow2(23) == 2 * (2 * (2 * Pow2(20)));
  }

  lemma {:induction false} RoomMonotone(i: nat, j: nat)
    requires i <= j
    ensures RoomBefore(i) <= RoomBefore(j)
    decreases j
  {
    if i < j { RoomMonotone(i, j - 1); }
  }

  lemma Prefixes<A>(s: seq<A>, a: nat, b: nat)
    requires a <= b <= |s|
    ensures s[..a] + s[a..b] == s[..b] && s[..|s|] == s
  {
  }

  class SlabList<T> {
    var slabs: seq<array<T>>   // scanned_member_slabs[..which_slab + 1]
    var inSlab: nat                 // in_slab_index
    ghost var Flat: seq<T>          // the members in scan order

    ghost predicate Valid()
      reads this, slabs
    {
      && 1 <= |slabs| <= MAX_SLAB + 1
      && (forall i :: 0 <= i < |slabs| ==> slabs[i].Length == SlabSize(i))
      && (forall i, j :: 0 <= i < j < |slabs| ==> slabs[i] != slabs[j])
      && inSlab <= SlabSize(|slabs| - 1)
      && |Flat| == RoomBefore(|slabs| - 1) + inSlab
      && (forall i :: 0 <= i < |slabs| - 1 ==> SlabHolds(i, SlabSize(i)))
      && SlabHolds(|slabs| - 1, inSlab)
    }

    /** The first n entries of slab i are its part of the flat sequence. */
    ghost predicate SlabHolds(i: nat, n: nat)
      reads this, slabs
    {
      && i < |slabs| && n <= slabs[i].Length && RoomBefore(i) + n <= |Flat|
      && slabs[i][..n] == Flat[RoomBefore(i)..RoomBefore(i) + n]
    }

    constructor (blank: T)
      ensures Valid() && Flat == [] && fresh(slabs)
    {
      var first := new T[16](_ => blank);
      slabs, inSlab, Flat := [first], 0, [];
    }

    /** Opens the next slab, twice as large, when the current one is full. */
    method Grow(blank: T)
      requires Valid() && inSlab == SlabSize(|slabs| - 1) && |slabs| <= MAX_SLAB
      modifies this
      ensures Valid() && Flat == old(Flat) && inSlab == 0
      ensures |slabs| == |old(slabs)| + 1 && slabs[..|slabs| - 1] == old(slabs) && fresh(slabs[|slabs| - 1])
    {
      Bounds();
      hide SlabSize, RoomBefore, Pow2;
      ghost var was := slabs;
      var next := NewSlab(SlabSize(|slabs|), blank);
      slabs := slabs + [next];
      inSlab := 0;
      assert forall i :: 0 <= i < |was| ==> slabs[i] == was[i] && slabs[i] != next;
      assert SlabHolds(|was|, 0) by { assert next[..0] == Flat[|Flat|..|Flat|]; }
      forall i | 0 <= i < |slabs| - 1
        ensures SlabHolds(i, SlabSize(i))
      {
        assert slabs[i] == was[i];
        assert old(SlabHolds(i, SlabSize(i)));
      }
    }

    /** The member goes into the next free entry of the last slab. */
    method Store(m: T)
      requires Valid() && inSlab < SlabSize(|slabs| - 1)
      modifies this`inSlab, this`Flat, slabs[|slabs| - 1]
      ensures Valid() && Flat == old(Flat) + [m]
    {
      var w := |slabs| - 1;
      ghost var was := slabs[w][..inSlab];
      assert SlabHolds(w, inSlab);
      slabs[w][inSlab] := m;
      inSlab := inSlab + 1;
      Flat := Flat + [m];
      assert slabs[w][..inSlab] == was + [m];
      forall i | 0 <= i < w
        ensures SlabHolds(i, SlabSize(i))
      {
        assert old(SlabHolds(i, SlabSize(i)));
        RoomMonotone(i + 1, w);
        assert slabs[i] != slabs[w];
        assert slabs[i][..SlabSize(i)] == old(slabs[i][..SlabSize(i)]);
      }
    }

    lemma Bounds()
      requires Valid()
      ensures 1 <= |slabs| <= MAX_SLAB + 1 && inSlab <= SlabSize(|slabs| - 1)
      ensures |Flat| == RoomBefore(|slabs| - 1) + inSlab
      ensures RoomBefore(|slabs|) == RoomBefore(|slabs| - 1) + SlabSize(|slabs| - 1)
    {
    }

    /** Stores one scanned member; fails when a slab beyond the last one would be needed. */
    method Append(m: T) returns (ok: bool)
      requires Valid()
      modifies this, slabs
      ensures ok <==> |old(Flat)| < MAX_RECORDS
      ensures ok ==> Valid() && Flat == old(Flat) + [m]
      ensures forall i :: 0 <= i < |slabs| ==> (i < |old(slabs)| && slabs[i] == old(slabs)[i]) || fresh(slabs[i])
    {
      hide Valid, Pow2;
      Bounds();
      AllRoom();
      if inSlab == SlabSize(|slabs| - 1) {
        if |slabs| - 1 == MAX_SLAB {
          return false;
        }
        Grow(m);
        Bounds();
        RoomMonotone(|slabs|, MAX_SLAB + 1);
      } else {
        RoomMonotone(|slabs|, MAX_SLAB + 1);
      }
      Store(m);
      ok := true;
    }

    /** Members in the slabs before slab i. */
    ghost function Reached(i: nat): nat
      reads this
    {
      if i == |slabs| then |Flat| else RoomBefore(i)
    }

    /** The entries of slab i are those of the flat sequence from there on. */
    lemma SlabEntries(i: nat)
      requires Valid() && i < |slabs|
      ensures var max := if i == |slabs| - 1 then inSlab else SlabSize(i);
              && max <= slabs[i].Length && Reached(i) + max == Reached(i + 1) <= |Flat|
              && forall j :: 0 <= j < max ==> slabs[i][j] == Flat[Reached(i) + j]
    {
      var max := if i == |slabs| - 1 then inSlab else SlabSize(i);
      assert SlabHolds(i, max);
      forall j | 0 <= j < max
        ensures slabs[i][j] == Flat[Reached(i) + j]
      {
        assert slabs[i][..max][j] == Flat[RoomBefore(i)..RoomBefore(i) + max][j];
      }
    }

    lemma AllReached()
      requires Valid()
      ensures Reached(0) == 0 && Reached(|slabs|) == |Flat|
    {
    }

    static method NewSlab(size: nat, blank: T) returns (slab: array<T>)
      ensures fresh(slab) && slab.Length == size
    {
      slab := new T[size](_ => blank);
    }

    /** The walk through one slab. */
    method WalkSlab(i: nat, before: seq<T>) returns (visited: seq<T>)
      requires Valid() && i < |slabs| && Reached(i) <= |Flat| && before == Flat[..Reached(i)]
      ensures Reached(i + 1) <= |Flat| && visited == Flat[..Reached(i + 1)]
    {
      SlabEntries(i);
      hide *;
      var slab, max := slabs[i], if i == |slabs| - 1 then inSlab else SlabSize(i);
      ghost var from, flat := Reached(i), Flat;
      visited := before;
      for j := 0 to max
        invariant visited == flat[..from + j]
      {
        Prefixes(flat, from + j, from + (j + 1));
        visited := visited + [slab[j]];
      }
    }

    /** The walk of the second pass: member j of slab i, for all slabs in order. */
    method Walk() returns (visited: seq<T>)
      requires Valid()
      ensures visited == Flat
    {
      AllReached();
      hide *;
      visited := [];
      for i := 0 to |slabs|
        invariant Reached(i) <= |Flat| && visited == Flat[..Reached(i)]
      {
        visited := WalkSlab(i, visited);
      }
      Prefixes(Flat, 0, 0);
    }
  }
}
