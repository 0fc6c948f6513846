/**
 * Vectors of relative offsets: heap sort that moves the absolute targets, and the searches.
 * Positions are counted in bytes from the start of the vector, modulo 2^32; slots are four bytes.
 */
module OffsetVectors {
  import opened Words

  /** Where an offset stored in a slot leads. */
  function Follow(slot: nat, offset: nat): nat {
    (4 * slot + offset) % 0x1_0000_0000
  }

  /** What slot i points at: its own position plus the offset stored in it. */
  function Target(v: seq<nat>, i: nat): nat
    requires i < |v|
  {
    Follow(i, v[i])
  }

  function Targets(v: seq<nat>): (t: seq<nat>)
    ensures |t| == |v| && forall i :: 0 <= i < |v| ==> t[i] == Target(v, i)
  {
    seq(|v|, i requires 0 <= i < |v| => Target(v, i))
  }

  predicate Stored(v: seq<nat>) {
    forall i :: 0 <= i < |v| ==> v[i] < TWO_32
  }

  function Exchanged<T>(s: seq<T>, a: nat, b: nat): (r: seq<T>)
    requires a < |s| && b < |s|
    ensures |r| == |s|
  {
    s[a := s[b]][b := s[a]]
  }

  lemma ExchangedContents<T>(s: seq<T>, a: nat, b: nat)
    requires a < |s| && b < |s|
    ensures multiset(Exchanged(s, a, b)) == multiset(s)
  {
  }

  /** A target behind the vector is stored exactly: no 32-bit wrap-around is involved in following the offset. */
  lemma ExactTarget(v: seq<nat>, i: nat)
    requires Stored(v) && i < |v| && 4 * |v| < TWO_32
    ensures Target(v, i) >= 4 * |v| ==> 4 * i + v[i] == Target(v, i)
  {
  }

  lemma WrapsAround(x: int, k: int)
    ensures (x + 0x1_0000_0000 * k) % 0x1_0000_0000 == x % 0x1_0000_0000
  {
  }

  /** 32-bit arithmetic on offsets; slots are four bytes apart. */
  function Apart(a: nat, b: nat): nat { 4 * (a - b) % 0x1_0000_0000 }

  function Back(offset: nat, d: nat): (r: nat)
    ensures r < TWO_32
  {
    (offset - d) % 0x1_0000_0000
  }

  function Forth(offset: nat, d: nat): (r: nat)
    ensures r < TWO_32
  {
    (offset + d) % 0x1_0000_0000
  }

  lemma OffsetMovedBack(slot: nat, other: nat, offset: nat)
    ensures Follow(slot, Back(offset, Apart(slot, other))) == Follow(other, offset)
  {
    var d := 4 * (slot - other);
    var inner := offset - d % 0x1_0000_0000;
    WrapsAround(4 * other + offset, d / 0x1_0000_0000 - inner / 0x1_0000_0000);
  }

  lemma OffsetMovedForth(slot: nat, other: nat, offset: nat)
    ensures Follow(slot, Forth(offset, Apart(other, slot))) == Follow(other, offset)
  {
    var d := 4 * (other - slot);
    var inner := offset + d % 0x1_0000_0000;
    WrapsAround(4 * other + offset, -(d / 0x1_0000_0000) - inner / 0x1_0000_0000);
  }

  lemma TargetsExchanged(was: seq<nat>, now: seq<nat>, a: nat, b: nat)
    requires a < |was| && b < |was| && Stored(was)
    requires now == was[a := Back(was[b], Apart(a, b))][b := Forth(was[a], Apart(a, b))]
    ensures Stored(now) && Targets(now) == Exchanged(Targets(was), a, b)
  {
    hide Follow, Back, Forth, Apart;
    OffsetMovedBack(a, b, was[b]);
    OffsetMovedForth(b, a, was[a]);
    assert Target(now, b) == Target(was, a);
    assert Target(now, a) == Target(was, b);
    assert Targets(now) == Exchanged(Targets(was), a, b);
  }

  /** __flatbuffers_uoffset_swap: the targets of two slots are exchanged. */
  method UoffsetSwap(vec: array<nat>, a: nat, b: nat)
    requires a < vec.Length && b < vec.Length && Stored(vec[..])
    modifies vec
    ensures Stored(vec[..]) && Targets(vec[..]) == Exchanged(old(Targets(vec[..])), a, b)
  {
    hide *;
    ghost var was := vec[..];
    var d := Apart(a, b);
    var ta := Back(vec[b], d);
    var tb := Forth(vec[a], d);
    vec[a] := ta;
    vec[b] := tb;
    TargetsExchanged(was, vec[..], a, b);
  }

  // ---- the heap: slot 0 above slot 1, and slot i above slots 2i and 2i+1

  /** Every slot of the heap whose parent is at or behind start does not exceed that parent. */
  predicate Heap(key: nat -> int, t: seq<nat>, start: nat, end: nat)
    requires end < |t|
  {
    forall c :: 1 <= c <= end && start <= c / 2 ==> key(t[c / 2]) >= key(t[c])
  }

  lemma {:induction false} TopIsLargest(key: nat -> int, t: seq<nat>, end: nat, i: nat)
    requires end < |t| && i <= end && Heap(key, t, 0, end)
    ensures key(t[0]) >= key(t[i])
    decreases i
  {
    if i > 0 { TopIsLargest(key, t, end, i / 2); }
  }

  predicate Below(key: nat -> int, t: seq<nat>, end: nat, bound: int)
    requires end < |t|
  {
    forall i :: 0 <= i <= end ==> key(t[i]) <= bound
  }

  /** A heap from start on, but for the slot at root, which may be too small for its place. */
  predicate Sifting(key: nat -> int, t: seq<nat>, start: nat, end: nat, root: nat) {
    && start <= root && end < |t| && (root <= end || root == start)
    && (forall c :: 1 <= c <= end && start <= c / 2 && c / 2 != root ==> key(t[c / 2]) >= key(t[c]))
    && (forall c :: 1 <= c <= end && c / 2 == root && 1 <= root && start <= root / 2 ==> key(t[root / 2]) >= key(t[c]))
  }

  /** No child of root is larger than the one at child. */
  predicate LargestChild(key: nat -> int, t: seq<nat>, end: nat, root: nat, child: nat)
  {
    && child <= end < |t| && child / 2 == root
    && forall c :: 1 <= c <= end && c / 2 == root ==> key(t[c]) <= key(t[child])
  }

  lemma SiftStep(key: nat -> int, t: seq<nat>, start: nat, end: nat, root: nat, child: nat)
    requires Sifting(key, t, start, end, root) && LargestChild(key, t, end, root, child)
    requires root < child && key(t[root]) < key(t[child])
    ensures Sifting(key, Exchanged(t, root, child), start, end, child)
  {
    var u := Exchanged(t, root, child);
    forall c | 1 <= c <= end && start <= c / 2 && c / 2 != child
      ensures key(u[c / 2]) >= key(u[c])
    {
      if c == root { assert key(t[c / 2]) >= key(t[child]); }
    }
  }

  lemma Sifted(key: nat -> int, t: seq<nat>, start: nat, end: nat, root: nat, child: nat)
    requires Sifting(key, t, start, end, root)
    requires 2 * root > end || (LargestChild(key, t, end, root, child) && key(t[root]) >= key(t[child]))
    ensures Heap(key, t, start, end)
  {
  }

  /** Positions outside the heap keep their targets, and a bound on the heap stays one. */
  ghost predicate Shuffled(key: nat -> int, t: seq<nat>, u: seq<nat>, start: nat, end: nat, bound: int) {
    && |t| == |u| && end < |t| && multiset(t) == multiset(u)
    && (forall i :: 0 <= i < |t| && (i < start || i > end) ==> u[i] == t[i])
    && (Below(key, t, end, bound) ==> Below(key, u, end, bound))
  }

  lemma ShuffleStep(key: nat -> int, t: seq<nat>, u: seq<nat>, start: nat, end: nat, bound: int, a: nat, b: nat)
    requires Shuffled(key, t, u, start, end, bound) && start <= a <= end && start <= b <= end
    ensures Shuffled(key, t, Exchanged(u, a, b), start, end, bound)
  {
    ExchangedContents(u, a, b);
  }

  /** heap_sift_down, comparing by the key of the targets. */
  method SiftDown(key: nat -> int, vec: array<nat>, start: nat, end: nat, ghost bound: int)
    requires end < vec.Length && Stored(vec[..]) && Sifting(key, Targets(vec[..]), start, end, start)
    modifies vec
    ensures Stored(vec[..]) && Heap(key, Targets(vec[..]), start, end)
    ensures Shuffled(key, old(Targets(vec[..])), Targets(vec[..]), start, end, bound)
  {
    hide Sifting, Heap, Shuffled, LargestChild;
    ghost var t0 := Targets(vec[..]);
    var root := start;
    ShuffledSelf(key, t0, start, end, bound);
    while 2 * root <= end
      invariant start <= root && Stored(vec[..])
      invariant Sifting(key, Targets(vec[..]), start, end, root)
      invariant Shuffled(key, t0, Targets(vec[..]), start, end, bound)
      decreases end - root, 1
    {
      ghost var t := Targets(vec[..]);
      var child := 2 * root;
      if child < end {
        if key(Target(vec[..], child)) < key(Target(vec[..], child + 1)) {
          child := child + 1;
        }
      }
      LargestOf(key, t, end, root, child);
      if key(Target(vec[..], root)) < key(Target(vec[..], child)) {
        SiftStep(key, t, start, end, root, child);
        ShuffleStep(key, t0, t, start, end, bound, root, child);
        UoffsetSwap(vec, root, child);
        root := child;
      } else {
        Sifted(key, t, start, end, root, child);
        return;
      }
    }
    Sifted(key, Targets(vec[..]), start, end, root, 0);
  }

  lemma ShuffledSelf(key: nat -> int, t: seq<nat>, start: nat, end: nat, bound: int)
    requires end < |t|
    ensures Shuffled(key, t, t, start, end, bound)
  {
  }

  lemma LargestOf(key: nat -> int, t: seq<nat>, end: nat, root: nat, child: nat)
    requires 2 * root <= child <= 2 * root + 1 && child <= end < |t|
    requires child == 2 * root && child < end ==> key(t[child]) >= key(t[child + 1])
    requires child == 2 * root + 1 ==> key(t[2 * root]) < key(t[child])
    ensures LargestChild(key, t, end, root, child)
  {
  }

  // ---- sorting

  predicate SortedFrom(key: nat -> int, t: seq<nat>, from: nat) {
    forall i, j :: from <= i < j < |t| ==> key(t[i]) <= key(t[j])
  }

  /** The slots from `end` on are sorted and hold what is largest. */
  ghost predicate Extracting(key: nat -> int, t0: seq<nat>, t: seq<nat>, end: nat) {
    && end < |t| == |t0| && multiset(t) == multiset(t0)
    && Heap(key, t, 0, end) && SortedFrom(key, t, end + 1)
    && (end + 1 < |t| ==> Below(key, t, end, key(t[end + 1])))
  }

  lemma TopSwapped(key: nat -> int, t0: seq<nat>, t: seq<nat>, end: nat)
    requires Extracting(key, t0, t, end) && end > 0
    ensures var u := Exchanged(t, 0, end);
            && Sifting(key, u, 0, end - 1, 0) && Below(key, u, end - 1, key(u[end]))
            && SortedFrom(key, u, end) && multiset(u) == multiset(t0)
  {
    var u := Exchanged(t, 0, end);
    ExchangedContents(t, 0, end);
    forall i | 0 <= i <= end
      ensures key(t[i]) <= key(t[0])
    {
      TopIsLargest(key, t, end, i);
    }
  }

  lemma TopSifted(key: nat -> int, t0: seq<nat>, u: seq<nat>, w: seq<nat>, end: nat)
    requires 0 < end < |u| && multiset(u) == multiset(t0) && |t0| == |u|
    requires SortedFrom(key, u, end) && Below(key, u, end - 1, key(u[end]))
    requires Shuffled(key, u, w, 0, end - 1, key(u[end])) && Heap(key, w, 0, end - 1)
    ensures Extracting(key, t0, w, end - 1)
  {
  }

  /** The targets in order of their keys, each of them kept. */
  ghost predicate SortedVersion(key: nat -> int, t: seq<nat>, u: seq<nat>) {
    multiset(t) == multiset(u) && |t| == |u| && SortedFrom(key, u, 0)
  }

  /** do { sift_down(start, end) } while (start--) */
  method BuildHeap(key: nat -> int, vec: array<nat>)
    requires vec.Length > 0 && Stored(vec[..])
    modifies vec
    ensures Stored(vec[..]) && Extracting(key, old(Targets(vec[..])), Targets(vec[..]), vec.Length - 1)
  {
    hide *;
    ghost var t0 := Targets(vec[..]);
    var end, start := vec.Length - 1, vec.Length / 2;
    TargetsLength(vec[..]);
    LeavesSifting(key, t0, start, end);
    while true
      invariant 0 <= start && end == vec.Length - 1 == |Targets(vec[..])| - 1 && Stored(vec[..])
      invariant Sifting(key, Targets(vec[..]), start, end, start)
      invariant multiset(Targets(vec[..])) == multiset(t0)
      decreases start
    {
      ghost var t := Targets(vec[..]);
      SiftDown(key, vec, start, end, 0);
      TargetsLength(vec[..]);
      ShuffledContents(key, t, Targets(vec[..]), start, end, 0);
      if start == 0 {
        break;
      }
      start := start - 1;
      OneMoreRoot(key, Targets(vec[..]), start, end);
    }
    HeapBuilt(key, t0, Targets(vec[..]), end);
  }

  lemma TargetsLength(v: seq<nat>)
    ensures |Targets(v)| == |v|
  {
  }

  /** heap_sort: the absolute targets come out ordered by key. */
  method HeapSort(key: nat -> int, vec: array<nat>)
    requires Stored(vec[..])
    modifies vec
    ensures Stored(vec[..]) && SortedVersion(key, old(Targets(vec[..])), Targets(vec[..]))
  {
    hide *;
    ghost var t0 := Targets(vec[..]);
    TargetsLength(vec[..]);
    if vec.Length == 0 {
      NothingToSort(key, t0);
      return;
    }
    BuildHeap(key, vec);
    var end := vec.Length - 1;
    while end > 0
      invariant 0 <= end < vec.Length && Stored(vec[..]) && Extracting(key, t0, Targets(vec[..]), end)
    {
      TargetsLength(vec[..]);
      TopSwapped(key, t0, Targets(vec[..]), end);
      UoffsetSwap(vec, 0, end);
      ghost var u := Targets(vec[..]);
      TargetsLength(vec[..]);
      SiftDown(key, vec, 0, end - 1, key(u[end]));
      TopSifted(key, t0, u, Targets(vec[..]), end);
      end := end - 1;
    }
    AllExtracted(key, t0, Targets(vec[..]));
  }

  lemma NothingToSort(key: nat -> int, t: seq<nat>)
    requires t == []
    ensures SortedVersion(key, t, t)
  {
  }

  lemma LeavesSifting(key: nat -> int, t: seq<nat>, start: nat, end: nat)
    requires end + 1 == |t| && start == |t| / 2
    ensures Sifting(key, t, start, end, start)
  {
  }

  lemma OneMoreRoot(key: nat -> int, t: seq<nat>, start: nat, end: nat)
    requires end < |t| && Heap(key, t, start + 1, end)
    ensures Sifting(key, t, start, end, start)
  {
  }

  lemma ShuffledContents(key: nat -> int, t: seq<nat>, u: seq<nat>, start: nat, end: nat, bound: int)
    requires Shuffled(key, t, u, start, end, bound)
    ensures multiset(t) == multiset(u)
  {
  }

  lemma HeapBuilt(key: nat -> int, t0: seq<nat>, t: seq<nat>, end: nat)
    requires |t| == |t0| == end + 1 && multiset(t) == multiset(t0) && Heap(key, t, 0, end)
    ensures Extracting(key, t0, t, end)
  {
  }

  lemma AllExtracted(key: nat -> int, t0: seq<nat>, t: seq<nat>)
    requires Extracting(key, t0, t, 0)
    ensures SortedVersion(key, t0, t)
  {
  }

  // ---- searching

  /** find_by_field on a vector sorted by the key: the lowest matching index, or -1. */
  method FindByField(key: nat -> int, vec: array<nat>, k: int) returns (r: int)
    requires SortedFrom(key, Targets(vec[..]), 0)
    ensures r >= 0 ==> r < vec.Length && key(Target(vec[..], r)) == k
                       && forall i :: 0 <= i < r ==> key(Target(vec[..], i)) != k
    ensures r < 0 ==> r == -1 && forall i :: 0 <= i < vec.Length ==> key(Target(vec[..], i)) != k
  {
    ghost var t := Targets(vec[..]);
    if vec.Length == 0 {
      return -1;
    }
    var a, b := 0, vec.Length - 1;
    while a < b
      invariant 0 <= a <= b < vec.Length
      invariant forall i :: 0 <= i < a ==> key(t[i]) < k
      invariant forall i :: b < i < vec.Length ==> key(t[i]) >= k
      invariant b < vec.Length - 1 ==> key(t[b]) >= k
    {
      var m := a + (b - a) / 2;
      if key(Target(vec[..], m)) < k {
        a := m + 1;
      } else {
        b := m;
      }
    }
    if key(Target(vec[..], a)) == k {
      return a;
    }
    return -1;
  }

  /** scan_by_field: the first match from b up to e. */
  method ScanByField(key: nat -> int, vec: array<nat>, b: nat, e: nat, k: int) returns (r: int)
    requires e <= vec.Length
    ensures r >= 0 ==> b <= r < e && key(Target(vec[..], r)) == k && forall i :: b <= i < r ==> key(Target(vec[..], i)) != k
    ensures r < 0 ==> r == -1 && forall i :: b <= i < e ==> key(Target(vec[..], i)) != k
  {
    var i := b;
    while i < e
      invariant b <= i && forall j :: b <= j < i && j < e ==> key(Target(vec[..], j)) != k
    {
      if key(Target(vec[..], i)) == k {
        return i;
      }
      i := i + 1;
    }
    return -1;
  }

  /** rscan_by_field: the last match from b up to e. */
  method RscanByField(key: nat -> int, vec: array<nat>, b: nat, e: nat, k: int) returns (r: int)
    requires e <= vec.Length
    ensures r >= 0 ==> b <= r < e && key(Target(vec[..], r)) == k && forall i :: r < i < e ==> key(Target(vec[..], i)) != k
    ensures r < 0 ==> r == -1 && forall i :: b <= i < e ==> key(Target(vec[..], i)) != k
  {
    var i := e;
    while i > b
      invariant i <= e && forall j :: i <= j < e && j >= b ==> key(Target(vec[..], j)) != k
    {
      i := i - 1;
      if key(Target(vec[..], i)) == k {
        return i;
      }
    }
    return -1;
  }
}
