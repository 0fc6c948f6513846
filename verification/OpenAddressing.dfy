/** The open-addressing hash table with linear or triangular probing and tombstones. */
module OpenAddressing {
  import opened Words
  import opened Hashing

  // ---- probing

  /** HT_PROBE: linear, or with steps that grow by one (HT_PROBE_QUADRATIC), modulo the table size. */
  function Probe(quadratic: bool, k: nat, i: nat, n: nat): (p: nat)
    requires n > 0
    ensures p < n
  {
    (k + if quadratic then (i + i * i) / 2 else i) % n
  }

  lemma SumMod(a: nat, b: nat, n: nat)
    requires n > 0
    ensures (a % n + b) % n == (a + b) % n
  {
    var q := (a % n + b) / n;
    assert a == n * (a / n) + a % n;
    assert a + b == n * (a / n + q) + (a % n + b) % n;
    ModUnique(a + b, n, a / n + q, (a % n + b) % n);
  }

  /** Probing starts at the home slot and goes on by one slot, or by one more slot every time, around the table. */
  lemma ProbeMoves(quadratic: bool, k: nat, i: nat, n: nat)
    requires n > 0
    ensures Probe(quadratic, k, 0, n) == k % n
    ensures Probe(quadratic, k, i + 1, n) == (Probe(quadratic, k, i, n) + if quadratic then i + 1 else 1) % n
  {
    var s := if quadratic then Triangle(i) else i;
    assert (i + 1) + (i + 1) * (i + 1) == i + i * i + 2 * (i + 1);
    SumMod(k + s, if quadratic then i + 1 else 1, n);
  }

  lemma {:induction false} OddFactor(a: nat, b: nat, n: nat)
    requires PowerOfTwo(n) && a % 2 == 1 && a * b % n == 0
    ensures b % n == 0
    decreases n
  {
    if n > 1 {
      var h, q := n / 2, a * b / n;
      assert a * b == q * n;
      assert q * n == 2 * (q * h);
      EvenFactor(a, b, q * h);
      var c := b / 2;
      assert a * (2 * c) == 2 * (a * c);
      assert a * c == q * h;
      MultipleMod(q, h);
      OddFactor(a, c, h);
      var r := c / h;
      assert b == 2 * (h * r) == n * r;
      MultipleMod(r, n);
    }
  }

  lemma OddTimesOdd(a: nat, b: nat)
    requires a % 2 == 1 && b % 2 == 1
    ensures a * b % 2 == 1
  {
    var x, y := a / 2, b / 2;
    assert a * b == 2 * (x * b) + b;
    ModUnique(a * b, 2, x * b + y, 1);
  }

  lemma EvenFactor(a: nat, b: nat, half: nat)
    requires a % 2 == 1 && a * b == 2 * half
    ensures b % 2 == 0
  {
    if b % 2 == 1 { OddTimesOdd(a, b); }
  }

  lemma MultipleMod(q: nat, n: nat)
    requires n > 0
    ensures q * n % n == 0
  {
    ModUnique(q * n, n, q, 0);
  }

  function Triangle(i: nat): (t: nat)
    ensures 2 * t == i + i * i
  {
    EvenSquare(i);
    (i + i * i) / 2
  }

  lemma {:induction false} EvenSquare(i: nat)
    ensures (i + i * i) % 2 == 0
  {
    if i > 0 {
      EvenSquare(i - 1);
      assert i + i * i == (i - 1) + (i - 1) * (i - 1) + 2 * i;
    }
  }

  lemma TriangleDifference(i: nat, j: nat)
    requires i < j
    ensures 2 * (Triangle(j) - Triangle(i)) == (j - i) * (j + i + 1) && Triangle(j) >= Triangle(i)
  {
    assert (j - i) * (j + i + 1) == j * j + j - i * i - i;
    assert (j - i) * (j + i + 1) >= 0;
  }

  lemma SmallMultiple(x: nat, n: nat)
    requires 0 < x < n
    ensures x % n != 0
  {
  }

  lemma SameRemainder(x: nat, y: nat, n: nat)
    requires n > 0 && x <= y && x % n == y % n
    ensures (y - x) % n == 0
  {
    var q := y / n - x / n;
    assert q >= 0 by { DivMonotone(x, y, n); }
    Rest(x, n);
    Rest(y, n);
    assert y - x == q * n by { assert q * n == y / n * n - x / n * n; }
    MultipleMod(q, n);
  }

  lemma Rest(x: nat, n: nat)
    requires n > 0
    ensures x == x / n * n + x % n
  {
  }

  lemma DivMonotone(x: nat, y: nat, n: nat)
    requires n > 0 && x <= y
    ensures x / n <= y / n
  {
    Rest(x, n);
    Rest(y, n);
    if y / n < x / n { Gap(y / n, x / n, n); }
  }

  lemma Gap(a: nat, b: nat, n: nat)
    requires a < b
    ensures a * n + n <= b * n
  {
    var d := b - a - 1;
    assert b * n == a * n + n + d * n;
    assert d * n >= 0;
  }

  lemma DoubleMultiple(d: nat, n: nat)
    requires n > 0 && d % n == 0
    ensures 2 * d % (2 * n) == 0
  {
    Rest(d, n);
    ModUnique(2 * d, 2 * n, d / n, 0);
  }

  /** Two factors of different parity below 2n have no product that is a multiple of 2n. */
  lemma NoCommonFactor(a: nat, b: nat, m: nat)
    requires PowerOfTwo(m) && 0 < a < m && 0 < b < m && (a + b) % 2 == 1
    ensures a * b % m != 0
  {
    hide PowerOfTwo;
    var p := a * b;
    assert p == b * a;
    if p % m == 0 {
      if a % 2 == 1 {
        OddFactor(a, b, m);
        SmallMultiple(b, m);
      } else {
        OddFactor(b, a, m);
        SmallMultiple(a, m);
      }
    }
  }

  /** Triangular numbers below n are distinct modulo n. */
  lemma TrianglesDiffer(k: nat, i: nat, j: nat, n: nat)
    requires PowerOfTwo(n) && i < j < n
    ensures (k + Triangle(i)) % n != (k + Triangle(j)) % n
  {
    hide Triangle, PowerOfTwo;
    var d := Triangle(j) - Triangle(i);
    TriangleDifference(i, j);
    TwicePower(n);
    NoCommonFactor(j - i, j + i + 1, 2 * n);
    if d % n == 0 { DoubleMultiple(d, n); }
    if (k + Triangle(i)) % n == (k + Triangle(j)) % n {
      SameRemainder(k + Triangle(i), k + Triangle(j), n);
    }
  }

  lemma TwicePower(n: nat)
    requires PowerOfTwo(n)
    ensures PowerOfTwo(2 * n) && n > 0
  {
  }

  /** Distinct probes of one round hit distinct slots. */
  lemma ProbesDiffer(quadratic: bool, k: nat, i: nat, j: nat, n: nat)
    requires PowerOfTwo(n) && i < j < n
    ensures Probe(quadratic, k, i, n) != Probe(quadratic, k, j, n)
  {
    if quadratic {
      TrianglesDiffer(k, i, j, n);
    } else {
      if (k + i) % n == (k + j) % n { SameRemainder(k + i, k + j, n); SmallMultiple(j - i, n); }
    }
  }

  // ---- a round of probes visits every slot

  /** The slots of the first m probes. */
  ghost function Visited(quadratic: bool, k: nat, m: nat, n: nat): (s: set<nat>)
    requires n > 0
  {
    if m == 0 then {} else Visited(quadratic, k, m - 1, n) + {Probe(quadratic, k, m - 1, n)}
  }

  lemma {:induction false} VisitedMembers(quadratic: bool, k: nat, m: nat, n: nat, p: nat)
    requires n > 0
    ensures p in Visited(quadratic, k, m, n) <==> exists i :: 0 <= i < m && Probe(quadratic, k, i, n) == p
  {
    if m > 0 { VisitedMembers(quadratic, k, m - 1, n, p); }
  }

  lemma {:induction false} VisitedSize(quadratic: bool, k: nat, m: nat, n: nat)
    requires PowerOfTwo(n) && m <= n
    ensures |Visited(quadratic, k, m, n)| == m
  {
    if m > 0 {
      VisitedSize(quadratic, k, m - 1, n);
      var p := Probe(quadratic, k, m - 1, n);
      VisitedMembers(quadratic, k, m - 1, n, p);
      forall i | 0 <= i < m - 1
        ensures Probe(quadratic, k, i, n) != p
      {
        ProbesDiffer(quadratic, k, i, m - 1, n);
      }
    }
  }

  lemma {:induction false} FullSet(s: set<nat>, n: nat)
    requires |s| == n && forall p :: p in s ==> p < n
    ensures forall p :: 0 <= p < n ==> p in s
  {
    if n > 0 {
      var t := s - {n - 1};
      if n - 1 in s {
        assert |t| == n - 1;
        FullSet(t, n - 1);
      } else {
        Crowded(s, n - 1);
      }
    }
  }

  lemma {:induction false} Crowded(s: set<nat>, n: nat)
    requires forall p :: p in s ==> p < n
    ensures |s| <= n
  {
    if n > 0 {
      var t := s - {n - 1};
      Crowded(t, n - 1);
      assert s <= t + {n - 1};
    } else {
      assert s == {};
    }
  }

  /** Probing a table whose size is a power of two visits every slot, linear or triangular. */
  lemma EverySlotProbed(quadratic: bool, k: nat, n: nat, p: nat) returns (i: nat)
    requires PowerOfTwo(n) && p < n
    ensures i < n && Probe(quadratic, k, i, n) == p
  {
    var s := Visited(quadratic, k, n, n);
    VisitedSize(quadratic, k, n, n);
    forall q | q in s
      ensures q < n
    {
      VisitedMembers(quadratic, k, n, n, q);
    }
    FullSet(s, n);
    VisitedMembers(quadratic, k, n, n, p);
    i :| 0 <= i < n && Probe(quadratic, k, i, n) == p;
  }

  // ---- tables

  /** HT_MISSING, HT_DELETED or an item. */
  datatype Slot<K, V> = Missing | Deleted | Full(item: Item<K, V>)

  ghost function One<K, V>(x: Slot<K, V>): multiset<Item<K, V>> {
    if x.Full? then multiset{x.item} else multiset{}
  }

  /** All items stored. */
  ghost function Bag<K, V>(s: seq<Slot<K, V>>): multiset<Item<K, V>> {
    if s == [] then multiset{} else One(s[0]) + Bag(s[1..])
  }

  lemma {:induction false} BagConcat<K, V>(a: seq<Slot<K, V>>, b: seq<Slot<K, V>>)
    ensures Bag(a + b) == Bag(a) + Bag(b)
  {
    if a == [] {
      assert a + b == b;
    } else {
      assert (a + b)[1..] == a[1..] + b;
      BagConcat(a[1..], b);
    }
  }

  lemma BagSplice<K, V>(a: seq<Slot<K, V>>, x: Slot<K, V>, b: seq<Slot<K, V>>)
    ensures Bag(a + ([x] + b)) == Bag(a) + (One(x) + Bag(b))
  {
    BagConcat(a, [x] + b);
    assert ([x] + b)[1..] == b;
  }

  lemma ExchangeOne<A>(a: multiset<A>, x: multiset<A>, y: multiset<A>, b: multiset<A>)
    ensures x <= a + (x + b) && a + (y + b) == a + (x + b) - x + y
  {
  }

  lemma BagUpdate<K, V>(s: seq<Slot<K, V>>, p: nat, y: Slot<K, V>)
    requires p < |s|
    ensures One(s[p]) <= Bag(s) && Bag(s[p := y]) == Bag(s) - One(s[p]) + One(y)
  {
    hide Bag, One;
    var a, b := s[..p], s[p + 1..];
    assert s == a + ([s[p]] + b) && s[p := y] == a + ([y] + b);
    BagSplice(a, s[p], b);
    BagSplice(a, y, b);
    ExchangeOne(Bag(a), One(s[p]), One(y), Bag(b));
  }

  lemma {:induction false} BagMember<K, V>(s: seq<Slot<K, V>>, x: Item<K, V>) returns (p: nat)
    requires x in Bag(s)
    ensures p < |s| && s[p] == Full(x)
  {
    if x in One(s[0]) {
      p := 0;
    } else {
      p := BagMember(s[1..], x);
      p := p + 1;
    }
  }

  /** Without tombstones, fewer items than slots leave a slot that ends every search. */
  lemma RoomLeft<K, V>(s: seq<Slot<K, V>>) returns (p: nat)
    requires (forall q :: 0 <= q < |s| ==> !s[q].Deleted?) && |Bag(s)| < |s|
    ensures p < |s| && s[p].Missing?
  {
    p := FreeSlot(s);
  }

  /** Slot p can be found from key k: no probe before the one that hits it ends the search. */
  ghost predicate Reachable<K, V>(quadratic: bool, k: nat, T: seq<Slot<K, V>>, p: nat) {
    |T| > 0 && exists i :: 0 <= i < |T| && Probe(quadratic, k, i, |T|) == p && Unbroken(quadratic, k, T, i)
  }

  /** The first i probes hit no missing slot. */
  ghost predicate Unbroken<K, V>(quadratic: bool, k: nat, T: seq<Slot<K, V>>, i: nat)
    requires |T| > 0
  {
    forall q :: 0 <= q < i ==> !T[Probe(quadratic, k, q, |T|)].Missing?
  }

  ghost predicate Chained<K, V>(hash: K -> nat, quadratic: bool, T: seq<Slot<K, V>>) {
    forall p :: 0 <= p < |T| && T[p].Full? ==> Reachable(quadratic, hash(T[p].item.key), T, p)
  }

  /** A change of one slot that does not empty it keeps all chains, if what it now holds is reachable. */
  lemma ChainsSurvive<K, V>(hash: K -> nat, quadratic: bool, T: seq<Slot<K, V>>, p: nat, y: Slot<K, V>)
    requires Chained(hash, quadratic, T) && p < |T| && !y.Missing?
    requires y.Full? ==> Reachable(quadratic, hash(y.item.key), T, p)
    ensures Chained(hash, quadratic, T[p := y])
  {
    var u := T[p := y];
    forall q | 0 <= q < |u| && u[q].Full?
      ensures Reachable(quadratic, hash(u[q].item.key), u, q)
    {
      var k := hash(u[q].item.key);
      var i :| 0 <= i < |T| && Probe(quadratic, k, i, |T|) == q && Unbroken(quadratic, k, T, i);
      assert Unbroken(quadratic, k, u, i);
    }
  }

  ghost predicate HasMissing<K, V>(T: seq<Slot<K, V>>) {
    exists p :: 0 <= p < |T| && T[p].Missing?
  }

  /** The first probe that hits a slot of some kind, when there is one. */
  lemma FirstProbe<K, V>(quadratic: bool, k: nat, T: seq<Slot<K, V>>, kind: Slot<K, V> -> bool, p: nat) returns (e: nat)
    requires PowerOfTwo(|T|) && p < |T| && kind(T[p])
    ensures e < |T| && kind(T[Probe(quadratic, k, e, |T|)])
    ensures forall q :: 0 <= q < e ==> !kind(T[Probe(quadratic, k, q, |T|)])
  {
    var m := EverySlotProbed(quadratic, k, |T|, p);
    e := FirstProbeFrom(quadratic, k, T, kind, m, 0);
  }

  lemma {:induction false} FirstProbeFrom<K, V>(quadratic: bool, k: nat, T: seq<Slot<K, V>>, kind: Slot<K, V> -> bool,
                                                m: nat, from: nat) returns (e: nat)
    requires from <= m < |T| && kind(T[Probe(quadratic, k, m, |T|)])
    requires forall q :: 0 <= q < from ==> !kind(T[Probe(quadratic, k, q, |T|)])
    ensures e < |T| && kind(T[Probe(quadratic, k, e, |T|)])
    ensures forall q :: 0 <= q < e ==> !kind(T[Probe(quadratic, k, q, |T|)])
    decreases m - from
  {
    if kind(T[Probe(quadratic, k, from, |T|)]) {
      e := from;
    } else {
      e := FirstProbeFrom(quadratic, k, T, kind, m, from + 1);
    }
  }

  /** None of the first i probes finds the key. */
  ghost predicate Unmatched<K, V>(hash: K -> nat, quadratic: bool, T: seq<Slot<K, V>>, key: K, i: nat)
    requires |T| > 0
  {
    forall q :: 0 <= q < i ==>
      var x := T[Probe(quadratic, hash(key), q, |T|)]; x.Full? ==> x.item.key != key
  }

  ghost predicate Absent<K, V>(T: seq<Slot<K, V>>, key: K) {
    forall x :: x in Bag(T) ==> x.key != key
  }

  /** A reachable slot is hit before the search ends. */
  lemma ProbedBefore<K, V>(quadratic: bool, k: nat, T: seq<Slot<K, V>>, p: nat, e: nat)
    requires p < |T| && e < |T| && T[p].Full? && Reachable(quadratic, k, T, p) && T[Probe(quadratic, k, e, |T|)].Missing?
    ensures exists i :: 0 <= i < e && Probe(quadratic, k, i, |T|) == p
  {
    var i :| 0 <= i < |T| && Probe(quadratic, k, i, |T|) == p && Unbroken(quadratic, k, T, i);
  }

  /** A search that ends without a match shows that the key is not stored. */
  lemma SearchFails<K, V>(hash: K -> nat, quadratic: bool, T: seq<Slot<K, V>>, key: K, e: nat)
    requires Chained(hash, quadratic, T) && e < |T| && T[Probe(quadratic, hash(key), e, |T|)].Missing?
    requires Unmatched(hash, quadratic, T, key, e)
    ensures Absent(T, key)
  {
    forall x | x in Bag(T)
      ensures x.key != key
    {
      var p := BagMember(T, x);
      if x.key == key { ProbedBefore(quadratic, hash(key), T, p, e); }
    }
  }

  /** A table without a missing slot never ends the search for an absent key. */
  lemma FullTableNeverEnds<K, V>(hash: K -> nat, quadratic: bool, T: seq<Slot<K, V>>, key: K, i: nat)
    requires |T| > 0 && Absent(T, key)
    ensures !HasMissing(T) ==> !EndsSearch(T[Probe(quadratic, hash(key), i, |T|)], key)
  {
    var p := Probe(quadratic, hash(key), i, |T|);
    BagUpdate(T, p, T[p]);
  }

  predicate EndsSearch<K(==), V>(x: Slot<K, V>, key: K) {
    x.Missing? || (x.Full? && x.item.key == key)
  }

  /** When a search for the key ends: at a missing slot, or because the key is there. */
  ghost predicate Searchable<K, V>(T: seq<Slot<K, V>>, key: K) {
    HasMissing(T) || !Absent(T, key)
  }

  /** Where a search for the key ends. */
  lemma SearchEnd<K(!new), V>(hash: K -> nat, quadratic: bool, T: seq<Slot<K, V>>, key: K) returns (e: nat)
    requires PowerOfTwo(|T|) && Searchable(T, key)
    ensures e < |T| && EndsSearch(T[Probe(quadratic, hash(key), e, |T|)], key)
    ensures Unbroken(quadratic, hash(key), T, e)
  {
    hide Probe, PowerOfTwo, Bag;
    var p;
    if HasMissing(T) {
      p :| 0 <= p < |T| && T[p].Missing?;
    } else {
      var x :| x in Bag(T) && x.key == key;
      p := BagMember(T, x);
    }
    e := FirstProbe(quadratic, hash(key), T, (x: Slot<K, V>) => EndsSearch(x, key), p);
  }

  /** A search ends if and only if the table has a missing slot or the key is stored. */
  lemma SearchEndsIff<K(!new), V>(hash: K -> nat, quadratic: bool, T: seq<Slot<K, V>>, key: K)
    requires PowerOfTwo(|T|)
    ensures (exists i: nat :: EndsSearch(T[Probe(quadratic, hash(key), i, |T|)], key)) <==> Searchable(T, key)
  {
    hide Probe, PowerOfTwo, Absent, HasMissing;
    TwicePower(|T|);
    if Searchable(T, key) {
      var e := SearchEnd(hash, quadratic, T, key);
    } else if i: nat :| EndsSearch(T[Probe(quadratic, hash(key), i, |T|)], key) {
      FullTableNeverEnds(hash, quadratic, T, key, i);
    }
  }

  /** Fewer items than slots: some slot, missing or deleted, takes a new item. */
  lemma {:induction false} FreeSlot<K, V>(s: seq<Slot<K, V>>) returns (p: nat)
    requires |Bag(s)| < |s|
    ensures p < |s| && !s[p].Full?
  {
    if !s[0].Full? {
      p := 0;
    } else {
      p := FreeSlot(s[1..]);
      p := p + 1;
    }
  }

  /** Where the search for a free slot ends. */
  lemma FreeEnd<K, V>(quadratic: bool, k: nat, T: seq<Slot<K, V>>) returns (e: nat)
    requires PowerOfTwo(|T|) && |Bag(T)| < |T|
    ensures e < |T| && !T[Probe(quadratic, k, e, |T|)].Full? && Unbroken(quadratic, k, T, e)
  {
    hide Probe, PowerOfTwo, Bag;
    var p := FreeSlot(T);
    e := FirstProbe(quadratic, k, T, (x: Slot<K, V>) => !x.Full?, p);
  }

  // ---- what the operations mean

  /** The first slot on the way that holds an item with the key; no missing slot lies before it. */
  ghost predicate FirstMatch<K, V>(hash: K -> nat, quadratic: bool, T: seq<Slot<K, V>>, key: K, p: nat) {
    && p < |T| && T[p].Full? && T[p].item.key == key
    && exists i :: 0 <= i < |T| && Probe(quadratic, hash(key), i, |T|) == p
                   && Unmatched(hash, quadratic, T, key, i) && Unbroken(quadratic, hash(key), T, i)
  }

  /** The first slot on the way that holds no item, be it missing or a tombstone. */
  ghost predicate FirstFree<K, V>(quadratic: bool, k: nat, T: seq<Slot<K, V>>, p: nat) {
    p < |T| && !T[p].Full? && exists i :: 0 <= i < |T| && Probe(quadratic, k, i, |T|) == p && AllFull(quadratic, k, T, i)
  }

  ghost predicate AllFull<K, V>(quadratic: bool, k: nat, T: seq<Slot<K, V>>, i: nat)
    requires |T| > 0
  {
    forall q :: 0 <= q < i ==> T[Probe(quadratic, k, q, |T|)].Full?
  }

  /** The one slot an insertion writes: that of the item found, in replace mode, or the first one that holds none. */
  ghost predicate Written<K, V>(hash: K -> nat, quadratic: bool, T: seq<Slot<K, V>>, T': seq<Slot<K, V>>,
                                item: Item<K, V>, mode: Mode, r: Option<Item<K, V>>)
  {
    match r
    case None => exists p: nat :: FirstFree(quadratic, hash(item.key), T, p) && T' == T[p := Full(item)]
    case Some(x) =>
      exists p: nat :: FirstMatch(hash, quadratic, T, item.key, p) && T[p] == Full(x)
                       && T' == if mode.Replace? then T[p := Full(item)] else T
  }

  /** An insertion that found nothing, or did not look, stores the item; otherwise one item with the key is found. */
  ghost predicate InsertedBag<K, V>(was: multiset<Item<K, V>>, now: multiset<Item<K, V>>, item: Item<K, V>, mode: Mode,
                                    r: Option<Item<K, V>>)
  {
    match r
    case None => now == was + multiset{item} && (mode.Replace? || mode.Keep? ==> forall x :: x in was ==> x.key != item.key)
    case Some(x) =>
      && (mode.Replace? || mode.Keep?) && x in was && x.key == item.key
      && now == if mode.Replace? then was - multiset{x} + multiset{item} else was
  }

  /** The items of a map, each once. */
  ghost predicate BagOf<K, V>(bag: multiset<Item<K, V>>, m: map<K, Item<K, V>>) {
    && (forall x :: x in bag ==> x.key in m && m[x.key] == x && bag[x] == 1)
    && (forall k :: k in m ==> m[k].key == k && m[k] in bag)
  }

  /** Insertions that look first act as on a finite map. */
  lemma InsertOnMap<K, V>(m: map<K, Item<K, V>>, was: multiset<Item<K, V>>, now: multiset<Item<K, V>>, item: Item<K, V>,
                          mode: Mode, r: Option<Item<K, V>>)
    requires (mode.Replace? || mode.Keep?) && BagOf(was, m) && InsertedBag(was, now, item, mode, r)
    ensures BagOf(now, Put(m, item, mode))
    ensures r == if item.key in m then Some(m[item.key]) else None
  {
    assert r.Some? <==> item.key in m;
    forall x | x in now
      ensures var m' := Put(m, item, mode); x.key in m' && m'[x.key] == x && now[x] == 1
    {
      if x in was { assert m[x.key] == x; }
    }
  }

  lemma RemoveOnMap<K, V>(m: map<K, Item<K, V>>, was: multiset<Item<K, V>>, x: Item<K, V>)
    requires BagOf(was, m) && x in was
    ensures BagOf(was - multiset{x}, m - {x.key})
  {
    assert m[x.key] == x;
  }

  class HashTable<K(==,!new), V> {
    const hash: K -> nat
    const load: nat          // HT_LOAD_FACTOR_FRAC, of 256
    const quadratic: bool    // HT_PROBE_QUADRATIC
    var table: array<Slot<K, V>>
    var count: nat

    ghost predicate Valid()
      reads this, table
    {
      && 1 <= load <= 256
      && (table.Length == 0 || PowerOfTwo(table.Length))
      && Chained(hash, quadratic, table[..])
      && count == |Bag(table[..])| <= table.Length
      && (load < 256 && table.Length > 0 ==> count < table.Length)
    }

    ghost function Items(): multiset<Item<K, V>>
      reads this, table
    {
      Bag(table[..])
    }

    ghost predicate NoTombstones()
      reads this, table
    {
      forall p :: 0 <= p < table.Length ==> !table[p].Deleted?
    }

    /** Without removals there is always a slot at which a search ends, unless the load factor is 100%. */
    lemma SearchesEnd()
      requires Valid() && NoTombstones() && table.Length > 0 && count < table.Length
      ensures HasMissing(table[..])
    {
      var p := RoomLeft(table[..]);
    }

    /** ht_init */
    constructor (hash: K -> nat, load: nat, quadratic: bool, wanted: nat)
      requires 1 <= load <= 256
      ensures Valid() && this.hash == hash && this.load == load && this.quadratic == quadratic
      ensures fresh(table) && Smallest(table.Length, wanted, load)
      ensures Items() == multiset{} && count == 0 && NoTombstones()
    {
      var buckets := BucketsFor(wanted, load);
      this.hash, this.load, this.quadratic, this.count := hash, load, quadratic, 0;
      table := new Slot<K, V>[buckets](_ => Missing);
      new;
      NothingIn(table[..]);
    }

    function Limit(): nat
      reads this
    {
      table.Length * load / 256
    }

    /** The loop of ht_find and ht_remove: the first match on the way. */
    method Locate(key: K) returns (r: Option<nat>)
      requires Valid() && table.Length > 0 && Searchable(table[..], key)
      ensures r.Some? ==> FirstMatch(hash, quadratic, table[..], key, r.value)
      ensures r.None? ==> Absent(table[..], key)
    {
      hide Chained, Searchable, HasMissing, PowerOfTwo, Probe, Bag, FirstMatch, Unbroken, Reachable, Absent;
      ghost var T := table[..];
      var n, k := table.Length, hash(key);
      ghost var e := SearchEnd(hash, quadratic, T, key);
      var i := 0;
      var j := Probe(quadratic, k, i, n);
      while !table[j].Missing?
        invariant 0 <= i <= e && j == Probe(quadratic, k, i, n) && Unmatched(hash, quadratic, T, key, i)
        decreases e - i
      {
        if table[j].Full? && table[j].item.key == key {
          MatchedFirst(hash, quadratic, T, key, e, i);
          return Some(j);
        }
        i := i + 1;
        j := Probe(quadratic, k, i, n);
      }
      SearchFails(hash, quadratic, T, key, i);
      r := None;
    }

    /** ht_find */
    method Find(key: K) returns (r: Option<Item<K, V>>)
      requires Valid() && (table.Length > 0 ==> Searchable(table[..], key))
      ensures r.Some? ==> r.value in Items() && r.value.key == key
      ensures r.Some? ==> exists p: nat :: FirstMatch(hash, quadratic, table[..], key, p) && table[..][p] == Full(r.value)
      ensures r.None? ==> Absent(table[..], key)
    {
      hide Chained, Searchable, PowerOfTwo, Bag, FirstMatch;
      if table.Length == 0 {
        NothingHere(table[..], key);
        return None;
      }
      ghost var T := table[..];
      var found := Locate(key);
      if found.None? {
        return None;
      }
      var j := found.value;
      MatchIs(hash, quadratic, T, key, j);
      BagUpdate(T, j, T[j]);
      r := Some(table[j].item);
    }

    /** ht_remove: the item becomes a tombstone. */
    method Remove(key: K) returns (r: Option<Item<K, V>>)
      requires Valid() && (table.Length > 0 ==> Searchable(table[..], key))
      modifies this`count, table
      ensures Valid() && (old(HasMissing(table[..])) ==> HasMissing(table[..]))
      ensures r.Some? ==> r.value in old(Items()) && r.value.key == key && Items() == old(Items()) - multiset{r.value}
      ensures r.Some? ==> exists p: nat :: FirstMatch(hash, quadratic, old(table[..]), key, p)
                            && old(table[..])[p] == Full(r.value) && table[..] == old(table[..])[p := Deleted]
      ensures r.None? ==> Absent(old(table[..]), key) && table[..] == old(table[..])
    {
      hide Chained, Searchable, HasMissing, PowerOfTwo, Bag, FirstMatch, Absent;
      ghost var T := table[..];
      if table.Length == 0 {
        NothingHere(T, key);
        return None;
      }
      var found := Locate(key);
      if found.None? {
        return None;
      }
      var j := found.value;
      MatchIs(hash, quadratic, T, key, j);
      r := Some(table[j].item);
      BagUpdate(T, j, Deleted);
      ChainsSurvive(hash, quadratic, T, j, Deleted);
      if HasMissing(T) { StillMissing(T, j, Deleted); }
      table[j] := Deleted;
      assert table[..] == T[j := Deleted];
      count := count - 1;
    }

    /** The end of ht_insert: the item goes into a slot that holds none. */
    method Store(j: nat, item: Item<K, V>)
      requires Valid() && j < table.Length && !table[j].Full? && Reachable(quadratic, hash(item.key), table[..], j)
      requires count + 1 <= table.Length && (load < 256 ==> count + 1 < table.Length)
      modifies this`count, table
      ensures Valid() && count == old(count) + 1 && Items() == old(Items()) + multiset{item}
      ensures old(NoTombstones()) ==> NoTombstones()
      ensures table[..] == old(table[..])[j := Full(item)]
    {
      hide Chained, PowerOfTwo, Bag;
      ghost var T := table[..];
      ChainsSurvive(hash, quadratic, T, j, Full(item));
      BagUpdate(T, j, Full(item));
      table[j] := Full(item);
      assert table[..] == T[j := Full(item)];
      Untouched(T, table[..], j);
      count := count + 1;
    }

    /** The first loop of ht_insert, for the modes that do not look for the key. */
    method AddItem(item: Item<K, V>, ghost mode: Mode)
      requires Valid() && table.Length > 0
      requires count + 1 <= table.Length && (load < 256 ==> count + 1 < table.Length)
      modifies this`count, table
      ensures Valid() && count == old(count) + 1 && Items() == old(Items()) + multiset{item}
      ensures old(NoTombstones()) ==> NoTombstones()
      ensures Written(hash, quadratic, old(table[..]), table[..], item, mode, None)
    {
      hide Chained, HasMissing, PowerOfTwo, Probe, Bag, Reachable, Written;
      ghost var T := table[..];
      var n, k := table.Length, hash(item.key);
      ghost var e := FreeEnd(quadratic, k, T);
      var i := 0;
      var j := Probe(quadratic, k, i, n);
      while table[j].Full?
        invariant 0 <= i <= e && j == Probe(quadratic, k, i, n) && AllFull(quadratic, k, T, i)
        decreases e - i
      {
        i := i + 1;
        j := Probe(quadratic, k, i, n);
      }
      OnPath(quadratic, k, T, e, i);
      FreeFirst(quadratic, k, T, i);
      Store(j, item);
      WrittenNew(hash, quadratic, T, table[..], item, mode, j);
    }

    /** The second loop: search for the key, remembering the first tombstone. */
    method SearchKey(key: K) returns (r: Option<nat>, vacant: nat)
      requires Valid() && table.Length > 0 && Searchable(table[..], key)
      ensures r.Some? ==> FirstMatch(hash, quadratic, table[..], key, r.value)
                          && Reachable(quadratic, hash(key), table[..], r.value)
      ensures r.None? ==> Absent(table[..], key) && FirstFree(quadratic, hash(key), table[..], vacant)
                          && Reachable(quadratic, hash(key), table[..], vacant)
    {
      hide Chained, Searchable, HasMissing, PowerOfTwo, Probe, Bag, Reachable, Absent, FirstMatch, FirstFree, Unbroken;
      ghost var T := table[..];
      var n, k := table.Length, hash(key);
      ghost var e := SearchEnd(hash, quadratic, T, key);
      var i := 0;
      var j := Probe(quadratic, k, i, n);
      var tombstone := false;
      vacant := 0;
      while !table[j].Missing?
        invariant 0 <= i <= e && j == Probe(quadratic, k, i, n) && Unmatched(hash, quadratic, T, key, i)
        invariant if tombstone then FirstFree(quadratic, k, T, vacant) && Reachable(quadratic, k, T, vacant)
                  else AllFull(quadratic, k, T, i)
        decreases e - i
      {
        if table[j].Deleted? {
          if !tombstone {
            OnPath(quadratic, k, T, e, i);
            FreeFirst(quadratic, k, T, i);
            tombstone, vacant := true, j;
          }
        } else if table[j].item.key == key {
          OnPath(quadratic, k, T, e, i);
          MatchedFirst(hash, quadratic, T, key, e, i);
          return Some(j), 0;
        }
        i := i + 1;
        j := Probe(quadratic, k, i, n);
      }
      SearchFails(hash, quadratic, T, key, i);
      if !tombstone {
        OnPath(quadratic, k, T, e, i);
        FreeFirst(quadratic, k, T, i);
        vacant := j;
      }
      r := None;
    }

    /** In replace mode, the item takes the place of the one found. */
    method ReplaceAt(j: nat, item: Item<K, V>)
      requires Valid() && j < table.Length && table[j].Full? && table[j].item.key == item.key
      requires Reachable(quadratic, hash(item.key), table[..], j)
      modifies table
      ensures Valid() && Items() == old(Items()) - multiset{old(table[j].item)} + multiset{item}
      ensures old(NoTombstones()) ==> NoTombstones()
      ensures table[..] == old(table[..])[j := Full(item)]
    {
      hide Chained, PowerOfTwo, Bag, Reachable;
      ghost var T := table[..];
      BagUpdate(T, j, Full(item));
      ChainsSurvive(hash, quadratic, T, j, Full(item));
      table[j] := Full(item);
      assert table[..] == T[j := Full(item)];
      Untouched(T, table[..], j);
    }

    /** ht_insert when the table need not grow. */
    method InsertHere(item: Item<K, V>, mode: Mode) returns (r: Option<Item<K, V>>)
      requires Valid() && table.Length > 0 && (mode.Replace? || mode.Keep? ==> Searchable(table[..], item.key))
      requires count + 1 <= table.Length && (load < 256 ==> count + 1 < table.Length)
      modifies this`count, table
      ensures Valid() && InsertedBag(old(Items()), Items(), item, mode, r)
      ensures Written(hash, quadratic, old(table[..]), table[..], item, mode, r)
      ensures count == old(count) + if r.None? then 1 else 0
      ensures old(NoTombstones()) ==> NoTombstones()
    {
      hide Chained, HasMissing, Searchable, PowerOfTwo, Bag, Reachable, InsertedBag, Absent, Written, FirstMatch, FirstFree;
      ghost var was, T := Items(), table[..];
      if mode.Unique? || mode.Multi? {
        AddItem(item, mode);
        StoredNew(was, item, mode);
        return None;
      }
      var found, vacant := SearchKey(item.key);
      if found.Some? {
        var j := found.value;
        MatchIs(hash, quadratic, T, item.key, j);
        r := Some(table[j].item);
        BagUpdate(table[..], j, table[j]);
        FoundStored(was, table[j].item, item, mode);
        if mode.Replace? {
          ReplaceAt(j, item);
        }
        WrittenFound(hash, quadratic, T, table[..], item, mode, j);
        return;
      }
      AbsentMeans(table[..], item.key);
      FreeIs(quadratic, hash(item.key), T, vacant);
      Store(vacant, item);
      WrittenNew(hash, quadratic, T, table[..], item, mode, vacant);
      StoredNew(was, item, mode);
      r := None;
    }

    /** ht_resize: every item is inserted again into a new table, tombstones are dropped. */
    method Resize(wanted: nat)
      requires Valid()
      modifies this
      ensures Valid() && fresh(table) && count == old(count) && Items() == old(Items())
      ensures NoTombstones() && table.Length >= 4 && wanted <= Limit() && count <= Limit()
      ensures Smallest(table.Length, if wanted < count then count else wanted, load)
      decreases 1
    {
      hide Chained, HasMissing, PowerOfTwo, Bag, InsertedBag, One, Written, Smallest, Searchable;
      ghost var T := table[..];
      var ht2 := new HashTable<K, V>(hash, load, quadratic, if wanted < count then count else wanted);
      SmallestHolds(ht2.table.Length, if wanted < count then count else wanted, load);
      NothingIn(T[..0]);
      for i := 0 to table.Length
        invariant ht2.Valid() && fresh(ht2) && fresh(ht2.table) && ht2.NoTombstones()
        invariant ht2.hash == hash && ht2.load == load && ht2.quadratic == quadratic && ht2.table.Length >= 4
        invariant wanted <= ht2.Limit() && count <= ht2.Limit()
        invariant Smallest(ht2.table.Length, if wanted < count then count else wanted, load)
        invariant unchanged(this) && table[..] == T && ht2.Items() == Bag(T[..i])
      {
        BagStep(T, i);
        if table[i].Full? {
          ghost var was := ht2.Items();
          var r := ht2.Insert(table[i].item, Multi);
          MultiAdds(was, ht2.Items(), T[i].item, r);
        }
      }
      assert T[..|T|] == T;
      table, count := ht2.table, ht2.count;
    }

    /** ht_insert */
    method Insert(item: Item<K, V>, mode: Mode) returns (r: Option<Item<K, V>>)
      requires Valid()
      requires (mode.Replace? || mode.Keep?) && count < Limit() && !NoTombstones() ==> Searchable(table[..], item.key)
      modifies this, table
      ensures Valid() && table.Length > 0 && InsertedBag(old(Items()), Items(), item, mode, r)
      ensures count == old(count) + if r.None? then 1 else 0
      ensures old(NoTombstones()) || old(count) >= old(Limit()) ==> NoTombstones()
      ensures old(count) < old(table.Length) * load / 256 ==>
                table == old(table) && Written(hash, quadratic, old(table[..]), table[..], item, mode, r)
      ensures old(count) >= old(table.Length) * load / 256 ==> fresh(table) && Smallest(table.Length, 2 * old(count), load)
      decreases if count >= Limit() then 2 else 0
    {
      hide Chained, PowerOfTwo, Bag, InsertedBag, Written, Smallest;
      if count >= Limit() {
        Resize(count * 2);
      }
      LimitBelow(table.Length, load);
      if NoTombstones() { SearchesEnd(); }
      r := InsertHere(item, mode);
    }
  }

  lemma {:induction false} NothingIn<K, V>(s: seq<Slot<K, V>>)
    requires forall p :: 0 <= p < |s| ==> s[p].Missing?
    ensures Bag(s) == multiset{}
  {
    if s != [] { NothingIn(s[1..]); }
  }

  lemma StoredNew<K, V>(was: multiset<Item<K, V>>, item: Item<K, V>, mode: Mode)
    requires mode.Replace? || mode.Keep? ==> forall x :: x in was ==> x.key != item.key
    ensures InsertedBag(was, was + multiset{item}, item, mode, None)
  {
  }

  lemma FoundStored<K, V>(was: multiset<Item<K, V>>, x: Item<K, V>, item: Item<K, V>, mode: Mode)
    requires (mode.Replace? || mode.Keep?) && multiset{x} <= was && x.key == item.key
    ensures InsertedBag(was, if mode.Replace? then was - multiset{x} + multiset{item} else was, item, mode, Some(x))
  {
    assert x in multiset{x};
  }

  lemma AbsentMeans<K, V>(T: seq<Slot<K, V>>, key: K)
    requires Absent(T, key)
    ensures forall x :: x in Bag(T) ==> x.key != key
  {
  }

  lemma CardinalitySum<A>(a: multiset<A>, b: multiset<A>)
    ensures |a + b| == |a| + |b|
  {
  }

  lemma BagSnoc<K, V>(a: seq<Slot<K, V>>, x: Slot<K, V>)
    ensures Bag(a + [x]) == Bag(a) + One(x)
  {
    BagConcat(a, [x]);
    assert Bag([x][1..]) == multiset{};
    assert Bag([x]) == One(x);
  }

  lemma BagPrefix<K, V>(T: seq<Slot<K, V>>, i: nat)
    requires i <= |T|
    ensures |Bag(T[..i])| <= |Bag(T)|
  {
    assert T == T[..i] + T[i..];
    BagConcat(T[..i], T[i..]);
    CardinalitySum(Bag(T[..i]), Bag(T[i..]));
  }

  lemma BagStep<K, V>(T: seq<Slot<K, V>>, i: nat)
    requires i < |T|
    ensures T[i].Full? ==> Bag(T[..i + 1]) == Bag(T[..i]) + multiset{T[i].item} && |Bag(T[..i])| < |Bag(T)|
    ensures !T[i].Full? ==> Bag(T[..i + 1]) == Bag(T[..i])
  {
    hide Bag;
    assert T[..i + 1] == T[..i] + [T[i]];
    BagSnoc(T[..i], T[i]);
    BagPrefix(T, i + 1);
    CardinalitySum(Bag(T[..i]), One(T[i]));
  }

  lemma MultiAdds<K, V>(was: multiset<Item<K, V>>, now: multiset<Item<K, V>>, item: Item<K, V>, r: Option<Item<K, V>>)
    requires InsertedBag(was, now, item, Multi, r)
    ensures now == was + multiset{item}
  {
  }

  lemma Untouched<K, V>(T: seq<Slot<K, V>>, u: seq<Slot<K, V>>, j: nat)
    requires |T| == |u| && j < |T| && u[j].Full? && u == T[j := u[j]]
    ensures forall p :: 0 <= p < |u| && u[p].Deleted? ==> T[p].Deleted?
  {
  }

  lemma StillMissing<K, V>(T: seq<Slot<K, V>>, j: nat, y: Slot<K, V>)
    requires HasMissing(T) && j < |T| && !T[j].Missing?
    ensures HasMissing(T[j := y])
  {
    var p :| 0 <= p < |T| && T[p].Missing?;
    assert T[j := y][p].Missing?;
  }

  lemma NothingHere<K, V>(T: seq<Slot<K, V>>, key: K)
    requires T == []
    ensures Absent(T, key)
  {
    NothingIn(T);
  }

  lemma FreeFirst<K, V>(quadratic: bool, k: nat, T: seq<Slot<K, V>>, i: nat)
    requires i < |T| && AllFull(quadratic, k, T, i) && !T[Probe(quadratic, k, i, |T|)].Full?
    ensures FirstFree(quadratic, k, T, Probe(quadratic, k, i, |T|))
  {
    hide Probe, AllFull;
  }

  lemma FreeIs<K, V>(quadratic: bool, k: nat, T: seq<Slot<K, V>>, p: nat)
    requires FirstFree(quadratic, k, T, p)
    ensures p < |T| && !T[p].Full?
  {
  }

  lemma MatchIs<K, V>(hash: K -> nat, quadratic: bool, T: seq<Slot<K, V>>, key: K, p: nat)
    requires FirstMatch(hash, quadratic, T, key, p)
    ensures p < |T| && T[p].Full? && T[p].item.key == key
  {
  }

  lemma WrittenNew<K, V>(hash: K -> nat, quadratic: bool, T: seq<Slot<K, V>>, T': seq<Slot<K, V>>,
                         item: Item<K, V>, mode: Mode, p: nat)
    requires p < |T| && FirstFree(quadratic, hash(item.key), T, p) && T' == T[p := Full(item)]
    ensures Written(hash, quadratic, T, T', item, mode, None)
  {
  }

  lemma WrittenFound<K, V>(hash: K -> nat, quadratic: bool, T: seq<Slot<K, V>>, T': seq<Slot<K, V>>,
                           item: Item<K, V>, mode: Mode, p: nat)
    requires p < |T| && FirstMatch(hash, quadratic, T, item.key, p)
    requires T' == if mode.Replace? then T[p := Full(item)] else T
    ensures T[p].Full? && Written(hash, quadratic, T, T', item, mode, Some(T[p].item))
  {
  }

  lemma MatchedFirst<K, V>(hash: K -> nat, quadratic: bool, T: seq<Slot<K, V>>, key: K, e: nat, i: nat)
    requires e < |T| && i <= e && Unbroken(quadratic, hash(key), T, e) && Unmatched(hash, quadratic, T, key, i)
    requires var x := T[Probe(quadratic, hash(key), i, |T|)]; x.Full? && x.item.key == key
    ensures FirstMatch(hash, quadratic, T, key, Probe(quadratic, hash(key), i, |T|))
  {
    hide Probe;
    var p := Probe(quadratic, hash(key), i, |T|);
    assert p < |T| by { InTable(quadratic, hash(key), i, |T|); }
    assert Unbroken(quadratic, hash(key), T, i);
    assert T[p].Full? && T[p].item.key == key;
  }

  lemma InTable(quadratic: bool, k: nat, i: nat, n: nat)
    requires n > 0
    ensures Probe(quadratic, k, i, n) < n
  {
  }

  lemma OnPath<K, V>(quadratic: bool, k: nat, T: seq<Slot<K, V>>, e: nat, i: nat)
    requires e < |T| && i <= e && Unbroken(quadratic, k, T, e)
    ensures Reachable(quadratic, k, T, Probe(quadratic, k, i, |T|))
  {
    assert Unbroken(quadratic, k, T, i);
  }
}
