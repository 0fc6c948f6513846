/** The Robin Hood hash table with its table of bucket offsets. */
module RobinHood {
  import opened Words
  import opened Rows
  import opened Hashing
  import opened RobinLayout
  import opened RobinInsert
  import opened RobinRemove

  // ---- what the operations mean

  /** The items under a key after an insertion; only Multi does not look for the key first. */
  function After<K(==), V>(xs: seq<Item<K, V>>, key: K, item: Item<K, V>, mode: Mode): seq<Item<K, V>> {
    if key != item.key then xs
    else if xs == [] || mode.Multi? then xs + [item]
    else if mode.Replace? then [item] + Rest(xs)
    else xs
  }

  function Rest<K, V>(xs: seq<Item<K, V>>): seq<Item<K, V>> {
    if xs == [] then [] else xs[1..]
  }

  function First<K, V>(xs: seq<Item<K, V>>): Slot<K, V> {
    if xs == [] then None else Some(xs[0])
  }

  /** What is found, and what else stays, after an insertion. */
  lemma InsertThenFind<K, V>(xs: seq<Item<K, V>>, item: Item<K, V>, mode: Mode, key: K)
    ensures var now := After(xs, key, item, mode);
            && (key != item.key ==> now == xs)
            && (key == item.key && xs == [] ==> now == [item])
            && (key == item.key && mode.Replace? ==> First(now) == Some(item) && Rest(now) == Rest(xs))
            && (key == item.key && (mode.Keep? || mode.Unique?) && xs != [] ==> now == xs)
            && (key == item.key && mode.Multi? ==> |now| == |xs| + 1 && xs <= now && now[|xs|] == item)
            && (key == item.key ==> item in now || First(now) == First(xs) != None)
  {
  }

  /** A sequence cut in two with the parts exchanged. */
  function Rotation<A>(a: seq<A>, i: nat): seq<A>
    requires i <= |a|
  {
    a[i..] + a[..i]
  }

  ghost predicate Rotated<A>(a: seq<A>, b: seq<A>) {
    exists i :: 0 <= i <= |a| && b == Rotation(a, i)
  }

  /** The chain of a key after an insertion that may first have resized the table. */
  ghost predicate RotatedThen<K, V>(was: seq<Item<K, V>>, now: seq<Item<K, V>>, key: K, item: Item<K, V>, mode: Mode) {
    exists i :: 0 <= i <= |was| && now == After(Rotation(was, i), key, item, mode)
  }

  /** What the insertion returns: the item that was first when the key was looked for. */
  ghost predicate Answered<K, V>(was: seq<Item<K, V>>, now: seq<Item<K, V>>, item: Item<K, V>, mode: Mode, r: Slot<K, V>) {
    exists i :: 0 <= i <= |was| && now == After(Rotation(was, i), item.key, item, mode)
                && r == if mode.Multi? then None else First(Rotation(was, i))
  }

  lemma RotatedSmall<A>(a: seq<A>, b: seq<A>)
    requires Rotated(a, b)
    ensures multiset(a) == multiset(b) && |a| == |b|
    ensures |a| <= 1 ==> a == b
  {
    var i :| 0 <= i <= |a| && b == Rotation(a, i);
    assert a == a[..i] + a[i..];
  }

  lemma {:induction false} KeyedWhole<K, V>(hash: K -> nat, T: seq<Slot<K, V>>, key: K)
    ensures Rotated(Chain(hash, T, key), Keyed(T, key))
  {
    if |T| == 0 {
      assert Keyed(T, key) == Rotation(Chain(hash, T, key), 0);
    } else {
      var k := Home(hash, key, |T|);
      var a, b := Keyed(T[k..], key), Keyed(T[..k], key);
      KeyedConcat(T[k..], T[..k], key);
      KeyedConcat(T[..k], T[k..], key);
      assert T[..k] + T[k..] == T;
      assert Rotation(a + b, |a|) == b + a;
    }
  }

  lemma ChainOfBucket<K, V>(hash: K -> nat, T: seq<Slot<K, V>>, key: K)
    requires |T| > 0
    ensures Chain(hash, T, key) == WithKey(Bucket(hash, T, Home(hash, key, |T|)), key)
  {
    var k := Home(hash, key, |T|);
    KeyedHomed(hash, |T|, T[k..] + T[..k], key);
  }

  /** The first item with a key is replaced. */
  lemma ChainReplaces<K, V>(hash: K -> nat, T: seq<Slot<K, V>>, T': seq<Slot<K, V>>, i: nat, x: Item<K, V>, key: K)
    requires |T'| == |T| > 0
    requires var k := Home(hash, x.key, |T|);
             && i < |Bucket(hash, T, k)| && Unmatched(Bucket(hash, T, k), x.key, i)
             && Bucket(hash, T, k)[i].key == x.key && Bucket(hash, T', k) == Bucket(hash, T, k)[i := x]
    requires Home(hash, key, |T|) != Home(hash, x.key, |T|) ==>
               Bucket(hash, T', Home(hash, key, |T|)) == Bucket(hash, T, Home(hash, key, |T|))
    ensures Chain(hash, T, x.key) != []
    ensures Chain(hash, T', key) == if key == x.key then [x] + Chain(hash, T, key)[1..] else Chain(hash, T, key)
  {
    hide *;
    ChainOfBucket(hash, T, key);
    ChainOfBucket(hash, T', key);
    ChainOfBucket(hash, T, x.key);
    var was := Bucket(hash, T, Home(hash, x.key, |T|));
    SearchOutcome(was, x.key, i);
    if Home(hash, key, |T|) == Home(hash, x.key, |T|) {
      WithKeyReplaced(was, i, x, key);
    }
  }

  lemma WithKeyReplaced<K, V>(was: seq<Item<K, V>>, i: nat, x: Item<K, V>, key: K)
    requires Unmatched(was, x.key, i) && i < |was| && was[i].key == x.key
    ensures WithKey(was, x.key) != []
    ensures WithKey(was[i := x], key) == if key == x.key then [x] + WithKey(was, key)[1..] else WithKey(was, key)
  {
    hide WithKey;
    SearchOutcome(was, x.key, i);
    SearchOutcome(was[i := x], x.key, i);
    var rest := was[i + 1..];
    assert was[i := x][i + 1..] == rest;
    assert was == was[..i] + ([was[i]] + rest) && was[i := x] == was[..i] + ([x] + rest);
    WithKeyConcat(was[..i], [was[i]] + rest, key);
    WithKeyConcat(was[..i], [x] + rest, key);
    WithKeyHead(was[i], rest, key);
    WithKeyHead(x, rest, key);
  }

  lemma WithKeyHead<K, V>(x: Item<K, V>, rest: seq<Item<K, V>>, key: K)
    ensures WithKey([x] + rest, key) == (if x.key == key then [x] else []) + WithKey(rest, key)
  {
    assert ([x] + rest)[1..] == rest;
  }

  /** The first item with a key is removed. */
  lemma ChainShrinks<K, V>(hash: K -> nat, T: seq<Slot<K, V>>, T': seq<Slot<K, V>>, i: nat, gone: K, key: K)
    requires |T'| == |T| > 0
    requires var was, now := Bucket(hash, T, Home(hash, gone, |T|)), Bucket(hash, T', Home(hash, gone, |T|));
             i < |was| && Unmatched(was, gone, i) && was[i].key == gone && now == was[..i] + was[i + 1..]
    requires Home(hash, key, |T|) != Home(hash, gone, |T|) ==>
               Bucket(hash, T', Home(hash, key, |T|)) == Bucket(hash, T, Home(hash, key, |T|))
    ensures Chain(hash, T, gone) != []
    ensures Chain(hash, T', key) == if key == gone then Chain(hash, T, key)[1..] else Chain(hash, T, key)
  {
    hide *;
    ChainOfBucket(hash, T, key);
    ChainOfBucket(hash, T', key);
    ChainOfBucket(hash, T, gone);
    if Home(hash, key, |T|) == Home(hash, gone, |T|) {
      WithKeyShrunk(Bucket(hash, T, Home(hash, gone, |T|)), i, gone, key);
    } else {
      WithKeyShrunk(Bucket(hash, T, Home(hash, gone, |T|)), i, gone, gone);
    }
  }

  lemma WithKeyShrunk<K, V>(was: seq<Item<K, V>>, i: nat, gone: K, key: K)
    requires i < |was| && Unmatched(was, gone, i) && was[i].key == gone
    ensures WithKey(was, gone) != []
    ensures WithKey(was[..i] + was[i + 1..], key) == if key == gone then WithKey(was, key)[1..] else WithKey(was, key)
  {
    hide WithKey, Unmatched;
    var front, rest := was[..i], was[i + 1..];
    SearchOutcome(was, gone, i);
    assert was == front + ([was[i]] + rest);
    WithKeyConcat(front, [was[i]] + rest, key);
    WithKeyConcat(front, rest, key);
    WithKeyHead(was[i], rest, key);
    if key == gone {
      assert WithKey(was, key)[1..] == WithKey(rest, key);
      assert [] + WithKey(rest, key) == WithKey(rest, key);
    }
  }

  // ---- as a finite map

  /** The chain of a key in a table that stores at most one item per key. */
  function Single<K, V>(m: map<K, Item<K, V>>, key: K): seq<Item<K, V>> {
    if key in m then [m[key]] else []
  }

  /** Unique, although announced as unchecked, keeps an existing item here. */
  lemma InsertOnMap<K, V>(m: map<K, Item<K, V>>, now: seq<Item<K, V>>, key: K, item: Item<K, V>, mode: Mode)
    requires !mode.Multi? && RotatedThen(Single(m, key), now, key, item, mode)
    ensures now == Single(Put(m, item, mode), key)
  {
    var was := Single(m, key);
    var i :| 0 <= i <= |was| && now == After(Rotation(was, i), key, item, mode);
    hide After, Put;
    RotatedSmall(was, Rotation(was, i));
    AfterOnMap(m, key, item, mode);
  }

  /** The item returned is the one the map held under the key. */
  lemma AnswerOnMap<K, V>(m: map<K, Item<K, V>>, now: seq<Item<K, V>>, item: Item<K, V>, mode: Mode, r: Slot<K, V>)
    requires !mode.Multi? && Answered(Single(m, item.key), now, item, mode, r)
    ensures r == if item.key in m then Some(m[item.key]) else None
  {
    var was := Single(m, item.key);
    var i :| 0 <= i <= |was| && now == After(Rotation(was, i), item.key, item, mode) && r == First(Rotation(was, i));
    hide After;
    RotatedSmall(was, Rotation(was, i));
  }

  lemma AfterOnMap<K, V>(m: map<K, Item<K, V>>, key: K, item: Item<K, V>, mode: Mode)
    requires !mode.Multi?
    ensures After(Single(m, key), key, item, mode) == Single(Put(m, item, mode), key)
  {
  }

  lemma RemoveOnMap<K, V>(m: map<K, Item<K, V>>, gone: K, key: K)
    ensures (if key == gone then Rest(Single(m, key)) else Single(m, key)) == Single(m - {gone}, key)
  {
  }

  lemma NoTable<K, V>(hash: K -> nat, T: seq<Slot<K, V>>, key: K)
    requires |T| == 0
    ensures Chain(hash, T, key) == []
  {
  }

  lemma NothingChanged(off: seq<nat>)
    ensures Watched(off, off, false)
  {
  }

  lemma EndsThere(off: seq<nat>, k: nat, j: nat)
    requires k < |off| && off[k] < |off| && off[k] <= off[Wrap(k + 1, |off|)] + 1 <= |off| + off[k]
    requires j == Wrap(Wrap(k + off[k], |off|) + (off[Wrap(k + 1, |off|)] + 1 - off[k]), |off|)
    ensures EndsAt(off, k, j)
  {
  }

  /** Where to cut for the removal of the i-th item of bucket k. */
  lemma RemovalCut<K, V>(hash: K -> nat, T: seq<Slot<K, V>>, off: seq<nat>, k: nat, j: nat, i: nat) returns (c: nat)
    requires Laid(hash, T, off) && k < |T| && off[k] < |T|
    requires off[k] + i <= off[Wrap(k + 1, |T|)] && i <= |T| && j == Wrap(Wrap(k + off[k], |T|) + i, |T|)
    ensures DisplacedTo(off, j, c) && c < |T| && Dist(c, k, |T|) <= Dist(c, j, |T|)
    ensures forall q :: Dist(c, k, |T|) < q < |T| ==> At(off, c, q) > 0
  {
    var n := |T|;
    var z: nat :| CutAt(off, z);
    c := DisplacedExists(off, j, z);
    ItemAlong(hash, T, off, c, k, i);
    forall q | Dist(c, k, n) < q < n
      ensures At(off, c, q) > 0
    {
      AroundFollows(hash, T, off, c, Dist(c, k, n) + 1, q);
      AroundAt(off, c, k);
    }
  }

  lemma StillDisplaced(mid: seq<nat>, off: seq<nat>, k: nat, j: nat, c: nat)
    requires DisplacedTo(off, j, c) && k < |off| && Dist(c, k, |off|) <= Dist(c, j, |off|)
    requires Dropped(mid, off, c, Dist(c, k, |off|), Dist(c, j, |off|))
    ensures DisplacedTo(mid, j, c)
  {
    forall q | Dist(c, j, |off|) < q < |off|
      ensures At(mid, c, q) > 0
    {
      assert At(off, c, q) > 0;
      DistWrap(c, q, |off|);
    }
  }

  lemma CloseBy<K, V>(T: seq<Slot<K, V>>, off: seq<nat>, mid: seq<nat>, moved: seq<Slot<K, V>>,
                      T': seq<Slot<K, V>>, off': seq<nat>, c: nat, k: nat, end: nat)
    requires |off| == |T| && c < |T| && k < |T| && end < |T| && Dist(c, k, |T|) <= Dist(c, end, |T|)
    requires Dropped(mid, off, c, Dist(c, k, |T|), Dist(c, end, |T|))
    requires Dropped(off', mid, c, Dist(c, end, |T|), |T| - 1)
    requires MovedDown(moved, T, c, Dist(c, end, |T|), |T| - 1)
    requires T' == moved[Wrap(c + (|T| - 1), |T|) := None]
    ensures ClosedUp(T, off, T', off', c, k, end)
    ensures forall p :: 0 <= p < |T| ==> off'[p] <= off[p]
  {
    forall p | 0 <= p < |T|
      ensures off'[p] == if Dist(c, k, |T|) < Dist(c, p, |T|) && off[p] > 0 then off[p] - 1 else off[p]
    {
      assert mid[p] == if Dist(c, k, |T|) < Dist(c, p, |T|) <= Dist(c, end, |T|) && off[p] > 0 then off[p] - 1 else off[p];
    }
  }

  lemma {:induction false} NoItems<K, V>(s: seq<Slot<K, V>>, key: K)
    requires forall p :: 0 <= p < |s| ==> s[p].None?
    ensures Keyed(s, key) == []
  {
    if s != [] { NoItems(s[1..], key); }
  }

  lemma {:induction false} NoneFilled<K, V>(s: seq<Slot<K, V>>)
    requires forall p :: 0 <= p < |s| ==> s[p].None?
    ensures Filled(s) == 0
  {
    if s != [] { NoneFilled(s[1..]); }
  }

  lemma FilledStep<K, V>(T: seq<Slot<K, V>>, i: nat)
    requires i < |T|
    ensures Filled(T[..i + 1]) == Filled(T[..i]) + (if T[i].Some? then 1 else 0) <= Filled(T)
  {
    assert T[..i + 1] == T[..i] + [T[i]] && T == T[..i + 1] + T[i + 1..];
    FilledConcat(T[..i], [T[i]]);
    FilledConcat(T[..i + 1], T[i + 1..]);
    assert Filled([T[i]][1..]) == 0;
  }

  lemma KeyedStep<K, V>(T: seq<Slot<K, V>>, i: nat, key: K)
    requires i < |T|
    ensures Keyed(T[..i + 1], key) ==
            if T[i].Some? then After(Keyed(T[..i], key), key, T[i].value, Multi) else Keyed(T[..i], key)
  {
    assert T[..i + 1] == T[..i] + [T[i]];
    KeyedConcat(T[..i], [T[i]], key);
    assert Keyed([T[i]][1..], key) == [];
    assert Keyed(T[..i], key) + [] == Keyed(T[..i], key);
  }

  lemma RotationAfter<K, V>(was: seq<Item<K, V>>, mid: seq<Item<K, V>>, key: K, item: Item<K, V>, mode: Mode)
    requires Rotated(was, mid)
    ensures RotatedThen(was, After(mid, key, item, mode), key, item, mode)
  {
  }

  lemma RotationAnswers<K, V>(was: seq<Item<K, V>>, mid: seq<Item<K, V>>, item: Item<K, V>, mode: Mode)
    requires Rotated(was, mid)
    ensures Answered(was, After(mid, item.key, item, mode), item, mode, if mode.Multi? then None else First(mid))
  {
  }

  lemma NotRotated<A>(a: seq<A>)
    ensures Rotated(a, a)
  {
    assert Rotation(a, 0) == a;
  }

  lemma NothingStored<K, V>(hash: K -> nat, T: seq<Slot<K, V>>, off: seq<nat>)
    requires |T| == |off| > 0 && forall p :: 0 <= p < |T| ==> T[p].None? && off[p] == 0
    ensures Laid(hash, T, off) && Filled(T) == 0
    ensures forall key :: Chain(hash, T, key) == []
  {
    assert CutAt(off, 0);
    NoneFilled(T);
    forall key
      ensures Chain(hash, T, key) == []
    {
      var k := Home(hash, key, |T|);
      NoItems(T[k..] + T[..k], key);
    }
  }

  /** Where a search of the home bucket ended decides the chain of the key. */
  lemma ProbeOutcome<K, V>(hash: K -> nat, T: seq<Slot<K, V>>, key: K, i: nat)
    requires |T| > 0
    requires var bucket := Bucket(hash, T, Home(hash, key, |T|));
             Unmatched(bucket, key, i) && (i == |bucket| || (i < |bucket| && bucket[i].key == key))
    ensures var bucket := Bucket(hash, T, Home(hash, key, |T|));
            if i == |bucket| then Chain(hash, T, key) == []
            else Chain(hash, T, key) != [] && Chain(hash, T, key)[0] == bucket[i]
  {
    hide Bucket, Home, Unmatched;
    ChainOfBucket(hash, T, key);
    SearchOutcome(Bucket(hash, T, Home(hash, key, |T|)), key, i);
  }

  lemma NothingWithKey<K, V>(xs: seq<Item<K, V>>, key: K)
    ensures xs == [] ==> WithKey(xs, key) == []
  {
  }

  class HashTable<K(==,!new), V> {
    const hash: K -> nat
    const load: nat          // HT_LOAD_FACTOR_FRAC, of 256
    var table: array<Slot<K, V>>
    var offsets: array<nat>  // below 128 unless an insertion reported an overflow
    var count: nat

    ghost predicate Valid()
      reads this, table, offsets
    {
      && 1 <= load <= 256
      && Laid(hash, table[..], offsets[..])
      && count == Filled(table[..])
      && (table.Length == 0 || PowerOfTwo(table.Length))
    }

    /** All items under a key, first inserted first. */
    ghost function Items(key: K): seq<Item<K, V>>
      reads this, table
    {
      Chain(hash, table[..], key)
    }

    /** One more item under its key and no other change. */
    twostate predicate Added(item: Item<K, V>)
      reads this, table
    {
      forall key :: Items(key) == old(Items(key)) + if key == item.key then [item] else []
    }

    /** The item goes into the empty slot of its own bucket. */
    method FillHome(home: nat, item: Item<K, V>)
      requires Valid() && table.Length > 0 && home == Home(hash, item.key, table.Length) && table[home].None?
      modifies this`count, table
      ensures Valid() && count == old(count) + 1 && Added(item)
    {
      hide Laid, Filled, Bucket, Home, Chain;
      ghost var T := table[..];
      EmptyFill(hash, T, offsets[..], item);
      count := count + 1;
      table[home] := Some(item);
      assert table[..] == T[home := Some(item)];
      forall key ensures Items(key) == Chain(hash, T, key) + if key == item.key then [item] else [] {
        ChainGrows(hash, T, table[..], item, key);
      }
    }

    /** The end of ht_insert: the item goes behind its bucket, the run of items there moves up by one. */
    method PlaceBehind(home: nat, end: nat, item: Item<K, V>) returns (overflow: bool)
      requires Valid() && count < table.Length && EndsAt(offsets[..], home, end)
      requires home == Home(hash, item.key, table.Length) && !(offsets[home] == 0 && table[home].None?)
      modifies this`count, table, offsets
      ensures Valid() && count == old(count) + 1 && Added(item)
      ensures forall b :: 0 <= b < table.Length ==>
                Bucket(hash, table[..], b) == old(Bucket(hash, table[..], b)) + if b == home then [item] else []
      ensures Watched(offsets[..], old(offsets[..]), overflow)
    {
      hide Laid, Filled, Bucket, Home, Chain, RunTo, Bumped, Watched, MovedUp, Shifted, CanInsert, Unrolled, Around;
      ghost var T, off := table[..], offsets[..];
      LaidSizes(hash, T, off, 0);
      ghost var f := RunExists(T, end);
      ghost var c := CutBehind(hash, T, off, home, end, f);
      LaidSizes(hash, T, off, c);
      count := count + 1;
      overflow := BumpBuckets(offsets, home, end, c);
      ghost var mid := offsets[..];
      overflow := MoveUp(table, offsets, end, item, overflow, c, off);
      ShiftedBy(hash, T, off, mid, table[..], offsets[..], c, home, end, item);
      ShiftKeepsLayout(hash, T, off, table[..], offsets[..], c, home, item);
      forall key ensures Items(key) == Chain(hash, T, key) + if key == item.key then [item] else [] {
        ChainGrows(hash, T, table[..], item, key);
      }
    }

    /** In replace mode, the item takes the place of the i-th of its bucket. */
    method ReplaceAt(home: nat, j: nat, item: Item<K, V>, ghost i: nat)
      requires Valid() && table.Length > 0 && home == Home(hash, item.key, table.Length)
      requires offsets[home] < table.Length && i <= table.Length
      requires j == Wrap(Wrap(home + offsets[home], table.Length) + i, table.Length)
      requires var bucket := Bucket(hash, table[..], home);
               && LiesAt(table[..], Wrap(home + offsets[home], table.Length), bucket)
               && Unmatched(bucket, item.key, i) && i < |bucket| && bucket[i].key == item.key
      modifies table
      ensures Valid()
      ensures forall key :: Items(key) == if key == item.key then [item] + Rest(old(Items(key))) else old(Items(key))
    {
      hide Laid, Filled, Bucket, Home, Chain;
      ghost var T := table[..];
      LaidSizes(hash, T, offsets[..], 0);
      ReplaceKeepsLayout(hash, T, offsets[..], home, i, item);
      table[j] := Some(item);
      assert table[..] == T[j := Some(item)];
      forall key ensures Items(key) == if key == item.key then [item] + Rest(Chain(hash, T, key)) else Chain(hash, T, key) {
        ChainReplaces(hash, T, table[..], i, item, key);
      }
    }

    /** The end of ht_remove: the i-th item of a bucket is taken out, displaced items move down by one. */
    method TakeOut(home: nat, j: nat, gone: K, ghost i: nat)
      requires Valid() && table.Length > 0 && home == Home(hash, gone, table.Length)
      requires offsets[home] < table.Length && i <= table.Length
      requires offsets[home] + i <= offsets[Wrap(home + 1, table.Length)]
      requires j == Wrap(Wrap(home + offsets[home], table.Length) + i, table.Length) && table[j].Some?
      requires var bucket := Bucket(hash, table[..], home);
               Unmatched(bucket, gone, i) && i < |bucket| && bucket[i].key == gone
      modifies this`count, table, offsets
      ensures Valid() && count == old(count) - 1
      ensures forall key :: Items(key) == if key == gone then Rest(old(Items(key))) else old(Items(key))
      ensures forall p :: 0 <= p < offsets.Length ==> offsets[p] <= old(offsets[p])
    {
      hide Laid, Bucket, Home, Filled, Chain, Dropped, MovedDown, ClosedUp, DisplacedTo, At;
      ghost var n, T, off := table.Length, table[..], offsets[..];
      LaidSizes(hash, T, off, 0);
      ghost var c := RemovalCut(hash, T, off, home, j, i);
      DropBuckets(offsets, home, j, c);
      ghost var mid := offsets[..];
      StillDisplaced(mid, off, home, j, c);
      ghost var moved := MoveDown(table, offsets, j, c);
      CloseBy(T, off, mid, moved, table[..], offsets[..], c, home, j);
      CloseKeepsLayout(hash, T, off, table[..], offsets[..], c, home, i);
      count := count - 1;
      forall key ensures Items(key) == if key == gone then Rest(Chain(hash, T, key)) else Chain(hash, T, key) {
        ChainShrinks(hash, T, table[..], i, gone, key);
      }
    }

    /** The search loop: from slot `start`, `len` slots that hold one bucket. */
    method Probe(key: K, start: nat, len: nat, ghost bucket: seq<Item<K, V>>) returns (j: nat, left: nat)
      requires |bucket| == len && LiesAt(table[..], start, bucket)
      ensures left <= len && j == Wrap(start + (len - left), table.Length)
      ensures Unmatched(bucket, key, len - left)
      ensures left > 0 ==> table[j] == Some(bucket[len - left]) && bucket[len - left].key == key
    {
      j, left := start, len;
      while left > 0
        invariant 0 <= left <= len && j == Wrap(start + (len - left), table.Length)
        invariant Unmatched(bucket, key, len - left)
      {
        assert At(table[..], start, len - left) == Some(bucket[len - left]);
        if table[j].value.key == key {
          return;
        }
        j := Wrap(j + 1, table.Length);
        left := left - 1;
      }
    }

    /** What ht_find and ht_remove do first: look for the key in its bucket. */
    method Locate(key: K) returns (found: bool, home: nat, j: nat, ghost i: nat)
      requires Valid()
      ensures !found ==> Items(key) == []
      ensures found ==>
                && home < table.Length && home == Home(hash, key, table.Length) && offsets[home] < table.Length
                && i <= table.Length && offsets[home] + i <= offsets[Wrap(home + 1, table.Length)]
                && j == Wrap(Wrap(home + offsets[home], table.Length) + i, table.Length) && table[j].Some?
                && var bucket := Bucket(hash, table[..], home);
                && Unmatched(bucket, key, i) && i < |bucket| && bucket[i].key == key && table[j] == Some(bucket[i])
                && Items(key) == [bucket[i]] + WithKey(bucket[i + 1..], key)
    {
      hide Laid, Bucket, Home, Filled, Chain, LiesAt, Unmatched, WithKey;
      var n := table.Length;
      ghost var T, off := table[..], offsets[..];
      found, home, j, i := false, 0, 0, 0;
      if n == 0 {
        NoTable(hash, T, key);
        return;
      }
      assert |off| == n by { LaidSizes(hash, T, off, 0); }
      home := Home(hash, key, n);
      var offset := offsets[home];
      BucketLies(hash, T, off, home);
      ChainOfBucket(hash, T, key);
      ghost var bucket := Bucket(hash, T, home);
      NothingWithKey(bucket, key);
      j := Wrap(home + offset, n);
      if offset == 0 && table[j].None? {
        return;
      }
      var len: nat, left: nat := offsets[Wrap(home + 1, n)] + 1 - offset, 0;
      j, left := Probe(key, j, len, bucket);
      i := len - left;
      SearchOutcome(bucket, key, i);
      found := left > 0;
    }

    /** ht_find: the first item under the key. */
    method Find(key: K) returns (r: Slot<K, V>)
      requires Valid()
      ensures r == First(Items(key))
    {
      hide Laid, Bucket, Home, Filled, Chain, Unmatched, WithKey;
      var found, home, j, i := Locate(key);
      r := if found then table[j] else None;
    }

    /** ht_insert when the table need not grow. */
    method InsertHere(item: Item<K, V>, mode: Mode) returns (r: Slot<K, V>, overflow: bool)
      requires Valid() && count < table.Length
      modifies this`count, table, offsets
      ensures Valid()
      ensures forall key :: Items(key) == After(old(Items(key)), key, item, mode)
      ensures r == if mode.Multi? then None else First(old(Items(item.key)))
      ensures count == old(count) + if r.None? then 1 else 0
      ensures Watched(offsets[..], old(offsets[..]), overflow)
    {
      hide Laid, Bucket, Home, Filled, Chain, Watched, EndsAt, LiesAt, Unmatched;
      ghost var T, off := table[..], offsets[..];
      var n := table.Length;
      assert |off| == n by { LaidSizes(hash, T, off, 0); }
      var k := Home(hash, item.key, n);
      var offset := offsets[k];
      BucketLies(hash, T, off, k);
      ChainOfBucket(hash, T, item.key);
      ghost var bucket := Bucket(hash, T, k);
      var j := Wrap(k + offset, n);
      if offset == 0 && table[j].None? {
        FillHome(k, item);
        NothingChanged(off);
        return None, false;
      }
      var len := offsets[Wrap(k + 1, n)] + 1 - offset;
      r, overflow := InsertInBucket(k, j, len, item, mode);
    }

    /** The rest of ht_insert: search the bucket at j unless the mode does not, then replace, keep or add. */
    method InsertInBucket(home: nat, start: nat, len: nat, item: Item<K, V>, mode: Mode) returns (r: Slot<K, V>, overflow: bool)
      requires Valid() && count < table.Length && home == Home(hash, item.key, table.Length)
      requires |offsets[..]| == table.Length && offsets[home] < table.Length
      requires offsets[home] + len == offsets[Wrap(home + 1, table.Length)] + 1 && len <= table.Length
      requires start == Wrap(home + offsets[home], table.Length) && !(offsets[home] == 0 && table[home].None?)
      requires |Bucket(hash, table[..], home)| == len && LiesAt(table[..], start, Bucket(hash, table[..], home))
      modifies this`count, table, offsets
      ensures Valid()
      ensures forall key :: Items(key) == After(old(Items(key)), key, item, mode)
      ensures r == if mode.Multi? then None else First(old(Items(item.key)))
      ensures count == old(count) + if r.None? then 1 else 0
      ensures Watched(offsets[..], old(offsets[..]), overflow)
    {
      hide Laid, Bucket, Home, Filled, Chain, Watched, EndsAt, LiesAt, Unmatched, WithKey;
      ghost var T, off := table[..], offsets[..];
      ghost var bucket := Bucket(hash, T, home);
      var j := start;
      if mode.Multi? {
        j := Wrap(j + len, table.Length);
      } else {
        var left: nat;
        j, left := Probe(item.key, j, len, bucket);
        ProbeOutcome(hash, T, item.key, len - left);
        if left > 0 {
          r := table[j];
          if mode.Replace? {
            ReplaceAt(home, j, item, len - left);
          }
          NothingChanged(off);
          return r, false;
        }
      }
      EndsThere(off, home, j);
      overflow := PlaceBehind(home, j, item);
      r := None;
    }

    /** ht_remove: the first item under the key goes. */
    method Remove(key: K) returns (r: Slot<K, V>)
      requires Valid()
      modifies this`count, table, offsets
      ensures Valid()
      ensures r == First(old(Items(key)))
      ensures forall q :: Items(q) == if q == key then Rest(old(Items(q))) else old(Items(q))
      ensures count == old(count) - if r.Some? then 1 else 0
      ensures forall p :: 0 <= p < offsets.Length ==> offsets[p] <= old(offsets[p])
    {
      hide Laid, Bucket, Home, Filled, Chain, Unmatched, WithKey, Wrap;
      var found, home, j, i := Locate(key);
      if !found {
        return None;
      }
      r := table[j];
      TakeOut(home, j, key, i);
    }

    /** ht_init: empty, with room for `wanted` items under the load factor. */
    constructor (hash: K -> nat, load: nat, wanted: nat)
      requires 1 <= load <= 256
      ensures Valid() && this.hash == hash && this.load == load && count == 0
      ensures fresh(table) && fresh(offsets) && Smallest(table.Length, wanted, load)
      ensures forall key :: Items(key) == []
      ensures Narrow(offsets[..])
    {
      var buckets := BucketsFor(wanted, load);
      this.hash, this.load, this.count := hash, load, 0;
      table := new Slot<K, V>[buckets](_ => None);
      offsets := new nat[buckets](_ => 0);
      new;
      NothingStored(this.hash, table[..], offsets[..]);
    }

    /** Insertion resizes once the count has reached this. */
    function Limit(): nat
      reads this
    {
      table.Length * load / 256
    }

    /** ht_resize: every item is inserted again, in slot order, into a new table. */
    method Resize(wanted: nat) returns (overflow: bool)
      requires Valid()
      modifies this
      ensures Valid() && fresh(table) && fresh(offsets) && count == old(count)
      ensures table.Length >= 4 && wanted <= Limit() && count <= Limit()
      ensures Smallest(table.Length, if wanted < count then count else wanted, load)
      ensures forall key :: Rotated(old(Items(key)), Items(key))
      ensures !overflow ==> Narrow(offsets[..])
      decreases 1
    {
      hide Filled, Keyed, After, Rotated, Chain, Laid, Narrow, Watched;
      var ht2 := new HashTable<K, V>(hash, load, if wanted < count then count else wanted);
      ghost var T := table[..];
      overflow := false;
      NoneFilled(T[..0]);
      forall key ensures Keyed(T[..0], key) == [] {
        NoItems(T[..0], key);
      }
      for i := 0 to table.Length
        invariant ht2.Valid() && fresh(ht2) && fresh(ht2.table) && fresh(ht2.offsets)
        invariant ht2.hash == hash && ht2.load == load && ht2.table.Length >= 4
        invariant wanted <= ht2.Limit() && count <= ht2.Limit() && ht2.count == Filled(T[..i])
        invariant Smallest(ht2.table.Length, if wanted < count then count else wanted, load)
        invariant unchanged(this) && table[..] == T
        invariant forall key :: ht2.Items(key) == Keyed(T[..i], key)
        invariant !overflow ==> Narrow(ht2.offsets[..])
      {
        FilledStep(T, i);
        if table[i].Some? {
          var r, over := ht2.Insert(table[i].value, Multi);
          overflow := overflow || over;
        }
        forall key ensures ht2.Items(key) == Keyed(T[..i + 1], key) {
          KeyedStep(T, i, key);
        }
      }
      assert T[..|T|] == T;
      forall key ensures Rotated(Chain(hash, T, key), ht2.Items(key)) {
        KeyedWhole(hash, T, key);
      }
      table, offsets, count := ht2.table, ht2.offsets, ht2.count;
    }

    /** ht_insert: grows the table when the load factor is reached, then inserts. */
    method Insert(item: Item<K, V>, mode: Mode) returns (r: Slot<K, V>, overflow: bool)
      requires Valid()
      modifies this, table, offsets
      ensures Valid()
      ensures forall key :: RotatedThen(old(Items(key)), Items(key), key, item, mode)
      ensures Answered(old(Items(item.key)), Items(item.key), item, mode, r)
      ensures count == old(count) + if r.None? then 1 else 0
      ensures old(count) < old(table.Length) * load / 256 ==>
                && table == old(table) && offsets == old(offsets)
                && (forall key :: Items(key) == After(old(Items(key)), key, item, mode))
                && (r == if mode.Multi? then None else First(old(Items(item.key))))
                && Watched(offsets[..], old(offsets[..]), overflow)
      ensures !overflow && Narrow(old(offsets[..])) ==> Narrow(offsets[..])
      ensures old(count) >= old(table.Length) * load / 256 ==>
                fresh(table) && fresh(offsets) && Smallest(table.Length, 2 * old(count), load)
      decreases if count >= Limit() then 2 else 0
    {
      hide Filled, Chain, Laid, After, Rotated, RotatedThen, Answered, First, Watched, Narrow, Smallest;
      overflow := false;
      forall key ensures Rotated(Items(key), Items(key)) {
        NotRotated(Items(key));
      }
      if count >= Limit() {
        overflow := Resize(count * 2);
      }
      LimitBelow(table.Length, load);
      forall key ensures RotatedThen(old(Items(key)), After(Items(key), key, item, mode), key, item, mode) {
        RotationAfter(old(Items(key)), Items(key), key, item, mode);
      }
      RotationAnswers(old(Items(item.key)), Items(item.key), item, mode);
      ghost var was := offsets[..];
      var over;
      r, over := InsertHere(item, mode);
      if !over && Narrow(was) { StaysNarrow(offsets[..], was, over); }
      overflow := overflow || over;
    }
  }
}
