/** What the two hash tables share: items, insertion modes, table sizes. */
module Hashing {
  datatype Item<K, V> = Item(key: K, value: V)

  /** ht_replace, ht_keep, ht_unique, ht_multi */
  datatype Mode = Replace | Keep | Unique | Multi

  /** Inserting into a map: an existing item stays unless it is to be replaced. */
  function Put<K, V>(m: map<K, Item<K, V>>, item: Item<K, V>, mode: Mode): map<K, Item<K, V>> {
    if item.key in m && !mode.Replace? then m else m[item.key := item]
  }

  predicate PowerOfTwo(n: nat) {
    n == 1 || (n > 0 && n % 2 == 0 && PowerOfTwo(n / 2))
  }

  /** How many items this many slots hold under the load factor. */
  function Room(buckets: nat, load: nat): nat {
    buckets * load / 256
  }

  lemma Underloaded(wanted: nat, buckets: nat, load: nat)
    requires load >= 1 && wanted > Room(buckets, load)
    ensures buckets < 256 * wanted
  {
    assert buckets * load >= buckets;
  }

  lemma LimitBelow(n: nat, load: nat)
    requires load <= 256
    ensures n * load / 256 <= n
    ensures load < 256 && n > 0 ==> n * load / 256 < n
  {
    assert n * load <= n * 256;
    if load < 256 && n > 0 { assert n * load <= n * 255 < n * 256; }
  }

  /** The smallest power of two, from 4 on, that holds this many items under the load factor. */
  predicate Smallest(buckets: nat, wanted: nat, load: nat) {
    && buckets >= 4 && PowerOfTwo(buckets) && wanted <= buckets * load / 256
    && (buckets > 4 ==> buckets / 2 * load / 256 < wanted)
  }

  lemma SmallestHolds(buckets: nat, wanted: nat, load: nat)
    requires Smallest(buckets, wanted, load)
    ensures buckets >= 4 && wanted <= buckets * load / 256
  {
  }

  lemma RoomIsSmallest(buckets: nat, half: nat, wanted: nat, load: nat)
    requires buckets >= 4 && PowerOfTwo(buckets) && buckets == 2 * half
    requires wanted <= Room(buckets, load) && (buckets > 4 ==> wanted > Room(half, load))
    ensures Smallest(buckets, wanted, load)
  {
    assert buckets / 2 == half;
  }

  /** ht_init: double from 4 until the wanted count is within the load factor. */
  method BucketsFor(wanted: nat, load: nat) returns (buckets: nat)
    requires load >= 1
    ensures Smallest(buckets, wanted, load)
  {
    hide Room, Smallest;
    buckets := 4;
    ghost var half: nat := 2;
    assert PowerOfTwo(2);
    while wanted > Room(buckets, load)
      invariant buckets >= 4 && PowerOfTwo(buckets) && buckets == 2 * half
      invariant buckets > 4 ==> wanted > Room(half, load)
      decreases 256 * wanted - buckets
    {
      Underloaded(wanted, buckets, load);
      half, buckets := buckets, buckets * 2;
    }
    RoomIsSmallest(buckets, half, wanted, load);
  }
}
