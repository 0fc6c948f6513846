/** Base-128 varints and ZigZag (Protocol Buffers encoding, section "Base 128 Varints"). */
module Varints {
  import opened Words

  function Varint(v: nat): (s: seq<byte>)
    ensures |s| >= 1
  {
    if v < 128 then [v] else [v % 128 + 128] + Varint(v / 128)
  }

  function VarintValue(s: seq<byte>): nat {
    if s == [] then 0 else s[0] % 128 + 128 * VarintValue(s[1..])
  }

  /** All bytes but the last have the continuation bit. */
  predicate Terminated(s: seq<byte>) {
    |s| > 0 && s[|s| - 1] < 128 && forall i :: 0 <= i < |s| - 1 ==> s[i] >= 128
  }

  function Pow128(n: nat): (p: nat)
    ensures p > 0
  {
    if n == 0 then 1 else 128 * Pow128(n - 1)
  }

  lemma {:induction false} VarintRoundTrip(v: nat)
    ensures VarintValue(Varint(v)) == v
    ensures Terminated(Varint(v))
  {
    hide Terminated;
    if v >= 128 {
      VarintRoundTrip(v / 128);
      OneMoreGroup(v % 128 + 128, Varint(v / 128));
    } else {
      LastGroup(v);
    }
  }

  lemma LastGroup(b: byte)
    requires b < 128
    ensures Terminated([b]) && VarintValue([b]) == b
  {
  }

  lemma OneMoreGroup(b: byte, t: seq<byte>)
    requires b >= 128 && Terminated(t)
    ensures Terminated([b] + t) && VarintValue([b] + t) == b % 128 + 128 * VarintValue(t)
  {
    assert ([b] + t)[1..] == t;
  }

  /** The number of bytes is the number of base-128 digits. */
  lemma {:induction false} VarintLength(v: nat, n: nat)
    requires n >= 1
    ensures |Varint(v)| <= n <==> v < Pow128(n)
  {
    if v >= 128 {
      if n == 1 {
        assert |Varint(v / 128)| >= 1;
        assert Pow128(1) == 128 * Pow128(0);
      } else {
        VarintLength(v / 128, n - 1);
        assert v / 128 < Pow128(n - 1) <==> v < 128 * Pow128(n - 1);
      }
    } else {
      Pow128Monotone(1, n);
      assert Pow128(1) == 128 * Pow128(0);
    }
  }

  lemma {:induction false} Pow128Monotone(m: nat, n: nat)
    requires m <= n
    ensures Pow128(m) <= Pow128(n)
    decreases n
  {
    if m < n { Pow128Monotone(m, n - 1); }
  }

  lemma {:induction false} VarintValueBound(s: seq<byte>)
    ensures VarintValue(s) < Pow128(|s|)
  {
    if s != [] { VarintValueBound(s[1..]); }
  }

  /** No shorter byte string has the same value. */
  lemma {:induction false} VarintMinimal(s: seq<byte>)
    requires |s| >= 1
    ensures |Varint(VarintValue(s))| <= |s|
  {
    VarintValueBound(s);
    VarintLength(VarintValue(s), |s|);
  }

  /**
   * How many bytes the varint at the front of `s` takes when at most `max` bytes
   * are looked at; 0 when it does not end there.
   */
  function Extent(s: seq<byte>, max: nat): (n: nat)
    ensures n <= |s| && n <= max
    ensures n > 0 ==> Terminated(s[..n])
  {
    if s == [] || max == 0 then 0
    else if s[0] < 128 then 1
    else
      var n := Extent(s[1..], max - 1);
      assert n > 0 ==> s[..n + 1] == [s[0]] + s[1..][..n];
      if n == 0 then 0 else n + 1
  }

  lemma {:induction false} ExtentOfTerminated(s: seq<byte>, rest: seq<byte>, max: nat)
    requires Terminated(s)
    ensures Extent(s + rest, max) == if |s| <= max then |s| else 0
  {
    var t := s + rest;
    if |s| > 1 && max > 0 {
      assert t[1..] == s[1..] + rest;
      ExtentOfTerminated(s[1..], rest, max - 1);
    }
  }

  /** Bytes after the end of the varint do not matter. */
  lemma ExtentPrefix(s: seq<byte>, rest: seq<byte>, max: nat)
    requires Extent(s, max) > 0
    ensures Extent(s + rest, max) == Extent(s, max)
  {
    var n := Extent(s, max);
    ExtentOfTerminated(s[..n], s[n..] + rest, max);
    assert s + rest == s[..n] + (s[n..] + rest);
  }
}
