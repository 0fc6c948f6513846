/** The loops that read tags, lengths, varints and numbers out of a byte string. */
module Reading {
  import opened Words
  import opened Descriptors
  import opened Varints
  import opened Scalars
  import opened Wire
  import opened Decoding
  import opened TwoPass

  /** Skipping continuation bytes. */
  lemma {:induction false} ExtentSkip(s: seq<byte>, max: nat, k: nat)
    requires k <= |s| && k <= max && forall i :: 0 <= i < k ==> s[i] >= 128
    ensures Extent(s, max) == (var n := Extent(s[k..], max - k); if n == 0 then 0 else k + n)
  {
    if k > 0 {
      var t := s[1..];
      ExtentSkip(t, max - 1, k - 1);
      assert t[k - 1..] == s[k..];
      assert Extent(s, max) == (var n := Extent(t, max - 1); if n == 0 then 0 else n + 1);
    } else {
      assert s[0..] == s;
    }
  }

  lemma {:induction false} VarintValueConcat(a: seq<byte>, b: seq<byte>)
    ensures VarintValue(a + b) == VarintValue(a) + Pow128(|a|) * VarintValue(b)
  {
    if a == [] {
      assert a + b == b;
    } else {
      assert a + b == [a[0]] + (a[1..] + b);
      VarintValueConcat(a[1..], b);
      MulAssociate(Pow128(|a| - 1), VarintValue(b));
      assert VarintValue(a + b) == a[0] % 128 + 128 * VarintValue(a[1..] + b) by {
        assert (a + b)[1..] == a[1..] + b;
      }
    }
  }

  lemma MulAssociate(x: nat, y: nat)
    ensures 128 * (x * y) == (128 * x) * y
  {
  }

  lemma NoGroups(s: seq<byte>)
    ensures VarintValue(s[..0]) == 0 && Pow128(0) == 1
  {
  }

  lemma NextPower(i: nat)
    ensures Pow128(i + 1) == 128 * Pow128(i)
  {
  }

  /** One more byte adds its group, shifted. */
  lemma VarintValueSnoc(s: seq<byte>, k: nat)
    requires k < |s|
    ensures VarintValue(s[..k + 1]) == VarintValue(s[..k]) + Pow128(k) * (s[k] % 128)
  {
    assert s[..k + 1] == s[..k] + [s[k]];
    VarintValueConcat(s[..k], [s[k]]);
    assert VarintValue([s[k]]) == s[k] % 128 + 128 * VarintValue([s[k]][1..]);
  }

  /** parse_tag_and_wiretype; `used` is 0 when the header is bad. `scale` is 1 << shift. */
  method ParseTagAndWiretype(s: seq<byte>) returns (used: nat, tag: nat, wire: nat)
    requires |s| > 0
    ensures used == 0 ==> ScanHeader(s) == None
    ensures used > 0 ==> ScanHeader(s) == Some((tag, wire, used)) && tag < TWO_32
  {
    hide ScanHeader, VarintValue, Extent, Pow128;
    var maxRv := if |s| > 5 then 5 else |s|;
    tag := s[0] % 128 / 8;
    wire := s[0] % 8;
    if s[0] < 8 {
      NoHeader(s, 0);
      return 0, tag, wire;
    }
    FirstGroup(s);
    if s[0] < 128 {
      HeaderFound(s, 0, tag);
      return 1, tag, wire;
    }
    var scale: nat, rv: nat := 16, 1;
    while rv < maxRv
      invariant 1 <= rv <= maxRv
      invariant 8 * scale == Pow128(rv)
      invariant forall i :: 0 <= i < rv ==> s[i] >= 128
      invariant VarintValue(s[..rv]) == 8 * tag + wire
    {
      TagStep(s, rv, scale);
      Pow128Step(rv);
      var d: nat := s[rv] % 128;
      tag := tag + scale * d;
      if s[rv] < 128 {
        HeaderFound(s, rv, tag);
        return rv + 1, tag, wire;
      }
      scale := scale * 128;
      rv := rv + 1;
    }
    NoHeader(s, rv);
    return 0, tag, wire;
  }

  lemma FirstGroup(s: seq<byte>)
    requires |s| > 0
    ensures VarintValue(s[..1]) == 8 * (s[0] % 128 / 8) + s[0] % 8 && Pow128(1) == 128
  {
    assert s[..1] == [s[0]] && VarintValue([s[0]][1..]) == 0;
    assert Pow128(1) == 128 * Pow128(0);
    var b: nat := s[0];
    assert b % 128 == 8 * (b % 128 / 8) + b % 8;
  }

  /** The header ends with byte rv. */
  lemma HeaderFound(s: seq<byte>, rv: nat, tag: nat)
    requires rv < |s| && rv < 5 && s[0] >= 8 && s[rv] < 128 && forall i :: 0 <= i < rv ==> s[i] >= 128
    requires VarintValue(s[..rv + 1]) == 8 * tag + s[0] % 8
    ensures ScanHeader(s) == Some((tag, s[0] % 8, rv + 1)) && tag < TWO_32
  {
    ExtentEnds(s, 5, rv);
    TagBound(s[..rv + 1]);
    hide VarintValue, Extent;
  }

  lemma NoHeader(s: seq<byte>, rv: nat)
    requires |s| > 0 && rv <= |s| && rv <= 5 && (s[0] < 8 || rv == 5 || rv == |s|)
    requires forall i :: 0 <= i < rv ==> s[i] >= 128
    ensures ScanHeader(s) == None
  {
    ExtentSkip(s, 5, rv);
  }

  lemma Pow128Step(n: nat)
    ensures Pow128(n + 1) == 128 * Pow128(n)
  {
  }

  lemma TagStep(s: seq<byte>, rv: nat, scale: nat)
    requires rv < |s| && 8 * scale == Pow128(rv)
    ensures VarintValue(s[..rv + 1]) == VarintValue(s[..rv]) + 8 * (scale * (s[rv] % 128))
  {
    VarintValueSnoc(s, rv);
  }

  lemma ExtentEnds(s: seq<byte>, max: nat, k: nat)
    requires k < |s| && k < max && s[k] < 128 && forall i :: 0 <= i < k ==> s[i] >= 128
    ensures Extent(s, max) == k + 1
  {
    ExtentSkip(s, max, k);
    assert s[k..][0] == s[k];
  }

  lemma TagBound(h: seq<byte>)
    requires |h| <= 5
    ensures VarintValue(h) / 8 < TWO_32
  {
    VarintValueBound(h);
    Pow128Monotone(|h|, 5);
    Pow128Values();
  }

  /** The loop of the scan over a varint. */
  method VarintEnd(s: seq<byte>) returns (n: nat)
    ensures n == Extent(s, 10)
  {
    var len := if |s| < 10 then |s| else 10;
    var i := 0;
    while i < len && s[i] >= 128
      invariant i <= len && forall k :: 0 <= k < i ==> s[k] >= 128
    {
      i := i + 1;
    }
    ExtentSkip(s, 10, i);
    if i == len {
      return 0;
    }
    assert s[i..][0] == s[i];
    return i + 1;
  }

  /** scan_varint, which takes the length as an unsigned. */
  method ScanVarint(s: seq<byte>) returns (n: nat)
    requires |s| < TWO_32
    ensures n == Extent(s, 10)
  {
    n := VarintEnd(s);
  }

  /** scan_length_prefixed_data; 0 stands for an error. */
  method ScanLengthPrefixedData(s: seq<byte>) returns (total: nat, prefix: nat)
    ensures total == 0 ==> ScanData(WIRE_LENGTH, s) == None
    ensures total > 0 ==> ScanData(WIRE_LENGTH, s) == Some((prefix, total))
  {
    hide VarintValue, Pow128;
    NoGroups(s);
    var hdrMax := if |s| < 5 then |s| else 5;
    var val: nat, scale: nat, i: nat := 0, 1, 0;
    while i < hdrMax
      invariant 0 <= i <= hdrMax
      invariant scale == Pow128(i) && val == VarintValue(s[..i])
      invariant forall k :: 0 <= k < i ==> s[k] >= 128
    {
      VarintValueSnoc(s, i);
      NextPower(i);
      var d: nat := s[i] % 128;
      val := val + scale * d;
      scale := scale * 128;
      if s[i] < 128 {
        break;
      }
      i := i + 1;
    }
    ExtentSkip(s, 5, i);
    if i == hdrMax {
      return 0, 0;
    }
    assert s[i..][0] == s[i];
    prefix := i + 1;
    if val > INT_MAX {
      return 0, prefix;
    }
    if prefix + val > |s| {
      return 0, prefix;
    }
    return prefix + val, prefix;
  }

  /** max_b128_numbers */
  method MaxB128Numbers(s: seq<byte>) returns (rv: nat)
    ensures rv == Terminators(s)
  {
    rv := 0;
    for i := 0 to |s|
      invariant rv + Terminators(s[i..]) == Terminators(s)
    {
      assert s[i..][1..] == s[i + 1..];
      if s[i] < 128 {
        rv := rv + 1;
      }
    }
  }

  /** count_packed_elements */
  method CountPackedElements(t: FieldType, s: seq<byte>) returns (ok: bool, count: nat)
    ensures ok <==> Packable(t) && (Is32(t) || Is64(t) ==> |s| % MinSize(t) == 0)
    ensures ok ==> count == PackedCount(t, s)
  {
    count := 0;
    if Is32(t) {
      if |s| % 4 != 0 { return false, 0; }
      return true, |s| / 4;
    } else if Is64(t) {
      if |s| % 8 != 0 { return false, 0; }
      return true, |s| / 8;
    } else if t.Bool? {
      return true, |s|;
    } else if !Packable(t) {
      return false, 0;
    }
    count := MaxB128Numbers(s);
    ok := true;
  }

  // ---- numbers

  function Whole(b: byte): nat { b }

  /** The seven value bits of a varint byte. */
  function Group(b: byte): nat { b % 128 }

  /** parse_uint32: the low 32 bits of the varint, from its first five bytes. */
  function ParseUint32(s: seq<byte>): (r: nat)
    requires 0 < |s| < TWO_32
    ensures r == VarintValue(s) % TWO_32
  {
    if |s| > 4 then LongValue(s); Uint32Sum(s) else ShortValue(s); Uint32Sum(s)
  }

  function Uint32Sum(s: seq<byte>): nat
    requires |s| > 0
  {
    Group(s[0])
    + (if |s| > 1 then 0x80 * Group(s[1])
       + (if |s| > 2 then 0x4000 * Group(s[2])
          + (if |s| > 3 then 0x20_0000 * Group(s[3])
             + (if |s| > 4 then 0x1000_0000 * Whole(s[4]) % TWO_32 else 0)
             else 0)
          else 0)
       else 0)
  }

  lemma FitsEitherWidth(s: seq<byte>)
    requires |s| < 5
    ensures VarintValue(s) % TWO_64 == VarintValue(s) % TWO_32
  {
    hide VarintValue;
    Pow128Values();
    VarintValueBound(s);
    Pow128Monotone(|s|, 4);
  }

  lemma FourGroups(s: seq<byte>)
    requires |s| >= 4
    ensures Pow128(4) == 0x1000_0000
    ensures VarintValue(s[..4]) % TWO_64 == Group(s[0]) + 0x80 * Group(s[1]) + 0x4000 * Group(s[2]) + 0x20_0000 * Group(s[3])
  {
    Pow128Values();
    Unfold4(s[..4]);
    VarintValueBound(s[..4]);
  }

  lemma Unfold4(s: seq<byte>)
    requires |s| >= 4
    ensures VarintValue(s) == Group(s[0]) + 0x80 * Group(s[1]) + 0x4000 * Group(s[2])
                              + 0x20_0000 * Group(s[3]) + 0x1000_0000 * VarintValue(s[4..])
  {
    assert s[1..][1..] == s[2..] && s[2..][1..] == s[3..] && s[3..][1..] == s[4..];
  }

  lemma ShortValue(s: seq<byte>)
    requires 0 < |s| <= 4
    ensures VarintValue(s) ==
            Group(s[0])
            + (if |s| > 1 then 0x80 * Group(s[1])
               + (if |s| > 2 then 0x4000 * Group(s[2])
                  + (if |s| > 3 then 0x20_0000 * Group(s[3]) else 0)
                  else 0)
               else 0)
  {
    assert s[0..] == s;
    Unfold1(s, 0);
    if |s| > 1 { Unfold1(s, 1); }
    if |s| > 2 { Unfold1(s, 2); }
    if |s| > 3 { Unfold1(s, 3); }
    assert VarintValue(s[|s|..]) == 0;
    hide VarintValue;
  }

  lemma LongValue(s: seq<byte>)
    requires |s| > 4
    ensures VarintValue(s) % TWO_32 ==
            Group(s[0]) + 0x80 * Group(s[1]) + 0x4000 * Group(s[2]) + 0x20_0000 * Group(s[3])
            + 0x1000_0000 * Whole(s[4]) % TWO_32
  {
    Unfold4(s);
    Unfold1(s, 4);
    FifthByte(Group(s[0]) + 0x80 * Group(s[1]) + 0x4000 * Group(s[2]) + 0x20_0000 * Group(s[3]),
              Whole(s[4]), VarintValue(s[5..]));
  }

  lemma Unfold1(s: seq<byte>, k: nat)
    requires k < |s|
    ensures VarintValue(s[k..]) == Group(s[k]) + 128 * VarintValue(s[k + 1..])
  {
    assert s[k..][1..] == s[k + 1..];
  }

  /** Of the fifth byte, four bits reach the result; of later ones, none. */
  lemma FifthByte(low: nat, b: nat, rest: nat)
    requires low < 0x1000_0000 && b < 256
    ensures (low + 0x1000_0000 * (b % 128 + 128 * rest)) % TWO_32 == low + 0x1000_0000 * b % TWO_32
  {
    ModUnique(0x1000_0000 * b, 0x1_0000_0000, b / 16, 0x1000_0000 * (b % 16));
    var d := b % 128;
    assert d % 16 == b % 16;
    ModUnique(low + 0x1000_0000 * (d + 128 * rest), 0x1_0000_0000, d / 16 + 8 * rest, low + 0x1000_0000 * (d % 16));
  }

  /** Or-ing in one more group, cut to 64 bits. */
  lemma NoCarry(v: nat, w: nat, d: nat)
    requires w == v + d < 0x1_0000_0000_0000_0000
    ensures w % TWO_64 == v % TWO_64 + d % TWO_64
  {
    ModUnique(v, 0x1_0000_0000_0000_0000, 0, v);
    ModUnique(w, 0x1_0000_0000_0000_0000, 0, w);
    ModUnique(d, 0x1_0000_0000_0000_0000, 0, d);
  }

  lemma Uint64Step(s: seq<byte>, i: nat)
    requires i < |s| <= 10
    ensures VarintValue(s[..i + 1]) % TWO_64 == VarintValue(s[..i]) % TWO_64 + Pow128(i) * Group(s[i]) % TWO_64
  {
    hide VarintValue, Pow128;
    var v, w := VarintValue(s[..i]), VarintValue(s[..i + 1]);
    VarintValueSnoc(s, i);
    VarintValueBound(s[..i]);
    VarintValueBound(s[..i + 1]);
    Pow128Values();
    Pow128Monotone(i, 9);
    if i < 9 {
      Pow128Monotone(i + 1, 9);
      NoCarry(v, w, Pow128(i) * Group(s[i]));
    } else {
      TopGroup(v, Group(s[i]));
    }
  }

  /** parse_uint64 of at most ten bytes: the low 64 bits of the varint. `scale` is 1 << shift. */
  method ParseUint64(s: seq<byte>) returns (rv: nat)
    requires 0 < |s| <= 10
    ensures rv == VarintValue(s) % TWO_64
  {
    hide VarintValue, Pow128;
    if |s| < 5 {
      FitsEitherWidth(s);
      rv := ParseUint32(s);
      return;
    }
    FourGroups(s);
    rv := Group(s[0]) + 0x80 * Group(s[1]) + 0x4000 * Group(s[2]) + 0x20_0000 * Group(s[3]);
    var scale: nat := 0x1000_0000;
    for i := 4 to |s|
      invariant scale == Pow128(i)
      invariant rv == VarintValue(s[..i]) % TWO_64
    {
      Uint64Step(s, i);
      NextPower(i);
      rv := rv + scale * Group(s[i]) % TWO_64;
      scale := scale * 128;
    }
    assert s[..|s|] == s;
  }

  lemma TopGroup(v: nat, d: nat)
    requires v < 0x8000_0000_0000_0000 && d < 128
    ensures (v + 0x8000_0000_0000_0000 * d) % TWO_64 == v + 0x8000_0000_0000_0000 * d % TWO_64
    ensures v % TWO_64 == v
  {
    ModUnique(0x8000_0000_0000_0000 * d, 0x1_0000_0000_0000_0000, d / 2, 0x8000_0000_0000_0000 * (d % 2));
    ModUnique(v + 0x8000_0000_0000_0000 * d, 0x1_0000_0000_0000_0000, d / 2, v + 0x8000_0000_0000_0000 * (d % 2));
  }

  /** parse_boolean */
  method ParseBoolean(s: seq<byte>) returns (b: bool)
    requires |s| < TWO_32
    ensures b == TruthByte(s)
  {
    for i := 0 to |s|
      invariant forall k :: 0 <= k < i ==> s[k] % 128 == 0
    {
      if s[i] % 128 != 0 {
        return true;
      }
    }
    return false;
  }

  /** The per-type reader of one number. */
  method ReadNumber(t: FieldType, s: seq<byte>) returns (r: nat)
    requires Packable(t) && |s| < TWO_32
    requires !t.Bool? && !Is32(t) && !Is64(t) ==> 0 < |s| <= 10
    ensures r == ParseNum(t, s)
  {
    if Is32(t) || Is64(t) {
      return FromLittleEndian(s);
    }
    match t {
      case Int32 => r := ParseUint32(s);
      case Enum => r := ParseUint32(s);
      case UInt32 => r := ParseUint32(s);
      case SInt32 => r := Nat(Unzigzag(ParseUint32(s), TWO_32));
      case Int64 => r := ParseUint64(s);
      case UInt64 => r := ParseUint64(s);
      case SInt64 =>
        r := ParseUint64(s);
        r := Nat(Unzigzag(r, TWO_64));
      case Bool =>
        var b := ParseBoolean(s);
        r := if b then 1 else 0;
    }
  }
}
