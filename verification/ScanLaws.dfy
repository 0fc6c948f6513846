/** Scanning inverts the record encoding, is a homomorphism, and tiles its input. */
module ScanLaws {
  import opened Words
  import opened Descriptors
  import opened Varints
  import opened Scalars
  import opened Wire
  import opened Decoding

  /** The data of the record is what its wire type calls for. */
  predicate WellDelimited(r: Record) {
    ScanData(r.wire, r.data) == Some((r.prefix, |r.data|))
  }

  predicate ValidRecord(r: Record) {
    1 <= r.tag < TWO_32 && r.wire < 8 && WellDelimited(r)
  }

  lemma FirstByte(tag: nat, wire: nat)
    requires wire < 8
    ensures var h := Header(tag, wire);
            h[0] % 8 == wire && (h[0] < 8 <==> tag == 0)
  {
    var v := 8 * tag + wire;
    if v >= 128 {
      assert v % 128 == 8 * (tag % 16) + wire by {
        ModUnique(v, 128, tag / 16, 8 * (tag % 16) + wire);
      }
    }
  }

  lemma HeaderScans(tag: nat, wire: nat, rest: seq<byte>)
    requires 1 <= tag < TWO_32 && wire < 8
    ensures ScanHeader(Header(tag, wire) + rest) == Some((tag, wire, |Header(tag, wire)|))
  {
    hide Varint, VarintValue, Extent, Terminated, Pow128;
    var h := Header(tag, wire);
    FirstByte(tag, wire);
    VarintRoundTrip(8 * tag + wire);
    assert |h| <= 5 by {
      Pow128Values();
      VarintLength(8 * tag + wire, 5);
    }
    ExtentOfTerminated(h, rest, 5);
    assert (h + rest)[..|h|] == h;
  }

  /** A tag of zero in its shortest form is rejected. */
  lemma ZeroTagRejected(wire: nat, rest: seq<byte>)
    requires wire < 8
    ensures ScanHeader(Header(0, wire) + rest) == None
  {
    FirstByte(0, wire);
  }

  lemma ScanDataExtends(wire: nat, s: seq<byte>, rest: seq<byte>)
    requires ScanData(wire, s).Some?
    ensures ScanData(wire, s + rest) == ScanData(wire, s)
  {
    if wire == WIRE_VARINT {
      ExtentPrefix(s, rest, 10);
    } else if wire == WIRE_LENGTH {
      ExtentPrefix(s, rest, 5);
      var n := Extent(s, 5);
      assert (s + rest)[..n] == s[..n];
    }
  }

  /** The data a scan cuts out is delimited on its own. */
  lemma ScanDataOwn(wire: nat, s: seq<byte>)
    requires ScanData(wire, s).Some?
    ensures ScanData(wire, s[..ScanData(wire, s).value.1]) == ScanData(wire, s)
  {
    var (prefix, len) := ScanData(wire, s).value;
    var own := s[..len];
    if wire == WIRE_VARINT {
      ExtentOfTerminated(own, [], 10);
      assert own + [] == own;
    } else if wire == WIRE_LENGTH {
      ExtentOfTerminated(s[..prefix], s[prefix..len], 5);
      assert s[..prefix] + s[prefix..len] == own;
      assert own[..prefix] == s[..prefix];
    }
  }

  lemma RecordScans(r: Record, rest: seq<byte>)
    requires ValidRecord(r)
    ensures ScanOne(EncRecord(r) + rest) == Some((r, |EncRecord(r)|))
  {
    var h := Header(r.tag, r.wire);
    var s := EncRecord(r) + rest;
    HeaderScans(r.tag, r.wire, r.data + rest);
    assert s == h + (r.data + rest);
    assert s[|h|..] == r.data + rest;
    ScanDataExtends(r.wire, r.data, rest);
    assert s[|h|..|h| + |r.data|] == r.data;
  }

  lemma ScannedIsDelimited(s: seq<byte>)
    requires ScanOne(s).Some?
    ensures WellDelimited(ScanOne(s).value.0)
    ensures ScanOne(s).value.0.tag < TWO_32 && ScanOne(s).value.0.wire < 8
  {
    var (tag, wire, n) := ScanHeader(s).value;
    ScanDataOwn(wire, s[n..]);
    var (prefix, len) := ScanData(wire, s[n..]).value;
    assert s[n..][..len] == s[n..n + len];
    VarintValueBound(s[..n]);
    Pow128Values();
    Pow128Monotone(n, 5);
  }

  lemma ScanHeaderExtends(s: seq<byte>, rest: seq<byte>)
    requires ScanHeader(s).Some?
    ensures ScanHeader(s + rest) == ScanHeader(s)
  {
    hide VarintValue, Extent;
    ExtentPrefix(s, rest, 5);
    assert (s + rest)[..Extent(s, 5)] == s[..Extent(s, 5)];
  }

  lemma ScanOneExtends(s: seq<byte>, rest: seq<byte>)
    requires ScanOne(s).Some?
    ensures ScanOne(s + rest) == ScanOne(s)
  {
    var (tag, wire, n) := ScanHeader(s).value;
    ScanHeaderExtends(s, rest);
    hide ScanHeader, ScanData;
    DropConcat(s, rest, n);
    ScanDataExtends(wire, s[n..], rest);
    var (prefix, len) := ScanData(wire, s[n..]).value;
    assert (s + rest)[n..n + len] == s[n..n + len];
  }

  function Append(a: seq<Record>, b: Option<seq<Record>>): Option<seq<Record>> {
    if b.None? then None else Some(a + b.value)
  }

  lemma AppendAssociative(a: seq<Record>, b: seq<Record>, x: Option<seq<Record>>)
    ensures Append(a, Append(b, x)) == Append(a + b, x)
  {
    if x.Some? {
      assert a + (b + x.value) == (a + b) + x.value;
    }
  }

  lemma ScanUnfold(s: seq<byte>, r: Record, used: nat, tail: seq<byte>)
    requires ScanOne(s) == Some((r, used)) && used <= |s| && s[used..] == tail
    ensures Scan(s) == Append([r], Scan(tail))
  {
  }

  lemma ScanRecordThen(r: Record, tail: seq<byte>)
    requires ValidRecord(r)
    ensures Scan(EncRecord(r) + tail) == Append([r], Scan(tail))
  {
    var s := EncRecord(r) + tail;
    RecordScans(r, tail);
    ScanUnfold(s, r, |EncRecord(r)|, tail);
  }

  lemma DropConcat<T>(a: seq<T>, b: seq<T>, n: nat)
    requires n <= |a|
    ensures (a + b)[n..] == a[n..] + b
  {
  }

  lemma ScanHeads(a: seq<byte>)
    requires a != [] && Scan(a).Some?
    ensures ScanOne(a).Some? && 0 < ScanOne(a).value.1 <= |a| && Scan(a[ScanOne(a).value.1..]).Some?
  {
    hide ScanOne;
  }

  /** The first record of a part that scans is the first record of the whole. */
  lemma ScanFirst(a: seq<byte>, b: seq<byte>)
    requires a != [] && Scan(a).Some?
    ensures ScanOne(a).Some? && 0 < ScanOne(a).value.1 <= |a| && Scan(a[ScanOne(a).value.1..]).Some?
    ensures var (r, used) := ScanOne(a).value;
            && Scan(a) == Append([r], Scan(a[used..]))
            && Scan(a + b) == Append([r], Scan(a[used..] + b))
  {
    hide ScanOne, Scan, Append;
    ScanHeads(a);
    var (r, used) := ScanOne(a).value;
    DropConcat(a, b, used);
    ScanOneExtends(a, b);
    ScanUnfold(a, r, used, a[used..]);
    ScanUnfold(a + b, r, used, a[used..] + b);
  }

  /** Scanning a concatenation concatenates the scans. */
  lemma {:induction false} ScanConcat(a: seq<byte>, b: seq<byte>)
    requires Scan(a).Some?
    ensures Scan(a + b) == Append(Scan(a).value, Scan(b))
    decreases |a|
  {
    hide ScanOne;
    if a == [] {
      assert a + b == b;
      AppendNothing(Scan(b));
    } else {
      ScanFirst(a, b);
      var (r, used) := ScanOne(a).value;
      ScanConcat(a[used..], b);
      AppendAssociative([r], Scan(a[used..]).value, Scan(b));
    }
  }

  lemma AppendNothing(x: Option<seq<Record>>)
    ensures Append([], x) == x
  {
    if x.Some? {
      assert [] + x.value == x.value;
    }
  }

  /** Scanning what was encoded gives the records back. */
  lemma {:induction false} ScanFlatten(rs: seq<Record>, rest: seq<byte>)
    requires forall r :: r in rs ==> ValidRecord(r)
    ensures Scan(Flatten(rs) + rest) == Append(rs, Scan(rest))
  {
    if rs == [] {
      assert Flatten(rs) + rest == rest;
      AppendNothing(Scan(rest));
    } else {
      var tail := Flatten(rs[1..]) + rest;
      var s := Flatten(rs) + rest;
      assert s == EncRecord(rs[0]) + tail;
      ScanRecordThen(rs[0], tail);
      ScanFlatten(rs[1..], rest);
      AppendAssociative([rs[0]], rs[1..], Scan(rest));
      assert [rs[0]] + rs[1..] == rs;
    }
  }

  lemma {:induction false} ScannedAreDelimited(s: seq<byte>)
    requires Scan(s).Some?
    ensures forall k :: 0 <= k < |Scan(s).value| ==>
              var r := Scan(s).value[k]; WellDelimited(r) && r.tag < TWO_32 && r.wire < 8
    decreases |s|
  {
    if s != [] {
      var (r, used) := ScanOne(s).value;
      ScannedIsDelimited(s);
      ScannedAreDelimited(s[used..]);
      assert Scan(s).value == [r] + Scan(s[used..]).value;
    }
  }

  /** A record with tag zero, in its shortest form, ends the scan. */
  lemma {:induction false} ZeroTagStops(rs: seq<Record>, k: nat)
    requires k < |rs| && rs[k].tag == 0
    requires forall r :: r in rs ==> r.tag < TWO_32 && r.wire < 8 && WellDelimited(r)
    ensures Scan(Flatten(rs)) == None
  {
    hide ScanHeader, Header, WellDelimited;
    var s := Flatten(rs);
    var tail := Flatten(rs[1..]);
    if rs[0].tag == 0 {
      assert s == Header(rs[0].tag, rs[0].wire) + (rs[0].data + tail);
      ZeroTagRejected(rs[0].wire, rs[0].data + tail);
    } else {
      ScanRecordThen(rs[0], tail);
      ZeroTagStops(rs[1..], k - 1);
    }
  }

  // ---- tiling

  /** The header bytes of each scanned record, as they stand in the input. */
  function Headers(s: seq<byte>): (hs: seq<seq<byte>>)
    requires Scan(s).Some?
    ensures |hs| == |Scan(s).value|
    decreases |s|
  {
    if s == [] then []
    else
      var (r, used) := ScanOne(s).value;
      [s[..used - |r.data|]] + Headers(s[used..])
  }

  function Interleave(hs: seq<seq<byte>>, rs: seq<Record>): seq<byte>
    requires |hs| == |rs|
  {
    if rs == [] then [] else hs[0] + rs[0].data + Interleave(hs[1..], rs[1..])
  }

  /** One varint of at most five bytes with tag and wire type; no first byte says tag zero in short. */
  predicate IsHeader(h: seq<byte>, r: Record) {
    Terminated(h) && |h| <= 5 && h[0] >= 8 && r.wire < 8 && VarintValue(h) == 8 * r.tag + r.wire
  }

  /** The data that the wire type calls for; a length prefix has at most five bytes. */
  predicate IsData(r: Record) {
    if r.wire == WIRE_VARINT then r.prefix == 0 && Terminated(r.data) && |r.data| <= 10
    else if r.wire == WIRE_64BIT then r.prefix == 0 && |r.data| == 8
    else if r.wire == WIRE_32BIT then r.prefix == 0 && |r.data| == 4
    else
      && r.wire == WIRE_LENGTH && r.prefix <= |r.data|
      && Terminated(r.data[..r.prefix]) && r.prefix <= 5
      && VarintValue(r.data[..r.prefix]) == |r.data| - r.prefix <= INT_MAX
  }

  lemma DataMeaning(r: Record)
    ensures IsData(r) <==> WellDelimited(r)
  {
    hide VarintValue, Terminated, Extent;
    var n := Extent(r.data, if r.wire == WIRE_VARINT then 10 else 5);
    if IsData(r) && r.wire == WIRE_VARINT {
      NotEmpty(r.data);
      ExtentOfTerminated(r.data, [], 10);
      assert r.data + [] == r.data;
    } else if IsData(r) && r.wire == WIRE_LENGTH {
      NotEmpty(r.data[..r.prefix]);
      ExtentOfTerminated(r.data[..r.prefix], r.data[r.prefix..], 5);
      assert r.data[..r.prefix] + r.data[r.prefix..] == r.data;
    } else if WellDelimited(r) {
      ExtentEnds(r.data, if r.wire == WIRE_VARINT then 10 else 5);
      assert n == |r.data| ==> r.data[..n] == r.data;
    }
  }

  lemma ExtentEnds(s: seq<byte>, max: nat)
    ensures var n := Extent(s, max); n <= max && n <= |s| && (n > 0 ==> Terminated(s[..n]))
  {
  }

  lemma NotEmpty(s: seq<byte>)
    ensures Terminated(s) ==> |s| > 0
  {
  }

  lemma HeaderReads(h: seq<byte>, r: Record, rest: seq<byte>)
    requires IsHeader(h, r)
    ensures ScanHeader(h + rest) == Some((r.tag, r.wire, |h|))
  {
    hide VarintValue, Extent, Terminated;
    NotEmpty(h);
    ExtentOfTerminated(h, rest, 5);
    assert (h + rest)[..|h|] == h;
    LowBits(h);
    ModUnique(VarintValue(h), 8, r.tag, r.wire);
    ModUnique(VarintValue(h), 8, VarintValue(h) / 8, h[0] % 8);
  }

  /** Headers and data of the records, one after the other, are the input. */
  ghost predicate Tiles(s: seq<byte>, hs: seq<seq<byte>>, rs: seq<Record>) {
    && |hs| == |rs| && Interleave(hs, rs) == s
    && forall k :: 0 <= k < |rs| ==> IsHeader(hs[k], rs[k]) && IsData(rs[k])
  }

  lemma TileFirst(h: seq<byte>, r: Record, rest: seq<byte>)
    requires IsHeader(h, r) && IsData(r)
    ensures Scan(h + r.data + rest) == Append([r], Scan(rest))
  {
    hide IsHeader, IsData, ScanHeader, ScanData;
    HeaderReads(h, r, r.data + rest);
    DataMeaning(r);
    var s := h + r.data + rest;
    assert s == h + (r.data + rest);
    assert s[|h|..] == r.data + rest;
    ScanDataExtends(r.wire, r.data, rest);
    assert s[|h|..|h| + |r.data|] == r.data && s[|h| + |r.data|..] == rest;
    ScanUnfold(s, r, |h| + |r.data|, rest);
  }

  lemma {:induction false} TilesScan(s: seq<byte>, hs: seq<seq<byte>>, rs: seq<Record>)
    requires Tiles(s, hs, rs)
    ensures Scan(s) == Some(rs)
    decreases |rs|
  {
    hide IsHeader, IsData, Scan;
    if rs == [] {
      ScanNothing();
    } else {
      var rest := Interleave(hs[1..], rs[1..]);
      TilesScan(rest, hs[1..], rs[1..]);
      TileFirst(hs[0], rs[0], rest);
      assert [rs[0]] + rs[1..] == rs;
    }
  }

  lemma ScanNothing()
    ensures Scan([]) == Some([])
  {
  }

  /**
   * The scanned records partition the input in order: a scan gives these records exactly when the
   * input is header, data, header, data, ..., each header one varint of at most five bytes with the
   * record's tag and wire type, all data delimited as the wire type says.
   */
  lemma ScanMeaning(s: seq<byte>, rs: seq<Record>)
    ensures Scan(s) == Some(rs) <==> exists hs :: Tiles(s, hs, rs)
  {
    if Scan(s) == Some(rs) {
      ScanTiles(s);
      assert Tiles(s, Headers(s), rs);
    }
    if hs :| Tiles(s, hs, rs) {
      TilesScan(s, hs, rs);
    }
  }

  lemma {:induction false} ScanTiles(s: seq<byte>)
    requires Scan(s).Some?
    ensures Interleave(Headers(s), Scan(s).value) == s
    ensures forall k :: 0 <= k < |Headers(s)| ==> IsHeader(Headers(s)[k], Scan(s).value[k]) && IsData(Scan(s).value[k])
    decreases |s|
  {
    hide IsHeader, IsData;
    if s != [] {
      var (r, used) := ScanOne(s).value;
      ScanOneParts(s);
      ScanUnfold(s, r, used, s[used..]);
      ScanTiles(s[used..]);
      var hs, rs := Headers(s), Scan(s).value;
      assert hs[1..] == Headers(s[used..]) && rs[1..] == Scan(s[used..]).value;
    }
  }

  lemma ScanOneParts(s: seq<byte>)
    requires ScanOne(s).Some?
    ensures var (r, used) := ScanOne(s).value;
            var h := s[..used - |r.data|];
            && s == h + r.data + s[used..]
            && IsHeader(h, r) && IsData(r)
  {
    hide ScanData, VarintValue, Extent, Terminated, IsData, WellDelimited;
    var (r, used) := ScanOne(s).value;
    var (tag, wire, n) := ScanHeader(s).value;
    assert used - |r.data| == n;
    LowBits(s[..n]);
    ScannedIsDelimited(s);
    DataMeaning(r);
  }

  lemma LowBits(h: seq<byte>)
    requires |h| > 0
    ensures VarintValue(h) == 8 * (VarintValue(h) / 8) + h[0] % 8
  {
    var x := VarintValue(h[1..]);
    assert VarintValue(h) == h[0] % 128 + 8 * (16 * x);
  }
}
