/** The codec end to end: what the packers write, the unpacker reads. */
module EndToEnd {
  import opened Words
  import opened Descriptors
  import opened Wire
  import opened Decoding
  import opened RoundTrip
  import opened MergeLaws
  import opened Validity
  import opened Ranges
  import opened Sizes
  import opened Packing
  import opened Streaming
  import opened Merging
  import opened TwoPass
  import Unpacking

  /** Sizing, packing into a buffer of that size, and unpacking it. */
  method PackAndUnpack(S: Schema, m: Msg) returns (r: Option<Msg>)
    requires SchemaOk(S) && IndexedSchema(S) && TypedMsg(S, m) && MessageFits(S, m) && AllPackedShort(S, m)
    requires RoomFor(S[m.desc], Enc(S, m))
    ensures r == Some(m) <==> RoundTrips(S, m)
  {
    hide *;
    var size := MessageSize(S, m);
    var out := new byte[size](_ => 0);
    ghost var was := out[..];
    var n := MessagePack(S, m, out, 0);
    WholeBuffer(was, Enc(S, m));
    DescInRange(S, m);
    r := Unpacking.Unpack(S, m.desc, out[..]);
    MessageRoundTrip(S, m);
  }

  /** The same through the append buffer. */
  method StreamAndUnpack(S: Schema, m: Msg, scratch: array<byte>) returns (r: Option<Msg>)
    requires SchemaOk(S) && IndexedSchema(S) && TypedMsg(S, m) && MessageFits(S, m) && scratch.Length > 0
    requires RoomFor(S[m.desc], Enc(S, m))
    modifies scratch
    ensures r == Some(m) <==> RoundTrips(S, m)
  {
    hide SchemaOk, TypedMsg, Enc, RoundTrips, Decoding.Unpack, IndexedSchema, MessageFits, RoomFor;
    var buffer := new SimpleBuffer(scratch);
    var n := MessageToBuffer(S, m, buffer);
    NothingBefore(Enc(S, m));
    DescInRange(S, m);
    r := Unpacking.Unpack(S, m.desc, buffer.data[..buffer.len]);
    MessageRoundTrip(S, m);
  }

  /**
   * Unpacking a concatenation, or unpacking the parts and merging. When the parts unpack, so
   * does the whole, up to the capacity of the slabs; the known fields are the same exactly when all
   * cells of the parts agree.
   */
  method UnpackBothWays(S: Schema, d: nat, A: seq<byte>, B: seq<byte>) returns (whole: Option<Msg>, merged: Option<Msg>)
    requires SchemaOk(S) && IndexedSchema(S) && Mergeable(S, d) && d < |S|
    requires RoomFor(S[d], A) && RoomFor(S[d], B) && RoomFor(S[d], A + B)
    ensures var a, b := Decoding.Unpack(S, d, A), Decoding.Unpack(S, d, B);
            && whole == Decoding.Unpack(S, d, A + B)
            && (merged.Some? <==> a.Some? && b.Some?)
            && (merged.Some? ==>
                  && merged == Merge(S, a.value, b.value)
                  && (whole.Some? <==> |Scan(A).value| + |Scan(B).value| <= MAX_RECORDS)
                  && |a.value.cells| == |b.value.cells| == |S[d].owner|
                  && (forall c :: 0 <= c < |S[d].owner| ==> S[d].owner[c] < |S[d].fields|)
                  && (whole.Some? ==>
                        (whole.value.cells == merged.value.cells <==> AllAgree(S[d], a.value, b.value, Scan(B).value))))
  {
    hide SchemaOk, Mergeable, TypedMsg, Checked, AllAgree, Scan, Merge, RoomFor;
    whole := Unpacking.Unpack(S, d, A + B);
    merged := None;
    var a := Unpacking.Unpack(S, d, A);
    var b := Unpacking.Unpack(S, d, B);
    if a.Some? && b.Some? {
      UnpackGood(S, d, A);
      UnpackGood(S, d, B);
      DecodingIsHomomorphism(S, d, A, B);
      merged := MergeMessages(S, a.value, b.value);
    }
  }

  lemma WholeBuffer(was: seq<byte>, bytes: seq<byte>)
    requires |was| == |bytes|
    ensures Splice(was, 0, bytes) == bytes
  {
  }

  lemma NothingBefore(bytes: seq<byte>)
    ensures [] + bytes == bytes
  {
  }
}
