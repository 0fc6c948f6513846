/** The pack_to_buffer family, and the growing buffer it appends to. */
module Streaming {
  import opened Words
  import opened Descriptors
  import opened Varints
  import opened Scalars
  import opened Wire
  import opened Sizes
  import Packing

  /** A capacity doubled one or more times, until it first reaches what is needed. */
  ghost predicate DoubledTo(was: nat, now: nat, needed: nat) {
    exists k: nat :: now == was * Pow2(k + 1) && was * Pow2(k) < needed <= now
  }

  /** The new capacity of a buffer that is too small. */
  method DoubledUntil(alloced: nat, needed: nat) returns (n: nat)
    requires 0 < alloced < needed
    ensures n >= needed && DoubledTo(alloced, n, needed)
  {
    n := alloced * 2;
    ghost var k: nat := 0;
    assert alloced * Pow2(0) == alloced;
    while n < needed
      invariant n > 0 && n == alloced * Pow2(k + 1) && alloced * Pow2(k) < needed
    {
      DoubleProduct(alloced, Pow2(k + 1));
      n := n + n;
      k := k + 1;
    }
  }

  /** ProtobufCBufferSimple */
  class SimpleBuffer {
    var data: array<byte>
    var len: nat
    var mustFreeData: bool

    ghost var Contents: seq<byte>   // the bytes appended so far

    ghost predicate Valid()
      reads this, data
    {
      len <= data.Length && data.Length > 0 && Contents == data[..len]
    }

    constructor (scratch: array<byte>)
      requires scratch.Length > 0
      ensures Valid() && Contents == [] && data == scratch && !mustFreeData
    {
      data, len, mustFreeData, Contents := scratch, 0, false, [];
    }

    /** protobuf_c_buffer_simple_append: capacity doubles until the bytes fit, old content is kept. */
    method Append(bytes: seq<byte>)
      requires Valid()
      modifies this, data
      ensures Valid() && Contents == old(Contents) + bytes
      ensures data == old(data) || (fresh(data) && mustFreeData)
      ensures data == old(data) ==> mustFreeData == old(mustFreeData)
      ensures data == old(data) <==> old(len) + |bytes| <= old(data.Length)
      ensures data != old(data) ==> DoubledTo(old(data.Length), data.Length, old(len) + |bytes|)
    {
      hide DoubledTo;
      var newLen := len + |bytes|;
      if newLen > data.Length {
        var newAlloced := DoubledUntil(data.Length, newLen);
        var newData := new byte[newAlloced];
        forall i | 0 <= i < len { newData[i] := data[i]; }
        mustFreeData := true;
        data := newData;
        assert data[..len] == old(data[..len]);
      }
      ghost var was := data[..];
      assert was[..len] == Contents;
      Packing.CopyIn(bytes, data, len);
      len := newLen;
      Contents := Contents + bytes;
    }
  }

  /** Completes the header in the scratch area with a length, and appends it. */
  method PrefixToBuffer(len: nat, scratch: array<byte>, at: nat, buffer: SimpleBuffer) returns (rv: nat)
    requires len < TWO_32 && buffer.Valid() && scratch != buffer.data
    requires at <= 5 && scratch.Length == 20
    modifies scratch, buffer, buffer.data
    ensures buffer.Valid() && (buffer.data == old(buffer.data) || fresh(buffer.data))
    ensures buffer.Contents == old(buffer.Contents) + old(scratch[..at]) + Varint(len)
    ensures rv == at + |Varint(len)|
  {
    VarintSize(len);
    ghost var was := scratch[..];
    var n := Packing.Uint32Pack(len, scratch, at);
    rv := at + n;
    assert scratch[..rv] == scratch[..][..rv] == was[..at] + Varint(len);
    buffer.Append(scratch[..rv]);
  }

  /** The STRING and BYTES cases: header, then the content as a second append. */
  method ContentToBuffer(content: seq<byte>, scratch: array<byte>, at: nat, buffer: SimpleBuffer) returns (rv: nat)
    requires |content| < TWO_32 && buffer.Valid() && scratch != buffer.data
    requires at <= 5 && scratch.Length == 20
    modifies scratch, buffer, buffer.data
    ensures buffer.Valid() && (buffer.data == old(buffer.data) || fresh(buffer.data))
    ensures buffer.Contents == old(buffer.Contents) + (old(scratch[..at]) + Prefixed(content))
    ensures rv == at + |Prefixed(content)|
  {
    rv := PrefixToBuffer(|content|, scratch, at, buffer);
    buffer.Append(content);
    rv := rv + |content|;
  }

  /** The scratch area starting with a tag. */
  method ScratchTag(tag: nat, wire: nat) returns (scratch: array<byte>, rv: nat)
    requires tag < TWO_32 && wire < 8
    ensures fresh(scratch) && scratch.Length == 20
    ensures rv == |Header(tag, wire)| <= 5 && scratch[..rv] == Header(tag, wire)
  {
    scratch := new byte[20];
    var size := TagSize(tag);
    ghost var was := scratch[..];
    rv := Packing.TagPack(tag, wire, scratch, 0);
    SpliceRead(was, 0, Header(tag, wire));
    assert scratch[..rv] == scratch[..][0..0 + rv];
  }

  /** The numeric cases: what stands in the scratch area and the value go out in one append. */
  method NumToBuffer(t: FieldType, bits: nat, scratch: array<byte>, at: nat, buffer: SimpleBuffer) returns (rv: nat)
    requires Packable(t) && bits < NumLimit(t) && buffer.Valid() && scratch != buffer.data
    requires at <= 5 && scratch.Length == 20
    modifies scratch, buffer, buffer.data
    ensures buffer.Valid() && (buffer.data == old(buffer.data) || fresh(buffer.data))
    ensures buffer.Contents == old(buffer.Contents) + (old(scratch[..at]) + NumBytes(t, bits))
    ensures at == 0 ==> buffer.Contents == old(buffer.Contents) + NumBytes(t, bits)
    ensures rv == at + |NumBytes(t, bits)|
  {
    NumBytesShort(t, bits);
    ghost var was := scratch[..];
    var n := Packing.NumPack(t, bits, scratch, at);
    rv := at + n;
    assert scratch[..rv] == scratch[..][..rv] == was[..at] + NumBytes(t, bits);
    buffer.Append(scratch[..rv]);
    if at == 0 {
      assert was[..at] + NumBytes(t, bits) == NumBytes(t, bits);
    }
  }

  lemma NumBytesShort(t: FieldType, bits: nat)
    requires Packable(t) && bits < NumLimit(t)
    ensures |NumBytes(t, bits)| <= 10
  {
    NumBytesLength(t, bits);
  }

  lemma NumWireSmall(t: FieldType)
    ensures NumWire(t) < 8
  {
  }

  /** The bytes of a record, by kind of value, and what is known of the value. */
  lemma ValueBytes(S: Schema, f: Field, v: Value)
    requires TypedValue(S, f, v)
    ensures var bytes := EncRecord(ValueRecord(S, f, v));
            match v
            case Num(bits) =>
              Packable(f.typ) && bits < NumLimit(f.typ) && bytes == Header(f.id, NumWire(f.typ)) + NumBytes(f.typ, bits)
            case Str(s) => bytes == Header(f.id, WIRE_LENGTH) + Prefixed(Content(f, s))
            case Bin(_, data) => bytes == Header(f.id, WIRE_LENGTH) + Prefixed(Content(f, data))
            case Sub(m) =>
              && (m.Ptr? ==> TypedMsg(S, m.target))
              && bytes == Header(f.id, WIRE_LENGTH) + Prefixed(if m.Ptr? then Enc(S, m.target) else [])
  {
    hide Header, Prefixed, NumBytes, NumWire, Content, Enc;
  }

  /** Header, length and body, appended one after the other. */
  lemma PrefixedConcat(header: seq<byte>, body: seq<byte>)
    ensures header + Prefixed(body) == header + Varint(|body|) + body
    ensures |Prefixed(body)| == |Varint(|body|)| + |body|
  {
  }

  /** required_field_pack_to_buffer */
  method RequiredFieldToBuffer(S: Schema, f: Field, v: Value, buffer: SimpleBuffer) returns (rv: nat)
    requires SchemaOk(S) && f.id < TWO_32 && TypedValue(S, f, v)
    requires Fits(ValueRecord(S, f, v)) && buffer.Valid()
    modifies buffer, buffer.data
    ensures buffer.Valid() && (buffer.data == old(buffer.data) || fresh(buffer.data))
    ensures buffer.Contents == old(buffer.Contents) + EncRecord(ValueRecord(S, f, v))
    ensures rv == |EncRecord(ValueRecord(S, f, v))|
    decreases v, 1
  {
    ValueBytes(S, f, v);
    ValueFits(S, f, v);
    NumWireSmall(f.typ);
    hide *;
    var wire := if v.Num? then NumWire(f.typ) else WIRE_LENGTH;
    var scratch, t := ScratchTag(f.id, wire);
    match v {
      case Num(bits) => rv := NumToBuffer(f.typ, bits, scratch, t, buffer);
      case Str(s) => rv := ContentToBuffer(Content(f, s), scratch, t, buffer);
      case Bin(_, data) => rv := ContentToBuffer(Content(f, data), scratch, t, buffer);
      case Sub(m) =>
        if m.Ptr? {
          var len := MessageSize(S, m.target);
          PrefixedConcat(Header(f.id, wire), Enc(S, m.target));
          Associate(buffer.Contents, Header(f.id, wire), Varint(len));
          Associate(buffer.Contents, Header(f.id, wire) + Varint(len), Enc(S, m.target));
          rv := PrefixToBuffer(len, scratch, t, buffer);
          var n := MessageToBuffer(S, m.target, buffer);
          rv := rv + len;
        } else {
          PrefixedConcat(Header(f.id, wire), []);
          Associate(buffer.Contents, Header(f.id, wire), Varint(0));
          rv := PrefixToBuffer(0, scratch, t, buffer);
        }
    }
  }

  /** pack_buffer_packed_payload */
  method PayloadToBuffer(S: Schema, f: Field, vs: seq<Value>, buffer: SimpleBuffer) returns (rv: nat)
    requires Packable(f.typ) && forall i :: 0 <= i < |vs| ==> TypedValue(S, f, vs[i])
    requires |PackedPayload(f.typ, vs)| < TWO_32 && buffer.Valid()
    modifies buffer, buffer.data
    ensures buffer.Valid() && (buffer.data == old(buffer.data) || fresh(buffer.data))
    ensures buffer.Contents == old(buffer.Contents) + PackedPayload(f.typ, vs)
    ensures rv == |PackedPayload(f.typ, vs)|
  {
    var scratch := new byte[20];
    ghost var target := buffer.Contents + PackedPayload(f.typ, vs);
    rv := 0;
    assert vs[0..] == vs;
    for i := 0 to |vs|
      invariant rv + |PackedPayload(f.typ, vs[i..])| == |PackedPayload(f.typ, vs)|
      invariant buffer.Valid() && (buffer.data == old(buffer.data) || fresh(buffer.data)) && scratch != buffer.data
      invariant buffer.Contents + PackedPayload(f.typ, vs[i..]) == target
    {
      PayloadElement(f.typ, vs, i);
      Associate(buffer.Contents, NumBytes(f.typ, vs[i].bits), PackedPayload(f.typ, vs[i + 1..]));
      var n := NumToBuffer(f.typ, vs[i].bits, scratch, 0, buffer);
      rv := rv + n;
    }
  }

  /** repeated_field_pack_to_buffer, packed. */
  method PackedToBuffer(S: Schema, f: Field, vs: seq<Value>, buffer: SimpleBuffer) returns (rv: nat)
    requires Packable(f.typ) && f.id < TWO_32 && forall i :: 0 <= i < |vs| ==> TypedValue(S, f, vs[i])
    requires |PackedPayload(f.typ, vs)| < TWO_32 && buffer.Valid()
    modifies buffer, buffer.data
    ensures buffer.Valid() && (buffer.data == old(buffer.data) || fresh(buffer.data))
    ensures var r := LengthRecord(f.id, PackedPayload(f.typ, vs));
            buffer.Contents == old(buffer.Contents) + EncRecord(r) && rv == |EncRecord(r)|
  {
    var scratch, t := ScratchTag(f.id, WIRE_LENGTH);
    var payloadLen := PackedSize(S, f, vs);
    ghost var start, prefix := buffer.Contents, Varint(payloadLen);
    Associate(start, Header(f.id, WIRE_LENGTH), prefix);
    Associate(start, Header(f.id, WIRE_LENGTH) + prefix, PackedPayload(f.typ, vs));
    Associate(Header(f.id, WIRE_LENGTH), prefix, PackedPayload(f.typ, vs));
    rv := PrefixToBuffer(payloadLen, scratch, t, buffer);
    var tmp := PayloadToBuffer(S, f, vs, buffer);
    assert tmp == payloadLen;   // the source's own assertion
    rv := rv + payloadLen;
  }

  // ---- the returned length

  /** What repeated_field_pack_to_buffer returns is cut to 32 bits where the field is not packed. */
  function FieldReturned(S: Schema, f: Field, cell: Cell): nat {
    var n := |Flatten(FieldRecords(S, f, cell))|;
    if cell.Many? && !f.packed then Cut(n) else n
  }

  /** As an unsigned holds it. */
  function Cut(n: nat): nat {
    n % TWO_32
  }

  function ReturnedFrom(S: Schema, m: Msg, i: nat): nat
    decreases |DescOf(S, m.desc).fields| - i
  {
    var D := DescOf(S, m.desc);
    if i >= |D.fields| then 0
    else (if D.fields[i].cell < |m.cells| then FieldReturned(S, D.fields[i], m.cells[D.fields[i].cell]) else 0)
         + ReturnedFrom(S, m, i + 1)
  }

  /** The records of field i, if it is repeated and not packed, are shorter than 2^32 in all. */
  predicate UnpackedShort(S: Schema, m: Msg, i: nat)
    requires i < |DescOf(S, m.desc).fields|
  {
    var f := DescOf(S, m.desc).fields[i];
    f.cell < |m.cells| && m.cells[f.cell].Many? && !f.packed ==> |Flatten(FieldRecords(S, f, m.cells[f.cell]))| < TWO_32
  }

  /** What is returned for the fields is the length of their records if and only if none was cut. */
  lemma {:induction false} ReturnedExact(S: Schema, m: Msg, i: nat)
    requires SchemaOk(S) && TypedMsg(S, m) && m.desc < |S| && i <= |S[m.desc].fields|
    ensures ReturnedFrom(S, m, i) <= |Flatten(RecordsFrom(S, m, i))|
    ensures ReturnedFrom(S, m, i) == |Flatten(RecordsFrom(S, m, i))| <==>
              forall j :: i <= j < |DescOf(S, m.desc).fields| ==> UnpackedShort(S, m, j)
    decreases |S[m.desc].fields| - i
  {
    hide TypedMsg, SchemaOk, FieldRecords, RecordsFrom, Flatten;
    if i < |S[m.desc].fields| {
      FieldsSplit(S, m, i);
      ReturnedExact(S, m, i + 1);
      var n := |Flatten(FieldRecords(S, S[m.desc].fields[i], m.cells[S[m.desc].fields[i].cell]))|;
      CutLength(n);
      assert UnpackedShort(S, m, i) <==> FieldReturned(S, S[m.desc].fields[i], m.cells[S[m.desc].fields[i].cell]) == n;
    } else {
      FieldsEnd(S, m);
    }
  }

  lemma CutLength(n: nat)
    ensures Cut(n) <= n && (Cut(n) == n <==> n < TWO_32)
  {
  }

  /** One element of an unpacked repeated field. */
  method NextElementToBuffer(S: Schema, f: Field, vs: seq<Value>, i: nat, buffer: SimpleBuffer)
    returns (rv: nat, ghost bytes: seq<byte>)
    requires SchemaOk(S) && f.id < TWO_32 && i < |vs| && TypedValue(S, f, vs[i])
    requires AllFit(ElementRecords(S, f, vs)) && buffer.Valid()
    modifies buffer, buffer.data
    ensures buffer.Valid() && (buffer.data == old(buffer.data) || fresh(buffer.data))
    ensures ElementsFrom(S, f, vs, i) == bytes + ElementsFrom(S, f, vs, i + 1) && rv == |bytes|
    ensures buffer.Contents == old(buffer.Contents) + bytes
    decreases vs, 0
  {
    FlattenElement(S, f, vs, i);
    ElementFits(S, f, vs, i);
    hide AllFit, ElementRecords, SchemaOk, TypedValue, ValueRecord, Fits;
    bytes := EncRecord(ValueRecord(S, f, vs[i]));
    rv := RequiredFieldToBuffer(S, f, vs[i], buffer);
  }

  /** The bytes of the elements from the i-th on. */
  ghost function ElementsFrom(S: Schema, f: Field, vs: seq<Value>, i: nat): seq<byte>
    requires i <= |vs|
  {
    Flatten(ElementRecords(S, f, vs[i..]))
  }

  lemma ElementsFromEnds(S: Schema, f: Field, vs: seq<Value>)
    ensures ElementsFrom(S, f, vs, 0) == Flatten(ElementRecords(S, f, vs)) && ElementsFrom(S, f, vs, |vs|) == []
  {
    NoElements(S, f, vs);
  }

  /** repeated_field_pack_to_buffer, one record per element; the sum of lengths is unsigned. */
  method ElementsToBuffer(S: Schema, f: Field, vs: seq<Value>, buffer: SimpleBuffer) returns (rv: nat)
    requires SchemaOk(S) && f.id < TWO_32
    requires forall i :: 0 <= i < |vs| ==> TypedValue(S, f, vs[i])
    requires AllFit(ElementRecords(S, f, vs)) && |vs| < TWO_32 && buffer.Valid()
    modifies buffer, buffer.data
    ensures buffer.Valid() && (buffer.data == old(buffer.data) || fresh(buffer.data))
    ensures buffer.Contents == old(buffer.Contents) + Flatten(ElementRecords(S, f, vs))
    ensures rv == Cut(|Flatten(ElementRecords(S, f, vs))|)
    decreases vs, 1
  {
    rv := 0;
    ElementsFromEnds(S, f, vs);
    CutLength(0);
    hide *;
    ghost var start, all := buffer.Contents, ElementsFrom(S, f, vs, 0);
    ghost var done: seq<byte> := [];
    for i := 0 to |vs|
      invariant rv == Cut(|done|) && done + ElementsFrom(S, f, vs, i) == all
      invariant buffer.Valid() && (buffer.data == old(buffer.data) || fresh(buffer.data))
      invariant buffer.Contents == start + done
    {
      var n;
      ghost var bytes;
      n, bytes := NextElementToBuffer(S, f, vs, i, buffer);
      PieceDone(all, done, bytes, ElementsFrom(S, f, vs, i + 1));
      Associate(start, done, bytes);
      AddCut(|done|, n);
      done := done + bytes;
      rv := Cut(rv + n);
    }
    NothingLeft(done, ElementsFrom(S, f, vs, |vs|), all);
  }

  lemma AddCut(a: nat, b: nat)
    ensures Cut(Cut(a) + b) == Cut(a + b)
  {
    var x := a % 0x1_0000_0000 + b;
    ModUnique(a + b, 0x1_0000_0000, a / 0x1_0000_0000 + x / 0x1_0000_0000, x % 0x1_0000_0000);
  }

  /** The dispatch on label. */
  method FieldToBuffer(S: Schema, D: Desc, i: nat, cell: Cell, buffer: SimpleBuffer) returns (rv: nat)
    requires SchemaOk(S) && DescOk(S, D) && i < |D.fields| && FieldOk(S, D, i)
    requires TypedCell(S, D, D.fields[i].cell, cell)
    requires FieldFits(S, D.fields[i], cell) && buffer.Valid()
    modifies buffer, buffer.data
    ensures buffer.Valid() && (buffer.data == old(buffer.data) || fresh(buffer.data))
    ensures buffer.Contents == old(buffer.Contents) + Flatten(FieldRecords(S, D.fields[i], cell))
    ensures rv == FieldReturned(S, D.fields[i], cell)
    decreases cell, 0
  {
    var f := D.fields[i];
    CellShape(S, D, i, cell);
    if f.rule.Repeated? {
      if |cell.vs| == 0 {
        rv := 0;
      } else if f.packed {
        FlattenOne(LengthRecord(f.id, PackedPayload(f.typ, cell.vs)));
        PackedPayloadFits(S, f, cell.vs);
        rv := PackedToBuffer(S, f, cell.vs, buffer);
      } else {
        rv := ElementsToBuffer(S, f, cell.vs, buffer);
      }
    } else {
      var e := ValueToSend(S, D, i, cell);
      if e.None? {
        return 0;
      }
      FlattenOne(ValueRecord(S, f, e.value));
      EmittedTyped(S, D, i, cell);
      rv := RequiredFieldToBuffer(S, f, e.value, buffer);
    }
  }

  /** unknown_field_pack_to_buffer */
  method UnknownFieldToBuffer(u: Unknown, buffer: SimpleBuffer) returns (rv: nat)
    requires TypedUnknown(u) && buffer.Valid()
    modifies buffer, buffer.data
    ensures buffer.Valid() && (buffer.data == old(buffer.data) || fresh(buffer.data))
    ensures buffer.Contents == old(buffer.Contents) + EncRecord(UnknownRecord(u))
    ensures rv == |EncRecord(UnknownRecord(u))|
  {
    var header, t := ScratchTag(u.tag, u.wire);
    buffer.Append(header[..t]);
    buffer.Append(u.data);
    rv := t + |u.data|;
  }

  method UnknownFieldsToBuffer(us: seq<Unknown>, buffer: SimpleBuffer) returns (rv: nat)
    requires (forall i :: 0 <= i < |us| ==> TypedUnknown(us[i])) && buffer.Valid()
    modifies buffer, buffer.data
    ensures buffer.Valid() && (buffer.data == old(buffer.data) || fresh(buffer.data))
    ensures buffer.Contents == old(buffer.Contents) + Flatten(UnknownRecords(us))
    ensures rv == |Flatten(UnknownRecords(us))|
  {
    rv := 0;
    ghost var all := Flatten(UnknownRecords(us));
    ghost var start := buffer.Contents;
    ghost var done: seq<byte> := [];
    for i := 0 to |us|
      invariant |done| == rv && done + Flatten(UnknownRecords(us[i..])) == all
      invariant buffer.Valid() && (buffer.data == old(buffer.data) || fresh(buffer.data))
      invariant buffer.Contents == start + done
    {
      UnknownsSplit(us, i);
      ghost var bytes := EncRecord(UnknownRecord(us[i]));
      PieceDone(all, done, bytes, Flatten(UnknownRecords(us[i + 1..])));
      var n := UnknownFieldToBuffer(us[i], buffer);
      Associate(start, done, bytes);
      done := done + bytes;
      rv := rv + n;
    }
  }

  /** One turn of the first loop of protobuf_c_message_pack_to_buffer. */
  method NextFieldToBuffer(S: Schema, m: Msg, i: nat, buffer: SimpleBuffer) returns (rv: nat, ghost bytes: seq<byte>)
    requires SchemaOk(S) && TypedMsg(S, m) && MessageFits(S, m) && i < |S[m.desc].fields| && buffer.Valid()
    modifies buffer, buffer.data
    ensures buffer.Valid() && (buffer.data == old(buffer.data) || fresh(buffer.data))
    ensures Flatten(RecordsFrom(S, m, i)) == bytes + Flatten(RecordsFrom(S, m, i + 1))
    ensures buffer.Contents == old(buffer.Contents) + bytes
    ensures rv + ReturnedFrom(S, m, i + 1) == ReturnedFrom(S, m, i)
    decreases m, 0
  {
    DescInRange(S, m);
    ReturnedStep(S, m, i);
    hide *;
    FieldsSplit(S, m, i);
    FieldReady(S, m, i);
    FieldOfFitting(S, m, i);
    var f := S[m.desc].fields[i];
    bytes := Flatten(FieldRecords(S, f, m.cells[f.cell]));
    rv := FieldToBuffer(S, S[m.desc], i, m.cells[f.cell], buffer);
  }

  lemma ReturnedStep(S: Schema, m: Msg, i: nat)
    requires m.desc < |S|
    ensures i < |S[m.desc].fields| && S[m.desc].fields[i].cell < |m.cells| ==>
              ReturnedFrom(S, m, i) ==
              FieldReturned(S, S[m.desc].fields[i], m.cells[S[m.desc].fields[i].cell]) + ReturnedFrom(S, m, i + 1)
    ensures ReturnedFrom(S, m, |S[m.desc].fields|) == 0
  {
  }

  /** The first loop of protobuf_c_message_pack_to_buffer. */
  method KnownFieldsToBuffer(S: Schema, m: Msg, buffer: SimpleBuffer) returns (rv: nat)
    requires SchemaOk(S) && TypedMsg(S, m) && MessageFits(S, m) && buffer.Valid()
    modifies buffer, buffer.data
    ensures buffer.Valid() && (buffer.data == old(buffer.data) || fresh(buffer.data))
    ensures buffer.Contents == old(buffer.Contents) + Flatten(RecordsFrom(S, m, 0))
    ensures rv == ReturnedFrom(S, m, 0)
    decreases m, 1
  {
    DescInRange(S, m);
    FieldsEnd(S, m);
    ReturnedStep(S, m, 0);
    hide *;
    ghost var start, known := buffer.Contents, Flatten(RecordsFrom(S, m, 0));
    ghost var done: seq<byte> := [];
    rv := 0;
    for i := 0 to |S[m.desc].fields|
      invariant done + Flatten(RecordsFrom(S, m, i)) == known && rv + ReturnedFrom(S, m, i) == ReturnedFrom(S, m, 0)
      invariant buffer.Valid() && (buffer.data == old(buffer.data) || fresh(buffer.data))
      invariant buffer.Contents == start + done
    {
      var n;
      ghost var bytes;
      n, bytes := NextFieldToBuffer(S, m, i, buffer);
      PieceDone(known, done, bytes, Flatten(RecordsFrom(S, m, i + 1)));
      Associate(start, done, bytes);
      done := done + bytes;
      rv := rv + n;
    }
    NothingLeft(done, Flatten(RecordsFrom(S, m, |S[m.desc].fields|)), known);
  }

  /**
   * protobuf_c_message_pack_to_buffer: what is appended is exactly what
   * protobuf_c_message_pack writes. The same length is returned if and only if no field that
   * is repeated and not packed takes 2^32 bytes or more.
   */
  method MessageToBuffer(S: Schema, m: Msg, buffer: SimpleBuffer) returns (rv: nat)
    requires SchemaOk(S) && TypedMsg(S, m) && MessageFits(S, m) && buffer.Valid()
    modifies buffer, buffer.data
    ensures buffer.Valid() && (buffer.data == old(buffer.data) || fresh(buffer.data))
    ensures buffer.Contents == old(buffer.Contents) + Enc(S, m)
    ensures rv == ReturnedFrom(S, m, 0) + |Flatten(UnknownRecords(m.unknown))|
    ensures rv == |Enc(S, m)| <==> forall i :: 0 <= i < |DescOf(S, m.desc).fields| ==> UnpackedShort(S, m, i)
    decreases m, 2
  {
    DescInRange(S, m);
    EncSplit(S, m);
    ReturnedExact(S, m, 0);
    assert forall i :: 0 <= i < |m.unknown| ==> TypedUnknown(m.unknown[i]);
    hide *;
    Associate(buffer.Contents, Flatten(RecordsFrom(S, m, 0)), Flatten(UnknownRecords(m.unknown)));
    rv := KnownFieldsToBuffer(S, m, buffer);
    var n := UnknownFieldsToBuffer(m.unknown, buffer);
    rv := rv + n;
  }

  // ---- a message whose returned length is cut: two strings of 2^31 bytes

  const STRINGS: Field := Field(1, Repeated, String, false, false, 0, 0, None, None)
  const TEXTS: Schema := [Desc([STRINGS], [0], [IntRange(1, 0), IntRange(0, 1)])]

  function Letters(n: nat): (s: seq<byte>)
    ensures |s| == n && NulFree(s)
  {
    seq(n, _ => 65)
  }

  function Twice(v: Value): Msg {
    Msg(0, [Many([v, v])], [])
  }

  lemma TextsOk()
    ensures SchemaOk(TEXTS)
  {
    assert FieldOk(TEXTS, TEXTS[0], 0);
    assert DescOk(TEXTS, TEXTS[0]);
  }

  lemma TwiceTyped(s: seq<byte>)
    requires NulFree(s)
    ensures TypedMsg(TEXTS, Twice(Str(Ptr(s))))
  {
    var v, m := Str(Ptr(s)), Twice(Str(Ptr(s)));
    assert TypedValue(TEXTS, STRINGS, v);
    assert TypedCell(TEXTS, TEXTS[0], 0, m.cells[0]);
  }

  lemma TwiceRecords(s: seq<byte>)
    ensures var r := LengthRecord(1, s);
            && FieldRecords(TEXTS, STRINGS, Many([Str(Ptr(s)), Str(Ptr(s))])) == [r, r]
            && RecordsFrom(TEXTS, Twice(Str(Ptr(s))), 0) == [r, r]
            && |Flatten([r, r])| == 2 * |EncRecord(r)|
  {
    var v, m := Str(Ptr(s)), Twice(Str(Ptr(s)));
    var r := LengthRecord(1, s);
    hide LengthRecord, EncRecord;
    assert ValueRecord(TEXTS, STRINGS, v) == r;
    assert [v, v][1..] == [v] && [v][1..] == [];
    assert ElementRecords(TEXTS, STRINGS, [v]) == [r];
    assert ElementRecords(TEXTS, STRINGS, [v, v]) == [r] + [r];
    assert RecordsFrom(TEXTS, m, 1) == [];
    assert RecordsFrom(TEXTS, m, 0) == [r, r] + [];
    FlattenConcat([r], [r]);
    FlattenOne(r);
    assert [r] + [r] == [r, r];
  }

  lemma TextLength(s: seq<byte>)
    requires |s| == 0x8000_0000
    ensures |EncRecord(LengthRecord(1, s))| == 0x8000_0006 && Payload(LengthRecord(1, s)) == s
  {
    VarintSize(0x8000_0000);
    VarintSize(10);
  }

  /** Everything fits, but the length returned falls short by 2^32. */
  lemma ReturnedLengthCut()
    ensures var m := Twice(Str(Ptr(Letters(0x8000_0000))));
            && SchemaOk(TEXTS) && TypedMsg(TEXTS, m) && MessageFits(TEXTS, m)
            && ReturnedFrom(TEXTS, m, 0) + |Flatten(UnknownRecords(m.unknown))| == |Enc(TEXTS, m)| - TWO_32
  {
    var s := Letters(0x8000_0000);
    var m, r := Twice(Str(Ptr(s))), LengthRecord(1, s);
    TextsOk();
    TwiceTyped(s);
    TwiceRecords(s);
    TextLength(s);
    EncSplit(TEXTS, m);
    ReturnedStep(TEXTS, m, 0);
    hide Letters, LengthRecord, FieldRecords, RecordsFrom, SchemaOk, TypedMsg, Enc;
    assert [r, r][0] == r && forall x :: x in [r, r] ==> x == r;
    assert TEXTS[0].fields[0] == STRINGS;
  }
}
