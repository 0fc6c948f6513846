/** The get_packed_size family: every size is the length of the bytes packing writes. */
module Sizes {
  import opened Words
  import opened Descriptors
  import opened Varints
  import opened Scalars
  import opened Wire

  // ---- lengths are uint32_t

  /** The length prefix of the record holds its length. */
  predicate Fits(r: Record) { |Payload(r)| < TWO_32 }

  predicate AllFit(rs: seq<Record>) {
    forall r :: r in rs ==> Fits(r)
  }

  lemma {:induction false} PayloadInside(rs: seq<Record>, r: Record)
    requires r in rs
    ensures |Payload(r)| <= |Flatten(rs)|
  {
    if r != rs[0] {
      PayloadInside(rs[1..], r);
    }
  }

  lemma FitsSplit(a: seq<Record>, b: seq<Record>)
    requires AllFit(a + b)
    ensures AllFit(a) && AllFit(b)
  {
    forall r | r in a ensures Fits(r) { assert r in a + b; }
    forall r | r in b ensures Fits(r) { assert r in a + b; }
  }

  lemma {:induction false} ElementFits(S: Schema, f: Field, vs: seq<Value>, i: nat)
    requires i < |vs| && AllFit(ElementRecords(S, f, vs))
    ensures Fits(ValueRecord(S, f, vs[i]))
  {
    FitsSplit([ValueRecord(S, f, vs[0])], ElementRecords(S, f, vs[1..]));
    if i > 0 {
      ElementFits(S, f, vs[1..], i - 1);
    }
  }

  lemma RecordsSplit(S: Schema, m: Msg, j: nat)
    requires m.desc < |S| && j < |S[m.desc].fields|
    ensures var f := S[m.desc].fields[j];
            RecordsFrom(S, m, j) ==
            (if f.cell < |m.cells| then FieldRecords(S, f, m.cells[f.cell]) else []) + RecordsFrom(S, m, j + 1)
  {
    hide FieldRecords;
  }

  /** The records of field i, among those of the fields from j on. */
  lemma {:induction false} FieldLengthsFit(S: Schema, m: Msg, j: nat, i: nat)
    requires m.desc < |S| && j <= i < |S[m.desc].fields| && S[m.desc].fields[i].cell < |m.cells|
    requires AllFit(RecordsFrom(S, m, j))
    ensures AllFit(FieldRecords(S, S[m.desc].fields[i], m.cells[S[m.desc].fields[i].cell]))
    decreases i - j
  {
    hide *;
    var f := S[m.desc].fields[j];
    RecordsSplit(S, m, j);
    FitsSplit(if f.cell < |m.cells| then FieldRecords(S, f, m.cells[f.cell]) else [], RecordsFrom(S, m, j + 1));
    if j < i {
      FieldLengthsFit(S, m, j + 1, i);
    }
  }

  // ---- counts and lengths are unsigned

  predicate Counted(cell: Cell) {
    cell.Many? ==> |cell.vs| < TWO_32
  }

  /** What the loops over the elements of a field, and its length prefixes, can count. */
  ghost predicate FieldFits(S: Schema, f: Field, cell: Cell) {
    AllFit(FieldRecords(S, f, cell)) && Counted(cell)
  }

  ghost predicate MessageFits(S: Schema, m: Msg) {
    AllFit(RecordsFrom(S, m, 0)) && forall c :: 0 <= c < |m.cells| ==> Counted(m.cells[c])
  }

  /** The length of a packed record, header and all, which repeated_field_pack adds up in an unsigned. */
  ghost predicate PackedShort(S: Schema, f: Field, cell: Cell) {
    f.packed ==> |Flatten(FieldRecords(S, f, cell))| < TWO_32
  }

  ghost predicate AllPackedShort(S: Schema, m: Msg) {
    var D := DescOf(S, m.desc);
    forall i :: 0 <= i < |D.fields| && D.fields[i].cell < |m.cells| ==>
      PackedShort(S, D.fields[i], m.cells[D.fields[i].cell])
  }

  lemma FieldOfFitting(S: Schema, m: Msg, i: nat)
    requires m.desc < |S| && i < |S[m.desc].fields| && S[m.desc].fields[i].cell < |m.cells| && MessageFits(S, m)
    ensures FieldFits(S, S[m.desc].fields[i], m.cells[S[m.desc].fields[i].cell])
  {
    hide AllFit, RecordsFrom, FieldRecords, Counted;
    FieldLengthsFit(S, m, 0, i);
  }

  lemma {:induction false} RecordsCount(rs: seq<Record>)
    ensures |rs| <= |Flatten(rs)|
  {
    if rs != [] {
      RecordsCount(rs[1..]);
    }
  }

  lemma {:induction false} ElementsCount(S: Schema, f: Field, vs: seq<Value>)
    ensures |ElementRecords(S, f, vs)| == |vs|
  {
    if vs != [] {
      ElementsCount(S, f, vs[1..]);
    }
  }

  lemma {:induction false} PayloadCount(S: Schema, f: Field, vs: seq<Value>)
    requires Packable(f.typ) && forall i :: 0 <= i < |vs| ==> TypedValue(S, f, vs[i])
    ensures |vs| <= |PackedPayload(f.typ, vs)|
  {
    if vs != [] {
      NumBytesLength(f.typ, vs[0].bits);
      PayloadCount(S, f, vs[1..]);
    }
  }

  /** Every element takes a byte or more. */
  lemma CountInside(S: Schema, f: Field, vs: seq<Value>)
    requires (f.packed ==> Packable(f.typ)) && forall i :: 0 <= i < |vs| ==> TypedValue(S, f, vs[i])
    ensures |vs| <= |Flatten(FieldRecords(S, f, Many(vs)))|
  {
    hide TypedValue, PackedPayload;
    if !f.packed {
      ElementsCount(S, f, vs);
      RecordsCount(ElementRecords(S, f, vs));
    } else if vs != [] {
      PayloadCount(S, f, vs);
      FlattenOne(LengthRecord(f.id, PackedPayload(f.typ, vs)));
    }
  }

  lemma {:induction false} FieldInside(S: Schema, m: Msg, j: nat, i: nat)
    requires SchemaOk(S) && TypedMsg(S, m) && m.desc < |S| && j <= i < |S[m.desc].fields|
    requires S[m.desc].fields[i].cell < |m.cells|
    ensures |Flatten(FieldRecords(S, S[m.desc].fields[i], m.cells[S[m.desc].fields[i].cell]))| <= |Flatten(RecordsFrom(S, m, j))|
    decreases i - j
  {
    hide *;
    FieldsSplit(S, m, j);
    if j < i {
      FieldInside(S, m, j + 1, i);
    }
  }

  /** The elements of a cell are those of some field's records. */
  lemma CellInside(S: Schema, m: Msg, c: nat)
    requires SchemaOk(S) && TypedMsg(S, m) && c < |m.cells| && m.cells[c].Many?
    ensures |m.cells[c].vs| <= |Flatten(RecordsFrom(S, m, 0))|
  {
    var D := S[m.desc];
    var i := D.owner[c];
    assert FieldOk(S, D, i) && TypedCell(S, D, c, m.cells[c]);
    FieldInside(S, m, 0, i);
    CountInside(S, D.fields[i], m.cells[c].vs);
  }

  /** In a short message everything is short. */
  lemma ShortFits(S: Schema, m: Msg)
    requires SchemaOk(S) && TypedMsg(S, m) && |Enc(S, m)| < TWO_32
    ensures MessageFits(S, m) && AllPackedShort(S, m)
  {
    hide Enc, Flatten, FieldRecords, RecordsFrom, SchemaOk, TypedMsg, Payload;
    DescInRange(S, m);
    EncSplit(S, m);
    forall r | r in RecordsFrom(S, m, 0)
      ensures Fits(r)
    {
      PayloadInside(RecordsFrom(S, m, 0), r);
    }
    forall c | 0 <= c < |m.cells|
      ensures Counted(m.cells[c])
    {
      if m.cells[c].Many? { CellInside(S, m, c); }
    }
    var D := DescOf(S, m.desc);
    forall i | 0 <= i < |D.fields| && D.fields[i].cell < |m.cells|
      ensures PackedShort(S, D.fields[i], m.cells[D.fields[i].cell])
    {
      FieldInside(S, m, 0, i);
    }
  }

  /** The length that is written for a value, and the lengths inside it. */
  lemma ValueFits(S: Schema, f: Field, v: Value)
    requires SchemaOk(S) && TypedValue(S, f, v) && Fits(ValueRecord(S, f, v))
    ensures v.Str? ==> |Content(f, v.str)| < TWO_32
    ensures v.Bin? ==> |Content(f, v.data)| < TWO_32
    ensures v.Sub? && v.msg.Ptr? ==>
              |Enc(S, v.msg.target)| < TWO_32 && MessageFits(S, v.msg.target) && AllPackedShort(S, v.msg.target)
  {
    hide Enc, Content, Varint, MessageFits, AllPackedShort, TypedMsg, SchemaOk;
    if v.Sub? && v.msg.Ptr? {
      ShortFits(S, v.msg.target);
    }
  }

  lemma PackedPayloadFits(S: Schema, f: Field, vs: seq<Value>)
    requires f.packed && vs != [] && AllFit(FieldRecords(S, f, Many(vs)))
    ensures Fits(LengthRecord(f.id, PackedPayload(f.typ, vs))) && |PackedPayload(f.typ, vs)| < TWO_32
  {
    assert LengthRecord(f.id, PackedPayload(f.typ, vs)) in FieldRecords(S, f, Many(vs));
  }

  // ---- sizes

  /** get_tag_size */
  function TagSize(number: nat): (n: nat)
    requires number < TWO_32
    ensures forall wire: nat :: wire < 8 ==> n == |Header(number, wire)|
  {
    HeaderLength(number);
    if number < 0x10 then 1
    else if number < 0x800 then 2
    else if number < 0x4_0000 then 3
    else if number < 0x200_0000 then 4
    else 5
  }

  lemma HeaderLength(number: nat)
    requires number < TWO_32
    ensures forall wire: nat :: wire < 8 ==>
              |Header(number, wire)| == if number < 0x10 then 1 else if number < 0x800 then 2
                                        else if number < 0x4_0000 then 3 else if number < 0x200_0000 then 4 else 5
  {
    forall wire: nat | wire < 8
      ensures |Header(number, wire)| == if number < 0x10 then 1 else if number < 0x800 then 2
                                        else if number < 0x4_0000 then 3 else if number < 0x200_0000 then 4 else 5
    {
      VarintSize(8 * number + wire);
    }
  }

  /** The thresholds at which a varint needs one more byte. */
  lemma VarintSize(v: nat)
    requires v < TWO_64
    ensures |Varint(v)| ==
            if v < 0x80 then 1 else if v < 0x4000 then 2 else if v < 0x20_0000 then 3
            else if v < 0x1000_0000 then 4 else if v < 0x8_0000_0000 then 5 else if v < 0x400_0000_0000 then 6
            else if v < 0x2_0000_0000_0000 then 7 else if v < 0x100_0000_0000_0000 then 8
            else if v < 0x8000_0000_0000_0000 then 9 else 10
  {
    Pow128Values();
    VarintLength(v, 1);
    VarintLength(v, 2);
    VarintLength(v, 3);
    VarintLength(v, 4);
    VarintLength(v, 5);
    VarintLength(v, 6);
    VarintLength(v, 7);
    VarintLength(v, 8);
    VarintLength(v, 9);
    VarintLength(v, 10);
  }

  /** uint32_size */
  function Uint32Size(v: nat): (n: nat)
    requires v < TWO_32
    ensures n == |Varint(v)|
  {
    VarintSize(v);
    if v < 0x80 then 1
    else if v < 0x4000 then 2
    else if v < 0x20_0000 then 3
    else if v < 0x1000_0000 then 4
    else 5
  }

  /** int32_size, on the bit pattern of the argument. */
  function Int32Size(v: nat): (n: nat)
    requires v < TWO_32
    ensures n == |Varint(SignExtend(v))|
  {
    VarintSize(SignExtend(v));
    if Signed(v, TWO_32) < 0 then 10
    else if v < 0x80 then 1
    else if v < 0x4000 then 2
    else if v < 0x20_0000 then 3
    else if v < 0x1000_0000 then 4
    else 5
  }

  /** uint64_size */
  function Uint64Size(v: nat): (n: nat)
    requires v < TWO_64
    ensures n == |Varint(v)|
  {
    VarintSize(v);
    var upper := v / TWO_32;
    if upper == 0 then Uint32Size(v)
    else if upper < 0x8 then 5
    else if upper < 0x400 then 6
    else if upper < 0x2_0000 then 7
    else if upper < 0x100_0000 then 8
    else if upper < 0x8000_0000 then 9
    else 10
  }

  lemma ZigzagFits(v: nat, limit: nat)
    requires v < limit && limit % 2 == 0
    ensures 0 <= Zigzag(v, limit) < limit
  {
    ZigzagRoundTrip(v, limit);
  }

  /** The per-type part of required_field_get_packed_size. */
  method NumSize(t: FieldType, bits: nat) returns (n: nat)
    requires Packable(t) && bits < NumLimit(t)
    ensures n == |NumBytes(t, bits)|
  {
    hide Varint, Zigzag, LittleEndian;
    match t {
      case SInt32 =>
        ZigzagFits(bits, TWO_32);
        n := Uint32Size(Zigzag(bits, TWO_32));
      case Enum => n := Int32Size(bits);
      case Int32 => n := Int32Size(bits);
      case UInt32 => n := Uint32Size(bits);
      case SInt64 =>
        ZigzagFits(bits, TWO_64);
        n := Uint64Size(Zigzag(bits, TWO_64));
      case Int64 => n := Uint64Size(bits);
      case UInt64 => n := Uint64Size(bits);
      case _ => n := MinSize(t);
    }
  }

  /** required_field_get_packed_size */
  method RequiredFieldSize(S: Schema, f: Field, v: Value) returns (n: nat)
    requires SchemaOk(S) && f.id < TWO_32 && TypedValue(S, f, v)
    requires Fits(ValueRecord(S, f, v))
    ensures n == |EncRecord(ValueRecord(S, f, v))|
    decreases v, 0
  {
    n := TagSize(f.id);
    ValueFits(S, f, v);
    match v {
      case Num(bits) =>
        var len := NumSize(f.typ, bits);
        n := n + len;
      case Str(s) =>
        var len := |Content(f, s)|;
        n := n + Uint32Size(len) + len;
      case Bin(len, _) => n := n + Uint32Size(len) + len;
      case Sub(m) =>
        var len := 0;
        if m.Ptr? {
          len := MessageSize(S, m.target);
        }
        n := n + Uint32Size(len) + len;
    }
  }

  lemma FlattenOne(r: Record)
    ensures Flatten([r]) == EncRecord(r)
  {
    assert Flatten([r]) == EncRecord(r) + Flatten([r][1..]);
  }

  lemma {:induction false} FlattenElement(S: Schema, f: Field, vs: seq<Value>, i: nat)
    requires i < |vs|
    ensures Flatten(ElementRecords(S, f, vs[i..])) ==
            EncRecord(ValueRecord(S, f, vs[i])) + Flatten(ElementRecords(S, f, vs[i + 1..]))
  {
    assert vs[i..][1..] == vs[i + 1..];
    var rs := ElementRecords(S, f, vs[i..]);
    assert rs[1..] == ElementRecords(S, f, vs[i + 1..]);
  }

  lemma NoElements(S: Schema, f: Field, vs: seq<Value>)
    ensures vs[0..] == vs && Flatten(ElementRecords(S, f, vs[|vs|..])) == []
  {
  }

  lemma NothingLeft(done: seq<byte>, rest: seq<byte>, all: seq<byte>)
    requires rest == [] && done + rest == all
    ensures done == all
  {
  }

  lemma PayloadElement(t: FieldType, vs: seq<Value>, i: nat)
    requires i < |vs| && vs[i].Num?
    ensures PackedPayload(t, vs[i..]) == NumBytes(t, vs[i].bits) + PackedPayload(t, vs[i + 1..])
  {
    assert vs[i..][1..] == vs[i + 1..];
  }

  /** repeated_field_get_packed_size */
  method RepeatedFieldSize(S: Schema, f: Field, vs: seq<Value>) returns (n: nat)
    requires SchemaOk(S) && f.id < TWO_32 && f.rule.Repeated? && (f.packed ==> Packable(f.typ))
    requires forall i :: 0 <= i < |vs| ==> TypedValue(S, f, vs[i])
    requires FieldFits(S, f, Many(vs))
    ensures n == |Flatten(FieldRecords(S, f, Many(vs)))|
    decreases vs, 0
  {
    if |vs| == 0 {
      return 0;
    }
    var header := TagSize(f.id);
    if f.packed {
      PackedPayloadFits(S, f, vs);
      var payload := PackedSize(S, f, vs);
      FlattenOne(LengthRecord(f.id, PackedPayload(f.typ, vs)));
      return header + Uint32Size(payload) + payload;
    }
    n := 0;
    for i := 0 to |vs|
      invariant n + |Flatten(ElementRecords(S, f, vs[i..]))| == |Flatten(ElementRecords(S, f, vs))|
    {
      FlattenElement(S, f, vs, i);
      ElementFits(S, f, vs, i);
      var len := RequiredFieldSize(S, f, vs[i]);
      n := n + len;
    }
  }

  /** The size loop over the elements of a packed field; also get_packed_payload_length. */
  method PackedSize(S: Schema, f: Field, vs: seq<Value>) returns (n: nat)
    requires Packable(f.typ) && forall i :: 0 <= i < |vs| ==> TypedValue(S, f, vs[i])
    requires |PackedPayload(f.typ, vs)| < TWO_32
    ensures n == |PackedPayload(f.typ, vs)|
  {
    n := 0;
    for i := 0 to |vs|
      invariant n + |PackedPayload(f.typ, vs[i..])| == |PackedPayload(f.typ, vs)|
    {
      PayloadElement(f.typ, vs, i);
      var len := NumSize(f.typ, vs[i].bits);
      n := n + len;
    }
  }

  lemma DescInRange(S: Schema, m: Msg)
    requires TypedMsg(S, m)
    ensures m.desc < |S|
  {
  }

  /** What the message's type gives for one of its fields. */
  lemma FieldReady(S: Schema, m: Msg, i: nat)
    requires SchemaOk(S) && TypedMsg(S, m) && i < |S[m.desc].fields|
    ensures DescOk(S, S[m.desc]) && FieldOk(S, S[m.desc], i)
    ensures S[m.desc].fields[i].cell < |m.cells|
    ensures TypedCell(S, S[m.desc], S[m.desc].fields[i].cell, m.cells[S[m.desc].fields[i].cell])
  {
    assert FieldOk(S, S[m.desc], i);
  }

  lemma FieldsSplit(S: Schema, m: Msg, i: nat)
    requires SchemaOk(S) && TypedMsg(S, m) && i < |S[m.desc].fields|
    ensures var f := S[m.desc].fields[i];
            && f.cell < |m.cells|
            && Flatten(RecordsFrom(S, m, i)) ==
               Flatten(FieldRecords(S, f, m.cells[f.cell])) + Flatten(RecordsFrom(S, m, i + 1))
  {
    var f := S[m.desc].fields[i];
    assert FieldOk(S, S[m.desc], i);
    FlattenConcat(FieldRecords(S, f, m.cells[f.cell]), RecordsFrom(S, m, i + 1));
  }

  lemma EncSplit(S: Schema, m: Msg)
    ensures Enc(S, m) == Flatten(RecordsFrom(S, m, 0)) + Flatten(UnknownRecords(m.unknown))
  {
    FlattenConcat(RecordsFrom(S, m, 0), UnknownRecords(m.unknown));
  }

  lemma FieldsEnd(S: Schema, m: Msg)
    requires m.desc < |S|
    ensures Flatten(RecordsFrom(S, m, |S[m.desc].fields|)) == []
  {
  }

  lemma UnknownsSplit(us: seq<Unknown>, i: nat)
    requires i < |us|
    ensures Flatten(UnknownRecords(us[i..])) == EncRecord(UnknownRecord(us[i])) + Flatten(UnknownRecords(us[i + 1..]))
  {
    assert us[i..][1..] == us[i + 1..];
    assert UnknownRecords(us[i..])[1..] == UnknownRecords(us[i + 1..]);
  }

  /** The value of a singular field that is written is a value of that field. */
  lemma EmittedTyped(S: Schema, D: Desc, i: nat, cell: Cell)
    requires DescOk(S, D) && i < |D.fields| && FieldOk(S, D, i)
    requires TypedCell(S, D, D.fields[i].cell, cell) && Emitted(D.fields[i], cell).Some?
    ensures TypedValue(S, D.fields[i], Emitted(D.fields[i], cell).value)
  {
    LookupField(S, D, i);
  }

  /** The first loop of protobuf_c_message_get_packed_size. */
  method KnownFieldsSize(S: Schema, m: Msg) returns (n: nat)
    requires SchemaOk(S) && TypedMsg(S, m) && MessageFits(S, m)
    ensures n == |Flatten(RecordsFrom(S, m, 0))|
    decreases m, 1
  {
    var D := S[m.desc];
    FieldsEnd(S, m);
    hide *;
    n := 0;
    for i := 0 to |D.fields|
      invariant n + |Flatten(RecordsFrom(S, m, i))| == |Flatten(RecordsFrom(S, m, 0))|
    {
      FieldsSplit(S, m, i);
      FieldReady(S, m, i);
      FieldOfFitting(S, m, i);
      var len := FieldSize(S, D, i, m.cells[D.fields[i].cell]);
      n := n + len;
    }
  }

  /** protobuf_c_message_get_packed_size */
  method MessageSize(S: Schema, m: Msg) returns (n: nat)
    requires SchemaOk(S) && TypedMsg(S, m) && MessageFits(S, m)
    ensures n == |Enc(S, m)|
    decreases m, 2
  {
    EncSplit(S, m);
    n := KnownFieldsSize(S, m);
    for i := 0 to |m.unknown|
      invariant n + |Flatten(UnknownRecords(m.unknown[i..]))| == |Enc(S, m)|
    {
      UnknownsSplit(m.unknown, i);
      n := n + TagSize(m.unknown[i].tag) + |m.unknown[i].data|;
    }
  }

  /** field_is_zeroish */
  method IsZeroish(S: Schema, f: Field, v: Value) returns (z: bool)
    requires TypedValue(S, f, v)
    ensures z == Zeroish(f, v)
  {
    match f.typ {
      case Float => z := v.bits % (TWO_32 / 2) == 0;    // both zeros equal 0
      case Double => z := v.bits % (TWO_64 / 2) == 0;
      case String =>
        var s := Content(f, v.str);
        z := v.str.Null? || s == [];                    // the first character is the NUL
      case Bytes => z := v.len == 0;                    // the first word of the struct is its length
      case Message => z := v.msg.Null?;
      case _ => z := v.bits == 0;
    }
  }

  /** The test that oneof and optional variants share for strings and messages. */
  method HasPointer(f: Field, v: Value) returns (given: bool)
    ensures given == !NullOrDefault(v)
  {
    match v {
      case Str(s) => given := s != Null && s != Default;
      case Sub(m) => given := m != Null && m != Default;
      case _ => given := true;
    }
  }

  /** The dispatch on label of a field that is not repeated, and the tests of its variants: the value to send, if any. */
  method ValueToSend(S: Schema, D: Desc, i: nat, cell: Cell) returns (e: Option<Value>)
    requires DescOk(S, D) && i < |D.fields| && FieldOk(S, D, i) && !D.fields[i].rule.Repeated?
    requires TypedCell(S, D, D.fields[i].cell, cell)
    ensures e == Emitted(D.fields[i], cell)
  {
    var f := D.fields[i];
    CellShape(S, D, i, cell);
    if f.rule.Required? {
      return Some(cell.v);
    }
    if f.oneof {
      if (if cell.Case? then cell.id else 0) != f.id {
        return None;
      }
      var given := HasPointer(f, cell.v);
      return if given then Some(cell.v) else None;
    }
    if f.rule.Optional? {
      if f.typ.Message? || f.typ.String? {
        var given := HasPointer(f, cell.v);
        return if given then Some(cell.v) else None;
      }
      return if cell.has then Some(cell.v) else None;
    }
    var zeroish := IsZeroish(S, f, cell.v);
    return if zeroish then None else Some(cell.v);
  }

  /** Label and type determine what a cell looks like. */
  lemma CellShape(S: Schema, D: Desc, i: nat, cell: Cell)
    requires DescOk(S, D) && i < |D.fields| && FieldOk(S, D, i) && TypedCell(S, D, D.fields[i].cell, cell)
    ensures var f := D.fields[i];
            && f.id > 0
            && (cell.Many? <==> f.rule.Repeated?)
            && (cell.NoCase? || cell.Case? <==> f.oneof)
            && (cell.Flagged? <==> Flaggable(f))
            && (cell.Single? || cell.Flagged? ==> TypedValue(S, f, cell.v))
  {
    assert FieldOk(S, D, D.owner[D.fields[i].cell]);
  }

  /** The dispatch on label. */
  method FieldSize(S: Schema, D: Desc, i: nat, cell: Cell) returns (n: nat)
    requires SchemaOk(S) && DescOk(S, D) && i < |D.fields| && FieldOk(S, D, i)
    requires TypedCell(S, D, D.fields[i].cell, cell)
    requires FieldFits(S, D.fields[i], cell)
    ensures n == |Flatten(FieldRecords(S, D.fields[i], cell))|
    decreases cell, 0
  {
    var f := D.fields[i];
    CellShape(S, D, i, cell);
    if f.rule.Repeated? {
      n := RepeatedFieldSize(S, f, cell.vs);
    } else {
      var e := ValueToSend(S, D, i, cell);
      if e.None? {
        return 0;
      }
      FlattenOne(ValueRecord(S, f, e.value));
      EmittedTyped(S, D, i, cell);
      n := RequiredFieldSize(S, f, e.value);
    }
  }
}
