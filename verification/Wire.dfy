/**
 * The byte-level format: a message is the concatenation of records, each a tag
 * followed by its data (Protocol Buffers encoding, sections "Message Structure"
 * and "Packed Repeated Fields").
 */
module Wire {
  import opened Words
  import opened Descriptors
  import opened Varints
  import opened Scalars

  /** `prefix` is the length of the length prefix inside `data`, 0 if it has none. */
  datatype Record = Record(tag: nat, wire: nat, prefix: nat, data: seq<byte>)

  function Payload(r: Record): (s: seq<byte>)
    ensures |s| <= |r.data|
  {
    if r.prefix <= |r.data| then r.data[r.prefix..] else []
  }

  function Header(tag: nat, wire: nat): (s: seq<byte>)
    ensures |s| >= 1
  {
    Varint(8 * tag + wire)
  }

  function EncRecord(r: Record): (s: seq<byte>)
    ensures |s| > |r.data|
  {
    Header(r.tag, r.wire) + r.data
  }

  function Flatten(rs: seq<Record>): seq<byte> {
    if rs == [] then [] else EncRecord(rs[0]) + Flatten(rs[1..])
  }

  lemma {:induction false} FlattenConcat(a: seq<Record>, b: seq<Record>)
    ensures Flatten(a + b) == Flatten(a) + Flatten(b)
  {
    if a == [] {
      assert a + b == b;
    } else {
      assert (a + b)[1..] == a[1..] + b;
      FlattenConcat(a[1..], b);
    }
  }

  function Prefixed(content: seq<byte>): seq<byte> {
    Varint(|content|) + content
  }

  function LengthRecord(tag: nat, content: seq<byte>): Record {
    Record(tag, WIRE_LENGTH, |Varint(|content|)|, Prefixed(content))
  }

  // ---- which fields are written

  /** field_is_zeroish; both floating-point zeros compare equal to 0. */
  predicate Zeroish(f: Field, v: Value) {
    match v
    case Num(bits) =>
      if f.typ.Float? then bits % (TWO_32 / 2) == 0
      else if f.typ.Double? then bits % (TWO_64 / 2) == 0
      else bits == 0
    case Str(s) => Content(f, s) == []
    case Bin(len, _) => len == 0
    case Sub(m) => m.Null?
  }

  predicate NullOrDefault(v: Value) {
    match v
    case Str(s) => !s.Ptr?
    case Sub(m) => !m.Ptr?
    case _ => false
  }

  /** The value a singular field contributes, if it is written at all. */
  function Emitted(f: Field, cell: Cell): (r: Option<Value>)
    ensures r.Some? ==> r.value < cell
  {
    match cell
    case Single(v) =>
      if f.rule.Required? then Some(v)
      else if f.rule.Optional? then (if NullOrDefault(v) then None else Some(v))
      else (if Zeroish(f, v) then None else Some(v))
    case Flagged(has, v) => if has then Some(v) else None
    case Case(id, v) => if id != f.id || NullOrDefault(v) then None else Some(v)
    case _ => None
  }

  // ---- encoding

  function PackedPayload(t: FieldType, vs: seq<Value>): seq<byte> {
    if vs == [] then []
    else (if vs[0].Num? then NumBytes(t, vs[0].bits) else []) + PackedPayload(t, vs[1..])
  }

  function ValueRecord(S: Schema, f: Field, v: Value): (r: Record)
    ensures r.tag == f.id
    decreases v, 0
  {
    match v
    case Num(bits) => Record(f.id, NumWire(f.typ), 0, NumBytes(f.typ, bits))
    case Str(s) => LengthRecord(f.id, Content(f, s))
    case Bin(_, data) => LengthRecord(f.id, Content(f, data))
    case Sub(m) => LengthRecord(f.id, if m.Ptr? then Enc(S, m.target) else [])
  }

  function ElementRecords(S: Schema, f: Field, vs: seq<Value>): (rs: seq<Record>)
    ensures forall r :: r in rs ==> r.tag == f.id
    decreases vs, 0
  {
    if vs == [] then [] else [ValueRecord(S, f, vs[0])] + ElementRecords(S, f, vs[1..])
  }

  function FieldRecords(S: Schema, f: Field, cell: Cell): (rs: seq<Record>)
    ensures forall r :: r in rs ==> r.tag == f.id
    decreases cell, 0
  {
    match cell
    case Many(vs) =>
      if !f.packed then ElementRecords(S, f, vs)
      else if vs == [] then []
      else [LengthRecord(f.id, PackedPayload(f.typ, vs))]
    case _ =>
      var e := Emitted(f, cell);
      if e.Some? then [ValueRecord(S, f, e.value)] else []
  }

  function RecordsFrom(S: Schema, m: Msg, i: nat): seq<Record>
    decreases m, 0, |DescOf(S, m.desc).fields| - i
  {
    var D := DescOf(S, m.desc);
    if i >= |D.fields| then []
    else
      (if D.fields[i].cell < |m.cells| then FieldRecords(S, D.fields[i], m.cells[D.fields[i].cell]) else [])
      + RecordsFrom(S, m, i + 1)
  }

  function UnknownRecord(u: Unknown): Record {
    Record(u.tag, u.wire, if u.wire == WIRE_LENGTH then Extent(u.data, 5) else 0, u.data)
  }

  function UnknownRecords(us: seq<Unknown>): seq<Record> {
    if us == [] then [] else [UnknownRecord(us[0])] + UnknownRecords(us[1..])
  }

  function RecordsOf(S: Schema, m: Msg): seq<Record>
    decreases m, 1
  {
    RecordsFrom(S, m, 0) + UnknownRecords(m.unknown)
  }

  function Enc(S: Schema, m: Msg): seq<byte>
    decreases m, 2
  {
    Flatten(RecordsOf(S, m))
  }
}
