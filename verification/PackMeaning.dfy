/**
 * What is written for a message, told without the encoder: which fields are, in which order,
 * and what each record says.
 */
module PackMeaning {
  import opened Words
  import opened Descriptors
  import opened Varints
  import opened Scalars
  import opened Wire
  import opened Decoding
  import opened ScanLaws
  import opened RoundTrip
  import opened Meaning

  /** Is this the zero of its type? Floating-point numbers have two of them. */
  predicate IsZero(f: Field, v: Value) {
    match v
    case Num(bits) =>
      bits == 0 || (f.typ.Float? && bits == 0x8000_0000) || (f.typ.Double? && bits == 0x8000_0000_0000_0000)
    case Str(s) => |Content(f, s)| == 0
    case Bin(len, _) => len == 0
    case Sub(m) => m == Null
  }

  /** A string or message pointer that is NULL, or the default's. */
  predicate NothingOwn(v: Value) {
    match v
    case Str(s) => s == Null || s == Default
    case Sub(m) => m == Null || m == Default
    case _ => false
  }

  /** Is no byte written for the field? Required ones always are; unlabeled ones unless zero or empty. */
  predicate Silent(f: Field, cell: Cell) {
    match cell
    case Many(vs) => vs == []
    case NoCase => true
    case Case(id, v) => id != f.id || NothingOwn(v)
    case Flagged(has, v) => !has
    case Single(v) =>
      match f.rule
      case Required => false
      case Optional => NothingOwn(v)
      case _ => IsZero(f, v)
  }

  /** A record with a payload behind its length. */
  ghost predicate Holding(r: Record, content: seq<byte>) {
    && r.wire == WIRE_LENGTH && r.prefix <= |r.data| && r.data[r.prefix..] == content
    && Terminated(r.data[..r.prefix]) && VarintValue(r.data[..r.prefix]) == |content|
    && r.data[..r.prefix] == Varint(|content|)
  }

  /** Does the record say this value of the field? */
  ghost predicate WrittenAs(S: Schema, f: Field, v: Value, r: Record) {
    && r.tag == f.id
    && match v
       case Num(bits) => r.wire == NumberWire(f.typ) && r.prefix == 0 && OnWire(f.typ, bits, r.data)
       case Str(s) => Holding(r, Content(f, s))
       case Bin(_, data) => Holding(r, Content(f, data))
       case Sub(m) => Holding(r, if m.Ptr? then Enc(S, m.target) else [])
  }

  /** The payload is made of the numbers, one after the other. */
  ghost predicate PackedAs(f: Field, vs: seq<Value>, payload: seq<byte>) {
    exists pieces: seq<seq<byte>> :: PiecesSay(f, vs, pieces) && Flat(pieces) == payload
  }

  predicate PiecesSay(f: Field, vs: seq<Value>, pieces: seq<seq<byte>>) {
    |pieces| == |vs| && forall i :: 0 <= i < |vs| ==> vs[i].Num? && OnWire(f.typ, vs[i].bits, pieces[i])
  }

  /** Are these the records of the field? */
  ghost predicate FieldWrites(S: Schema, f: Field, cell: Cell, rs: seq<Record>) {
    if Silent(f, cell) then rs == []
    else if !cell.Many? then |rs| == 1 && !cell.NoCase? && WrittenAs(S, f, cell.v, rs[0])
    else if f.packed then
      |rs| == 1 && rs[0].tag == f.id && Holding(rs[0], Payload(rs[0])) && PackedAs(f, cell.vs, Payload(rs[0]))
    else |rs| == |cell.vs| && forall i :: 0 <= i < |rs| ==> WrittenAs(S, f, cell.vs[i], rs[i])
  }

  lemma PrefixHolds(tag: nat, content: seq<byte>)
    ensures Holding(LengthRecord(tag, content), content) && Payload(LengthRecord(tag, content)) == content
  {
    hide Terminated, Varint, VarintValue;
    VarintRoundTrip(|content|);
    assert Prefixed(content)[..|Varint(|content|)|] == Varint(|content|);
  }

  lemma ValueWrites(S: Schema, f: Field, v: Value)
    requires TypedValue(S, f, v)
    ensures WrittenAs(S, f, v, ValueRecord(S, f, v))
  {
    hide Holding, OnWire, Enc, NumBytes;
    match v {
      case Num(bits) => NumberOnWire(f.typ, bits);
      case Str(s) => PrefixHolds(f.id, Content(f, s));
      case Bin(_, data) => PrefixHolds(f.id, Content(f, data));
      case Sub(m) => PrefixHolds(f.id, if m.Ptr? then Enc(S, m.target) else []);
    }
  }

  lemma {:induction false} ElementsWrite(S: Schema, f: Field, vs: seq<Value>)
    requires forall i :: 0 <= i < |vs| ==> TypedValue(S, f, vs[i])
    ensures var rs := ElementRecords(S, f, vs);
            |rs| == |vs| && forall i :: 0 <= i < |rs| ==> WrittenAs(S, f, vs[i], rs[i])
  {
    hide WrittenAs, TypedValue, ValueRecord;
    if vs != [] {
      ValueWrites(S, f, vs[0]);
      ElementsWrite(S, f, vs[1..]);
    }
  }

  lemma {:induction false} PiecesOf(S: Schema, f: Field, vs: seq<Value>) returns (pieces: seq<seq<byte>>)
    requires Packable(f.typ) && forall i :: 0 <= i < |vs| ==> TypedValue(S, f, vs[i])
    ensures PiecesSay(f, vs, pieces) && Flat(pieces) == PackedPayload(f.typ, vs)
  {
    hide OnWire, NumBytes;
    if vs == [] {
      pieces := [];
    } else {
      NumberOnWire(f.typ, vs[0].bits);
      var rest := PiecesOf(S, f, vs[1..]);
      pieces := [NumBytes(f.typ, vs[0].bits)] + rest;
      assert pieces[1..] == rest;
    }
  }

  lemma ZeroMeaning(S: Schema, f: Field, v: Value)
    requires TypedValue(S, f, v)
    ensures Zeroish(f, v) <==> IsZero(f, v)
  {
  }

  lemma PackedWrites(S: Schema, f: Field, vs: seq<Value>)
    requires f.packed && Packable(f.typ) && vs != [] && forall i :: 0 <= i < |vs| ==> TypedValue(S, f, vs[i])
    ensures FieldWrites(S, f, Many(vs), [LengthRecord(f.id, PackedPayload(f.typ, vs))])
  {
    hide Holding, PiecesSay, TypedValue;
    PrefixHolds(f.id, PackedPayload(f.typ, vs));
    var pieces := PiecesOf(S, f, vs);
  }

  /** The records of a field say its value; there are none exactly when the field is silent. */
  lemma FieldMeaning(S: Schema, D: Desc, i: nat, cell: Cell)
    requires DescOk(S, D) && i < |D.fields| && D.fields[i].cell < |D.owner|
    requires D.owner[D.fields[i].cell] < |D.fields| && TypedCell(S, D, D.fields[i].cell, cell)
    ensures FieldWrites(S, D.fields[i], cell, FieldRecords(S, D.fields[i], cell))
    ensures FieldRecords(S, D.fields[i], cell) == [] <==> Silent(D.fields[i], cell)
  {
    hide WrittenAs, Zeroish, IsZero, Holding, PackedAs, ValueRecord, TypedValue;
    var f := D.fields[i];
    assert FieldOk(S, D, i) && FieldOk(S, D, D.owner[f.cell]);
    LookupField(S, D, i);
    match cell {
      case Many(vs) =>
        ElementsWrite(S, f, vs);
        if f.packed && vs != [] { PackedWrites(S, f, vs); }
      case NoCase =>
      case Case(id, v) => if id == f.id { ValueWrites(S, f, v); }
      case Flagged(has, v) => ValueWrites(S, f, v);
      case Single(v) =>
        ZeroMeaning(S, f, v);
        ValueWrites(S, f, v);
    }
  }

  // ---- whole messages

  /** Are these the records of field i? */
  ghost predicate PartSays(S: Schema, m: Msg, i: nat, part: seq<Record>) {
    && m.desc < |S| && i < |S[m.desc].fields| && S[m.desc].fields[i].cell < |m.cells|
    && FieldWrites(S, S[m.desc].fields[i], m.cells[S[m.desc].fields[i].cell], part)
  }

  lemma FirstPart(S: Schema, m: Msg, i: nat) returns (part: seq<Record>)
    requires SchemaOk(S) && TypedMsg(S, m) && i < |S[m.desc].fields|
    ensures PartSays(S, m, i, part) && RecordsFrom(S, m, i) == part + RecordsFrom(S, m, i + 1)
  {
    hide FieldWrites, FieldRecords;
    var D := S[m.desc];
    assert FieldOk(S, D, i);
    var c := D.fields[i].cell;
    assert TypedCell(S, D, c, m.cells[c]);
    FieldMeaning(S, D, i, m.cells[c]);
    part := FieldRecords(S, D.fields[i], m.cells[c]);
  }

  /** The records of the fields from i on, field by field. */
  lemma {:induction false} PartsFrom(S: Schema, m: Msg, i: nat) returns (parts: seq<seq<Record>>)
    requires SchemaOk(S) && TypedMsg(S, m) && m.desc < |S| && i <= |S[m.desc].fields|
    ensures |parts| == |S[m.desc].fields| - i && Flat(parts) == RecordsFrom(S, m, i)
    ensures forall k :: 0 <= k < |parts| ==> PartSays(S, m, i + k, parts[k])
    decreases |S[m.desc].fields| - i
  {
    hide *;
    if i == |S[m.desc].fields| {
      parts := [];
      NoParts(S, m);
    } else {
      var part := FirstPart(S, m, i);
      var rest := PartsFrom(S, m, i + 1);
      parts := [part] + rest;
      FlatFirst(part, rest);
      forall k | 0 <= k < |parts|
        ensures PartSays(S, m, i + k, parts[k])
      {
        if k > 0 { assert parts[k] == rest[k - 1] && PartSays(S, m, (i + 1) + (k - 1), rest[k - 1]); }
      }
    }
  }

  lemma NoParts(S: Schema, m: Msg)
    requires m.desc < |S|
    ensures Flat<Record>([]) == RecordsFrom(S, m, |S[m.desc].fields|) == []
  {
  }

  lemma FlatFirst<T>(part: seq<T>, rest: seq<seq<T>>)
    ensures Flat([part] + rest) == part + Flat(rest)
  {
    assert ([part] + rest)[1..] == rest;
  }

  function RecordBytes(r: Record): seq<byte> {
    Varint(8 * r.tag + r.wire) + r.data
  }

  lemma {:induction false} FlattenIsFlat(rs: seq<Record>)
    ensures Flatten(rs) == Flat(seq(|rs|, k requires 0 <= k < |rs| => RecordBytes(rs[k])))
  {
    if rs != [] {
      FlattenIsFlat(rs[1..]);
      var all := seq(|rs|, k requires 0 <= k < |rs| => RecordBytes(rs[k]));
      assert all[1..] == seq(|rs[1..]|, k requires 0 <= k < |rs[1..]| => RecordBytes(rs[1..][k]));
    }
  }

  /** The records of a message: field by field in the order of the descriptor, then the unknown ones as they came. */
  ghost predicate MessageWrites(S: Schema, m: Msg, parts: seq<seq<Record>>, unknown: seq<Record>)
    requires m.desc < |S|
  {
    && |parts| == |S[m.desc].fields|
    && (forall i :: 0 <= i < |parts| ==> PartSays(S, m, i, parts[i]))
    && |unknown| == |m.unknown|
    && forall i :: 0 <= i < |unknown| ==>
         unknown[i].tag == m.unknown[i].tag && unknown[i].wire == m.unknown[i].wire && unknown[i].data == m.unknown[i].data
  }

  lemma RecordsAre(S: Schema, m: Msg)
    requires m.desc < |S|
    ensures Enc(S, m) == Flatten(RecordsFrom(S, m, 0) + UnknownRecords(m.unknown))
  {
    hide Flatten, RecordsFrom;
  }

  /** The encoding is the bytes of these records, one after the other. */
  lemma EncodingIs(S: Schema, m: Msg) returns (parts: seq<seq<Record>>, unknown: seq<Record>)
    requires SchemaOk(S) && TypedMsg(S, m)
    ensures MessageWrites(S, m, parts, unknown)
    ensures var rs := Flat(parts) + unknown;
            Enc(S, m) == Flat(seq(|rs|, k requires 0 <= k < |rs| => RecordBytes(rs[k])))
  {
    parts := PartsFrom(S, m, 0);
    unknown := UnknownRecords(m.unknown);
    hide PartSays, Enc, RecordsFrom, SchemaOk, Flatten, Flat;
    UnknownRecordsAt(m.unknown);
    RecordsAre(S, m);
    FlattenIsFlat(Flat(parts) + unknown);
  }
}
