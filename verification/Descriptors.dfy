/**
 * Descriptors and messages. A C message struct is modelled as a sequence of
 * cells: every plain member has a cell of its own, the members of a oneof share
 * one (they share a C union and the case field that selects them).
 */
module Descriptors {
  import opened Words

  datatype FieldType =
    | Int32 | SInt32 | SFixed32 | Int64 | SInt64 | SFixed64
    | UInt32 | Fixed32 | UInt64 | Fixed64 | Float | Double
    | Bool | Enum | String | Bytes | Message

  datatype Label = Required | Optional | Repeated | Unlabeled

  /** A pointer member: NULL, the descriptor's default object, or an object of the message's own. */
  datatype Ref<+T> = Null | Default | Ptr(target: T)

  /** Numbers are raw bit patterns; a C string is the bytes before its NUL. */
  datatype Value =
    | Num(bits: nat)
    | Str(str: Ref<seq<byte>>)
    | Bin(len: nat, data: Ref<seq<byte>>)
    | Sub(msg: Ref<Msg>)

  datatype Cell =
    | Single(v: Value)               // no quantifier: required, unlabeled, optional string or message
    | Flagged(has: bool, v: Value)   // optional with a "has" flag
    | Many(vs: seq<Value>)           // repeated
    | NoCase                         // oneof, nothing selected (case 0)
    | Case(id: nat, v: Value)        // oneof, the field with this id is selected

  datatype Unknown = Unknown(tag: nat, wire: nat, data: seq<byte>)

  datatype Msg = Msg(desc: nat, cells: seq<Cell>, unknown: seq<Unknown>)

  datatype Field = Field(
    id: nat,
    rule: Label,
    typ: FieldType,
    packed: bool,        // PROTOBUF_C_FIELD_FLAG_PACKED
    oneof: bool,         // PROTOBUF_C_FIELD_FLAG_ONEOF
    cell: nat,           // stands for offset and quantifier_offset
    sub: nat,            // descriptor of a message field
    dflt: Option<seq<byte>>,  // default of a string or bytes field
    dfltNum: Option<nat>)     // default of a numeric field

  /** `owner[c]` is a field stored in cell `c`. */
  datatype Desc = Desc(fields: seq<Field>, owner: seq<nat>, ranges: seq<IntRange>)
  {
    function OwnerOf(c: nat): Field
      requires c < |owner| && owner[c] < |fields|
    {
      fields[owner[c]]
    }
  }

  datatype IntRange = IntRange(start: nat, orig: nat)

  type Schema = seq<Desc>

  const MAX_FIELD_ID: nat := 0x1fff_ffff

  predicate Is32(t: FieldType) { t.SFixed32? || t.Fixed32? || t.Float? }
  predicate Is64(t: FieldType) { t.SFixed64? || t.Fixed64? || t.Double? }
  predicate IsPointer(t: FieldType) { t.String? || t.Message? }
  predicate Packable(t: FieldType) { !t.String? && !t.Bytes? && !t.Message? }

  /** Number of values the C member of a numeric type can hold; a bool is an int. */
  function NumLimit(t: FieldType): nat {
    if Is64(t) || t.Int64? || t.SInt64? || t.UInt64? then TWO_64 else TWO_32
  }

  predicate Flaggable(f: Field) { f.rule.Optional? && !f.oneof && !IsPointer(f.typ) }

  predicate NulFree(s: seq<byte>) { forall i :: 0 <= i < |s| ==> s[i] != 0 }

  // ---- schemas

  predicate FieldOk(S: Schema, D: Desc, i: nat)
    requires i < |D.fields|
  {
    var f := D.fields[i];
    && 1 <= f.id <= MAX_FIELD_ID
    && (f.oneof ==> f.rule.Optional? || f.rule.Unlabeled?)
    && (f.packed ==> f.rule.Repeated? && Packable(f.typ))
    && (f.typ.Message? ==> f.sub < |S|)
    && (f.dflt.Some? ==> (f.typ.String? && NulFree(f.dflt.value)) || f.typ.Bytes?)
    && (f.dfltNum.Some? ==> Packable(f.typ) && f.dfltNum.value < NumLimit(f.typ))
    && f.cell < |D.owner|
    && (if f.oneof then
          D.owner[f.cell] < |D.fields| && D.OwnerOf(f.cell).oneof
        else
          D.owner[f.cell] == i)
  }

  predicate DescOk(S: Schema, D: Desc) {
    && (forall i, j :: 0 <= i < j < |D.fields| ==> D.fields[i].id < D.fields[j].id)
    && (forall i :: 0 <= i < |D.fields| ==> FieldOk(S, D, i))
    && (forall c :: 0 <= c < |D.owner| ==> D.owner[c] < |D.fields| && D.OwnerOf(c).cell == c)
  }

  predicate SchemaOk(S: Schema) {
    forall d :: 0 <= d < |S| ==> DescOk(S, S[d])
  }

  function DescOf(S: Schema, d: nat): Desc {
    if d < |S| then S[d] else Desc([], [], [])
  }

  /** Linear search of a field by its id. */
  function LookupFrom(fields: seq<Field>, tag: nat, i: nat): (r: Option<nat>)
    requires i <= |fields|
    ensures r.Some? ==> i <= r.value < |fields| && fields[r.value].id == tag
    ensures r.None? ==> forall j :: i <= j < |fields| ==> fields[j].id != tag
    decreases |fields| - i
  {
    if i == |fields| then None
    else if fields[i].id == tag then Some(i)
    else LookupFrom(fields, tag, i + 1)
  }

  function Lookup(D: Desc, tag: nat): (r: Option<nat>)
    ensures r.Some? ==> r.value < |D.fields| && D.fields[r.value].id == tag
    ensures r.None? ==> forall j :: 0 <= j < |D.fields| ==> D.fields[j].id != tag
  {
    LookupFrom(D.fields, tag, 0)
  }

  lemma LookupField(S: Schema, D: Desc, i: nat)
    requires DescOk(S, D) && i < |D.fields|
    ensures Lookup(D, D.fields[i].id) == Some(i)
  {
  }

  // ---- freshly initialised messages

  function InitValue(f: Field): Value {
    match f.typ
    case String => Str(if f.dflt.Some? then Default else Null)
    case Bytes => if f.dflt.Some? then Bin(|f.dflt.value|, Default) else Bin(0, Null)
    case Message => Sub(Null)
    case _ => Num(if f.dfltNum.Some? then f.dfltNum.value else 0)
  }

  function InitCell(f: Field): Cell {
    if f.rule.Repeated? then Many([])
    else if f.oneof then NoCase
    else if Flaggable(f) then Flagged(false, InitValue(f))
    else Single(InitValue(f))
  }

  function InitCells(D: Desc): (cells: seq<Cell>)
    requires forall c :: 0 <= c < |D.owner| ==> D.owner[c] < |D.fields|
    ensures |cells| == |D.owner|
    ensures forall c :: 0 <= c < |cells| ==> cells[c] == InitCell(D.OwnerOf(c))
  {
    seq(|D.owner|, c requires 0 <= c < |D.owner| => InitCell(D.OwnerOf(c)))
  }

  // ---- what the C types say about a message

  function Content(f: Field, r: Ref<seq<byte>>): seq<byte> {
    match r
    case Null => []
    case Default => if f.dflt.Some? then f.dflt.value else []
    case Ptr(s) => s
  }

  predicate TypedValue(S: Schema, f: Field, v: Value)
    decreases v
  {
    match v
    case Num(bits) => Packable(f.typ) && bits < NumLimit(f.typ)
    case Str(s) => f.typ.String? && NulFree(Content(f, s)) && (s.Default? ==> f.dflt.Some?)
    case Bin(len, data) => f.typ.Bytes? && len == |Content(f, data)| && (data.Default? ==> f.dflt.Some?)
    case Sub(m) => f.typ.Message? && !m.Default? && (m.Ptr? ==> m.target.desc == f.sub && TypedMsg(S, m.target))
  }

  predicate TypedCell(S: Schema, D: Desc, c: nat, cell: Cell)
    requires c < |D.owner| && D.owner[c] < |D.fields|
    decreases cell
  {
    var f := D.OwnerOf(c);
    match cell
    case Single(v) => !f.oneof && !f.rule.Repeated? && !Flaggable(f) && TypedValue(S, f, v)
    case Flagged(has, v) => Flaggable(f) && TypedValue(S, f, v)
    case Many(vs) =>
      f.rule.Repeated? && forall i :: 0 <= i < |vs| ==> TypedValue(S, f, vs[i]) && NonNull(vs[i])
    case NoCase => f.oneof
    case Case(id, v) =>
      && f.oneof
      && Lookup(D, id).Some?
      && var g := D.fields[Lookup(D, id).value];
      g.cell == c && TypedValue(S, g, v)
  }

  /** Array elements are never NULL nor the default object. */
  predicate NonNull(v: Value) {
    match v
    case Num(_) => true
    case Str(s) => s.Ptr?
    case Bin(_, data) => !data.Default?
    case Sub(m) => m.Ptr?
  }

  predicate TypedMsg(S: Schema, m: Msg)
    decreases m
  {
    && m.desc < |S|
    && var D := S[m.desc];
    && (forall c :: 0 <= c < |D.owner| ==> D.owner[c] < |D.fields|)
    && |m.cells| == |D.owner|
    && (forall c :: 0 <= c < |m.cells| ==> TypedCell(S, D, c, m.cells[c]))
    && (forall i :: 0 <= i < |m.unknown| ==> TypedUnknown(m.unknown[i]))
  }

  /** A uint32_t tag and a three-bit wire type. */
  predicate TypedUnknown(u: Unknown) {
    u.tag < TWO_32 && u.wire < 8
  }
}
