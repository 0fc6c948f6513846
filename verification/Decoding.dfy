/**
 * What a decoder makes of a byte string: the records it scans, the cells it
 * fills, and the merge of a repeated singular submessage.
 */
module Decoding {
  import opened Words
  import opened Descriptors
  import opened Varints
  import opened Scalars
  import opened Wire

  // ---- scanning

  /** Header of the next record: tag, wire type and header length. */
  function ScanHeader(s: seq<byte>): (r: Option<(nat, nat, nat)>)
    ensures r.Some? ==> 1 <= r.value.2 <= |s| && r.value.1 < 8
  {
    if s == [] || s[0] < 8 then None
    else
      var n := Extent(s, 5);
      if n == 0 then None
      else Some((VarintValue(s[..n]) / 8, s[0] % 8, n))
  }

  /** Prefix length and total length of the data of a record. */
  function ScanData(wire: nat, s: seq<byte>): (r: Option<(nat, nat)>)
    ensures r.Some? ==> r.value.0 <= r.value.1 <= |s| && r.value.1 > 0
  {
    if wire == WIRE_VARINT then
      var n := Extent(s, 10);
      if n == 0 then None else Some((0, n))
    else if wire == WIRE_64BIT then
      if |s| < 8 then None else Some((0, 8))
    else if wire == WIRE_LENGTH then
      var n := Extent(s, 5);
      if n == 0 then None
      else
        var len := VarintValue(s[..n]);
        if len > INT_MAX || n + len > |s| then None else Some((n, n + len))
    else if wire == WIRE_32BIT then
      if |s| < 4 then None else Some((0, 4))
    else None
  }

  /** The next record and the number of bytes it takes. */
  function ScanOne(s: seq<byte>): (r: Option<(Record, nat)>)
    ensures r.Some? ==> |r.value.0.data| < r.value.1 <= |s| && r.value.0.prefix <= |r.value.0.data|
  {
    match ScanHeader(s)
    case None => None
    case Some((tag, wire, n)) =>
      match ScanData(wire, s[n..])
      case None => None
      case Some((prefix, len)) => Some((Record(tag, wire, prefix, s[n..n + len]), n + len))
  }

  /** Bytes taken by the data of some records, with one more for each header. */
  function Weight(rs: seq<Record>): nat {
    if rs == [] then 0 else |rs[0].data| + 1 + Weight(rs[1..])
  }

  function Scan(s: seq<byte>): (r: Option<seq<Record>>)
    ensures r.Some? ==> Weight(r.value) <= |s|
    decreases |s|
  {
    if s == [] then Some([])
    else
      match ScanOne(s)
      case None => None
      case Some((rec, used)) =>
        match Scan(s[used..])
        case None => None
        case Some(rest) => Some([rec] + rest)
  }

  // ---- the checks between scanning and parsing

  /** Room in the doubling slabs of scanned members: 16 * (1 + 2 + ... + 2^22). */
  const MAX_RECORDS: nat := 16 * 0x7f_ffff

  /** Does this record hold packed elements of this field? */
  predicate IsPackedRecord(f: Field, r: Record) {
    f.rule.Repeated? && r.wire == WIRE_LENGTH && (f.packed || Packable(f.typ))
  }

  /** count_packed_elements accepts the payload. */
  predicate Countable(D: Desc, r: Record) {
    var i := Lookup(D, r.tag);
    i.Some? && IsPackedRecord(D.fields[i.value], r) ==>
      var t := D.fields[i.value].typ;
      Packable(t) && (Is32(t) || Is64(t) ==> |Payload(r)| % MinSize(t) == 0)
  }

  /** A required field without a default must have been seen. */
  predicate Present(D: Desc, rs: seq<Record>, i: nat)
    requires i < |D.fields|
  {
    var f := D.fields[i];
    f.rule.Required? && f.dflt.None? && f.dfltNum.None? ==>
      exists k :: 0 <= k < |rs| && Lookup(D, rs[k].tag) == Some(i)
  }

  predicate Acceptable(D: Desc, rs: seq<Record>) {
    && |rs| <= MAX_RECORDS
    && (forall k :: 0 <= k < |rs| ==> Countable(D, rs[k]))
    && (forall i :: 0 <= i < |D.fields| ==> Present(D, rs, i))
  }

  // ---- merging

  /** What a pointer member holds in a freshly initialised message. */
  function InitRef(f: Field): Ref<seq<byte>> {
    if f.dflt.Some? then Default else Null
  }

  /** Does merge_messages move this plain value over the latter one? */
  predicate Moves(f: Field, e: Value, l: Value) {
    match (e, l)
    case (Str(es), Str(ls)) => es != InitRef(f) && ls == InitRef(f)
    case (Bin(_, ed), Bin(_, ld)) => ed.Ptr? && !ld.Ptr?
    case (Sub(em), Sub(lm)) => !em.Null? && lm.Null?
    case _ => false
  }

  function MergeValue(S: Schema, f: Field, e: Value, l: Value): (r: Option<Value>)
    decreases e, 0
  {
    if e.Sub? && l.Sub? && e.msg.Ptr? && l.msg.Ptr? then
      match Merge(S, e.msg.target, l.msg.target)
      case None => None
      case Some(m) => Some(Sub(Ptr(m)))
    else
      Some(if Moves(f, e, l) then e else l)
  }

  function MergeCell(S: Schema, D: Desc, f: Field, e: Cell, l: Cell): (r: Option<Cell>)
    decreases e, 0
  {
    match (e, l)
    case (Many(es), Many(ls)) => Some(Many(es + ls))
    case (Single(ev), Single(lv)) =>
      if f.rule.Required? then Some(l)
      else
        (match MergeValue(S, f, ev, lv)
         case None => None
         case Some(v) => Some(Single(v)))
    case (Flagged(eh, ev), Flagged(lh, lv)) =>
      Some(if (if f.typ.Bytes? then Moves(f, ev, lv) else eh && !lh) then e else l)
    case (_, Case(_, _)) => Some(l)
    case (NoCase, NoCase) => None
    case (Case(id, ev), NoCase) =>
      (match Lookup(D, id)
       case None => None
       case Some(j) => Some(if MovesIntoUnion(D.fields[j], ev) then e else l))
    case _ => Some(l)
  }

  /** The latter union is all zeros: its string is NULL, which is not the default if there is one. */
  predicate MovesIntoUnion(f: Field, e: Value) {
    match e
    case Num(_) => true
    case Str(es) => f.dflt.None? && es != Null
    case Bin(_, ed) => ed.Ptr?
    case Sub(em) => !em.Null?
  }

  function MergeCells(S: Schema, e: Msg, l: Msg, c: nat): (r: Option<seq<Cell>>)
    ensures r.Some? && c <= |l.cells| ==> |r.value| == |l.cells| - c
    decreases e, 0, |l.cells| - c
  {
    var D := DescOf(S, l.desc);
    if c >= |l.cells| then Some([])
    else
      var first :=
        if c < |e.cells| && c < |D.owner| && D.owner[c] < |D.fields| then
          MergeCell(S, D, D.OwnerOf(c), e.cells[c], l.cells[c])
        else Some(l.cells[c]);
      var rest := MergeCells(S, e, l, c + 1);
      if first.None? || rest.None? then None else Some([first.value] + rest.value)
  }

  /** The latter message after the earlier one was merged into it. */
  function Merge(S: Schema, e: Msg, l: Msg): (r: Option<Msg>)
    decreases e, 1
  {
    match MergeCells(S, e, l, 0)
    case None => None
    case Some(cells) => Some(l.(cells := cells))
  }

  // ---- parsing

  /** A C string ends at its first NUL. */
  function CString(s: seq<byte>): (r: seq<byte>)
    ensures NulFree(r) && r <= s
  {
    if s == [] || s[0] == 0 then [] else [s[0]] + CString(s[1..])
  }

  /** The elements of a packed payload. */
  function ParsePacked(t: FieldType, s: seq<byte>): (r: Option<seq<Value>>)
    decreases |s|
  {
    if s == [] then Some([])
    else
      var n := if Is32(t) || Is64(t) then (if |s| < MinSize(t) then 0 else MinSize(t)) else Extent(s, 10);
      if n == 0 then None
      else
        match ParsePacked(t, s[n..])
        case None => None
        case Some(vs) => Some([Num(ParseNum(t, s[..n]))] + vs)
  }

  function ParseValue(S: Schema, f: Field, was: Value, r: Record): (v: Option<Value>)
    decreases |r.data|, 2
  {
    if Packable(f.typ) then
      if !f.typ.Bool? && r.wire != NumWire(f.typ) then None else Some(Num(ParseNum(f.typ, r.data)))
    else if r.wire != WIRE_LENGTH then None
    else if f.typ.String? then Some(Str(Ptr(CString(Payload(r)))))
    else if f.typ.Bytes? then
      Some(Bin(|Payload(r)|, if Payload(r) == [] then Null else Ptr(Payload(r))))
    else
      match Unpack(S, f.sub, Payload(r))
      case None => None
      case Some(u) => MergeValue(S, f, was, Sub(Ptr(u)))
  }

  /** A zero-filled member. */
  function ZeroValue(f: Field): Value {
    match f.typ
    case String => Str(Null)
    case Bytes => Bin(0, Null)
    case Message => Sub(Null)
    case _ => Num(0)
  }

  function StepCell(S: Schema, f: Field, cell: Cell, r: Record): (c: Option<Cell>)
    decreases |r.data|, 3
  {
    if f.rule.Repeated? then
      var vs := if cell.Many? then cell.vs else [];
      if IsPackedRecord(f, r) then
        match ParsePacked(f.typ, Payload(r))
        case None => None
        case Some(ws) => Some(Many(vs + ws))
      else
        match ParseValue(S, f, ZeroValue(f), r)
        case None => None
        case Some(w) => Some(Many(vs + [w]))
    else if f.oneof then
      match ParseValue(S, f, ZeroValue(f), r)
      case None => None
      case Some(w) => Some(Case(r.tag, w))
    else if cell.Flagged? then
      match ParseValue(S, f, cell.v, r)
      case None => None
      case Some(w) => Some(Flagged(true, w))
    else
      match ParseValue(S, f, if cell.Single? then cell.v else ZeroValue(f), r)
      case None => None
      case Some(w) => Some(Single(w))
  }

  function Step(S: Schema, st: Msg, r: Record): (next: Option<Msg>)
    ensures next.Some? ==> next.value.desc == st.desc && |next.value.cells| == |st.cells|
    decreases |r.data|, 4
  {
    var D := DescOf(S, st.desc);
    match Lookup(D, r.tag)
    case None => Some(st.(unknown := st.unknown + [Unknown(r.tag, r.wire, r.data)]))
    case Some(i) =>
      var f := D.fields[i];
      if f.cell >= |st.cells| then None
      else
        match StepCell(S, f, st.cells[f.cell], r)
        case None => None
        case Some(c) => Some(st.(cells := st.cells[f.cell := c]))
  }

  function ParseAll(S: Schema, st: Msg, rs: seq<Record>): (r: Option<Msg>)
    ensures r.Some? ==> r.value.desc == st.desc && |r.value.cells| == |st.cells|
    decreases Weight(rs), 0
  {
    if rs == [] then Some(st)
    else
      match Step(S, st, rs[0])
      case None => None
      case Some(next) => ParseAll(S, next, rs[1..])
  }

  function InitMsg(S: Schema, d: nat): Msg {
    var D := DescOf(S, d);
    if forall c :: 0 <= c < |D.owner| ==> D.owner[c] < |D.fields| then Msg(d, InitCells(D), [])
    else Msg(d, [], [])
  }

  /** protobuf_c_message_unpack; None stands for a NULL result. */
  function Unpack(S: Schema, d: nat, s: seq<byte>): (r: Option<Msg>)
    ensures r.Some? ==> r.value.desc == d
    decreases |s|, 1
  {
    match Scan(s)
    case None => None
    case Some(rs) =>
      if Acceptable(DescOf(S, d), rs) then ParseAll(S, InitMsg(S, d), rs) else None
  }
}
