/** Exactly which messages come back unchanged from packing and unpacking. */
module RoundTrip {
  import opened Words
  import opened Descriptors
  import opened Varints
  import opened Scalars
  import opened Wire
  import opened Decoding
  import opened ScanLaws
  import opened Folding

  // ---- the condition

  /** The value is in the form the decoder itself would give it. */
  predicate RestoredValue(S: Schema, f: Field, v: Value)
    decreases v, 0
  {
    match v
    case Num(bits) => f.typ.Bool? ==> bits <= 1
    case Str(s) => s.Ptr?
    case Bin(len, data) => if len == 0 then data.Null? else data.Ptr?
    case Sub(m) => m.Ptr? && RoundTrips(S, m.target)
  }

  /** The field stored in the cell is written in restorable form, or left out while still untouched. */
  predicate RestoredCell(S: Schema, D: Desc, c: nat, cell: Cell)
    requires c < |D.owner| && D.owner[c] < |D.fields|
    decreases cell, 0
  {
    match cell
    case Many(vs) => forall i :: 0 <= i < |vs| ==> RestoredValue(S, D.OwnerOf(c), vs[i])
    case NoCase => true
    case Case(id, v) =>
      Lookup(D, id).Some? && !NullOrDefault(v) && RestoredValue(S, D.fields[Lookup(D, id).value], v)
    case _ =>
      var e := Emitted(D.OwnerOf(c), cell);
      if e.Some? then RestoredValue(S, D.OwnerOf(c), e.value) else cell == InitCell(D.OwnerOf(c))
  }

  predicate PreservedUnknown(D: Desc, u: Unknown) {
    u.tag >= 1 && Lookup(D, u.tag).None? && WellDelimited(UnknownRecord(u))
  }

  /** No payload over INT_MAX, at most MAX_RECORDS records, and every part restorable. */
  predicate RoundTrips(S: Schema, m: Msg)
    decreases m, 1
  {
    var D := DescOf(S, m.desc);
    && |RecordsOf(S, m)| <= MAX_RECORDS
    && (forall r :: r in RecordsFrom(S, m, 0) ==> |Payload(r)| <= INT_MAX)
    && (forall c :: 0 <= c < |m.cells| && c < |D.owner| && D.owner[c] < |D.fields| ==>
          RestoredCell(S, D, c, m.cells[c]))
    && (forall i :: 0 <= i < |m.unknown| ==> PreservedUnknown(D, m.unknown[i]))
  }

  // ---- one value

  lemma PayloadOfContent(tag: nat, content: seq<byte>)
    ensures Payload(LengthRecord(tag, content)) == content
  {
  }

  lemma {:induction false} CStringOfNulFree(s: seq<byte>)
    requires NulFree(s)
    ensures CString(s) == s
  {
    if s != [] {
      assert NulFree(s[1..]);
      CStringOfNulFree(s[1..]);
    }
  }

  /** Values that hold no message come back exactly when they are in restorable form. */
  lemma LeafRoundTrip(S: Schema, f: Field, was: Value, v: Value)
    requires TypedValue(S, f, v) && !v.Sub?
    ensures ParseValue(S, f, was, ValueRecord(S, f, v)) == Some(v) <==> RestoredValue(S, f, v)
  {
    var r := ValueRecord(S, f, v);
    match v {
      case Num(bits) =>
        NumRoundTrip(f.typ, bits);
        assert ParseValue(S, f, was, r) == Some(Num(ParseNum(f.typ, NumBytes(f.typ, bits))));
      case Str(s) =>
        PayloadOfContent(f.id, Content(f, s));
        CStringOfNulFree(Content(f, s));
      case Bin(len, data) =>
        PayloadOfContent(f.id, Content(f, data));
    }
  }

  lemma SubmessageParse(S: Schema, f: Field, was: Value, content: seq<byte>)
    requires f.typ.Message? && (was.Sub? ==> was.msg.Null?)
    ensures ParseValue(S, f, was, LengthRecord(f.id, content)) ==
            match Unpack(S, f.sub, content)
            case None => None
            case Some(u) => Some(Sub(Ptr(u)))
  {
    PayloadOfContent(f.id, content);
  }

  lemma {:induction false} ValueRoundTrip(S: Schema, f: Field, was: Value, v: Value)
    requires SchemaOk(S) && TypedValue(S, f, v)
    requires was.Sub? ==> was.msg.Null?
    ensures ParseValue(S, f, was, ValueRecord(S, f, v)) == Some(v) <==> RestoredValue(S, f, v)
    decreases v, 1
  {
    if v.Sub? {
      SubmessageParse(S, f, was, if v.msg.Ptr? then Enc(S, v.msg.target) else []);
      if v.msg.Ptr? {
        MessageRoundTrip(S, v.msg.target);
      }
    } else {
      LeafRoundTrip(S, f, was, v);
    }
  }

  // ---- repeated values

  lemma {:induction false} PackedRoundTrip(S: Schema, f: Field, vs: seq<Value>)
    requires Packable(f.typ)
    requires forall i :: 0 <= i < |vs| ==> TypedValue(S, f, vs[i])
    ensures var p := ParsePacked(f.typ, PackedPayload(f.typ, vs));
            && p.Some? && |p.value| == |vs|
            && (p.value == vs <==> forall i :: 0 <= i < |vs| ==> RestoredValue(S, f, vs[i]))
    ensures Is32(f.typ) || Is64(f.typ) ==> |PackedPayload(f.typ, vs)| == MinSize(f.typ) * |vs|
  {
    hide ParseNum, NumBytes, RestoredValue;
    if vs != [] {
      var t, bits := f.typ, vs[0].bits;
      FrontElement(S, f, vs);
      PackedRoundTrip(S, f, vs[1..]);
      var rest := ParsePacked(t, PackedPayload(t, vs[1..])).value;
      SameElements(Num(ParseNum(t, NumBytes(t, bits))), rest, vs);
      assert MinSize(t) * |vs| == MinSize(t) + MinSize(t) * |vs[1..]|;
      assert forall i :: 0 < i < |vs| ==> vs[i] == vs[1..][i - 1];
    }
  }

  /** The first element of a packed payload is parsed off its front. */
  lemma FrontElement(S: Schema, f: Field, vs: seq<Value>)
    requires Packable(f.typ) && vs != [] && TypedValue(S, f, vs[0])
    ensures vs[0].Num?
    ensures var t, bits := f.typ, vs[0].bits;
            var rest := ParsePacked(t, PackedPayload(t, vs[1..]));
            && ParsePacked(t, PackedPayload(t, vs)) ==
               (if rest.None? then None else Some([Num(ParseNum(t, NumBytes(t, bits)))] + rest.value))
            && (Num(ParseNum(t, NumBytes(t, bits))) == vs[0] <==> RestoredValue(S, f, vs[0]))
    ensures Is32(f.typ) || Is64(f.typ) ==>
              |PackedPayload(f.typ, vs)| == MinSize(f.typ) + |PackedPayload(f.typ, vs[1..])|
  {
    hide NumBytes, ParseNum, Extent, Terminated;
    var t, bits := f.typ, vs[0].bits;
    var first, rest := NumBytes(t, bits), PackedPayload(t, vs[1..]);
    assert PackedPayload(t, vs) == first + rest;
    NumBytesLength(t, bits);
    if !Is32(t) && !Is64(t) {
      NumBytesTerminated(t, bits);
      ExtentOfTerminated(first, rest, 10);
    }
    assert (first + rest)[..|first|] == first && (first + rest)[|first|..] == rest;
    NumRoundTrip(t, bits);
  }

  lemma SameElements<A>(x: A, rest: seq<A>, vs: seq<A>)
    requires vs != []
    ensures [x] + rest == vs <==> x == vs[0] && rest == vs[1..]
  {
    assert ([x] + rest)[0] == x && ([x] + rest)[1..] == rest;
  }

  lemma ZeroIsNull(f: Field)
    ensures ZeroValue(f).Sub? ==> ZeroValue(f).msg.Null?
  {
  }

  /** The first of several unpacked elements is parsed and appended. */
  lemma FirstParsed(S: Schema, D: Desc, c: nat, pre: seq<Value>, vs: seq<Value>)
    requires DescOk(S, D) && c < |D.owner| && vs != []
    requires D.OwnerOf(c).rule.Repeated? && !D.OwnerOf(c).packed && TypedValue(S, D.OwnerOf(c), vs[0])
    ensures var f := D.OwnerOf(c);
            var p := ParseValue(S, f, ZeroValue(f), ValueRecord(S, f, vs[0]));
            FoldCell(S, D, c, Many(pre), ElementRecords(S, f, vs)) ==
            if p.None? then None else FoldCell(S, D, c, Many(pre + [p.value]), ElementRecords(S, f, vs[1..]))
  {
    hide ParseValue;
    var f := D.OwnerOf(c);
    LookupField(S, D, D.owner[c]);
    var r, rs := ValueRecord(S, f, vs[0]), ElementRecords(S, f, vs);
    assert rs[0] == r && rs[1..] == ElementRecords(S, f, vs[1..]);
    assert !IsPackedRecord(f, r);
  }

  lemma {:induction false} ElementsRoundTrip(S: Schema, D: Desc, c: nat, pre: seq<Value>, vs: seq<Value>)
    requires SchemaOk(S) && DescOk(S, D) && c < |D.owner|
    requires var f := D.OwnerOf(c);
             && f.rule.Repeated? && !f.packed
             && forall i :: 0 <= i < |vs| ==> TypedValue(S, f, vs[i])
    ensures var f := D.OwnerOf(c);
            FoldCell(S, D, c, Many(pre), ElementRecords(S, f, vs)) == Some(Many(pre + vs))
            <==> forall i :: 0 <= i < |vs| ==> RestoredValue(S, f, vs[i])
    decreases vs, 2
  {
    hide RestoredValue, ParseValue, TypedValue, SchemaOk, ValueRecord, StepCell;
    var f := D.OwnerOf(c);
    if vs == [] {
      assert pre + vs == pre;
    } else {
      FirstParsed(S, D, c, pre, vs);
      ZeroIsNull(f);
      ValueRoundTrip(S, f, ZeroValue(f), vs[0]);
      var p := ParseValue(S, f, ZeroValue(f), ValueRecord(S, f, vs[0]));
      if p.Some? {
        ElementsRoundTrip(S, D, c, pre + [p.value], vs[1..]);
        FoldKeepsLength(S, D, c, pre + [p.value], vs[1..]);
        assert pre + [p.value] + vs[1..] == pre + vs <==> p.value == vs[0] by {
          assert (pre + [p.value] + vs[1..])[|pre|] == p.value;
          assert (pre + vs)[|pre|] == vs[0];
          assert p.value == vs[0] ==> pre + [p.value] + vs[1..] == pre + vs;
        }
        assert forall i :: 0 < i < |vs| ==> vs[i] == vs[1..][i - 1];
      }
    }
  }

  /** Parsing elements appends that many values and keeps those already there. */
  lemma {:induction false} FoldKeepsLength(S: Schema, D: Desc, c: nat, pre: seq<Value>, vs: seq<Value>)
    requires SchemaOk(S) && DescOk(S, D) && c < |D.owner|
    requires var f := D.OwnerOf(c);
             && f.rule.Repeated? && !f.packed
             && forall i :: 0 <= i < |vs| ==> TypedValue(S, f, vs[i])
    ensures var x := FoldCell(S, D, c, Many(pre), ElementRecords(S, D.OwnerOf(c), vs));
            x.Some? ==> x.value.Many? && |x.value.vs| == |pre| + |vs| && pre <= x.value.vs
    decreases vs
  {
    hide ParseValue, TypedValue, SchemaOk, ValueRecord, StepCell;
    var f := D.OwnerOf(c);
    if vs != [] {
      FirstParsed(S, D, c, pre, vs);
      var p := ParseValue(S, f, ZeroValue(f), ValueRecord(S, f, vs[0]));
      if p.Some? {
        FoldKeepsLength(S, D, c, pre + [p.value], vs[1..]);
      }
    }
  }

  // ---- cells

  /** The field whose records fill the cell. */
  function Active(D: Desc, c: nat, cell: Cell): nat
    requires c < |D.owner|
  {
    if cell.Case? && Lookup(D, cell.id).Some? then Lookup(D, cell.id).value else D.owner[c]
  }

  lemma FoldOne(S: Schema, D: Desc, i: nat, cell: Cell, r: Record)
    requires DescOk(S, D) && i < |D.fields| && r.tag == D.fields[i].id
    ensures FoldCell(S, D, D.fields[i].cell, cell, [r]) == StepCell(S, D.fields[i], cell, r)
  {
    LookupField(S, D, i);
    var x := StepCell(S, D.fields[i], cell, r);
    if x.Some? {
      assert FoldCell(S, D, D.fields[i].cell, x.value, [r][1..]) == x;
    }
  }

  lemma {:induction false} CellRoundTrip(S: Schema, D: Desc, c: nat, cell: Cell)
    requires SchemaOk(S) && DescOk(S, D) && c < |D.owner| && TypedCell(S, D, c, cell)
    ensures FoldCell(S, D, c, InitCell(D.OwnerOf(c)), FieldRecords(S, D.fields[Active(D, c, cell)], cell)) == Some(cell)
            <==> RestoredCell(S, D, c, cell)
    decreases cell, 3
  {
    hide RestoredValue, ParseValue, TypedValue, SchemaOk;
    var i := Active(D, c, cell);
    var f := D.fields[i];
    assert FieldOk(S, D, D.owner[c]) && FieldOk(S, D, i);
    if cell.Many? {
      if f.packed {
        PackedCellRoundTrip(S, D, c, cell.vs);
      } else {
        ElementsRoundTrip(S, D, c, [], cell.vs);
        assert [] + cell.vs == cell.vs;
      }
    } else {
      var e := Emitted(f, cell);
      if e.Some? {
        var init := InitCell(D.OwnerOf(c));
        FoldOne(S, D, i, init, ValueRecord(S, f, e.value));
        ValueRoundTrip(S, f, if init.Flagged? || init.Single? then init.v else ZeroValue(f), e.value);
      }
    }
  }

  lemma PackedCellRoundTrip(S: Schema, D: Desc, c: nat, vs: seq<Value>)
    requires DescOk(S, D) && c < |D.owner| && TypedCell(S, D, c, Many(vs)) && D.OwnerOf(c).packed
    ensures FoldCell(S, D, c, Many([]), FieldRecords(S, D.OwnerOf(c), Many(vs))) == Some(Many(vs))
            <==> RestoredCell(S, D, c, Many(vs))
  {
    hide ParsePacked, PackedPayload, RestoredValue, TypedValue;
    var f := D.OwnerOf(c);
    assert FieldOk(S, D, D.owner[c]);
    if vs != [] {
      var payload := PackedPayload(f.typ, vs);
      PayloadOfContent(f.id, payload);
      PackedRoundTrip(S, f, vs);
      FoldOne(S, D, D.owner[c], Many([]), LengthRecord(f.id, payload));
      var ws := ParsePacked(f.typ, payload).value;
      assert [] + ws == ws;
    }
  }

  /** Fields other than the active one write nothing of this cell. */
  lemma OthersAreSilent(S: Schema, D: Desc, c: nat, cell: Cell, k: nat)
    requires DescOk(S, D) && c < |D.owner| && TypedCell(S, D, c, cell)
    requires k < |D.fields| && D.fields[k].cell == c && k != Active(D, c, cell)
    ensures FieldRecords(S, D.fields[k], cell) == []
  {
    assert FieldOk(S, D, k) && FieldOk(S, D, D.owner[c]);
    LookupField(S, D, k);
  }

  /** The records of field i come first. */
  lemma FoldNextField(S: Schema, m: Msg, c: nat, x: Cell, i: nat)
    requires SchemaOk(S) && TypedMsg(S, m) && c < |m.cells| && i < |S[m.desc].fields|
    ensures var D := S[m.desc];
            && D.fields[i].cell < |m.cells|
            && FoldCell(S, D, c, x, RecordsFrom(S, m, i)) ==
               (match FoldCell(S, D, c, x, FieldRecords(S, D.fields[i], m.cells[D.fields[i].cell]))
                case None => None
                case Some(y) => FoldCell(S, D, c, y, RecordsFrom(S, m, i + 1)))
  {
    var D := S[m.desc];
    assert FieldOk(S, D, i);
    FoldConcat(S, D, c, x, FieldRecords(S, D.fields[i], m.cells[D.fields[i].cell]), RecordsFrom(S, m, i + 1));
  }

  /** A field that is not the one a cell holds adds nothing to the cell. */
  lemma FoldOtherField(S: Schema, m: Msg, c: nat, x: Cell, i: nat)
    requires SchemaOk(S) && TypedMsg(S, m) && c < |m.cells| && i < |S[m.desc].fields|
    requires i != Active(S[m.desc], c, m.cells[c])
    ensures var D := S[m.desc];
            && D.fields[i].cell < |m.cells|
            && FoldCell(S, D, c, x, FieldRecords(S, D.fields[i], m.cells[D.fields[i].cell])) == Some(x)
  {
    var D := S[m.desc];
    assert FieldOk(S, D, i);
    if D.fields[i].cell == c {
      OthersAreSilent(S, D, c, m.cells[c], i);
    } else {
      LookupField(S, D, i);
      FoldSkip(S, D, c, x, FieldRecords(S, D.fields[i], m.cells[D.fields[i].cell]));
    }
  }

  lemma FoldNothing(S: Schema, m: Msg, c: nat, x: Cell)
    requires m.desc < |S|
    ensures FoldCell(S, S[m.desc], c, x, RecordsFrom(S, m, |S[m.desc].fields|)) == Some(x)
  {
  }

  lemma ActiveInCell(S: Schema, m: Msg, c: nat)
    requires SchemaOk(S) && TypedMsg(S, m) && c < |m.cells|
    ensures var D := S[m.desc];
            var j := Active(D, c, m.cells[c]);
            j < |D.fields| ==> D.fields[j].cell == c
  {
    var D := S[m.desc];
    assert TypedCell(S, D, c, m.cells[c]);
    assert FieldOk(S, D, D.owner[c]);
  }

  lemma {:induction false} FieldsFold(S: Schema, m: Msg, c: nat, x: Cell, i: nat)
    requires SchemaOk(S) && TypedMsg(S, m) && c < |m.cells| && i <= |S[m.desc].fields|
    ensures var D := S[m.desc];
            var j := Active(D, c, m.cells[c]);
            FoldCell(S, D, c, x, RecordsFrom(S, m, i)) ==
            if i <= j < |D.fields| then FoldCell(S, D, c, x, FieldRecords(S, D.fields[j], m.cells[c])) else Some(x)
    decreases |S[m.desc].fields| - i
  {
    hide FoldCell, RecordsFrom, FieldRecords, Active, SchemaOk;
    var D := S[m.desc];
    if i == |D.fields| {
      FoldNothing(S, m, c, x);
    } else {
      FoldNextField(S, m, c, x, i);
      if i == Active(D, c, m.cells[c]) {
        ActiveInCell(S, m, c);
        var y := FoldCell(S, D, c, x, FieldRecords(S, D.fields[i], m.cells[c]));
        if y.Some? {
          FieldsFold(S, m, c, y.value, i + 1);
        }
      } else {
        FoldOtherField(S, m, c, x, i);
        FieldsFold(S, m, c, x, i + 1);
      }
    }
  }

  // ---- the records of the known fields

  predicate NumberRecord(f: Field, r: Record, bits: nat) {
    bits < NumLimit(f.typ) && r == Record(f.id, NumWire(f.typ), 0, NumBytes(f.typ, bits))
  }

  /** Forms a record of a field can take. */
  ghost predicate Written(f: Field, r: Record) {
    if Packable(f.typ) && !f.packed then exists bits :: NumberRecord(f, r, bits)
    else
      && r == LengthRecord(f.id, Payload(r))
      && (f.packed ==> Packable(f.typ))
      && (Is32(f.typ) || Is64(f.typ) ==> |Payload(r)| % MinSize(f.typ) == 0)
  }

  ghost predicate Known(D: Desc, r: Record) {
    var i := Lookup(D, r.tag);
    i.Some? && 1 <= r.tag <= MAX_FIELD_ID && Written(D.fields[i.value], r)
  }

  lemma ValueWritten(S: Schema, f: Field, v: Value)
    requires TypedValue(S, f, v) && !f.packed
    ensures Written(f, ValueRecord(S, f, v))
  {
    var r := ValueRecord(S, f, v);
    if v.Num? {
      assert NumberRecord(f, r, v.bits);
    } else {
      PayloadOfContent(f.id, match v
                             case Str(s) => Content(f, s)
                             case Bin(_, data) => Content(f, data)
                             case Sub(m) => if m.Ptr? then Enc(S, m.target) else []
                             case Num(_) => []);
    }
  }

  lemma {:induction false} ElementsWritten(S: Schema, f: Field, vs: seq<Value>)
    requires !f.packed && forall i :: 0 <= i < |vs| ==> TypedValue(S, f, vs[i])
    ensures forall r :: r in ElementRecords(S, f, vs) ==> Written(f, r)
  {
    if vs != [] {
      ValueWritten(S, f, vs[0]);
      ElementsWritten(S, f, vs[1..]);
    }
  }

  lemma FieldWritten(S: Schema, D: Desc, i: nat, cell: Cell)
    requires SchemaOk(S) && DescOk(S, D) && i < |D.fields|
    requires FieldOk(S, D, i) && TypedCell(S, D, D.fields[i].cell, cell)
    ensures forall r :: r in FieldRecords(S, D.fields[i], cell) ==> Written(D.fields[i], r)
  {
    var f := D.fields[i];
    assert FieldOk(S, D, D.owner[f.cell]);
    if cell.Many? {
      if f.packed && cell.vs != [] {
        PackedRoundTrip(S, f, cell.vs);
        PayloadOfContent(f.id, PackedPayload(f.typ, cell.vs));
        ModUnique(MinSize(f.typ) * |cell.vs|, MinSize(f.typ), |cell.vs|, 0);
      } else if !f.packed {
        ElementsWritten(S, f, cell.vs);
      }
    } else {
      var e := Emitted(f, cell);
      if e.Some? {
        LookupField(S, D, i);
        ValueWritten(S, f, e.value);
      }
    }
  }

  lemma {:induction false} AllKnown(S: Schema, m: Msg, i: nat)
    requires SchemaOk(S) && TypedMsg(S, m) && i <= |S[m.desc].fields|
    ensures forall r :: r in RecordsFrom(S, m, i) ==> Known(S[m.desc], r)
    decreases |S[m.desc].fields| - i
  {
    var D := S[m.desc];
    if i < |D.fields| {
      assert FieldOk(S, D, i);
      var cell := m.cells[D.fields[i].cell];
      FieldWritten(S, D, i, cell);
      LookupField(S, D, i);
      AllKnown(S, m, i + 1);
    }
  }

  lemma NumberDelimited(f: Field, r: Record, bits: nat)
    requires NumberRecord(f, r, bits) && Packable(f.typ)
    ensures WellDelimited(r) && |r.data| <= 10
  {
    NumBytesLength(f.typ, bits);
    if !Is32(f.typ) && !Is64(f.typ) {
      NumBytesTerminated(f.typ, bits);
      ExtentOfTerminated(r.data, [], 10);
      assert r.data + [] == r.data;
    }
  }

  /** A length-prefixed record can be scanned exactly when its payload is at most INT_MAX long. */
  lemma PrefixedScans(content: seq<byte>, rest: seq<byte>)
    ensures ScanData(WIRE_LENGTH, Prefixed(content) + rest) ==
            if |content| <= INT_MAX then Some((|Varint(|content|)|, |Prefixed(content)|)) else None
  {
    hide Varint, VarintValue, Extent, Terminated, Pow128;
    var p := Varint(|content|);
    var s := Prefixed(content) + rest;
    assert s == p + (content + rest);
    VarintRoundTrip(|content|);
    ExtentOfTerminated(p, content + rest, 5);
    assert s[..|p|] == p;
    Pow128Values();
    VarintLength(|content|, 5);
  }

  lemma KnownScans(D: Desc, r: Record, rest: seq<byte>)
    requires Known(D, r)
    ensures |Payload(r)| <= INT_MAX ==> ValidRecord(r)
    ensures |Payload(r)| > INT_MAX ==> ScanOne(EncRecord(r) + rest) == None
    ensures Countable(D, r)
  {
    var f := D.fields[Lookup(D, r.tag).value];
    if Packable(f.typ) && !f.packed {
      var bits :| NumberRecord(f, r, bits);
      NumberDelimited(f, r, bits);
    } else {
      PrefixedScans(Payload(r), []);
      assert Prefixed(Payload(r)) + [] == r.data;
      if |Payload(r)| > INT_MAX {
        var h, s := Header(r.tag, r.wire), EncRecord(r) + rest;
        HeaderScans(r.tag, r.wire, r.data + rest);
        assert s == h + (r.data + rest);
        assert s[|h|..] == r.data + rest;
        PrefixedScans(Payload(r), rest);
      }
    }
  }

  lemma BadRecordStops(s: seq<byte>)
    requires s != [] && ScanOne(s) == None
    ensures Scan(s) == None
  {
  }

  lemma FlattenFirst(rs: seq<Record>, rest: seq<byte>)
    requires rs != []
    ensures Flatten(rs) + rest == EncRecord(rs[0]) + (Flatten(rs[1..]) + rest) != []
  {
  }

  /** A payload over INT_MAX anywhere makes the scan fail. */
  lemma {:induction false} LongPayloadStops(D: Desc, rs: seq<Record>, k: nat, rest: seq<byte>)
    requires k < |rs| && |Payload(rs[k])| > INT_MAX
    requires forall r :: r in rs ==> Known(D, r)
    ensures Scan(Flatten(rs) + rest) == None
  {
    hide Flatten, EncRecord, Payload, Known, Scan, ScanOne, ValidRecord;
    var tail := Flatten(rs[1..]) + rest;
    FlattenFirst(rs, rest);
    KnownScans(D, rs[0], tail);
    if |Payload(rs[0])| <= INT_MAX {
      ScanRecordThen(rs[0], tail);
      LongPayloadStops(D, rs[1..], k - 1, rest);
    } else {
      BadRecordStops(EncRecord(rs[0]) + tail);
    }
  }

  lemma {:induction false} RequiredWritten(S: Schema, m: Msg, i: nat, j: nat)
    requires SchemaOk(S) && TypedMsg(S, m) && i <= j < |S[m.desc].fields|
    requires S[m.desc].fields[j].rule.Required?
    ensures exists k :: 0 <= k < |RecordsFrom(S, m, i)| && RecordsFrom(S, m, i)[k].tag == S[m.desc].fields[j].id
    decreases j - i
  {
    var D := S[m.desc];
    var f := D.fields[i];
    assert FieldOk(S, D, i);
    var first, rest := FieldRecords(S, f, m.cells[f.cell]), RecordsFrom(S, m, i + 1);
    assert RecordsFrom(S, m, i) == first + rest;
    if i == j {
      assert TypedCell(S, D, f.cell, m.cells[f.cell]);
      assert RecordsFrom(S, m, i)[0] == first[0];
    } else {
      RequiredWritten(S, m, i + 1, j);
      var k :| 0 <= k < |rest| && rest[k].tag == D.fields[j].id;
      assert RecordsFrom(S, m, i)[|first| + k] == rest[k];
    }
  }

  // ---- unknown fields

  lemma {:induction false} UnknownRecordsAt(us: seq<Unknown>)
    ensures |UnknownRecords(us)| == |us|
    ensures forall i :: 0 <= i < |us| ==> UnknownRecords(us)[i] == UnknownRecord(us[i])
  {
    if us != [] {
      UnknownRecordsAt(us[1..]);
    }
  }

  lemma {:induction false} UnknownsKept(D: Desc, us: seq<Unknown>)
    requires forall i :: 0 <= i < |us| ==> Lookup(D, us[i].tag).None?
    ensures UnknownsOf(D, UnknownRecords(us)) == us
  {
    if us != [] {
      UnknownsKept(D, us[1..]);
      assert UnknownRecords(us)[1..] == UnknownRecords(us[1..]);
    }
  }

  lemma {:induction false} KnownsDropped(D: Desc, rs: seq<Record>)
    requires forall r :: r in rs ==> Lookup(D, r.tag).Some?
    ensures UnknownsOf(D, rs) == []
  {
    if rs != [] {
      KnownsDropped(D, rs[1..]);
    }
  }

  lemma DelimitedUnknown(r: Record)
    requires WellDelimited(r)
    ensures UnknownRecord(Unknown(r.tag, r.wire, r.data)) == r
  {
  }

  /** Every unknown field kept by a decoder came from a well-delimited record of that tag. */
  lemma {:induction false} UnknownsAreScanned(D: Desc, rs: seq<Record>)
    requires forall r :: r in rs ==> WellDelimited(r)
    ensures forall u :: u in UnknownsOf(D, rs) ==>
              Lookup(D, u.tag).None? && WellDelimited(UnknownRecord(u))
  {
    if rs != [] {
      UnknownsAreScanned(D, rs[1..]);
      DelimitedUnknown(rs[0]);
    }
  }

  // ---- the whole message

  /** Folding all records of a message over an untouched cell, whatever unknown records follow. */
  lemma {:induction false} WholeFold(S: Schema, m: Msg, c: nat, tail: seq<Record>)
    requires SchemaOk(S) && TypedMsg(S, m) && c < |m.cells|
    requires forall r :: r in tail ==> Lookup(S[m.desc], r.tag).None?
    ensures var D := S[m.desc];
            FoldCell(S, D, c, InitCell(D.OwnerOf(c)), RecordsFrom(S, m, 0) + tail) == Some(m.cells[c])
            <==> RestoredCell(S, D, c, m.cells[c])
    decreases m, 1
  {
    var D := S[m.desc];
    var init := InitCell(D.OwnerOf(c));
    FoldConcat(S, D, c, init, RecordsFrom(S, m, 0), tail);
    FieldsFold(S, m, c, init, 0);
    CellRoundTrip(S, D, c, m.cells[c]);
    var x := FoldCell(S, D, c, init, RecordsFrom(S, m, 0));
    if x.Some? {
      FoldSkip(S, D, c, x.value, tail);
    }
  }

  /** Known records followed by unknown ones, all valid, pass the checks made before parsing. */
  lemma RecordsAcceptable(S: Schema, m: Msg, tail: seq<Record>)
    requires SchemaOk(S) && TypedMsg(S, m)
    requires forall r :: r in tail ==> Lookup(S[m.desc], r.tag).None?
    ensures var rs := RecordsFrom(S, m, 0) + tail;
            Acceptable(S[m.desc], rs) <==> |rs| <= MAX_RECORDS
  {
    var D := S[m.desc];
    var rs := RecordsFrom(S, m, 0) + tail;
    AllKnown(S, m, 0);
    forall k | 0 <= k < |rs|
      ensures Countable(D, rs[k])
    {
      if k < |RecordsFrom(S, m, 0)| {
        KnownScans(D, rs[k], []);
      }
    }
    forall i | 0 <= i < |D.fields|
      ensures Present(D, rs, i)
    {
      if D.fields[i].rule.Required? {
        RequiredWritten(S, m, 0, i);
        var k :| 0 <= k < |RecordsFrom(S, m, 0)| && RecordsFrom(S, m, 0)[k].tag == D.fields[i].id;
        LookupField(S, D, i);
        assert rs[k].tag == D.fields[i].id;
      }
    }
  }

  /** A scan that starts with the known records of a message: their payloads fit, and the rest scans too. */
  lemma KnownPrefixScans(S: Schema, m: Msg, rest: seq<byte>)
    requires SchemaOk(S) && TypedMsg(S, m)
    ensures (forall r :: r in RecordsFrom(S, m, 0) ==> |Payload(r)| <= INT_MAX) ==>
              Scan(Flatten(RecordsFrom(S, m, 0)) + rest) == Append(RecordsFrom(S, m, 0), Scan(rest))
    ensures Scan(Flatten(RecordsFrom(S, m, 0)) + rest).Some? ==>
              forall r :: r in RecordsFrom(S, m, 0) ==> |Payload(r)| <= INT_MAX
  {
    var D := S[m.desc];
    var rs := RecordsFrom(S, m, 0);
    AllKnown(S, m, 0);
    if k :| 0 <= k < |rs| && |Payload(rs[k])| > INT_MAX {
      LongPayloadStops(D, rs, k, rest);
    } else {
      forall r | r in rs
        ensures ValidRecord(r)
      {
        KnownScans(D, r, []);
      }
      ScanFlatten(rs, rest);
    }
  }

  lemma EncScans(S: Schema, m: Msg)
    requires SchemaOk(S) && TypedMsg(S, m) && RoundTrips(S, m)
    ensures Scan(Enc(S, m)) == Some(RecordsOf(S, m))
  {
    var known, tail := RecordsFrom(S, m, 0), UnknownRecords(m.unknown);
    FlattenConcat(known, tail);
    KnownPrefixScans(S, m, Flatten(tail));
    UnknownRecordsAt(m.unknown);
    forall r | r in tail
      ensures ValidRecord(r)
    {
      var i :| 0 <= i < |m.unknown| && r == UnknownRecord(m.unknown[i]);
    }
    ScanFlatten(tail, []);
    assert Flatten(tail) + [] == Flatten(tail);
    assert tail + [] == tail;
  }

  lemma UnknownTags(D: Desc, us: seq<Unknown>)
    requires forall i :: 0 <= i < |us| ==> PreservedUnknown(D, us[i])
    ensures forall r :: r in UnknownRecords(us) ==> Lookup(D, r.tag).None?
    ensures UnknownsOf(D, UnknownRecords(us)) == us
  {
    UnknownRecordsAt(us);
    UnknownsKept(D, us);
  }

  lemma {:induction false} CellsRestored(S: Schema, m: Msg)
    requires SchemaOk(S) && TypedMsg(S, m) && RoundTrips(S, m)
    ensures forall c :: 0 <= c < |m.cells| ==>
              FoldCell(S, S[m.desc], c, InitCells(S[m.desc])[c], RecordsOf(S, m)) == Some(m.cells[c])
    decreases m, 2
  {
    UnknownTags(S[m.desc], m.unknown);
    forall c | 0 <= c < |m.cells|
      ensures FoldCell(S, S[m.desc], c, InitCells(S[m.desc])[c], RecordsOf(S, m)) == Some(m.cells[c])
    {
      WholeFold(S, m, c, UnknownRecords(m.unknown));
    }
  }

  lemma UnpackScanned(S: Schema, d: nat, s: seq<byte>, rs: seq<Record>, cells: seq<Cell>)
    requires SchemaOk(S) && d < |S| && Scan(s) == Some(rs) && Acceptable(S[d], rs)
    requires |cells| == |S[d].owner|
    requires forall c :: 0 <= c < |cells| ==> S[d].owner[c] < |S[d].fields|
    requires forall c :: 0 <= c < |cells| ==> FoldCell(S, S[d], c, InitCells(S[d])[c], rs) == Some(cells[c])
    ensures Unpack(S, d, s) == Some(Msg(d, cells, UnknownsOf(S[d], rs)))
  {
    CellsFit(S, d);
    ParseFromCells(S, InitMsg(S, d), rs, cells);
    assert [] + UnknownsOf(S[d], rs) == UnknownsOf(S[d], rs);
  }

  lemma {:induction false} Restores(S: Schema, m: Msg)
    requires SchemaOk(S) && TypedMsg(S, m) && RoundTrips(S, m)
    ensures Unpack(S, m.desc, Enc(S, m)) == Some(m)
    decreases m, 3
  {
    var tail := UnknownRecords(m.unknown);
    EncScans(S, m);
    UnknownTags(S[m.desc], m.unknown);
    RecordsAcceptable(S, m, tail);
    CellsRestored(S, m);
    UnpackScanned(S, m.desc, Enc(S, m), RecordsOf(S, m), m.cells);
    KeptUnknowns(S, m, tail);
  }

  lemma KeptUnknowns(S: Schema, m: Msg, tail: seq<Record>)
    requires SchemaOk(S) && TypedMsg(S, m)
    ensures UnknownsOf(S[m.desc], RecordsFrom(S, m, 0) + tail) == UnknownsOf(S[m.desc], tail)
  {
    var known := RecordsFrom(S, m, 0);
    AllKnown(S, m, 0);
    KnownsDropped(S[m.desc], known);
    UnknownsConcat(S[m.desc], known, tail);
  }

  /** What an unchanged message says about the scan and the folds it came from. */
  lemma UnpackedParts(S: Schema, m: Msg)
    requires SchemaOk(S) && TypedMsg(S, m) && Unpack(S, m.desc, Enc(S, m)) == Some(m)
    ensures forall r :: r in RecordsFrom(S, m, 0) ==> |Payload(r)| <= INT_MAX
    ensures var scanned := Scan(Flatten(UnknownRecords(m.unknown)));
            && scanned.Some?
            && UnknownsOf(S[m.desc], scanned.value) == m.unknown
            && |RecordsFrom(S, m, 0) + scanned.value| <= MAX_RECORDS
            && forall c :: 0 <= c < |m.cells| ==>
                 FoldCell(S, S[m.desc], c, InitCell(S[m.desc].OwnerOf(c)), RecordsFrom(S, m, 0) + scanned.value)
                 == Some(m.cells[c])
  {
    var tail := UnknownRecords(m.unknown);
    FlattenConcat(RecordsFrom(S, m, 0), tail);
    KnownPrefixScans(S, m, Flatten(tail));
    var rs := RecordsFrom(S, m, 0) + Scan(Flatten(tail)).value;
    assert Scan(Enc(S, m)) == Some(rs);
    CellsFit(S, m.desc);
    ParseByCell(S, InitMsg(S, m.desc), rs);
    KeptUnknowns(S, m, Scan(Flatten(tail)).value);
  }

  lemma {:induction false} RestoredOnly(S: Schema, m: Msg)
    requires SchemaOk(S) && TypedMsg(S, m) && Unpack(S, m.desc, Enc(S, m)) == Some(m)
    ensures RoundTrips(S, m)
    decreases m, 2
  {
    UnpackedParts(S, m);
    UnknownTail(S[m.desc], m.unknown);
    UnknownTags(S[m.desc], m.unknown);
    forall c | 0 <= c < |m.cells|
      ensures RestoredCell(S, S[m.desc], c, m.cells[c])
    {
      WholeFold(S, m, c, UnknownRecords(m.unknown));
    }
  }

  /** Unknown records that scan back to themselves are valid, and are all that was scanned. */
  lemma UnknownTail(D: Desc, us: seq<Unknown>)
    requires forall i :: 0 <= i < |us| ==> TypedUnknown(us[i])
    requires Scan(Flatten(UnknownRecords(us))).Some?
    requires UnknownsOf(D, Scan(Flatten(UnknownRecords(us))).value) == us
    ensures forall i :: 0 <= i < |us| ==> PreservedUnknown(D, us[i])
    ensures Scan(Flatten(UnknownRecords(us))) == Some(UnknownRecords(us))
  {
    var tail := UnknownRecords(us);
    var s := Flatten(tail);
    UnknownRecordsAt(us);
    UnknownsDelimited(D, us);
    forall i | 0 <= i < |us|
      ensures us[i].tag >= 1
    {
      if us[i].tag == 0 {
        ZeroTagStops(tail, i);
      }
    }
    ScanFlatten(tail, []);
    assert s + [] == s;
    assert tail + [] == tail;
  }

  lemma UnknownsDelimited(D: Desc, us: seq<Unknown>)
    requires Scan(Flatten(UnknownRecords(us))).Some?
    requires UnknownsOf(D, Scan(Flatten(UnknownRecords(us))).value) == us
    ensures forall i :: 0 <= i < |us| ==> Lookup(D, us[i].tag).None? && WellDelimited(UnknownRecord(us[i]))
    ensures forall r :: r in UnknownRecords(us) ==> WellDelimited(r)
  {
    var rs := Scan(Flatten(UnknownRecords(us))).value;
    ScannedAreDelimited(Flatten(UnknownRecords(us)));
    UnknownsAreScanned(D, rs);
    assert forall i :: 0 <= i < |us| ==> us[i] in UnknownsOf(D, rs);
    UnknownRecordsAt(us);
  }

  /**
   * Packing and unpacking gives a message back if and only if RoundTrips holds
   * of it, for every schema and every message of it.
   */
  lemma {:induction false} MessageRoundTrip(S: Schema, m: Msg)
    requires SchemaOk(S) && TypedMsg(S, m)
    ensures Unpack(S, m.desc, Enc(S, m)) == Some(m) <==> RoundTrips(S, m)
    decreases m, 4
  {
    if RoundTrips(S, m) {
      Restores(S, m);
    }
    if Unpack(S, m.desc, Enc(S, m)) == Some(m) {
      RestoredOnly(S, m);
    }
  }
}
