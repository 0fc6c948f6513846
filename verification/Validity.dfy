/** Every message the decoder accepts is well typed and passes protobuf_c_message_check. */
module Validity {
  import opened Words
  import opened Descriptors
  import opened Varints
  import opened Scalars
  import opened Wire
  import opened Decoding
  import opened ScanLaws
  import opened Folding

  // ---- protobuf_c_message_check

  /** The source looks at a "has" flag before it tests bytes. Here the test is always made, which is the same for typed messages (CheckedEverywhere). */
  predicate CheckedValue(S: Schema, required: bool, v: Value)
    decreases v, 0
  {
    match v
    case Num(_) => true
    case Str(s) => required ==> !s.Null?
    case Bin(len, data) => len > 0 ==> !data.Null?
    case Sub(m) => if m.Ptr? then Checked(S, m.target) else required ==> !m.Null?
  }

  predicate CheckedCell(S: Schema, f: Field, cell: Cell)
    decreases cell, 0
  {
    match cell
    case Single(v) => CheckedValue(S, f.rule.Required?, v)
    case Flagged(_, v) => CheckedValue(S, f.rule.Required?, v)
    case Many(vs) => forall i :: 0 <= i < |vs| ==> CheckedValue(S, true, vs[i])
    case NoCase => true
    case Case(id, v) => id == f.id ==> CheckedValue(S, f.rule.Required?, v)
  }

  predicate Checked(S: Schema, m: Msg)
    decreases m, 1
  {
    var D := DescOf(S, m.desc);
    forall i :: 0 <= i < |D.fields| && D.fields[i].cell < |m.cells| ==>
      CheckedCell(S, D.fields[i], m.cells[D.fields[i].cell])
  }

  // ---- values made by the decoder

  /** What parsing leaves in a member or in an array slot. */
  predicate GoodValue(S: Schema, f: Field, required: bool, v: Value) {
    TypedValue(S, f, v) && CheckedValue(S, required, v)
  }

  predicate GoodCell(S: Schema, D: Desc, c: nat, cell: Cell)
    requires c < |D.owner| && D.owner[c] < |D.fields|
  {
    TypedCell(S, D, c, cell) &&
    forall i :: 0 <= i < |D.fields| && D.fields[i].cell == c ==> CheckedCell(S, D.fields[i], cell)
  }

  lemma ParseNumBound(t: FieldType, s: seq<byte>)
    requires Packable(t) && (Is32(t) || Is64(t) ==> |s| == MinSize(t))
    ensures ParseNum(t, s) < NumLimit(t)
  {
    Pow256Values();
    FromLittleEndianBound(s);
    match t {
      case SInt32 => UnzigzagBound(VarintValue(s) % TWO_32, TWO_32);
      case SInt64 => UnzigzagBound(VarintValue(s) % TWO_64, TWO_64);
      case _ =>
    }
  }

  lemma UnzigzagBound(u: nat, limit: nat)
    requires u < limit
    ensures 0 <= Unzigzag(u, limit) < limit
  {
  }

  lemma {:induction false} ParsePackedGood(S: Schema, f: Field, s: seq<byte>)
    requires Packable(f.typ) && ParsePacked(f.typ, s).Some?
    ensures forall i :: 0 <= i < |ParsePacked(f.typ, s).value| ==>
              var v := ParsePacked(f.typ, s).value[i];
              GoodValue(S, f, true, v) && NonNull(v)
    decreases |s|
  {
    var t := f.typ;
    if s != [] {
      var n := if Is32(t) || Is64(t) then MinSize(t) else Extent(s, 10);
      ParsePackedGood(S, f, s[n..]);
      ParseNumBound(t, s[..n]);
    }
  }

  // ---- merging

  lemma {:induction false} MergeValueGood(S: Schema, f: Field, required: bool, e: Value, l: Value)
    requires SchemaOk(S)
    requires GoodValue(S, f, required, e) && GoodValue(S, f, required, l)
    requires MergeValue(S, f, e, l).Some?
    ensures GoodValue(S, f, required, MergeValue(S, f, e, l).value)
    ensures l.Sub? && l.msg.Ptr? ==> MergeValue(S, f, e, l).value.msg.Ptr?
    decreases e, 0
  {
    if e.Sub? && l.Sub? && e.msg.Ptr? && l.msg.Ptr? {
      MergeGood(S, e.msg.target, l.msg.target);
    }
  }

  lemma {:induction false} MergeCellGood(S: Schema, D: Desc, c: nat, e: Cell, l: Cell)
    requires SchemaOk(S) && DescOk(S, D) && c < |D.owner|
    requires GoodCell(S, D, c, e) && GoodCell(S, D, c, l)
    requires MergeCell(S, D, D.OwnerOf(c), e, l).Some?
    ensures GoodCell(S, D, c, MergeCell(S, D, D.OwnerOf(c), e, l).value)
    decreases e, 0
  {
    var f := D.OwnerOf(c);
    assert FieldOk(S, D, D.owner[c]);
    var r := MergeCell(S, D, f, e, l).value;
    forall i | 0 <= i < |D.fields| && D.fields[i].cell == c
      ensures CheckedCell(S, D.fields[i], r) && TypedCell(S, D, c, r)
    {
      assert FieldOk(S, D, i);
      assert CheckedCell(S, D.fields[i], e) && CheckedCell(S, D.fields[i], l);
      if e.Single? && l.Single? && !f.rule.Required? {
        MergeValueGood(S, f, f.rule.Required?, e.v, l.v);
      }
    }
  }

  lemma {:induction false} MergeCellsAt(S: Schema, e: Msg, l: Msg, c: nat, k: nat)
    requires c <= k < |l.cells| && MergeCells(S, e, l, c).Some?
    requires |e.cells| == |l.cells| == |DescOf(S, l.desc).owner|
    requires DescOf(S, l.desc).owner[k] < |DescOf(S, l.desc).fields|
    ensures var D := DescOf(S, l.desc);
            MergeCell(S, D, D.OwnerOf(k), e.cells[k], l.cells[k]) == Some(MergeCells(S, e, l, c).value[k - c])
    decreases k - c
  {
    if c < k {
      MergeCellsAt(S, e, l, c + 1, k);
    }
  }

  lemma {:induction false} MergeGood(S: Schema, e: Msg, l: Msg)
    requires SchemaOk(S) && e.desc == l.desc
    requires TypedMsg(S, e) && Checked(S, e) && TypedMsg(S, l) && Checked(S, l)
    requires Merge(S, e, l).Some?
    ensures TypedMsg(S, Merge(S, e, l).value) && Checked(S, Merge(S, e, l).value)
    decreases e, 1
  {
    var D := S[l.desc];
    var r := Merge(S, e, l).value;
    forall c | 0 <= c < |l.cells|
      ensures GoodCell(S, D, c, r.cells[c])
    {
      MergeCellsAt(S, e, l, 0, c);
      MergeCellGood(S, D, c, e.cells[c], l.cells[c]);
    }
    GoodCells(S, r);
  }

  lemma GoodCells(S: Schema, m: Msg)
    requires SchemaOk(S) && m.desc < |S| && |m.cells| == |S[m.desc].owner|
    requires forall c :: 0 <= c < |m.cells| ==> S[m.desc].owner[c] < |S[m.desc].fields|
    requires forall c :: 0 <= c < |m.cells| ==> GoodCell(S, S[m.desc], c, m.cells[c])
    requires forall i :: 0 <= i < |m.unknown| ==> TypedUnknown(m.unknown[i])
    ensures TypedMsg(S, m) && Checked(S, m)
  {
  }

  // ---- parsing

  lemma {:induction false} ParseValueGood(S: Schema, f: Field, required: bool, was: Value, r: Record)
    requires SchemaOk(S) && (f.typ.Message? ==> f.sub < |S|) && WellDelimited(r)
    requires GoodValue(S, f, false, was)
    requires ParseValue(S, f, was, r).Some?
    ensures var v := ParseValue(S, f, was, r).value;
            GoodValue(S, f, required, v) && NonNull(v)
    decreases |r.data|, 3
  {
    if Packable(f.typ) {
      ParseNumBound(f.typ, r.data);
    } else if f.typ.Message? {
      var u := Unpack(S, f.sub, Payload(r)).value;
      UnpackGood(S, f.sub, Payload(r));
      MergeValueGood(S, f, false, was, Sub(Ptr(u)));
    }
  }

  lemma {:induction false} StepCellGood(S: Schema, D: Desc, i: nat, cell: Cell, r: Record)
    requires SchemaOk(S) && DescOk(S, D) && i < |D.fields| && FieldOk(S, D, i)
    requires r.tag == D.fields[i].id && WellDelimited(r)
    requires GoodStart(S, D, D.fields[i].cell, cell)
    requires StepCell(S, D.fields[i], cell, r).Some?
    ensures GoodCell(S, D, D.fields[i].cell, StepCell(S, D.fields[i], cell, r).value)
    decreases |r.data|, 4
  {
    hide ParseValue, ParsePacked, Lookup, SchemaOk, DescOk, WellDelimited;
    var f := D.fields[i];
    var c := f.cell;
    var x := StepCell(S, f, cell, r).value;
    assert FieldOk(S, D, D.owner[c]) by { OwnerOk(S, D, i); }
    LookupField(S, D, i);
    if IsPackedRecord(f, r) {
      ParsePackedGood(S, f, Payload(r));
    } else {
      ParseValueGood(S, f, true, if (cell.Flagged? || cell.Single?) && !f.oneof then cell.v else ZeroValue(f), r);
    }
    forall j | 0 <= j < |D.fields| && D.fields[j].cell == c
      ensures CheckedCell(S, D.fields[j], x)
    {
      FieldsOk(S, D, j);
    }
  }

  lemma FieldsOk(S: Schema, D: Desc, j: nat)
    requires DescOk(S, D) && j < |D.fields|
    ensures FieldOk(S, D, j)
  {
  }

  lemma OwnerOk(S: Schema, D: Desc, i: nat)
    requires DescOk(S, D) && i < |D.fields|
    ensures FieldOk(S, D, i) && D.owner[D.fields[i].cell] < |D.fields| && FieldOk(S, D, D.owner[D.fields[i].cell])
  {
    assert FieldOk(S, D, i);
  }

  /** Like GoodCell, but a required member may still be unset. */
  predicate GoodStart(S: Schema, D: Desc, c: nat, cell: Cell)
    requires c < |D.owner| && D.owner[c] < |D.fields|
  {
    TypedCell(S, D, c, cell) &&
    (cell.Single? && D.OwnerOf(c).rule.Required? ==> CheckedValue(S, false, cell.v)) &&
    (!(cell.Single? && D.OwnerOf(c).rule.Required?) ==> GoodCell(S, D, c, cell))
  }

  lemma GoodIsStart(S: Schema, D: Desc, c: nat, cell: Cell)
    requires DescOk(S, D) && c < |D.owner| && GoodCell(S, D, c, cell)
    ensures GoodStart(S, D, c, cell)
  {
    assert CheckedCell(S, D.fields[D.owner[c]], cell);
  }

  lemma {:induction false} FoldCellGood(S: Schema, D: Desc, c: nat, cell: Cell, rs: seq<Record>)
    requires SchemaOk(S) && DescOk(S, D) && c < |D.owner|
    requires forall r :: r in rs ==> WellDelimited(r)
    requires GoodStart(S, D, c, cell)
    requires FoldCell(S, D, c, cell, rs).Some?
    ensures var x := FoldCell(S, D, c, cell, rs).value;
            && GoodStart(S, D, c, x)
            && (GoodCell(S, D, c, cell) || (exists k :: 0 <= k < |rs| && Hits(D, c, rs[k])) ==> GoodCell(S, D, c, x))
    decreases Weight(rs), 0
  {
    if rs != [] {
      if Hits(D, c, rs[0]) {
        var i := Lookup(D, rs[0].tag).value;
        assert FieldOk(S, D, i);
        StepCellGood(S, D, i, cell, rs[0]);
        GoodIsStart(S, D, c, StepCell(S, D.fields[i], cell, rs[0]).value);
        FoldCellGood(S, D, c, StepCell(S, D.fields[i], cell, rs[0]).value, rs[1..]);
      } else {
        FoldCellGood(S, D, c, cell, rs[1..]);
        if k :| 0 <= k < |rs| && Hits(D, c, rs[k]) {
          assert Hits(D, c, rs[1..][k - 1]);
        }
      }
    }
  }

  lemma InitCellGood(S: Schema, D: Desc, c: nat)
    requires DescOk(S, D) && c < |D.owner|
    ensures var f := D.OwnerOf(c);
            && GoodStart(S, D, c, InitCell(f))
            && ((f.rule.Required? && f.dflt.None? && f.dfltNum.None?) || GoodCell(S, D, c, InitCell(f)))
  {
    var f := D.OwnerOf(c);
    assert FieldOk(S, D, D.owner[c]);
    forall i | 0 <= i < |D.fields| && D.fields[i].cell == c
      ensures (f.rule.Required? && f.dflt.None? && f.dfltNum.None?) || CheckedCell(S, D.fields[i], InitCell(f))
    {
      assert FieldOk(S, D, i);
    }
  }

  /** After a successful parse every cell is good: unset required members have been seen. */
  lemma {:induction false} ParsedCellGood(S: Schema, D: Desc, c: nat, rs: seq<Record>)
    requires SchemaOk(S) && DescOk(S, D) && c < |D.owner|
    requires forall r :: r in rs ==> WellDelimited(r)
    requires Present(D, rs, D.owner[c])
    requires FoldCell(S, D, c, InitCell(D.OwnerOf(c)), rs).Some?
    ensures GoodCell(S, D, c, FoldCell(S, D, c, InitCell(D.OwnerOf(c)), rs).value)
    decreases Weight(rs), 1
  {
    InitCellGood(S, D, c);
    FoldCellGood(S, D, c, InitCell(D.OwnerOf(c)), rs);
    if !GoodCell(S, D, c, InitCell(D.OwnerOf(c))) {
      var k :| 0 <= k < |rs| && Lookup(D, rs[k].tag) == Some(D.owner[c]);
      assert Hits(D, c, rs[k]);
    }
  }

  lemma {:induction false} UnknownsTyped(D: Desc, rs: seq<Record>)
    requires forall r :: r in rs ==> r.tag < TWO_32 && r.wire < 8
    ensures forall u :: u in UnknownsOf(D, rs) ==> TypedUnknown(u)
  {
    if rs != [] {
      UnknownsTyped(D, rs[1..]);
    }
  }

  /** Every accepted message is well typed and passes protobuf_c_message_check, at every depth. */
  lemma {:induction false} UnpackGood(S: Schema, d: nat, s: seq<byte>)
    requires SchemaOk(S) && d < |S| && Unpack(S, d, s).Some?
    ensures TypedMsg(S, Unpack(S, d, s).value) && Checked(S, Unpack(S, d, s).value)
    decreases |s|, 2
  {
    var D := S[d];
    var rs := Scan(s).value;
    var m := Unpack(S, d, s).value;
    ScannedAreDelimited(s);
    CellsFit(S, d);
    ParseByCell(S, InitMsg(S, d), rs);
    forall c | 0 <= c < |m.cells|
      ensures GoodCell(S, D, c, m.cells[c])
    {
      ParsedCellGood(S, D, c, rs);
    }
    UnknownsTyped(D, rs);
    GoodCells(S, m);
  }
}
