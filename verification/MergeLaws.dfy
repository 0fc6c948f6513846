/**
 * Decoding a concatenation is merging the decoded messages (Protocol Buffers
 * encoding, section "Last One Wins").
 */
module MergeLaws {
  import opened Words
  import opened Descriptors
  import opened Varints
  import opened Scalars
  import opened Wire
  import opened Decoding
  import opened ScanLaws
  import opened Folding
  import opened Validity

  // ---- the schemas for which it holds

  /** Unions are left out: merging two unset ones fails. */
  predicate Oneofless(S: Schema) {
    forall d, i :: 0 <= d < |S| && 0 <= i < |S[d].fields| ==> !S[d].fields[i].oneof
  }

  /** Required submessages are left out at the top: parsing merges them, merge_messages takes the latter. */
  predicate Mergeable(S: Schema, d: nat) {
    && Oneofless(S)
    && (d < |S| ==> forall i :: 0 <= i < |S[d].fields| && S[d].fields[i].rule.Required? ==> !S[d].fields[i].typ.Message?)
  }

  ghost predicate Sound(S: Schema, d: nat, m: Msg) {
    d < |S| && m.desc == d && TypedMsg(S, m) && Checked(S, m)
  }

  /** A cell of a mergeable schema, with its field. */
  ghost predicate Plain(S: Schema, D: Desc, c: nat, cell: Cell) {
    && SchemaOk(S) && Oneofless(S) && DescOk(S, D) && c < |D.owner|
    && !D.OwnerOf(c).oneof
    && GoodCell(S, D, c, cell)
  }

  /** The constructors of a plain cell and its value follow from the field. */
  lemma PlainShape(S: Schema, D: Desc, c: nat, cell: Cell)
    requires Plain(S, D, c, cell)
    ensures var f := D.OwnerOf(c);
            && (cell.Many? <==> f.rule.Repeated?)
            && (cell.Flagged? <==> Flaggable(f))
            && (cell.Single? <==> !f.rule.Repeated? && !Flaggable(f))
            && (cell.Single? || cell.Flagged? ==> TypedValue(S, f, cell.v))
  {
    assert FieldOk(S, D, D.owner[c]);
  }

  lemma PlainSub(S: Schema, D: Desc, c: nat, cell: Cell)
    requires Plain(S, D, c, cell) && cell.Single? && cell.v.Sub? && cell.v.msg.Ptr?
    ensures Sound(S, D.OwnerOf(c).sub, cell.v.msg.target)
  {
    var f := D.OwnerOf(c);
    assert FieldOk(S, D, D.owner[c]);
    assert CheckedCell(S, f, cell);
    assert TypedValue(S, f, cell.v) && CheckedValue(S, f.rule.Required?, cell.v);
  }

  // ---- merging never fails and is associative

  lemma {:induction false} MergeCellTotal(S: Schema, D: Desc, c: nat, e: Cell, l: Cell)
    requires Plain(S, D, c, e) && Plain(S, D, c, l)
    ensures MergeCell(S, D, D.OwnerOf(c), e, l).Some?
    ensures Plain(S, D, c, MergeCell(S, D, D.OwnerOf(c), e, l).value)
    decreases e, 0
  {
    var f := D.OwnerOf(c);
    assert FieldOk(S, D, D.owner[c]);
    if e.Single? && l.Single? && e.v.Sub? && l.v.Sub? && e.v.msg.Ptr? && l.v.msg.Ptr? {
      PlainSub(S, D, c, e);
      PlainSub(S, D, c, l);
      MergeTotal(S, f.sub, e.v.msg.target, l.v.msg.target);
    }
    MergeCellGood(S, D, c, e, l);
  }

  lemma {:induction false} MergeCellsTotal(S: Schema, e: Msg, l: Msg, c: nat)
    requires c <= |l.cells| == |e.cells| == |DescOf(S, l.desc).owner|
    requires var D := DescOf(S, l.desc);
             forall k :: c <= k < |l.cells| ==>
               D.owner[k] < |D.fields| && MergeCell(S, D, D.OwnerOf(k), e.cells[k], l.cells[k]).Some?
    ensures MergeCells(S, e, l, c).Some?
    decreases |l.cells| - c
  {
    if c < |l.cells| {
      MergeCellsTotal(S, e, l, c + 1);
    }
  }

  lemma PlainCells(S: Schema, d: nat, m: Msg)
    requires SchemaOk(S) && Oneofless(S) && Sound(S, d, m)
    ensures |m.cells| == |S[d].owner|
    ensures forall c :: 0 <= c < |m.cells| ==> Plain(S, S[d], c, m.cells[c])
  {
    var D := S[d];
    assert DescOk(S, D) && D == DescOf(S, m.desc);
    forall c | 0 <= c < |m.cells|
      ensures Plain(S, D, c, m.cells[c])
    {
      assert !S[d].fields[D.owner[c]].oneof;
      assert TypedCell(S, D, c, m.cells[c]);
      forall i | 0 <= i < |D.fields| && D.fields[i].cell == c
        ensures CheckedCell(S, D.fields[i], m.cells[c])
      {
        assert D.fields[i].cell < |m.cells|;
      }
    }
  }

  lemma {:induction false} MergeTotal(S: Schema, d: nat, e: Msg, l: Msg)
    requires SchemaOk(S) && Oneofless(S) && Sound(S, d, e) && Sound(S, d, l)
    ensures Merge(S, e, l).Some? && Sound(S, d, Merge(S, e, l).value)
    decreases e, 1
  {
    PlainCells(S, d, e);
    PlainCells(S, d, l);
    forall c | 0 <= c < |l.cells|
      ensures MergeCell(S, S[d], S[d].OwnerOf(c), e.cells[c], l.cells[c]).Some?
    {
      MergeCellTotal(S, S[d], c, e.cells[c], l.cells[c]);
    }
    MergeCellsTotal(S, e, l, 0);
    MergeGood(S, e, l);
  }

  function MergedCell(S: Schema, D: Desc, c: nat, e: Cell, l: Cell): Cell
    requires c < |D.owner| && D.owner[c] < |D.fields|
  {
    var r := MergeCell(S, D, D.OwnerOf(c), e, l);
    if r.Some? then r.value else l
  }

  lemma MergedAt(S: Schema, d: nat, e: Msg, l: Msg, c: nat)
    requires SchemaOk(S) && Oneofless(S) && Sound(S, d, e) && Sound(S, d, l) && c < |l.cells|
    ensures Merge(S, e, l).Some? && Merge(S, e, l).value.cells[c] == MergedCell(S, S[d], c, e.cells[c], l.cells[c])
  {
    MergeTotal(S, d, e, l);
    PlainCells(S, d, l);
    PlainCells(S, d, e);
    MergeCellsAt(S, e, l, 0, c);
  }

  lemma {:induction false} CellAssociative(S: Schema, D: Desc, c: nat, x: Cell, y: Cell, z: Cell)
    requires Plain(S, D, c, x) && Plain(S, D, c, y) && Plain(S, D, c, z)
    ensures MergedCell(S, D, c, MergedCell(S, D, c, x, y), z) == MergedCell(S, D, c, x, MergedCell(S, D, c, y, z))
    decreases x, 0
  {
    var f := D.OwnerOf(c);
    MergeCellTotal(S, D, c, x, y);
    MergeCellTotal(S, D, c, y, z);
    PlainShape(S, D, c, x);
    PlainShape(S, D, c, y);
    PlainShape(S, D, c, z);
    if x.Many? {
      assert x.vs + y.vs + z.vs == x.vs + (y.vs + z.vs);
    } else if f.rule.Required? {
      assert forall u: Cell, v: Cell :: u.Single? && v.Single? ==> MergeCell(S, D, f, u, v) == Some(v);
    } else if HasMessage(x) && HasMessage(y) && HasMessage(z) {
      PlainSub(S, D, c, x);
      PlainSub(S, D, c, y);
      PlainSub(S, D, c, z);
      MergeAssociative(S, f.sub, x.v.msg.target, y.v.msg.target, z.v.msg.target);
      MergedMeet(S, D, c, x, y);
      MergedMeet(S, D, c, y, z);
      MergedMeet(S, D, c, MergedCell(S, D, c, x, y), z);
      MergedMeet(S, D, c, x, MergedCell(S, D, c, y, z));
    } else {
      LeafAssociative(S, D, c, x, y, z);
    }
  }

  /** Unless two messages meet, merging picks one of the two cells. */
  predicate TakesFirst(f: Field, e: Cell, l: Cell) {
    match (e, l)
    case (Single(ev), Single(lv)) => !f.rule.Required? && Moves(f, ev, lv)
    case (Flagged(eh, ev), Flagged(lh, lv)) => if f.typ.Bytes? then Moves(f, ev, lv) else eh && !lh
    case _ => false
  }

  lemma MergedPick(S: Schema, D: Desc, c: nat, e: Cell, l: Cell)
    requires c < |D.owner| && D.owner[c] < |D.fields| && !D.OwnerOf(c).oneof
    requires (e.Single? && l.Single?) || (e.Flagged? && l.Flagged? && Flaggable(D.OwnerOf(c)))
    requires e.v.Sub? && l.v.Sub? ==> !e.v.msg.Ptr? || !l.v.msg.Ptr?
    ensures MergedCell(S, D, c, e, l) == if TakesFirst(D.OwnerOf(c), e, l) then e else l
  {
    var f := D.OwnerOf(c);
    if e.Single? && !f.rule.Required? {
      assert MergeValue(S, f, e.v, l.v) == Some(if Moves(f, e.v, l.v) then e.v else l.v);
    } else {
      assert MergeCell(S, D, f, e, l) == Some(if TakesFirst(f, e, l) then e else l);
    }
  }

  predicate HasMessage(cell: Cell) {
    cell.Single? && cell.v.Sub? && cell.v.msg.Ptr?
  }

  lemma MergedMeet(S: Schema, D: Desc, c: nat, e: Cell, l: Cell)
    requires c < |D.owner| && D.owner[c] < |D.fields| && !D.OwnerOf(c).rule.Required? && D.OwnerOf(c).typ.Message?
    requires HasMessage(e) && HasMessage(l)
    ensures var m := Merge(S, e.v.msg.target, l.v.msg.target);
            MergedCell(S, D, c, e, l) == if m.Some? then Single(Sub(Ptr(m.value))) else l
  {
    var f := D.OwnerOf(c);
    var m := Merge(S, e.v.msg.target, l.v.msg.target);
    assert MergeValue(S, f, e.v, l.v) == if m.Some? then Some(Sub(Ptr(m.value))) else None;
  }

  lemma LeafAssociative(S: Schema, D: Desc, c: nat, x: Cell, y: Cell, z: Cell)
    requires c < |D.owner| && D.owner[c] < |D.fields|
    requires var f := D.OwnerOf(c);
             && !f.oneof && !f.rule.Required?
             && (if Flaggable(f) then x.Flagged? && y.Flagged? && z.Flagged? else x.Single? && y.Single? && z.Single?)
             && TypedValue(S, f, x.v) && TypedValue(S, f, y.v) && TypedValue(S, f, z.v)
             && !(HasMessage(x) && HasMessage(y) && HasMessage(z))
    ensures MergedCell(S, D, c, MergedCell(S, D, c, x, y), z) == MergedCell(S, D, c, x, MergedCell(S, D, c, y, z))
  {
    var xy, yz := MergedCell(S, D, c, x, y), MergedCell(S, D, c, y, z);
    if HasMessage(x) && HasMessage(y) {
      MergedMeet(S, D, c, x, y);
    } else {
      MergedPick(S, D, c, x, y);
    }
    if HasMessage(y) && HasMessage(z) {
      MergedMeet(S, D, c, y, z);
    } else {
      MergedPick(S, D, c, y, z);
    }
    if !(HasMessage(xy) && HasMessage(z)) {
      MergedPick(S, D, c, xy, z);
    }
    if !(HasMessage(x) && HasMessage(yz)) {
      MergedPick(S, D, c, x, yz);
    }
  }

  /** merge_messages is associative on decoded messages, through nested messages. */
  lemma {:induction false} MergeAssociative(S: Schema, d: nat, x: Msg, y: Msg, z: Msg)
    requires SchemaOk(S) && Oneofless(S) && Sound(S, d, x) && Sound(S, d, y) && Sound(S, d, z)
    ensures Merge(S, x, y).Some? && Merge(S, y, z).Some?
    ensures Merge(S, Merge(S, x, y).value, z) == Merge(S, x, Merge(S, y, z).value)
    ensures Merge(S, Merge(S, x, y).value, z).Some?
    decreases x, 1
  {
    MergeTotal(S, d, x, y);
    MergeTotal(S, d, y, z);
    var xy, yz := Merge(S, x, y).value, Merge(S, y, z).value;
    MergeTotal(S, d, xy, z);
    MergeTotal(S, d, x, yz);
    var l, r := Merge(S, xy, z).value, Merge(S, x, yz).value;
    PlainCells(S, d, x);
    PlainCells(S, d, y);
    PlainCells(S, d, z);
    forall c | 0 <= c < |z.cells|
      ensures l.cells[c] == r.cells[c]
    {
      MergedAt(S, d, x, y, c);
      MergedAt(S, d, y, z, c);
      MergedAt(S, d, xy, z, c);
      MergedAt(S, d, x, yz, c);
      CellAssociative(S, S[d], c, x.cells[c], y.cells[c], z.cells[c]);
    }
    assert l.cells == r.cells;
  }

  // ---- parsing one record is merging with what it parses to

  ghost predicate RecordOf(D: Desc, i: nat, r: Record) {
    i < |D.fields| && r.tag == D.fields[i].id && WellDelimited(r)
  }

  /** Fields to which every record adds; any other record replaces what was there. */
  predicate Gathers(f: Field) {
    f.rule.Repeated? || (f.typ.Message? && !f.rule.Required?)
  }

  lemma StepIsMerge(S: Schema, D: Desc, i: nat, y: Cell, r: Record)
    requires SchemaOk(S) && RecordOf(D, i, r) && Plain(S, D, D.fields[i].cell, y) && Gathers(D.fields[i])
    ensures var f := D.fields[i];
            var u := StepCell(S, f, InitCell(f), r);
            && D.OwnerOf(f.cell) == f
            && (u.Some? ==> Plain(S, D, f.cell, u.value))
            && StepCell(S, f, y, r) == if u.Some? then Some(MergedCell(S, D, f.cell, y, u.value)) else None
  {
    var f := D.fields[i];
    var c := f.cell;
    assert FieldOk(S, D, i);
    PlainShape(S, D, c, y);
    InitCellGood(S, D, c);
    GoodIsPlain(S, D, c, InitCell(f));
    var u := StepCell(S, f, InitCell(f), r);
    if u.Some? {
      StepCellGood(S, D, i, InitCell(f), r);
      PlainShape(S, D, c, u.value);
      MergeCellTotal(S, D, c, y, u.value);
      if f.typ.Message? && y.Single? {
        var m := Unpack(S, f.sub, Payload(r)).value;
        UnpackGood(S, f.sub, Payload(r));
        if HasMessage(y) {
          MergedMeet(S, D, c, y, u.value);
          PlainSub(S, D, c, y);
          MergeTotal(S, f.sub, y.v.msg.target, m);
        } else {
          MergedPick(S, D, c, y, u.value);
        }
      } else {
        var ws := u.value.vs;
        if IsPackedRecord(f, r) {
          assert ws == ParsePacked(f.typ, Payload(r)).value;
        } else {
          assert ws == [ParseValue(S, f, ZeroValue(f), r).value];
        }
      }
    }
  }

  lemma GoodIsPlain(S: Schema, D: Desc, c: nat, cell: Cell)
    requires SchemaOk(S) && Oneofless(S) && DescOk(S, D) && c < |D.owner| && GoodCell(S, D, c, cell)
    requires !D.OwnerOf(c).oneof
    ensures Plain(S, D, c, cell)
  {
  }

  /** Parsing records on top of a merged cell is merging with the cell they are parsed into. */
  lemma {:induction false} FoldIsMerge(S: Schema, D: Desc, c: nat, y: Cell, z: Cell, rs: seq<Record>)
    requires Plain(S, D, c, y) && Plain(S, D, c, z) && Gathers(D.OwnerOf(c))
    requires forall r :: r in rs ==> WellDelimited(r)
    requires FoldCell(S, D, c, z, rs).Some?
    ensures FoldCell(S, D, c, MergedCell(S, D, c, y, z), rs) ==
            Some(MergedCell(S, D, c, y, FoldCell(S, D, c, z, rs).value))
    decreases rs
  {
    MergeCellTotal(S, D, c, y, z);
    if rs != [] {
      if Hits(D, c, rs[0]) {
        var i := Lookup(D, rs[0].tag).value;
        var f := D.fields[i];
        assert FieldOk(S, D, i);
        var yz := MergedCell(S, D, c, y, z);
        StepIsMerge(S, D, i, z, rs[0]);
        StepIsMerge(S, D, i, yz, rs[0]);
        var u := StepCell(S, f, InitCell(f), rs[0]).value;
        CellAssociative(S, D, c, y, z, u);
        MergeCellTotal(S, D, c, z, u);
        FoldIsMerge(S, D, c, y, MergedCell(S, D, c, z, u), rs[1..]);
      } else {
        FoldIsMerge(S, D, c, y, z, rs[1..]);
      }
    }
  }

  /** Without submessages the cell ends up as the last record says, whatever was there. */
  lemma {:induction false} LastDecides(S: Schema, D: Desc, c: nat, x: Cell, y: Cell, rs: seq<Record>, k: nat)
    requires DescOk(S, D) && c < |D.owner| && D.owner[c] < |D.fields| && !D.OwnerOf(c).oneof
    requires !D.OwnerOf(c).rule.Repeated? && !D.OwnerOf(c).typ.Message?
    requires (x.Single? && y.Single?) || (x.Flagged? && y.Flagged?)
    requires k < |rs| && Hits(D, c, rs[k])
    ensures FoldCell(S, D, c, x, rs) == FoldCell(S, D, c, y, rs)
    decreases rs
  {
    if Hits(D, c, rs[0]) {
      var i := Lookup(D, rs[0].tag).value;
      assert FieldOk(S, D, i) && FieldOk(S, D, D.owner[c]);
      assert StepCell(S, D.fields[i], x, rs[0]) == StepCell(S, D.fields[i], y, rs[0]);
    } else {
      LastDecides(S, D, c, x, y, rs[1..], k - 1);
    }
  }

  /** The value a record leaves in a leaf cell: the flag is set, a string is the record's own. */
  lemma {:induction false} HitShape(S: Schema, D: Desc, c: nat, x: Cell, rs: seq<Record>, k: nat)
    requires DescOk(S, D) && c < |D.owner| && D.owner[c] < |D.fields| && !D.OwnerOf(c).oneof
    requires !D.OwnerOf(c).rule.Repeated? && !D.OwnerOf(c).typ.Message?
    requires x.Single? || x.Flagged?
    requires FoldCell(S, D, c, x, rs).Some?
    requires Parsed(x) || (k < |rs| && Hits(D, c, rs[k]))
    ensures Parsed(FoldCell(S, D, c, x, rs).value)
    decreases rs
  {
    if rs != [] {
      if Hits(D, c, rs[0]) {
        var i := Lookup(D, rs[0].tag).value;
        assert FieldOk(S, D, i) && FieldOk(S, D, D.owner[c]);
        StepParsed(S, D.fields[i], x, rs[0]);
        HitShape(S, D, c, StepCell(S, D.fields[i], x, rs[0]).value, rs[1..], 0);
      } else {
        HitShape(S, D, c, x, rs[1..], if k > 0 then k - 1 else 0);
      }
    }
  }

  lemma StepParsed(S: Schema, f: Field, x: Cell, r: Record)
    requires !f.oneof && !f.rule.Repeated? && !f.typ.Message? && (x.Single? || x.Flagged?)
    requires StepCell(S, f, x, r).Some?
    ensures var y := StepCell(S, f, x, r).value;
            Parsed(y) && (y.Single? <==> x.Single?) && (y.Flagged? <==> x.Flagged?)
  {
    var v := ParseValue(S, f, x.v, r);
    assert v.Some? && (v.value.Str? ==> v.value.str.Ptr?);
  }

  predicate Parsed(x: Cell) {
    (x.Flagged? ==> x.has) && (x.Single? && x.v.Str? ==> x.v.str.Ptr?)
  }

  // ---- from cells to messages

  /** A has flag that is still off goes with an untouched value. */
  predicate Settled(D: Desc, c: nat, cell: Cell)
    requires c < |D.owner| && D.owner[c] < |D.fields|
  {
    cell.Flagged? && !cell.has ==> cell == InitCell(D.OwnerOf(c))
  }

  lemma {:induction false} FoldSettled(S: Schema, D: Desc, c: nat, cell: Cell, rs: seq<Record>)
    requires c < |D.owner| && D.owner[c] < |D.fields| && Settled(D, c, cell)
    requires FoldCell(S, D, c, cell, rs).Some?
    ensures Settled(D, c, FoldCell(S, D, c, cell, rs).value)
    decreases rs
  {
    if rs != [] {
      if Hits(D, c, rs[0]) {
        FoldSettled(S, D, c, StepCell(S, D.fields[Lookup(D, rs[0].tag).value], cell, rs[0]).value, rs[1..]);
      } else {
        FoldSettled(S, D, c, cell, rs[1..]);
      }
    }
  }

  lemma MergeInit(S: Schema, D: Desc, c: nat, y: Cell)
    requires Plain(S, D, c, y) && Settled(D, c, y) && Gathers(D.OwnerOf(c))
    ensures Plain(S, D, c, InitCell(D.OwnerOf(c)))
    ensures MergedCell(S, D, c, y, InitCell(D.OwnerOf(c))) == y
  {
    var f := D.OwnerOf(c);
    assert FieldOk(S, D, D.owner[c]);
    InitCellGood(S, D, c);
    PlainShape(S, D, c, y);
    PlainShape(S, D, c, InitCell(f));
    if y.Many? {
      assert y.vs + [] == y.vs;
    } else {
      MergedPick(S, D, c, y, InitCell(f));
    }
  }

  ghost predicate Hit(D: Desc, c: nat, rs: seq<Record>) {
    exists k :: 0 <= k < |rs| && Hits(D, c, rs[k])
  }

  predicate HasData(x: Cell) {
    (x.Single? || x.Flagged?) && x.v.Bin? && x.v.data.Ptr?
  }

  /**
   * Does B's cell merge into A's as B's records do, parsed on top of it? merge_messages always
   * takes the latter required value and the latter unlabeled number, although it may be
   * nothing but the initial one; and it takes bytes by their data pointer, although empty
   * bytes have none.
   */
  ghost predicate Agrees(D: Desc, c: nat, a: Cell, b: Cell, rb: seq<Record>)
    requires c < |D.owner| && D.owner[c] < |D.fields|
  {
    Gathers(D.OwnerOf(c)) || LeafAgrees(D.OwnerOf(c), a, b, Hit(D, c, rb))
  }

  predicate LeafAgrees(f: Field, a: Cell, b: Cell, hit: bool) {
    if f.rule.Required? || (f.rule.Unlabeled? && Packable(f.typ)) then hit || a == InitCell(f)
    else if f.typ.Bytes? then
      if hit then HasData(b) || !HasData(a) else HasData(a) || a == InitCell(f)
    else true
  }

  lemma LeafRule(S: Schema, f: Field, a: Cell, b: Cell, hit: bool)
    requires !f.oneof && !f.rule.Repeated? && !f.typ.Message?
    requires if Flaggable(f) then a.Flagged? && b.Flagged? else a.Single? && b.Single?
    requires TypedValue(S, f, a.v) && TypedValue(S, f, b.v)
    requires a.Flagged? && !a.has ==> a == InitCell(f)
    requires if hit then Parsed(b) else b == InitCell(f)
    ensures (if hit then b else a) == (if TakesFirst(f, a, b) then a else b) <==> LeafAgrees(f, a, b, hit)
  {
  }

  /** The cell after parsing B's records on top of A's cell `a`; `b` is B's own. */
  ghost function OnTop(S: Schema, D: Desc, c: nat, a: Cell, b: Cell, rb: seq<Record>): Cell
    requires c < |D.owner| && D.owner[c] < |D.fields|
  {
    if Gathers(D.OwnerOf(c)) then MergedCell(S, D, c, a, b) else if Hit(D, c, rb) then b else a
  }

  /** A cell that holds a number, a string or bytes. */
  lemma LeafOnTop(S: Schema, D: Desc, c: nat, a: Cell, rb: seq<Record>)
    requires Plain(S, D, c, a) && Settled(D, c, a)
    requires !D.OwnerOf(c).rule.Repeated? && !D.OwnerOf(c).typ.Message?
    requires FoldCell(S, D, c, InitCell(D.OwnerOf(c)), rb).Some?
    requires Plain(S, D, c, FoldCell(S, D, c, InitCell(D.OwnerOf(c)), rb).value)
    ensures var b := FoldCell(S, D, c, InitCell(D.OwnerOf(c)), rb).value;
            && FoldCell(S, D, c, a, rb) == Some(OnTop(S, D, c, a, b, rb))
            && (OnTop(S, D, c, a, b, rb) == MergedCell(S, D, c, a, b) <==> Agrees(D, c, a, b, rb))
  {
    var f := D.OwnerOf(c);
    var init := InitCell(f);
    var b := FoldCell(S, D, c, init, rb).value;
    assert FieldOk(S, D, D.owner[c]);
    PlainShape(S, D, c, a);
    PlainShape(S, D, c, b);
    if k :| 0 <= k < |rb| && Hits(D, c, rb[k]) {
      LastDecides(S, D, c, a, init, rb, k);
      HitShape(S, D, c, init, rb, k);
    } else {
      FoldSkip(S, D, c, a, rb);
      FoldSkip(S, D, c, init, rb);
    }
    MergedPick(S, D, c, a, b);
    LeafRule(S, f, a, b, Hit(D, c, rb));
  }

  /** One cell of the theorem below. */
  lemma CellHomomorphism(S: Schema, d: nat, c: nat, ra: seq<Record>, rb: seq<Record>)
    requires SchemaOk(S) && Mergeable(S, d) && d < |S| && c < |S[d].owner|
    requires forall r :: r in ra + rb ==> WellDelimited(r)
    requires var D := S[d];
             && D.owner[c] < |D.fields|
             && Present(D, ra, D.owner[c]) && Present(D, rb, D.owner[c])
             && FoldCell(S, D, c, InitCell(D.OwnerOf(c)), ra).Some?
             && FoldCell(S, D, c, InitCell(D.OwnerOf(c)), rb).Some?
    ensures var D := S[d];
            var init := InitCell(D.OwnerOf(c));
            var a, b := FoldCell(S, D, c, init, ra).value, FoldCell(S, D, c, init, rb).value;
            && FoldCell(S, D, c, a, rb) == Some(OnTop(S, D, c, a, b, rb))
            && (OnTop(S, D, c, a, b, rb) == MergedCell(S, D, c, a, b) <==> Agrees(D, c, a, b, rb))
  {
    var D := S[d];
    var f := D.OwnerOf(c);
    var init := InitCell(f);
    assert DescOk(S, D) && FieldOk(S, D, D.owner[c]);
    assert !S[d].fields[D.owner[c]].oneof;
    assert forall r :: r in ra ==> r in ra + rb;
    assert forall r :: r in rb ==> r in ra + rb;
    ParsedCellGood(S, D, c, ra);
    ParsedCellGood(S, D, c, rb);
    var a, b := FoldCell(S, D, c, init, ra).value, FoldCell(S, D, c, init, rb).value;
    GoodIsPlain(S, D, c, a);
    GoodIsPlain(S, D, c, b);
    FoldSettled(S, D, c, init, ra);
    if Gathers(f) {
      MergeInit(S, D, c, a);
      FoldIsMerge(S, D, c, a, init, rb);
    } else {
      LeafOnTop(S, D, c, a, rb);
    }
  }

  /** The cells of A's message with B's records parsed on top. */
  ghost function CellsOnTop(S: Schema, D: Desc, a: Msg, b: Msg, rb: seq<Record>): (cells: seq<Cell>)
    requires |a.cells| == |b.cells| == |D.owner| && forall c :: 0 <= c < |D.owner| ==> D.owner[c] < |D.fields|
    ensures |cells| == |a.cells|
    ensures forall c :: 0 <= c < |cells| ==> cells[c] == OnTop(S, D, c, a.cells[c], b.cells[c], rb)
  {
    seq(|a.cells|, c requires 0 <= c < |a.cells| => OnTop(S, D, c, a.cells[c], b.cells[c], rb))
  }

  /** All cells agree. */
  ghost predicate AllAgree(D: Desc, a: Msg, b: Msg, rb: seq<Record>)
    requires |a.cells| == |b.cells| == |D.owner| && forall c :: 0 <= c < |D.owner| ==> D.owner[c] < |D.fields|
  {
    forall c :: 0 <= c < |D.owner| ==> Agrees(D, c, a.cells[c], b.cells[c], rb)
  }

  /** Parsing B's records on top of the message decoded from A. */
  lemma ParsedOnTop(S: Schema, d: nat, A: seq<byte>, B: seq<byte>)
    requires SchemaOk(S) && Mergeable(S, d) && d < |S|
    requires Unpack(S, d, A).Some? && Unpack(S, d, B).Some?
    ensures var a, b := Unpack(S, d, A).value, Unpack(S, d, B).value;
            && |a.cells| == |b.cells| == |S[d].owner| && (forall c :: 0 <= c < |S[d].owner| ==> S[d].owner[c] < |S[d].fields|)
            && ParseAll(S, a, Scan(B).value) ==
               Some(Msg(d, CellsOnTop(S, S[d], a, b, Scan(B).value), a.unknown + b.unknown))
  {
    var D := S[d];
    var rb := Scan(B).value;
    var a, b := Unpack(S, d, A).value, Unpack(S, d, B).value;
    UnpackGood(S, d, A);
    UnpackGood(S, d, B);
    var cells := CellsOnTop(S, D, a, b, rb);
    forall c | 0 <= c < |a.cells|
      ensures FoldCell(S, D, c, a.cells[c], rb) == Some(cells[c])
    {
      CellOnTop(S, d, A, B, c);
    }
    CellsFit(S, d);
    ParseFromCells(S, a, rb, cells);
    UnknownOnTop(S, d, B);
  }

  /** A cell on top is the merged one exactly if the two agree. */
  lemma OnTopIsMerge(S: Schema, d: nat, A: seq<byte>, B: seq<byte>)
    requires SchemaOk(S) && Mergeable(S, d) && d < |S|
    requires Unpack(S, d, A).Some? && Unpack(S, d, B).Some?
    requires var a, b := Unpack(S, d, A).value, Unpack(S, d, B).value;
             |a.cells| == |b.cells| == |S[d].owner| && (forall c :: 0 <= c < |S[d].owner| ==> S[d].owner[c] < |S[d].fields|)
    ensures var a, b := Unpack(S, d, A).value, Unpack(S, d, B).value;
            var cells := CellsOnTop(S, S[d], a, b, Scan(B).value);
            && Merge(S, a, b).Some? && |Merge(S, a, b).value.cells| == |cells|
            && (forall c :: 0 <= c < |cells| ==>
                  (cells[c] == Merge(S, a, b).value.cells[c] <==> Agrees(S[d], c, a.cells[c], b.cells[c], Scan(B).value)))
  {
    var a, b := Unpack(S, d, A).value, Unpack(S, d, B).value;
    UnpackGood(S, d, A);
    UnpackGood(S, d, B);
    MergeTotal(S, d, a, b);
    var cells := CellsOnTop(S, S[d], a, b, Scan(B).value);
    forall c | 0 <= c < |cells|
      ensures cells[c] == Merge(S, a, b).value.cells[c] <==> Agrees(S[d], c, a.cells[c], b.cells[c], Scan(B).value)
    {
      CellOnTop(S, d, A, B, c);
      MergedAt(S, d, a, b, c);
    }
  }

  lemma UnknownOnTop(S: Schema, d: nat, B: seq<byte>)
    requires SchemaOk(S) && d < |S| && Unpack(S, d, B).Some?
    ensures Unpack(S, d, B).value.unknown == UnknownsOf(S[d], Scan(B).value)
  {
    CellsFit(S, d);
    ParseByCell(S, InitMsg(S, d), Scan(B).value);
  }

  lemma CellOnTop(S: Schema, d: nat, A: seq<byte>, B: seq<byte>, c: nat)
    requires SchemaOk(S) && Mergeable(S, d) && d < |S|
    requires Unpack(S, d, A).Some? && Unpack(S, d, B).Some?
    requires c < |Unpack(S, d, A).value.cells|
    ensures var a, b := Unpack(S, d, A).value, Unpack(S, d, B).value;
            && c < |b.cells| && c < |S[d].owner| && S[d].owner[c] < |S[d].fields|
            && FoldCell(S, S[d], c, a.cells[c], Scan(B).value) ==
               Some(OnTop(S, S[d], c, a.cells[c], b.cells[c], Scan(B).value))
            && (OnTop(S, S[d], c, a.cells[c], b.cells[c], Scan(B).value) == MergedCell(S, S[d], c, a.cells[c], b.cells[c])
                <==> Agrees(S[d], c, a.cells[c], b.cells[c], Scan(B).value))
  {
    var ra, rb := Scan(A).value, Scan(B).value;
    CellsFit(S, d);
    ParseByCell(S, InitMsg(S, d), ra);
    ParseByCell(S, InitMsg(S, d), rb);
    ScannedAreDelimited(A);
    ScannedAreDelimited(B);
    CellHomomorphism(S, d, c, ra, rb);
  }

  /**
   * If A and B decode, then A ++ B decodes, unless it holds more records than the slabs do.
   * Its known fields are those of the two messages merged, exactly where they agree.
   */
  lemma DecodingIsHomomorphism(S: Schema, d: nat, A: seq<byte>, B: seq<byte>)
    requires SchemaOk(S) && Mergeable(S, d) && d < |S|
    requires Unpack(S, d, A).Some? && Unpack(S, d, B).Some?
    ensures var a, b, ab := Unpack(S, d, A).value, Unpack(S, d, B).value, Unpack(S, d, A + B);
            var D, rb := S[d], Scan(B).value;
            && |a.cells| == |b.cells| == |D.owner| && (forall c :: 0 <= c < |D.owner| ==> D.owner[c] < |D.fields|)
            && (ab.Some? <==> |Scan(A).value| + |rb| <= MAX_RECORDS)
            && Merge(S, a, b).Some?
            && (ab.Some? ==>
                  && ab.value.unknown == a.unknown + b.unknown
                  && ab.value.cells == CellsOnTop(S, D, a, b, rb)
                  && (ab.value.cells == Merge(S, a, b).value.cells <==> AllAgree(D, a, b, rb)))
  {
    var a, b := Unpack(S, d, A).value, Unpack(S, d, B).value;
    var D, rb := S[d], Scan(B).value;
    ScanConcat(A, B);
    ConcatAcceptable(D, Scan(A).value, rb);
    ParseConcat(S, InitMsg(S, d), Scan(A).value, rb);
    ParsedOnTop(S, d, A, B);
    OnTopIsMerge(S, d, A, B);
    MergedIffAgreed(S, D, a, b, Merge(S, a, b).value.cells, rb);
  }

  lemma MergedIffAgreed(S: Schema, D: Desc, a: Msg, b: Msg, merged: seq<Cell>, rb: seq<Record>)
    requires |a.cells| == |b.cells| == |D.owner| == |merged| && forall c :: 0 <= c < |D.owner| ==> D.owner[c] < |D.fields|
    requires forall c :: 0 <= c < |merged| ==>
               (CellsOnTop(S, D, a, b, rb)[c] == merged[c] <==> Agrees(D, c, a.cells[c], b.cells[c], rb))
    ensures CellsOnTop(S, D, a, b, rb) == merged <==> AllAgree(D, a, b, rb)
  {
    hide Agrees, OnTop;
    if AllAgree(D, a, b, rb) {
      assert CellsOnTop(S, D, a, b, rb) == merged;
    }
  }

  lemma ConcatAcceptable(D: Desc, ra: seq<Record>, rb: seq<Record>)
    requires Acceptable(D, ra) && Acceptable(D, rb)
    ensures Acceptable(D, ra + rb) <==> |ra| + |rb| <= MAX_RECORDS
  {
    var rs := ra + rb;
    forall i | 0 <= i < |D.fields|
      ensures Present(D, rs, i)
    {
      var f := D.fields[i];
      if f.rule.Required? && f.dflt.None? && f.dfltNum.None? {
        assert Present(D, ra, i);
        var k :| 0 <= k < |ra| && Lookup(D, ra[k].tag) == Some(i);
        assert rs[k] == ra[k];
      }
    }
  }

  // ---- a schema where the two ways differ: one required number whose default is 5

  const DEFAULTED: Schema :=
    [Desc([Field(1, Required, Int32, false, false, 0, 0, None, Some(5))], [0], [IntRange(1, 0), IntRange(0, 1)])]

  /** Field 1 with value 7. */
  const SEVEN: Record := Record(1, WIRE_VARINT, 0, [7])

  function Numbered(n: nat): Msg {
    Msg(0, [Single(Num(n))], [])
  }

  lemma DefaultedOk()
    ensures SchemaOk(DEFAULTED) && Mergeable(DEFAULTED, 0) && Lookup(DEFAULTED[0], 1) == Some(0)
    ensures InitMsg(DEFAULTED, 0) == Numbered(5)
  {
    assert FieldOk(DEFAULTED, DEFAULTED[0], 0);
    assert DescOk(DEFAULTED, DEFAULTED[0]);
    assert InitMsg(DEFAULTED, 0).cells == [Single(Num(5))];
  }

  lemma SevenScans()
    ensures Scan([0x08, 0x07]) == Some([SEVEN])
    ensures ParseNum(Int32, [7]) == 7
  {
    var rs := [SEVEN];
    assert Varint(0x08) == [0x08];
    assert VarintValue([7]) == 7 by { assert Varint(7) == [7]; }
    assert EncRecord(SEVEN) == [0x08, 0x07];
    assert rs[1..] == [];
    assert Flatten(rs) == [0x08, 0x07];
    assert Extent([7], 10) == 1;
    ScanFlatten(rs, []);
    assert Flatten(rs) + [] == Flatten(rs) && rs + [] == rs;
  }

  lemma SevenParsed()
    ensures Step(DEFAULTED, Numbered(5), SEVEN) == Some(Numbered(7))
  {
    DefaultedOk();
    SevenScans();
    hide ParseNum, InitMsg;
    var f := DEFAULTED[0].fields[0];
    assert StepCell(DEFAULTED, f, Single(Num(5)), SEVEN) == Some(Single(Num(7)));
    assert Numbered(5).cells[0 := Single(Num(7))] == [Single(Num(7))];
  }

  /** A says 7 and B nothing: together they say 7, but merging takes B's default. */
  lemma DefaultTakesOver()
    ensures var a, b := Unpack(DEFAULTED, 0, [0x08, 0x07]), Unpack(DEFAULTED, 0, []);
            && a == Some(Numbered(7)) && b == Some(Numbered(5))
            && Merge(DEFAULTED, a.value, b.value) == b
            && Unpack(DEFAULTED, 0, [0x08, 0x07] + []) == a
  {
    hide Scan, Step, StepCell;
    DefaultedOk();
    SevenScans();
    SevenParsed();
    var rs := [SEVEN];
    assert Scan([]) == Some([]) by { NothingScans(); }
    assert rs[1..] == [];
    assert Acceptable(DEFAULTED[0], rs) && Acceptable(DEFAULTED[0], []);
    assert ParseAll(DEFAULTED, Numbered(5), rs) == ParseAll(DEFAULTED, Numbered(7), []);
    var s: seq<byte> := [0x08, 0x07];
    assert s + [] == s;
    var a, b := Numbered(7), Numbered(5);
    assert MergeCell(DEFAULTED, DEFAULTED[0], DEFAULTED[0].OwnerOf(0), a.cells[0], b.cells[0]) == Some(b.cells[0]);
    assert MergeCells(DEFAULTED, a, b, 1) == Some([]);
    assert [b.cells[0]] + [] == b.cells;
    assert MergeCells(DEFAULTED, a, b, 0) == Some(b.cells);
  }

  lemma NothingScans()
    ensures Scan([]) == Some([])
  {
  }
}
