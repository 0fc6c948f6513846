/** merge_messages, in the form of the source: field by field, into the latter message. */
module Merging {
  import opened Words
  import opened Descriptors
  import opened Decoding
  import opened Ranges

  /** The case member of a oneof: 0 when nothing is selected. */
  function CaseId(cell: Cell): nat {
    if cell.Case? then cell.id else 0
  }

  /** Field ids start at 1, so the range search for case 0 finds nothing. */
  lemma CaseZeroUnknown(S: Schema, D: Desc)
    requires DescOk(S, D)
    ensures Lookup(D, 0) == None
  {
    forall i | 0 <= i < |D.fields|
      ensures D.fields[i].id != 0
    {
      assert FieldOk(S, D, i);
    }
  }

  /** The field a case selects, as int_range_lookup finds it. */
  method FindCase(S: Schema, D: Desc, id: nat) returns (j: Option<nat>)
    requires DescOk(S, D) && Indexed(D)
    ensures j == Lookup(D, id)
  {
    KnownTag(S, D, id);
    var index := IntRangeLookup(D.ranges, id, Ids(D));
    if index < 0 {
      j := None;
    } else {
      j := Some(index);
      LookupField(S, D, index);
    }
  }

  /** The body of the loop of merge_messages, for one field and the cell it is stored in. */
  method MergeField(S: Schema, D: Desc, f: Field, e: Cell, l: Cell) returns (r: Option<Cell>)
    requires SchemaOk(S) && IndexedSchema(S) && DescOk(S, D) && Indexed(D)
    requires f.oneof ==> IsUnion(e) && IsUnion(l)
    requires !f.oneof ==> !IsUnion(e) && !IsUnion(l)
    requires e.Single? && e.v.Sub? && e.v.msg.Ptr? && l.Single? && l.v.Sub? && l.v.msg.Ptr? ==>
               TypedMsg(S, e.v.msg.target) && TypedMsg(S, l.v.msg.target) && e.v.msg.target.desc == l.v.msg.target.desc
    ensures r == MergeCell(S, D, f, e, l)
    decreases e, 0
  {
    if f.oneof {
      if l.Case? {
        return Some(l);   // present in the latter message
      }
      var j := FindCase(S, D, CaseId(e));
      CaseZeroUnknown(S, D);
      return if j.None? then None else Some(if MovesIntoUnion(D.fields[j.value], e.v) then e else l);
    }
    match (e, l) {
      case (Many(es), Many(ls)) =>
        if |es| > 0 {
          if |ls| > 0 {
            r := Some(Many(es + ls));   // concatenated into a new array
          } else {
            r := Some(e);               // zero copy
            assert es + ls == es;
          }
        } else {
          r := Some(l);
          assert es + ls == ls;
        }
      case (Single(ev), Single(lv)) =>
        if f.rule.Required? {
          r := Some(l);
        } else if ev.Sub? && lv.Sub? && ev.msg.Ptr? && lv.msg.Ptr? {
          var m := MergeMessages(S, ev.msg.target, lv.msg.target);
          r := if m.Some? then Some(Single(Sub(Ptr(m.value)))) else None;
        } else {
          r := Some(if Moves(f, ev, lv) then e else l);
        }
      case (Flagged(eh, ev), Flagged(lh, lv)) =>
        r := Some(if (if f.typ.Bytes? then Moves(f, ev, lv) else eh && !lh) then e else l);
      case _ => r := Some(l);
    }
  }

  predicate IsUnion(cell: Cell) { cell.NoCase? || cell.Case? }

  /** Whichever field of a oneof is looked at, merging its union does the same; doing it again changes nothing. */
  lemma UnionOnce(S: Schema, D: Desc, f: Field, g: Field, e: Cell, l: Cell)
    requires IsUnion(e) && IsUnion(l)
    ensures MergeCell(S, D, f, e, l) == MergeCell(S, D, g, e, l)
    ensures MergeCell(S, D, f, e, l).Some? ==>
              IsUnion(MergeCell(S, D, f, e, l).value)
              && MergeCell(S, D, g, e, MergeCell(S, D, f, e, l).value) == MergeCell(S, D, f, e, l)
  {
  }

  ghost predicate Visited(D: Desc, c: nat, i: nat)
    requires i <= |D.fields|
  {
    exists k :: 0 <= k < i && D.fields[k].cell == c
  }

  /** Cells after the first i fields: merged if some field of them was visited, otherwise untouched. */
  ghost predicate MergedSoFar(S: Schema, D: Desc, e: Msg, l: Msg, cells: seq<Cell>, i: nat)
    requires |cells| == |l.cells| == |e.cells| == |D.owner| && i <= |D.fields|
    requires forall c :: 0 <= c < |D.owner| ==> D.owner[c] < |D.fields|
  {
    forall c :: 0 <= c < |cells| ==>
      if Visited(D, c, i) then MergeCell(S, D, D.OwnerOf(c), e.cells[c], l.cells[c]) == Some(cells[c])
      else cells[c] == l.cells[c]
  }

  lemma {:induction false} CellsMerged(S: Schema, e: Msg, l: Msg, cells: seq<Cell>, c: nat)
    requires var D := DescOf(S, l.desc);
             && |cells| == |l.cells| == |e.cells| == |D.owner| && c <= |cells|
             && (forall k :: 0 <= k < |D.owner| ==> D.owner[k] < |D.fields|)
             && forall k :: c <= k < |cells| ==> MergeCell(S, D, D.OwnerOf(k), e.cells[k], l.cells[k]) == Some(cells[k])
    ensures MergeCells(S, e, l, c) == Some(cells[c..])
    decreases |cells| - c
  {
    if c < |cells| {
      CellsMerged(S, e, l, cells, c + 1);
      assert cells[c..] == [cells[c]] + cells[c + 1..];
    }
  }

  lemma {:induction false} CellFails(S: Schema, e: Msg, l: Msg, c: nat, k: nat)
    requires var D := DescOf(S, l.desc);
             && c <= k < |l.cells| == |e.cells| == |D.owner| && D.owner[k] < |D.fields|
             && MergeCell(S, D, D.OwnerOf(k), e.cells[k], l.cells[k]).None?
    ensures MergeCells(S, e, l, c).None?
    decreases k - c
  {
    if c < k {
      CellFails(S, e, l, c + 1, k);
    }
  }

  /** What one visit of field i does to its cell. */
  lemma VisitField(S: Schema, e: Msg, l: Msg, cells: seq<Cell>, i: nat)
    requires SchemaOk(S) && TypedMsg(S, e) && TypedMsg(S, l) && e.desc == l.desc
    requires i < |S[l.desc].fields| && |cells| == |l.cells|
    requires MergedSoFar(S, S[l.desc], e, l, cells, i)
    ensures var D := S[l.desc];
            var c := D.fields[i].cell;
            && c < |cells|
            && MergeCell(S, D, D.fields[i], e.cells[c], cells[c]) ==
               MergeCell(S, D, D.OwnerOf(c), e.cells[c], l.cells[c])
            && (!D.fields[i].oneof ==> cells[c] == l.cells[c] && !IsUnion(e.cells[c]) && !IsUnion(cells[c]))
            && (D.fields[i].oneof ==> IsUnion(e.cells[c]) && IsUnion(cells[c]))
  {
    var D := S[l.desc];
    var f := D.fields[i];
    var c := f.cell;
    assert FieldOk(S, D, i) && FieldOk(S, D, D.owner[c]);
    assert TypedCell(S, D, c, e.cells[c]) && TypedCell(S, D, c, l.cells[c]);
    if f.oneof {
      UnionOnce(S, D, D.OwnerOf(c), f, e.cells[c], l.cells[c]);
    } else {
      forall k | 0 <= k < i
        ensures D.fields[k].cell != c
      {
        assert FieldOk(S, D, k);
      }
    }
  }

  lemma AllVisited(S: Schema, D: Desc)
    requires DescOk(S, D)
    ensures forall c :: 0 <= c < |D.owner| ==> Visited(D, c, |D.fields|)
  {
    forall c | 0 <= c < |D.owner|
      ensures Visited(D, c, |D.fields|)
    {
      assert D.fields[D.owner[c]].cell == c;
    }
  }

  lemma SubmessagesTyped(S: Schema, D: Desc, c: nat, cell: Cell)
    requires c < |D.owner| && D.owner[c] < |D.fields| && TypedCell(S, D, c, cell)
    requires cell.Single? && cell.v.Sub? && cell.v.msg.Ptr?
    ensures TypedMsg(S, cell.v.msg.target) && cell.v.msg.target.desc == D.OwnerOf(c).sub
  {
    assert TypedValue(S, D.OwnerOf(c), cell.v);
  }

  /** merge_messages: the members of the latter message are updated field by field. */
  method MergeMessages(S: Schema, e: Msg, l: Msg) returns (r: Option<Msg>)
    requires SchemaOk(S) && IndexedSchema(S) && TypedMsg(S, e) && TypedMsg(S, l) && e.desc == l.desc
    ensures r == Merge(S, e, l)
    decreases e, 1
  {
    var D := S[l.desc];
    var cells := l.cells;
    for i := 0 to |D.fields|
      invariant |cells| == |l.cells|
      invariant MergedSoFar(S, D, e, l, cells, i)
    {
      var f := D.fields[i];
      var c := f.cell;
      VisitField(S, e, l, cells, i);
      if e.cells[c].Single? && e.cells[c].v.Sub? && e.cells[c].v.msg.Ptr? {
        SubmessagesTyped(S, D, c, e.cells[c]);
      }
      if l.cells[c].Single? && l.cells[c].v.Sub? && l.cells[c].v.msg.Ptr? {
        SubmessagesTyped(S, D, c, l.cells[c]);
      }
      var merged := MergeField(S, D, f, e.cells[c], cells[c]);
      if merged.None? {
        CellFails(S, e, l, 0, c);
        return None;
      }
      ghost var was := cells;
      cells := cells[c := merged.value];
      forall k | 0 <= k < |cells|
        ensures if Visited(D, k, i + 1) then MergeCell(S, D, D.OwnerOf(k), e.cells[k], l.cells[k]) == Some(cells[k])
                else cells[k] == l.cells[k]
      {
        if k == c {
          assert D.fields[i].cell == c;
        } else {
          assert Visited(D, k, i + 1) <==> Visited(D, k, i);
        }
      }
    }
    AllVisited(S, D);
    CellsMerged(S, e, l, cells, 0);
    assert cells[0..] == cells;
    return Some(l.(cells := cells));
  }
}
