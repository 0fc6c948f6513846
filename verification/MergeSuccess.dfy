/**
 * When merging two messages succeeds. It fails where a oneof is unset in both of them,
 * at any depth at which messages meet, because case 0 is no field id.
 */
module MergeSuccess {
  import opened Words
  import opened Descriptors
  import opened Varints
  import opened Scalars
  import opened Wire
  import opened Decoding
  import opened ScanLaws
  import opened Validity
  import opened MergeLaws
  import opened Merging

  /** No oneof is unset on both sides, here or in any submessages that meet. */
  predicate Meets(S: Schema, e: Msg, l: Msg)
    decreases e
  {
    var D := DescOf(S, l.desc);
    forall c :: 0 <= c < |e.cells| && c < |l.cells| && c < |D.owner| && D.owner[c] < |D.fields| ==>
      CellsMeet(S, D.OwnerOf(c), e.cells[c], l.cells[c])
  }

  predicate CellsMeet(S: Schema, f: Field, e: Cell, l: Cell)
    decreases e
  {
    && !(e.NoCase? && l.NoCase?)
    && (!f.rule.Required? && HasMessage(e) && HasMessage(l) ==> Meets(S, e.v.msg.target, l.v.msg.target))
  }

  lemma {:induction false} CellMergeSucceeds(S: Schema, D: Desc, c: nat, e: Cell, l: Cell)
    requires SchemaOk(S) && DescOk(S, D) && c < |D.owner| && D.owner[c] < |D.fields|
    requires TypedCell(S, D, c, e) && TypedCell(S, D, c, l)
    ensures MergeCell(S, D, D.OwnerOf(c), e, l).Some? <==> CellsMeet(S, D.OwnerOf(c), e, l)
    decreases e, 0
  {
    if HasMessage(e) && HasMessage(l) {
      SubmessagesTyped(S, D, c, e);
      SubmessagesTyped(S, D, c, l);
      MergeSucceeds(S, e.v.msg.target, l.v.msg.target);
    }
  }

  /** Merging succeeds exactly when no oneof is unset on both sides wherever messages meet. */
  lemma {:induction false} MergeSucceeds(S: Schema, e: Msg, l: Msg)
    requires SchemaOk(S) && TypedMsg(S, e) && TypedMsg(S, l) && e.desc == l.desc
    ensures Merge(S, e, l).Some? <==> Meets(S, e, l)
    decreases e, 1
  {
    var D := S[l.desc];
    forall c | 0 <= c < |l.cells|
      ensures MergeCell(S, D, D.OwnerOf(c), e.cells[c], l.cells[c]).Some? <==>
              CellsMeet(S, D.OwnerOf(c), e.cells[c], l.cells[c])
    {
      assert TypedCell(S, D, c, e.cells[c]) && TypedCell(S, D, c, l.cells[c]);
      CellMergeSucceeds(S, D, c, e.cells[c], l.cells[c]);
    }
    if Meets(S, e, l) {
      MergeCellsTotal(S, e, l, 0);
    } else {
      var c :| 0 <= c < |l.cells| && !CellsMeet(S, D.OwnerOf(c), e.cells[c], l.cells[c]);
      CellFails(S, e, l, 0, c);
    }
  }

  /** Two messages that both leave a oneof unset do not merge. */
  lemma UnsetOneofFails(S: Schema, e: Msg, l: Msg, c: nat)
    requires SchemaOk(S) && TypedMsg(S, e) && TypedMsg(S, l) && e.desc == l.desc
    requires c < |l.cells| && e.cells[c].NoCase? && l.cells[c].NoCase?
    ensures Merge(S, e, l) == None
  {
    assert !CellsMeet(S, S[l.desc].OwnerOf(c), e.cells[c], l.cells[c]);
    MergeSucceeds(S, e, l);
  }

  /** A singular submessage seen again is accepted exactly when its payload decodes and meets the one in place. */
  lemma RepeatedSubmessage(S: Schema, f: Field, was: Value, r: Record)
    requires SchemaOk(S) && f.typ.Message? && f.sub < |S| && TypedValue(S, f, was) && WellDelimited(r)
    ensures ParseValue(S, f, was, r).Some? <==>
            && r.wire == WIRE_LENGTH
            && Unpack(S, f.sub, Payload(r)).Some?
            && (was.msg.Ptr? ==> Meets(S, was.msg.target, Unpack(S, f.sub, Payload(r)).value))
  {
    var u := Unpack(S, f.sub, Payload(r));
    if r.wire == WIRE_LENGTH && u.Some? && was.msg.Ptr? {
      UnpackGood(S, f.sub, Payload(r));
      MergeSucceeds(S, was.msg.target, u.value);
    }
  }

  // ---- a schema where it fails: field 1 is a submessage whose only field is member of a oneof

  const INNER: Field := Field(1, Optional, Int32, false, true, 0, 0, None, None)
  const OUTER: Field := Field(1, Optional, Message, false, false, 0, 1, None, None)
  const RANGES: seq<IntRange> := [IntRange(1, 0), IntRange(0, 1)]
  const NESTED: Schema := [Desc([OUTER], [0], RANGES), Desc([INNER], [0], RANGES)]

  /** The record of an empty submessage in field 1. */
  const EMPTY: Record := Record(1, WIRE_LENGTH, 1, [0])

  const UNSET: Msg := Msg(1, [NoCase], [])

  lemma NestedOk()
    ensures SchemaOk(NESTED) && TypedMsg(NESTED, UNSET)
  {
    assert FieldOk(NESTED, NESTED[0], 0) && FieldOk(NESTED, NESTED[1], 0);
    assert DescOk(NESTED, NESTED[0]) && DescOk(NESTED, NESTED[1]);
  }

  lemma EmptyScans()
    ensures ValidRecord(EMPTY) && EncRecord(EMPTY) == [0x0a, 0x00]
    ensures Scan([0x0a, 0x00]) == Some([EMPTY])
    ensures Scan([0x0a, 0x00, 0x0a, 0x00]) == Some([EMPTY, EMPTY])
  {
    var once, twice := [EMPTY], [EMPTY, EMPTY];
    assert Varint(0x0a) == [0x0a];
    assert EncRecord(EMPTY) == [0x0a, 0x00];
    assert EMPTY.data[..1] == [0];
    assert VarintValue([0]) == 0;
    assert once[1..] == [] && twice[1..] == once;
    assert Flatten(once) == [0x0a, 0x00];
    assert Flatten(twice) == [0x0a, 0x00, 0x0a, 0x00];
    ScanFlatten(once, []);
    ScanFlatten(twice, []);
    assert Flatten(once) + [] == Flatten(once) && Flatten(twice) + [] == Flatten(twice);
    assert once + [] == once && twice + [] == twice;
  }

  lemma EmptyUnpacks()
    ensures Unpack(NESTED, 1, []) == Some(UNSET)
  {
    assert InitMsg(NESTED, 1) == UNSET;
  }

  /** Parsing the record merges the unset message into the cell of field 1. */
  lemma EmptyMerges(v: Value)
    ensures StepCell(NESTED, OUTER, Single(v), EMPTY) ==
            match MergeValue(NESTED, OUTER, v, Sub(Ptr(UNSET)))
            case None => None
            case Some(w) => Some(Single(w))
  {
    hide Unpack, MergeValue;
    EmptyUnpacks();
    assert Payload(EMPTY) == [];
  }

  lemma EmptyParsed()
    ensures StepCell(NESTED, OUTER, Single(Sub(Null)), EMPTY) == Some(Single(Sub(Ptr(UNSET))))
    ensures StepCell(NESTED, OUTER, Single(Sub(Ptr(UNSET))), EMPTY) == None
  {
    hide StepCell, Merge;
    NestedOk();
    assert UNSET.cells[0].NoCase?;
    UnsetOneofFails(NESTED, UNSET, UNSET, 0);
    EmptyMerges(Sub(Null));
    EmptyMerges(Sub(Ptr(UNSET)));
  }

  lemma FirstField()
    ensures Lookup(NESTED[0], 1) == Some(0)
  {
  }

  function Holding(v: Value): Msg {
    Msg(0, [Single(v)], [])
  }

  lemma EmptySteps(v: Value)
    ensures Step(NESTED, Holding(v), EMPTY) ==
            match StepCell(NESTED, OUTER, Single(v), EMPTY)
            case None => None
            case Some(c) => Some(Msg(0, [c], []))
  {
    hide StepCell;
    FirstField();
    var st := Holding(v);
    assert DescOf(NESTED, st.desc) == NESTED[0];
    assert forall c: Cell :: st.cells[0 := c] == [c];
  }

  /** A submessage given once is accepted; given again, it is rejected. */
  lemma GivenTwiceRejected()
    ensures Unpack(NESTED, 0, [0x0a, 0x00]) == Some(Holding(Sub(Ptr(UNSET))))
    ensures Unpack(NESTED, 0, [0x0a, 0x00, 0x0a, 0x00]) == None
  {
    hide Scan, Step, StepCell, Flatten;
    EmptyScans();
    FirstField();
    EmptyParsed();
    EmptySteps(Sub(Null));
    EmptySteps(Sub(Ptr(UNSET)));
    var once, twice := [EMPTY], [EMPTY, EMPTY];
    assert once[1..] == [] && twice[1..] == once;
    assert InitMsg(NESTED, 0) == Holding(Sub(Null));
    assert Acceptable(NESTED[0], once) && Acceptable(NESTED[0], twice);
    assert ParseAll(NESTED, Holding(Sub(Null)), once) == ParseAll(NESTED, Holding(Sub(Ptr(UNSET))), []);
    assert ParseAll(NESTED, Holding(Sub(Null)), twice) == ParseAll(NESTED, Holding(Sub(Ptr(UNSET))), once);
  }
}
