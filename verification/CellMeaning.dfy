/**
 * What a decoded message holds, told by its records: the last one wins, repeated values are
 * gathered in order, submessages are merged in order, unknown records are kept in order.
 */
module CellMeaning {
  import opened Words
  import opened Descriptors
  import opened Varints
  import opened Scalars
  import opened Wire
  import opened Decoding
  import opened ScanLaws
  import opened Folding
  import opened Validity
  import opened Meaning

  /** The field a record is for. */
  function FieldOf(D: Desc, r: Record): Field
    requires Lookup(D, r.tag).Some?
  {
    D.fields[Lookup(D, r.tag).value]
  }

  ghost predicate Legible(S: Schema, D: Desc, r: Record)
    requires Lookup(D, r.tag).Some?
  {
    exists v :: Gives(S, FieldOf(D, r), r, v)
  }

  /** Record k is the last one of the cell. */
  predicate LastHit(D: Desc, c: nat, rs: seq<Record>, k: nat) {
    k < |rs| && Hits(D, c, rs[k]) && forall j :: k < j < |rs| ==> !Hits(D, c, rs[j])
  }

  // ---- numbers, strings, bytes, and all members of a oneof

  /** Does the cell keep nothing of what an earlier record said? */
  predicate Replaced(f: Field) {
    !f.rule.Repeated? && (f.oneof || !f.typ.Message?)
  }

  /** The cell holds what the record gives; a oneof selects the field of the record, a flag is set. */
  predicate Holds(S: Schema, D: Desc, r: Record, x: Cell)
    requires Lookup(D, r.tag).Some?
  {
    var f := FieldOf(D, r);
    match x
    case Case(id, v) => f.oneof && id == r.tag && Gives(S, f, r, v)
    case Flagged(has, v) => !f.oneof && Flaggable(f) && has && Gives(S, f, r, v)
    case Single(v) => !f.oneof && !Flaggable(f) && Gives(S, f, r, v)
    case _ => false
  }

  predicate Shaped(f: Field, x: Cell) {
    !f.oneof ==> if Flaggable(f) then x.Flagged? else x.Single?
  }

  /** The cell that holds a parsed value. */
  function CellWith(f: Field, tag: nat, v: Value): Cell {
    if f.oneof then Case(tag, v) else if Flaggable(f) then Flagged(true, v) else Single(v)
  }

  /** Parsing starts from the value in place, in a oneof from zeros. */
  function StartOf(f: Field, cell: Cell): Value {
    if !f.oneof && (cell.Flagged? || cell.Single?) then cell.v else ZeroValue(f)
  }

  lemma StepIs(S: Schema, f: Field, cell: Cell, r: Record)
    requires Replaced(f) && Shaped(f, cell)
    ensures var p := ParseValue(S, f, StartOf(f, cell), r);
            StepCell(S, f, cell, r) == if p.None? then None else Some(CellWith(f, r.tag, p.value))
    ensures f.typ.Message? && StartOf(f, cell).Sub? ==> StartOf(f, cell).msg.Null?
  {
    hide ParseValue;
  }

  lemma HoldsValue(S: Schema, D: Desc, r: Record, v: Value)
    requires Lookup(D, r.tag).Some?
    ensures Holds(S, D, r, CellWith(FieldOf(D, r), r.tag, v)) <==> Gives(S, FieldOf(D, r), r, v)
  {
    hide Gives;
  }

  lemma HoldsOnly(S: Schema, D: Desc, r: Record, x: Cell)
    requires Lookup(D, r.tag).Some? && Holds(S, D, r, x)
    ensures x.Case? || x.Flagged? || x.Single?
    ensures Gives(S, FieldOf(D, r), r, x.v) && x == CellWith(FieldOf(D, r), r.tag, x.v)
  {
    hide Gives;
  }

  lemma StepMeaning(S: Schema, D: Desc, i: nat, cell: Cell, r: Record, x: Cell)
    requires i < |D.fields| && Lookup(D, r.tag) == Some(i) && Replaced(D.fields[i]) && Shaped(D.fields[i], cell)
    ensures Holds(S, D, r, x) <==> StepCell(S, D.fields[i], cell, r) == Some(x)
    ensures Legible(S, D, r) <==> StepCell(S, D.fields[i], cell, r).Some?
    ensures StepCell(S, D.fields[i], cell, r) == Some(x) ==> Shaped(D.fields[i], x)
  {
    hide Gives, ParseValue, Holds, StepCell, StartOf;
    var f := D.fields[i];
    var was := StartOf(f, cell);
    StepIs(S, f, cell, r);
    var p := ParseValue(S, f, was, r);
    if p.Some? {
      ValueMeaning(S, f, was, r, p.value);
      HoldsValue(S, D, r, p.value);
    }
    if Holds(S, D, r, x) {
      HoldsOnly(S, D, r, x);
      ValueMeaning(S, f, was, r, x.v);
    }
    if v :| Gives(S, f, r, v) {
      ValueMeaning(S, f, was, r, v);
    }
  }

  /** The field of a record that hits a cell has the storage kind of the cell's owner. */
  lemma HitKind(S: Schema, D: Desc, c: nat, r: Record)
    requires DescOk(S, D) && c < |D.owner| && Hits(D, c, r)
    ensures D.owner[c] < |D.fields|
    ensures FieldOf(D, r).oneof == D.OwnerOf(c).oneof
    ensures !FieldOf(D, r).oneof ==> FieldOf(D, r) == D.OwnerOf(c)
    ensures FieldOf(D, r).oneof ==> !FieldOf(D, r).rule.Repeated?
  {
    assert FieldOk(S, D, Lookup(D, r.tag).value);
    assert FieldOk(S, D, D.owner[c]);
  }

  /**
   * The last record wins: the cell holds what it gives on its own, and nothing of what
   * earlier records or the cell itself said.
   */
  lemma {:induction false} LastWins(S: Schema, D: Desc, c: nat, cell: Cell, rs: seq<Record>, k: nat)
    requires DescOk(S, D) && c < |D.owner| && D.owner[c] < |D.fields|
    requires Replaced(D.OwnerOf(c)) && Shaped(D.OwnerOf(c), cell)
    requires LastHit(D, c, rs, k) && FoldCell(S, D, c, cell, rs).Some?
    ensures Holds(S, D, rs[k], FoldCell(S, D, c, cell, rs).value)
    decreases rs
  {
    hide Holds, StepCell, DescOk;
    if k == 0 {
      var i := Lookup(D, rs[0].tag).value;
      HitKind(S, D, c, rs[0]);
      var x := StepCell(S, D.fields[i], cell, rs[0]).value;
      StepMeaning(S, D, i, cell, rs[0], x);
      FoldSkip(S, D, c, x, rs[1..]);
    } else if Hits(D, c, rs[0]) {
      var i := Lookup(D, rs[0].tag).value;
      HitKind(S, D, c, rs[0]);
      var x := StepCell(S, D.fields[i], cell, rs[0]).value;
      StepMeaning(S, D, i, cell, rs[0], x);
      LastWins(S, D, c, x, rs[1..], k - 1);
    } else {
      LastWins(S, D, c, cell, rs[1..], k - 1);
    }
  }

  /** Such a cell can be parsed exactly when each of its records is legible on its own. */
  lemma {:induction false} LegibleFolds(S: Schema, D: Desc, c: nat, cell: Cell, rs: seq<Record>)
    requires DescOk(S, D) && c < |D.owner| && D.owner[c] < |D.fields|
    requires Replaced(D.OwnerOf(c)) && Shaped(D.OwnerOf(c), cell)
    ensures FoldCell(S, D, c, cell, rs).Some? <==>
            forall k :: 0 <= k < |rs| && Hits(D, c, rs[k]) ==> Legible(S, D, rs[k])
    decreases rs
  {
    hide Legible, StepCell, DescOk;
    if rs != [] {
      assert forall k :: 0 < k < |rs| ==> rs[k] == rs[1..][k - 1];
      if Hits(D, c, rs[0]) {
        var i := Lookup(D, rs[0].tag).value;
        HitKind(S, D, c, rs[0]);
        StepMeaning(S, D, i, cell, rs[0], cell);
        var x := StepCell(S, D.fields[i], cell, rs[0]);
        if x.Some? {
          StepMeaning(S, D, i, cell, rs[0], x.value);
          LegibleFolds(S, D, c, x.value, rs[1..]);
        }
      } else {
        LegibleFolds(S, D, c, cell, rs[1..]);
      }
    }
  }

  // ---- repeated fields

  /** What each record adds, nothing for those of other cells. */
  ghost predicate Gathered(S: Schema, D: Desc, c: nat, rs: seq<Record>, parts: seq<seq<Value>>)
    requires c < |D.owner| && D.owner[c] < |D.fields|
  {
    && |parts| == |rs|
    && forall k :: 0 <= k < |rs| ==>
         if Hits(D, c, rs[k]) then Adds(S, D.OwnerOf(c), rs[k], parts[k]) else parts[k] == []
  }

  lemma {:induction false} GatheredFold(S: Schema, D: Desc, c: nat, pre: seq<Value>, rs: seq<Record>, parts: seq<seq<Value>>)
    requires DescOk(S, D) && c < |D.owner| && D.owner[c] < |D.fields| && D.OwnerOf(c).rule.Repeated?
    requires Gathered(S, D, c, rs, parts)
    ensures FoldCell(S, D, c, Many(pre), rs) == Some(Many(pre + Flat(parts)))
    decreases rs
  {
    hide Adds, StepCell, DescOk;
    if rs == [] {
      assert pre + Flat(parts) == pre;
    } else {
      GatheredFold(S, D, c, pre + parts[0], rs[1..], parts[1..]);
      Associate(pre, parts[0], Flat(parts[1..]));
      if Hits(D, c, rs[0]) {
        HitKind(S, D, c, rs[0]);
        RepeatedField(S, D, c);
        RepeatedMeaning(S, D.OwnerOf(c), Many(pre), rs[0], parts[0]);
      } else {
        assert pre + parts[0] == pre;
      }
    }
  }

  lemma RepeatedField(S: Schema, D: Desc, c: nat)
    requires DescOk(S, D) && c < |D.owner| && D.owner[c] < |D.fields|
    ensures D.OwnerOf(c).packed ==> Packable(D.OwnerOf(c).typ)
    ensures D.OwnerOf(c).rule.Repeated? ==> !D.OwnerOf(c).oneof
  {
    assert FieldOk(S, D, D.owner[c]);
  }

  lemma RepeatedStep(S: Schema, f: Field, pre: seq<Value>, r: Record) returns (part: seq<Value>)
    requires f.rule.Repeated? && (f.packed ==> Packable(f.typ)) && StepCell(S, f, Many(pre), r).Some?
    ensures Adds(S, f, r, part) && StepCell(S, f, Many(pre), r) == Some(Many(pre + part))
  {
    hide Adds;
    var x := StepCell(S, f, Many(pre), r).value;
    part := x.vs[|pre|..];
    assert pre + part == x.vs;
    RepeatedMeaning(S, f, Many(pre), r, part);
  }

  lemma {:induction false} FoldGathers(S: Schema, D: Desc, c: nat, pre: seq<Value>, rs: seq<Record>) returns (parts: seq<seq<Value>>)
    requires DescOk(S, D) && c < |D.owner| && D.owner[c] < |D.fields| && D.OwnerOf(c).rule.Repeated?
    requires FoldCell(S, D, c, Many(pre), rs).Some?
    ensures Gathered(S, D, c, rs, parts)
    decreases rs
  {
    hide Adds, StepCell, DescOk;
    if rs == [] {
      parts := [];
    } else {
      var part: seq<Value> := [];
      if Hits(D, c, rs[0]) {
        HitKind(S, D, c, rs[0]);
        RepeatedField(S, D, c);
        part := RepeatedStep(S, D.OwnerOf(c), pre, rs[0]);
      } else {
        assert pre + part == pre;
      }
      var rest := FoldGathers(S, D, c, pre + part, rs[1..]);
      parts := [part] + rest;
    }
  }

  // ---- singular submessages

  /** The message each record holds, nothing for those of other cells. */
  ghost predicate Delivered(S: Schema, D: Desc, c: nat, rs: seq<Record>, parts: seq<seq<Msg>>)
    requires c < |D.owner| && D.owner[c] < |D.fields|
  {
    && |parts| == |rs|
    && forall k :: 0 <= k < |rs| ==>
         if Hits(D, c, rs[k]) then |parts[k]| == 1 && Gives(S, D.OwnerOf(c), rs[k], Sub(Ptr(parts[k][0]))) else parts[k] == []
  }

  /** All messages merged into the next one, from the left; none are no message. */
  function MergedAll(S: Schema, was: Ref<Msg>, ms: seq<Msg>): Option<Ref<Msg>>
    decreases ms
  {
    if ms == [] then Some(was)
    else if !was.Ptr? then MergedAll(S, Ptr(ms[0]), ms[1..])
    else
      match Merge(S, was.target, ms[0])
      case None => None
      case Some(m) => MergedAll(S, Ptr(m), ms[1..])
  }

  lemma SubmessageStep(S: Schema, f: Field, was: Ref<Msg>, r: Record)
    requires f.typ.Message? && !f.rule.Repeated? && !f.oneof && !was.Default?
    ensures var x := StepCell(S, f, Single(Sub(was)), r);
            var u := Unpack(S, f.sub, Payload(r));
            x == if r.wire != WIRE_LENGTH || u.None? then None
                 else
                   match MergedAll(S, was, [u.value])
                   case None => None
                   case Some(m) => Some(Single(Sub(m)))
  {
    hide Unpack;
    var u := Unpack(S, f.sub, Payload(r));
    if u.Some? {
      assert [u.value][1..] == [];
      assert forall m :: MergedAll(S, m, []) == Some(m);
    }
  }

  lemma {:induction false} MergedAllConcat(S: Schema, was: Ref<Msg>, a: seq<Msg>, b: seq<Msg>)
    ensures MergedAll(S, was, a + b) ==
            match MergedAll(S, was, a)
            case None => None
            case Some(m) => MergedAll(S, m, b)
    decreases a
  {
    hide Merge;
    if a == [] {
      assert a + b == b;
    } else {
      assert (a + b)[1..] == a[1..] + b;
      if !was.Ptr? {
        MergedAllConcat(S, Ptr(a[0]), a[1..], b);
      } else if Merge(S, was.target, a[0]).Some? {
        MergedAllConcat(S, Ptr(Merge(S, was.target, a[0]).value), a[1..], b);
      }
    }
  }

  lemma {:induction false} MergedAllOwn(S: Schema, was: Ref<Msg>, ms: seq<Msg>)
    requires !was.Default? && MergedAll(S, was, ms).Some?
    ensures !MergedAll(S, was, ms).value.Default?
    decreases ms
  {
    hide Merge;
    if ms != [] {
      MergedAllOwn(S, if was.Ptr? then Ptr(Merge(S, was.target, ms[0]).value) else Ptr(ms[0]), ms[1..]);
    }
  }

  lemma {:induction false} DeliveredFold(S: Schema, D: Desc, c: nat, was: Ref<Msg>, rs: seq<Record>, parts: seq<seq<Msg>>)
    requires DescOk(S, D) && c < |D.owner| && D.owner[c] < |D.fields| && !was.Default?
    requires var f := D.OwnerOf(c); f.typ.Message? && !f.rule.Repeated? && !f.oneof
    requires Delivered(S, D, c, rs, parts)
    ensures FoldCell(S, D, c, Single(Sub(was)), rs) ==
            match MergedAll(S, was, Flat(parts))
            case None => None
            case Some(m) => Some(Single(Sub(m)))
    decreases rs
  {
    hide StepCell, DescOk, Merge, MergedAll, Unpack;
    if rs == [] {
      MergedNothing(S, was);
    } else {
      MergedAllConcat(S, was, parts[0], Flat(parts[1..]));
      var next := MergedAll(S, was, parts[0]);
      if Hits(D, c, rs[0]) {
        HitKind(S, D, c, rs[0]);
        SubmessageStep(S, D.OwnerOf(c), was, rs[0]);
        assert parts[0] == [parts[0][0]];
      } else {
        MergedNothing(S, was);
      }
      if next.Some? {
        MergedAllOwn(S, was, parts[0]);
        DeliveredFold(S, D, c, next.value, rs[1..], parts[1..]);
      }
    }
  }

  lemma MergedNothing(S: Schema, was: Ref<Msg>)
    ensures MergedAll(S, was, []) == Some(was)
  {
  }

  lemma {:induction false} FoldDelivers(S: Schema, D: Desc, c: nat, was: Ref<Msg>, rs: seq<Record>) returns (parts: seq<seq<Msg>>)
    requires DescOk(S, D) && c < |D.owner| && D.owner[c] < |D.fields| && !was.Default?
    requires var f := D.OwnerOf(c); f.typ.Message? && !f.rule.Repeated? && !f.oneof
    requires FoldCell(S, D, c, Single(Sub(was)), rs).Some?
    ensures Delivered(S, D, c, rs, parts)
    decreases rs
  {
    hide StepCell, DescOk, Merge, MergedAll, Unpack;
    if rs == [] {
      parts := [];
    } else if Hits(D, c, rs[0]) {
      HitKind(S, D, c, rs[0]);
      SubmessageStep(S, D.OwnerOf(c), was, rs[0]);
      var m := Unpack(S, D.OwnerOf(c).sub, Payload(rs[0])).value;
      MergedAllOwn(S, was, [m]);
      var rest := FoldDelivers(S, D, c, MergedAll(S, was, [m]).value, rs[1..]);
      parts := [[m]] + rest;
    } else {
      var rest := FoldDelivers(S, D, c, was, rs[1..]);
      var none: seq<Msg> := [];
      parts := [none] + rest;
    }
  }
}
