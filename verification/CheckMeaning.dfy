/** protobuf_c_message_check as a condition on every message inside the checked one. */
module CheckMeaning {
  import opened Words
  import opened Descriptors
  import opened Validity

  /** The values a cell holds for this field: one, those of an array, or none if a oneof selects another. */
  function ValuesOf(f: Field, cell: Cell): (vs: seq<Value>)
    ensures forall j :: 0 <= j < |vs| ==> vs[j] < cell
  {
    match cell
    case Single(v) => [v]
    case Flagged(_, v) => [v]
    case Many(vs) => vs
    case NoCase => []
    case Case(id, v) => if id == f.id then [v] else []
  }

  /** The message in value j of field i. */
  ghost predicate Child(S: Schema, m: Msg, i: nat, j: nat, t: Msg) {
    var D := DescOf(S, m.desc);
    && i < |D.fields| && D.fields[i].cell < |m.cells|
    && var vs := ValuesOf(D.fields[i], m.cells[D.fields[i].cell]);
    j < |vs| && vs[j] == Sub(Ptr(t))
  }

  lemma ChildSmaller(S: Schema, m: Msg, i: nat, j: nat, t: Msg)
    requires Child(S, m, i, j, t)
    ensures t < m
  {
    var D := DescOf(S, m.desc);
    assert m.cells[D.fields[i].cell] < m;
    assert ValuesOf(D.fields[i], m.cells[D.fields[i].cell])[j] < m.cells[D.fields[i].cell];
  }

  /** A way down: field and value number at every level. */
  ghost predicate Reaches(S: Schema, m: Msg, path: seq<(nat, nat)>, n: Msg)
    decreases path
  {
    if path == [] then m == n
    else exists t :: Child(S, m, path[0].0, path[0].1, t) && Reaches(S, t, path[1..], n)
  }

  /** The tests made of one value. `must` is set for required members and array elements. */
  predicate ValueSound(must: bool, v: Value) {
    match v
    case Num(_) => true
    case Str(s) => must ==> s != Null
    case Bin(len, data) => len > 0 ==> data != Null
    case Sub(t) => must ==> t != Null
  }

  /** The tests made of one message, but for the messages inside; bytes are looked at if they are required or flagged. */
  predicate SoundAlone(S: Schema, m: Msg) {
    var D := DescOf(S, m.desc);
    forall i, j :: 0 <= i < |D.fields| && D.fields[i].cell < |m.cells|
                   && 0 <= j < |ValuesOf(D.fields[i], m.cells[D.fields[i].cell])| ==>
      var f, cell := D.fields[i], m.cells[D.fields[i].cell];
      (cell.Flagged? && !cell.has && !f.rule.Required?) || ValueSound(f.rule.Required? || cell.Many?, ValuesOf(f, cell)[j])
  }

  lemma TypedChild(S: Schema, m: Msg, i: nat, j: nat, t: Msg)
    requires SchemaOk(S) && TypedMsg(S, m) && Child(S, m, i, j, t)
    ensures TypedMsg(S, t)
  {
    var D := S[m.desc];
    assert FieldOk(S, D, i);
    var c := D.fields[i].cell;
    assert TypedCell(S, D, c, m.cells[c]);
    assert exists f :: TypedValue(S, f, Sub(Ptr(t)));
  }

  lemma FieldSound(S: Schema, f: Field, cell: Cell)
    requires forall j :: 0 <= j < |ValuesOf(f, cell)| && ValuesOf(f, cell)[j].Bin? ==>
               ValuesOf(f, cell)[j].len > 0 ==> !ValuesOf(f, cell)[j].data.Null?
    requires cell.Flagged? ==> Flaggable(f) && (cell.v.Num? || cell.v.Bin?)
    ensures CheckedCell(S, f, cell) <==>
            forall j :: 0 <= j < |ValuesOf(f, cell)| ==>
              var v := ValuesOf(f, cell)[j];
              && ((cell.Flagged? && !cell.has && !f.rule.Required?) || ValueSound(f.rule.Required? || cell.Many?, v))
              && (v.Sub? && v.msg.Ptr? ==> Checked(S, v.msg.target))
  {
    hide Checked;
    var vs := ValuesOf(f, cell);
    match cell {
      case Single(v) => assert vs[0] == v;
      case Flagged(has, v) => assert vs[0] == v;
      case Many(ws) =>
      case NoCase =>
      case Case(id, v) => assert id == f.id ==> vs[0] == v;
    }
  }

  /** Every field stored in a cell sees a typed value there. */
  lemma CellTyped(S: Schema, m: Msg, i: nat)
    requires SchemaOk(S) && TypedMsg(S, m) && i < |S[m.desc].fields|
    ensures var f := S[m.desc].fields[i];
            && f.cell < |m.cells|
            && (m.cells[f.cell].Flagged? ==> Flaggable(f) && (m.cells[f.cell].v.Num? || m.cells[f.cell].v.Bin?))
            && (forall j :: 0 <= j < |ValuesOf(f, m.cells[f.cell])| ==> TypedValue(S, f, ValuesOf(f, m.cells[f.cell])[j]))
  {
    var D := S[m.desc];
    assert DescOk(S, D);
    assert FieldOk(S, D, i);
    var c := D.fields[i].cell;
    assert FieldOk(S, D, D.owner[c]);
    assert TypedCell(S, D, c, m.cells[c]);
    LookupField(S, D, i);
  }

  lemma DataOfLength(S: Schema, f: Field, v: Value)
    requires TypedValue(S, f, v) && v.Bin? && v.len > 0
    ensures !v.data.Null?
  {
  }

  /** A message is checked if it is sound and all messages in it are checked. */
  lemma CheckedStep(S: Schema, m: Msg)
    requires SchemaOk(S) && TypedMsg(S, m)
    ensures Checked(S, m) <==> SoundAlone(S, m) && forall i: nat, j: nat, t: Msg :: Child(S, m, i, j, t) ==> Checked(S, t)
  {
    hide CheckedCell, ValueSound, TypedMsg, SchemaOk, ValuesOf;
    var D := DescOf(S, m.desc);
    InRange(S, m);
    forall i | 0 <= i < |D.fields|
      ensures D.fields[i].cell < |m.cells|
      ensures var f, cell := D.fields[i], m.cells[D.fields[i].cell];
              CheckedCell(S, f, cell) <==>
              forall j :: 0 <= j < |ValuesOf(f, cell)| ==>
                var v := ValuesOf(f, cell)[j];
                && ((cell.Flagged? && !cell.has && !f.rule.Required?) || ValueSound(f.rule.Required? || cell.Many?, v))
                && (v.Sub? && v.msg.Ptr? ==> Checked(S, v.msg.target))
    {
      CellTyped(S, m, i);
      var f, cell := D.fields[i], m.cells[D.fields[i].cell];
      forall j | 0 <= j < |ValuesOf(f, cell)| && ValuesOf(f, cell)[j].Bin? && ValuesOf(f, cell)[j].len > 0
        ensures !ValuesOf(f, cell)[j].data.Null?
      {
        DataOfLength(S, f, ValuesOf(f, cell)[j]);
      }
      FieldSound(S, f, cell);
    }
    if Checked(S, m) {
      forall i: nat, j: nat, t: Msg | Child(S, m, i, j, t)
        ensures Checked(S, t)
      {
        var v := ValuesOf(D.fields[i], m.cells[D.fields[i].cell])[j];
        assert v.Sub? && v.msg.Ptr? && v.msg.target == t;
      }
    }
    if SoundAlone(S, m) && forall i: nat, j: nat, t: Msg :: Child(S, m, i, j, t) ==> Checked(S, t) {
      forall i | 0 <= i < |D.fields|
        ensures CheckedCell(S, D.fields[i], m.cells[D.fields[i].cell])
      {
        var f, cell := D.fields[i], m.cells[D.fields[i].cell];
        forall j | 0 <= j < |ValuesOf(f, cell)| && ValuesOf(f, cell)[j].Sub? && ValuesOf(f, cell)[j].msg.Ptr?
          ensures Checked(S, ValuesOf(f, cell)[j].msg.target)
        {
          assert Child(S, m, i, j, ValuesOf(f, cell)[j].msg.target);
        }
      }
    }
  }

  lemma InRange(S: Schema, m: Msg)
    requires TypedMsg(S, m)
    ensures m.desc < |S| && DescOf(S, m.desc) == S[m.desc]
  {
  }

  lemma {:induction false} DownSound(S: Schema, m: Msg, path: seq<(nat, nat)>, n: Msg)
    requires SchemaOk(S) && TypedMsg(S, m) && Checked(S, m) && Reaches(S, m, path, n)
    ensures SoundAlone(S, n)
    decreases path
  {
    hide Checked, TypedMsg, SchemaOk, Child, SoundAlone;
    CheckedStep(S, m);
    if path != [] {
      var t :| Child(S, m, path[0].0, path[0].1, t) && Reaches(S, t, path[1..], n);
      TypedChild(S, m, path[0].0, path[0].1, t);
      DownSound(S, t, path[1..], n);
    }
  }

  lemma {:induction false} UnsoundBelow(S: Schema, m: Msg) returns (path: seq<(nat, nat)>, n: Msg)
    requires SchemaOk(S) && TypedMsg(S, m) && !Checked(S, m)
    ensures Reaches(S, m, path, n) && !SoundAlone(S, n)
    decreases m
  {
    hide Checked, TypedMsg, SchemaOk, Child, SoundAlone;
    CheckedStep(S, m);
    if !SoundAlone(S, m) {
      path, n := [], m;
    } else {
      var i: nat, j: nat, t: Msg :| Child(S, m, i, j, t) && !Checked(S, t);
      TypedChild(S, m, i, j, t);
      ChildSmaller(S, m, i, j, t);
      var rest: seq<(nat, nat)>;
      rest, n := UnsoundBelow(S, t);
      path := [(i, j)] + rest;
      assert path[1..] == rest;
    }
  }

  /** A message passes the check exactly when every message inside it, at any depth, is sound. */
  lemma CheckedEverywhere(S: Schema, m: Msg)
    requires SchemaOk(S) && TypedMsg(S, m)
    ensures Checked(S, m) <==> forall path, n :: Reaches(S, m, path, n) ==> SoundAlone(S, n)
  {
    hide Checked, TypedMsg, SchemaOk, SoundAlone, Reaches;
    if Checked(S, m) {
      forall path, n | Reaches(S, m, path, n)
        ensures SoundAlone(S, n)
      {
        DownSound(S, m, path, n);
      }
    } else {
      var path, n := UnsoundBelow(S, m);
    }
  }
}
