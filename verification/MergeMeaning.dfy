/**
 * What merging makes of two messages, cell by cell: the latter member wins where it is set,
 * and of a oneof whatever can be moved into a union of zeros.
 */
module MergeMeaning {
  import opened Words
  import opened Descriptors
  import opened Wire
  import opened Decoding
  import opened ScanLaws
  import opened Folding
  import opened Validity
  import opened MergeLaws
  import opened Merging
  import opened Meaning
  import opened CellMeaning
  import opened UnpackMeaning

  /**
   * Is the member set, as merging sees it? A flag says so, but for bytes their own pointer does;
   * strings and messages must not be the initial ones; numbers without a flag never count.
   */
  predicate IsSet(f: Field, x: Cell) {
    match x
    case Flagged(has, v) => if v.Bin? then v.data.Ptr? else has
    case Single(v) =>
      (match v
       case Num(_) => false
       case Str(s) => if f.dflt.Some? then s != Default else s != Null
       case Bin(_, data) => data.Ptr?
       case Sub(m) => m != Null)
    case _ => false
  }

  /** Is this member of a oneof, with this value, moved into a union of zeros? A string with a default never is. */
  predicate Survives(g: Field, v: Value) {
    match v
    case Num(_) => true
    case Str(s) => s != Null && g.dflt == None
    case Bin(_, data) => data.Ptr?
    case Sub(m) => m != Null
  }

  /** The field a oneof cell selects. */
  predicate Selects(D: Desc, x: Cell, g: Field) {
    x.Case? && g in D.fields && g.id == x.id
  }

  /** Is `x` what merging the earlier cell into the latter gives? */
  predicate CellMerged(S: Schema, D: Desc, f: Field, e: Cell, l: Cell, x: Cell) {
    if f.rule.Repeated? then
      e.Many? && l.Many? && x == Many(e.vs + l.vs)
    else if f.rule.Required? then
      x == l
    else if f.oneof then
      if l.Case? then x == l
      else e.Case? && x == if exists g :: g in D.fields && Selects(D, e, g) && Survives(g, e.v) then e else NoCase
    else if HasMessage(e) && HasMessage(l) then
      x.Single? && x.v.Sub? && x.v.msg.Ptr? && Merge(S, e.v.msg.target, l.v.msg.target) == Some(x.v.msg.target)
    else
      x == if IsSet(f, e) && !IsSet(f, l) then e else l
  }

  lemma CellMergeMeaning(S: Schema, D: Desc, c: nat, e: Cell, l: Cell, x: Cell)
    requires DescOk(S, D) && c < |D.owner| && D.owner[c] < |D.fields|
    requires TypedCell(S, D, c, e) && TypedCell(S, D, c, l)
    ensures MergeCell(S, D, D.OwnerOf(c), e, l) == Some(x) <==> CellMerged(S, D, D.OwnerOf(c), e, l, x)
  {
    hide Merge;
    assert FieldOk(S, D, D.owner[c]);
    if e.Case? {
      var j := Lookup(D, e.id).value;
      assert forall g :: g in D.fields && Selects(D, e, g) ==> g == D.fields[j] by { OneOfThatId(S, D, e, j); }
      assert Selects(D, e, D.fields[j]);
    }
  }

  lemma OneOfThatId(S: Schema, D: Desc, e: Cell, j: nat)
    requires DescOk(S, D) && e.Case? && Lookup(D, e.id) == Some(j)
    ensures forall g :: g in D.fields && Selects(D, e, g) ==> g == D.fields[j]
  {
    forall g | g in D.fields && Selects(D, e, g)
      ensures g == D.fields[j]
    {
      var i :| 0 <= i < |D.fields| && D.fields[i] == g;
      LookupField(S, D, i);
    }
  }

  /** Is `m` the latter message with the earlier one merged into it? Its unknown fields are the latter's. */
  predicate Merged(S: Schema, e: Msg, l: Msg, m: Msg) {
    var D := DescOf(S, l.desc);
    && m.desc == l.desc && m.unknown == l.unknown
    && |m.cells| == |l.cells| == |e.cells| == |D.owner|
    && forall c :: 0 <= c < |m.cells| ==>
         D.owner[c] < |D.fields| && CellMerged(S, D, D.OwnerOf(c), e.cells[c], l.cells[c], m.cells[c])
  }

  lemma MergeMakes(S: Schema, e: Msg, l: Msg)
    requires SchemaOk(S) && TypedMsg(S, e) && TypedMsg(S, l) && e.desc == l.desc && Merge(S, e, l).Some?
    ensures Merged(S, e, l, Merge(S, e, l).value)
  {
    hide MergeCell, CellMerged, SchemaOk;
    var D, m := S[l.desc], Merge(S, e, l).value;
    DescIn(S, l.desc);
    forall c | 0 <= c < |l.cells|
      ensures CellMerged(S, D, D.OwnerOf(c), e.cells[c], l.cells[c], m.cells[c])
    {
      assert TypedCell(S, D, c, e.cells[c]) && TypedCell(S, D, c, l.cells[c]);
      MergeCellsAt(S, e, l, 0, c);
      CellMergeMeaning(S, D, c, e.cells[c], l.cells[c], m.cells[c]);
    }
  }

  lemma MergedMerges(S: Schema, e: Msg, l: Msg, m: Msg)
    requires SchemaOk(S) && TypedMsg(S, e) && TypedMsg(S, l) && e.desc == l.desc && Merged(S, e, l, m)
    ensures Merge(S, e, l) == Some(m)
  {
    hide MergeCell, CellMerged, SchemaOk;
    var D := S[l.desc];
    DescIn(S, l.desc);
    forall c | 0 <= c < |l.cells|
      ensures MergeCell(S, D, D.OwnerOf(c), e.cells[c], l.cells[c]) == Some(m.cells[c])
    {
      assert TypedCell(S, D, c, e.cells[c]) && TypedCell(S, D, c, l.cells[c]);
      CellMergeMeaning(S, D, c, e.cells[c], l.cells[c], m.cells[c]);
    }
    MergeCellsTotal(S, e, l, 0);
    forall c | 0 <= c < |l.cells|
      ensures m.cells[c] == MergeCells(S, e, l, 0).value[c]
    {
      MergeCellsAt(S, e, l, 0, c);
    }
    assert m.cells == MergeCells(S, e, l, 0).value;
  }

  /** Two messages merge to a third exactly when every cell of it is the merged one. */
  lemma MergeMeans(S: Schema, e: Msg, l: Msg, m: Msg)
    requires SchemaOk(S) && TypedMsg(S, e) && TypedMsg(S, l) && e.desc == l.desc
    ensures Merge(S, e, l) == Some(m) <==> Merged(S, e, l, m)
  {
    hide *;
    if Merge(S, e, l) == Some(m) {
      MergeMakes(S, e, l);
    }
    if Merged(S, e, l, m) {
      MergedMerges(S, e, l, m);
    }
  }

  lemma DescIn(S: Schema, d: nat)
    requires SchemaOk(S) && d < |S|
    ensures DescOk(S, S[d])
  {
  }

  // ---- oneofs

  /**
   * What merging leaves in a oneof. The latter selection wins. If there is none, the earlier one
   * is kept exactly when it is a number, has bytes of its own, a message, or a string that is not
   * NULL in a field without a default; otherwise nothing stays selected.
   */
  lemma OneofMerged(S: Schema, e: Msg, l: Msg, c: nat, g: Field)
    requires SchemaOk(S) && TypedMsg(S, e) && TypedMsg(S, l) && e.desc == l.desc && Merge(S, e, l).Some?
    requires c < |S[l.desc].owner| && S[l.desc].owner[c] < |S[l.desc].fields| && S[l.desc].OwnerOf(c).oneof
    requires e.cells[c].Case? ==> Selects(S[l.desc], e.cells[c], g)
    ensures var m := Merge(S, e, l).value;
            && |m.cells| == |l.cells| == |e.cells| == |S[l.desc].owner|
            && (l.cells[c].Case? ==> m.cells[c] == l.cells[c])
            && (!l.cells[c].Case? ==>
                  && e.cells[c].Case?
                  && (m.cells[c] == e.cells[c] <==> Survives(g, e.cells[c].v))
                  && (m.cells[c] != e.cells[c] ==> m.cells[c] == NoCase))
  {
    hide Merge, Survives;
    var D := S[l.desc];
    MergeMeans(S, e, l, Merge(S, e, l).value);
    DescIn(S, l.desc);
    assert FieldOk(S, D, D.owner[c]);
    assert TypedCell(S, D, c, e.cells[c]);
    if e.cells[c].Case? {
      OneOfThatId(S, D, e.cells[c], Lookup(D, e.cells[c].id).value);
    }
  }

  /** What a decoder leaves in a oneof is kept by a merge, unless it is empty bytes or a string with a default. */
  predicate KeptByMerge(g: Field, v: Value) {
    match v
    case Num(_) => true
    case Str(_) => g.dflt == None
    case Bin(len, _) => len > 0
    case Sub(_) => true
  }

  /** Records that hit a oneof decide it, whatever was there. */
  lemma OneofOnTop(S: Schema, D: Desc, c: nat, a: Cell, rb: seq<Record>)
    requires DescOk(S, D) && c < |D.owner| && D.owner[c] < |D.fields| && D.OwnerOf(c).oneof && !D.OwnerOf(c).rule.Repeated?
    requires FoldCell(S, D, c, NoCase, rb).Some?
    ensures var b := FoldCell(S, D, c, NoCase, rb).value;
            && FoldCell(S, D, c, a, rb) == Some(if b.Case? then b else a)
            && (b.Case? || b == NoCase)
  {
    hide Holds, Legible, FoldCell, DescOk;
    if NoHit(D, c, rb) {
      FoldSkip(S, D, c, NoCase, rb);
      FoldSkip(S, D, c, a, rb);
    } else {
      var k := SomeLast(D, c, rb);
      LegibleFolds(S, D, c, NoCase, rb);
      LegibleFolds(S, D, c, a, rb);
      LastWins(S, D, c, NoCase, rb, k);
      LastWins(S, D, c, a, rb, k);
      HitKind(S, D, c, rb[k]);
      HoldsCase(S, D, rb[k], FoldCell(S, D, c, NoCase, rb).value);
      HoldsOne(S, D, rb[k], FoldCell(S, D, c, NoCase, rb).value, FoldCell(S, D, c, a, rb).value);
    }
  }

  lemma HoldsCase(S: Schema, D: Desc, r: Record, x: Cell)
    requires Lookup(D, r.tag).Some? && FieldOf(D, r).oneof && Holds(S, D, r, x)
    ensures x.Case? && x.id == r.tag && Gives(S, FieldOf(D, r), r, x.v)
  {
  }

  lemma GivenIsKept(S: Schema, g: Field, r: Record, v: Value)
    requires Gives(S, g, r, v)
    ensures Survives(g, v) <==> KeptByMerge(g, v)
  {
    hide Says, Unpack;
  }

  /** The value a decoder leaves in a oneof is what its last record gives. */
  lemma DecodedIsKept(S: Schema, d: nat, A: seq<byte>, c: nat, g: Field)
    requires SchemaOk(S) && d < |S| && Unpack(S, d, A).Some? && c < |S[d].owner| && S[d].owner[c] < |S[d].fields|
    requires S[d].OwnerOf(c).oneof && |Unpack(S, d, A).value.cells| == |S[d].owner|
    requires var x := Unpack(S, d, A).value.cells[c]; x.Case? && Selects(S[d], x, g)
    ensures var v := Unpack(S, d, A).value.cells[c].v;
            Survives(g, v) <==> KeptByMerge(g, v)
  {
    hide Gives, Survives, KeptByMerge;
    var D, rs := S[d], Scan(A).value;
    OneofLastWins(S, d, A, c);
    var k := SomeLast(D, c, rs);
    var x := Unpack(S, d, A).value.cells[c];
    DescIn(S, d);
    OneOfThatId(S, D, x, Lookup(D, x.id).value);
    GivenIsKept(S, FieldOf(D, rs[k]), rs[k], x.v);
  }

  /**
   * Decoding a concatenation, and merging, at a oneof. Decoding takes what the latter part selects,
   * and otherwise keeps what the earlier one does. Merging agrees exactly unless the latter part
   * selects nothing and the earlier one empty bytes or a string with a default, which are lost.
   */
  lemma OneofHomomorphism(S: Schema, d: nat, A: seq<byte>, B: seq<byte>, c: nat, g: Field)
    requires SchemaOk(S) && d < |S| && c < |S[d].owner| && S[d].owner[c] < |S[d].fields| && S[d].OwnerOf(c).oneof
    requires Unpack(S, d, A).Some? && Unpack(S, d, B).Some? && Unpack(S, d, A + B).Some?
    requires var a := Unpack(S, d, A).value; c < |a.cells| && (a.cells[c].Case? ==> Selects(S[d], a.cells[c], g))
    ensures var a, b, ab := Unpack(S, d, A).value, Unpack(S, d, B).value, Unpack(S, d, A + B).value;
            && |a.cells| == |b.cells| == |ab.cells| == |S[d].owner|
            && ab.cells[c] == (if b.cells[c].Case? then b.cells[c] else a.cells[c])
            && (Merge(S, a, b).Some? ==>
                  && |Merge(S, a, b).value.cells| == |S[d].owner|
                  && (b.cells[c].Case? || a.cells[c].Case?)
                  && (Merge(S, a, b).value.cells[c] == ab.cells[c] <==> b.cells[c].Case? || KeptByMerge(g, a.cells[c].v)))
  {
    hide Merge, FoldCell, Survives, KeptByMerge, DescOk, Acceptable, SchemaOk, TypedMsg, Checked, Scan, ParseAll;
    var D := S[d];
    var ra, rb := Scan(A).value, Scan(B).value;
    var a, b := Unpack(S, d, A).value, Unpack(S, d, B).value;
    DescIn(S, d);
    OneofRule(S, D, c);
    ScanConcat(A, B);
    CellsFit(S, d);
    ParseByCell(S, InitMsg(S, d), ra);
    ParseByCell(S, InitMsg(S, d), rb);
    ParseByCell(S, InitMsg(S, d), ra + rb);
    FoldConcat(S, D, c, NoCase, ra, rb);
    OneofOnTop(S, D, c, a.cells[c], rb);
    OneofOnTop(S, D, c, NoCase, ra);
    UnpackGood(S, d, A);
    UnpackGood(S, d, B);
    if Merge(S, a, b).Some? {
      OneofMerged(S, a, b, c, g);
      if a.cells[c].Case? { DecodedIsKept(S, d, A, c, g); }
    }
  }

  lemma OneofRule(S: Schema, D: Desc, c: nat)
    requires DescOk(S, D) && c < |D.owner| && D.owner[c] < |D.fields| && D.OwnerOf(c).oneof
    ensures !D.OwnerOf(c).rule.Repeated? && InitCell(D.OwnerOf(c)) == NoCase
  {
    assert FieldOk(S, D, D.owner[c]);
  }
}
