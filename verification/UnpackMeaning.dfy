/**
 * The decoder, characterised: which inputs it accepts and what the decoded message holds are
 * read off the records of the input.
 */
module UnpackMeaning {
  import opened Words
  import opened Descriptors
  import opened Varints
  import opened Scalars
  import opened Wire
  import opened Decoding
  import opened ScanLaws
  import opened Folding
  import opened Meaning
  import opened CellMeaning

  // ---- cells without a record

  predicate IsDefault(f: Field, v: Value) {
    match v
    case Num(bits) => Packable(f.typ) && (if f.dfltNum.Some? then f.dfltNum == Some(bits) else bits == 0)
    case Str(s) => f.typ.String? && !s.Ptr? && (s.Default? <==> f.dflt.Some?)
    case Bin(len, data) =>
      f.typ.Bytes? && (if f.dflt.Some? then data.Default? && len == |f.dflt.value| else data.Null? && len == 0)
    case Sub(m) => f.typ.Message? && m.Null?
  }

  /** The cell of a member, or of a oneof, for which there was no record. */
  predicate Untouched(f: Field, x: Cell) {
    match x
    case Many(vs) => f.rule.Repeated? && vs == []
    case NoCase => f.oneof && !f.rule.Repeated?
    case Flagged(has, v) => Flaggable(f) && !has && IsDefault(f, v)
    case Single(v) => !f.rule.Repeated? && !f.oneof && !Flaggable(f) && IsDefault(f, v)
    case Case(_, _) => false
  }

  lemma InitUntouched(f: Field, x: Cell)
    ensures Untouched(f, x) <==> x == InitCell(f)
  {
  }

  // ---- all cells

  ghost predicate NoHit(D: Desc, c: nat, rs: seq<Record>) {
    forall k :: 0 <= k < |rs| ==> !Hits(D, c, rs[k])
  }

  /** What a cell of the decoded message holds, given the records. */
  ghost predicate CellSays(S: Schema, D: Desc, c: nat, rs: seq<Record>, x: Cell)
    requires c < |D.owner| && D.owner[c] < |D.fields|
  {
    var f := D.OwnerOf(c);
    if f.rule.Repeated? then
      x.Many? && exists parts: seq<seq<Value>> :: Gathered(S, D, c, rs, parts) && x.vs == Flat(parts)
    else if f.typ.Message? && !f.oneof then
      x.Single? && x.v.Sub? && exists parts: seq<seq<Msg>> :: Delivered(S, D, c, rs, parts) && MergedAll(S, Null, Flat(parts)) == Some(x.v.msg)
    else
      && (forall k :: 0 <= k < |rs| && Hits(D, c, rs[k]) ==> Legible(S, D, rs[k]))
      && (forall k :: 0 <= k < |rs| && LastHit(D, c, rs, k) ==> Holds(S, D, rs[k], x))
      && (NoHit(D, c, rs) ==> Untouched(f, x))
  }

  lemma {:induction false} SomeLast(D: Desc, c: nat, rs: seq<Record>) returns (k: nat)
    requires !NoHit(D, c, rs)
    ensures LastHit(D, c, rs, k)
  {
    var n := |rs| - 1;
    if Hits(D, c, rs[n]) {
      k := n;
    } else {
      k := SomeLast(D, c, rs[..n]);
    }
  }

  lemma HoldsOne(S: Schema, D: Desc, r: Record, x: Cell, y: Cell)
    requires Lookup(D, r.tag).Some? && Holds(S, D, r, x) && Holds(S, D, r, y)
    ensures x == y
  {
    hide Gives, ParseValue;
    var f := FieldOf(D, r);
    ValueMeaning(S, f, ZeroValue(f), r, x.v);
    ValueMeaning(S, f, ZeroValue(f), r, y.v);
  }

  lemma ReplacedDecodes(S: Schema, D: Desc, c: nat, rs: seq<Record>, x: Cell)
    requires DescOk(S, D) && c < |D.owner| && D.owner[c] < |D.fields| && Replaced(D.OwnerOf(c))
    ensures FoldCell(S, D, c, InitCell(D.OwnerOf(c)), rs) == Some(x) <==> CellSays(S, D, c, rs, x)
  {
    hide Holds, Legible, DescOk, FoldCell, Untouched;
    var f := D.OwnerOf(c);
    var init := InitCell(f);
    LegibleFolds(S, D, c, init, rs);
    InitUntouched(f, x);
    if NoHit(D, c, rs) {
      FoldSkip(S, D, c, init, rs);
    } else {
      var k := SomeLast(D, c, rs);
      if FoldCell(S, D, c, init, rs).Some? {
        var y := FoldCell(S, D, c, init, rs).value;
        forall j | 0 <= j < |rs| && LastHit(D, c, rs, j)
          ensures Holds(S, D, rs[j], y)
        {
          LastWins(S, D, c, init, rs, j);
        }
        if Holds(S, D, rs[k], x) { HoldsOne(S, D, rs[k], x, y); }
      }
    }
  }

  lemma RepeatedDecodes(S: Schema, D: Desc, c: nat, rs: seq<Record>, x: Cell)
    requires DescOk(S, D) && c < |D.owner| && D.owner[c] < |D.fields| && D.OwnerOf(c).rule.Repeated?
    ensures FoldCell(S, D, c, InitCell(D.OwnerOf(c)), rs) == Some(x) <==> CellSays(S, D, c, rs, x)
  {
    hide Gathered, DescOk, FoldCell;
    if FoldCell(S, D, c, Many([]), rs).Some? {
      var parts := FoldGathers(S, D, c, [], rs);
      GatheredFold(S, D, c, [], rs, parts);
      assert [] + Flat(parts) == Flat(parts);
    }
    if parts: seq<seq<Value>> :| Gathered(S, D, c, rs, parts) && x == Many(Flat(parts)) {
      GatheredFold(S, D, c, [], rs, parts);
      assert [] + Flat(parts) == Flat(parts);
    }
  }

  lemma SubmessageDecodes(S: Schema, D: Desc, c: nat, rs: seq<Record>, x: Cell)
    requires DescOk(S, D) && c < |D.owner| && D.owner[c] < |D.fields|
    requires var f := D.OwnerOf(c); f.typ.Message? && !f.rule.Repeated? && !f.oneof
    ensures FoldCell(S, D, c, InitCell(D.OwnerOf(c)), rs) == Some(x) <==> CellSays(S, D, c, rs, x)
  {
    hide Delivered, DescOk, FoldCell, MergedAll;
    if FoldCell(S, D, c, Single(Sub(Null)), rs).Some? {
      var parts := FoldDelivers(S, D, c, Null, rs);
      DeliveredFold(S, D, c, Null, rs, parts);
    }
    if parts: seq<seq<Msg>> :| Delivered(S, D, c, rs, parts) && x.Single? && x.v.Sub? && MergedAll(S, Null, Flat(parts)) == Some(x.v.msg) {
      DeliveredFold(S, D, c, Null, rs, parts);
    }
  }

  /** A cell is what its records say, and they can be parsed only then. */
  lemma CellDecodes(S: Schema, D: Desc, c: nat, rs: seq<Record>, x: Cell)
    requires DescOk(S, D) && c < |D.owner| && D.owner[c] < |D.fields|
    ensures FoldCell(S, D, c, InitCell(D.OwnerOf(c)), rs) == Some(x) <==> CellSays(S, D, c, rs, x)
  {
    hide CellSays, FoldCell, DescOk;
    var f := D.OwnerOf(c);
    if f.rule.Repeated? {
      RepeatedDecodes(S, D, c, rs, x);
    } else if f.typ.Message? && !f.oneof {
      SubmessageDecodes(S, D, c, rs, x);
    } else {
      ReplacedDecodes(S, D, c, rs, x);
    }
  }

  // ---- whole messages

  /** The unknown record itself, nothing for a record of a known field. */
  function UnknownPart(D: Desc, r: Record): seq<Unknown> {
    if Lookup(D, r.tag).None? then [Unknown(r.tag, r.wire, r.data)] else []
  }

  predicate KeepsUnknown(D: Desc, rs: seq<Record>, us: seq<Unknown>) {
    us == Flat(seq(|rs|, k requires 0 <= k < |rs| => UnknownPart(D, rs[k])))
  }

  lemma {:induction false} UnknownMeaning(D: Desc, rs: seq<Record>)
    ensures KeepsUnknown(D, rs, UnknownsOf(D, rs))
  {
    if rs != [] {
      UnknownMeaning(D, rs[1..]);
      var parts := seq(|rs|, k requires 0 <= k < |rs| => UnknownPart(D, rs[k]));
      var rest := seq(|rs[1..]|, k requires 0 <= k < |rs[1..]| => UnknownPart(D, rs[1..][k]));
      assert parts[1..] == rest;
    }
  }

  /** Every required field without a default, of either kind, has a record. */
  predicate RequiredSeen(D: Desc, rs: seq<Record>) {
    forall i :: 0 <= i < |D.fields| && D.fields[i].rule.Required? && D.fields[i].dflt.None? && D.fields[i].dfltNum.None? ==>
      exists k :: 0 <= k < |rs| && rs[k].tag == D.fields[i].id
  }

  ghost predicate CellsSay(S: Schema, D: Desc, rs: seq<Record>, cells: seq<Cell>) {
    && |cells| == |D.owner|
    && forall c :: 0 <= c < |cells| ==> D.owner[c] < |D.fields| && CellSays(S, D, c, rs, cells[c])
  }

  /** Do the records make this message? The slabs hold 16 * (2^23 - 1) of them. */
  ghost predicate Makes(S: Schema, d: nat, rs: seq<Record>, m: Msg)
    requires d < |S|
  {
    && |rs| <= 16 * 0x7f_ffff
    && RequiredSeen(S[d], rs)
    && m.desc == d
    && CellsSay(S, S[d], rs, m.cells)
    && KeepsUnknown(S[d], rs, m.unknown)
  }

  lemma SeenIsPresent(S: Schema, D: Desc, rs: seq<Record>)
    requires DescOk(S, D)
    ensures RequiredSeen(D, rs) <==> forall i :: 0 <= i < |D.fields| ==> Present(D, rs, i)
  {
    forall i, r: Record | 0 <= i < |D.fields|
      ensures Lookup(D, r.tag) == Some(i) <==> r.tag == D.fields[i].id
    {
      LookupField(S, D, i);
    }
    forall i | 0 <= i < |D.fields| && RequiredSeen(D, rs)
      ensures Present(D, rs, i)
    {
      var f := D.fields[i];
      if f.rule.Required? && f.dflt.None? && f.dfltNum.None? {
        var k :| 0 <= k < |rs| && rs[k].tag == f.id;
        assert Lookup(D, rs[k].tag) == Some(i);
      }
    }
    if forall i :: 0 <= i < |D.fields| ==> Present(D, rs, i) {
      forall i | 0 <= i < |D.fields| && D.fields[i].rule.Required? && D.fields[i].dflt.None? && D.fields[i].dfltNum.None?
        ensures exists k :: 0 <= k < |rs| && rs[k].tag == D.fields[i].id
      {
        assert Present(D, rs, i);
      }
    }
  }

  lemma {:induction false} CutLength(t: FieldType, pieces: seq<seq<byte>>, vs: seq<Value>)
    requires Cut(t, pieces, vs) && (Is32(t) || Is64(t))
    ensures |Flat(pieces)| % MinSize(t) == 0
  {
    if vs != [] {
      CutLength(t, pieces[1..], vs[1..]);
    }
  }

  lemma AddsCountable(S: Schema, D: Desc, c: nat, rs: seq<Record>, parts: seq<seq<Value>>, k: nat)
    requires DescOk(S, D) && c < |D.owner| && D.owner[c] < |D.fields| && D.OwnerOf(c).rule.Repeated?
    requires Gathered(S, D, c, rs, parts) && k < |rs| && Hits(D, c, rs[k])
    ensures Countable(D, rs[k])
  {
    hide Says, Gives, IsElement, DescOk;
    HitKind(S, D, c, rs[k]);
    RepeatedField(S, D, c);
    var f := D.OwnerOf(c);
    if IsPackedRecord(f, rs[k]) && (Is32(f.typ) || Is64(f.typ)) {
      var pieces: seq<seq<byte>> :| Cut(f.typ, pieces, parts[k]) && Flat(pieces) == Payload(rs[k]);
      CutLength(f.typ, pieces, parts[k]);
    }
  }

  lemma SaysCountable(S: Schema, D: Desc, rs: seq<Record>, cells: seq<Cell>, k: nat)
    requires DescOk(S, D) && CellsSay(S, D, rs, cells) && k < |rs|
    ensures Countable(D, rs[k])
  {
    var i := Lookup(D, rs[k].tag);
    if i.Some? && D.fields[i.value].rule.Repeated? {
      assert FieldOk(S, D, i.value);
      var c := D.fields[i.value].cell;
      HitKind(S, D, c, rs[k]);
      assert CellSays(S, D, c, rs, cells[c]);
      var parts: seq<seq<Value>> :| Gathered(S, D, c, rs, parts);
      AddsCountable(S, D, c, rs, parts, k);
    }
  }

  lemma RecordsMake(S: Schema, d: nat, rs: seq<Record>, m: Msg)
    requires SchemaOk(S) && d < |S|
    ensures Acceptable(S[d], rs) && ParseAll(S, InitMsg(S, d), rs) == Some(m) <==> Makes(S, d, rs, m)
  {
    hide FoldCell, CellSays, KeepsUnknown, UnknownsOf, RequiredSeen, Present, Countable;
    var D := S[d];
    assert DescOk(S, D);
    CellsFit(S, d);
    SeenIsPresent(S, D, rs);
    UnknownMeaning(D, rs);
    assert [] + UnknownsOf(D, rs) == UnknownsOf(D, rs);
    if Acceptable(D, rs) && ParseAll(S, InitMsg(S, d), rs) == Some(m) {
      ParseByCell(S, InitMsg(S, d), rs);
      forall c | 0 <= c < |m.cells|
        ensures CellSays(S, D, c, rs, m.cells[c])
      {
        CellDecodes(S, D, c, rs, m.cells[c]);
      }
    }
    if Makes(S, d, rs, m) {
      forall k | 0 <= k < |rs|
        ensures Countable(D, rs[k])
      {
        SaysCountable(S, D, rs, m.cells, k);
      }
      forall c | 0 <= c < |m.cells|
        ensures FoldCell(S, D, c, InitCell(D.OwnerOf(c)), rs) == Some(m.cells[c])
      {
        CellDecodes(S, D, c, rs, m.cells[c]);
      }
      ParseFromCells(S, InitMsg(S, d), rs, m.cells);
      SameUnknown(D, rs, m.unknown, UnknownsOf(D, rs));
    }
  }

  lemma SameUnknown(D: Desc, rs: seq<Record>, us: seq<Unknown>, them: seq<Unknown>)
    requires KeepsUnknown(D, rs, us) && KeepsUnknown(D, rs, them)
    ensures us == them
  {
  }

  /**
   * An input decodes to a message exactly when the input is tiled by records that make it.
   */
  lemma UnpackIffMade(S: Schema, d: nat, s: seq<byte>, m: Msg)
    requires SchemaOk(S) && d < |S|
    ensures Unpack(S, d, s) == Some(m) <==> exists hs, rs :: Tiles(s, hs, rs) && Makes(S, d, rs, m)
  {
    hide Acceptable, ParseAll, Makes, Tiles;
    if Scan(s).Some? {
      var rs := Scan(s).value;
      ScanMeaning(s, rs);
      RecordsMake(S, d, rs, m);
    }
    if hs, rs :| Tiles(s, hs, rs) && Makes(S, d, rs, m) {
      ScanMeaning(s, rs);
      RecordsMake(S, d, rs, m);
    }
  }

  // ---- consequences

  /** Of the records of a oneof the last one wins, on its own; nothing is selected exactly when there is none. */
  lemma OneofLastWins(S: Schema, d: nat, s: seq<byte>, c: nat)
    requires SchemaOk(S) && d < |S| && Unpack(S, d, s).Some? && Scan(s).Some?
    requires c < |S[d].owner| && S[d].owner[c] < |S[d].fields| && S[d].OwnerOf(c).oneof
    ensures var D, rs, m := S[d], Scan(s).value, Unpack(S, d, s).value;
            && |m.cells| == |D.owner|
            && (m.cells[c].NoCase? <==> NoHit(D, c, rs))
            && forall k :: 0 <= k < |rs| && LastHit(D, c, rs, k) ==>
                 && m.cells[c].Case? && m.cells[c].id == rs[k].tag
                 && Gives(S, FieldOf(D, rs[k]), rs[k], m.cells[c].v)
  {
    hide Gives, KeepsUnknown, RequiredSeen, Gathered, Delivered, MergedAll;
    var D, rs, m := S[d], Scan(s).value, Unpack(S, d, s).value;
    RecordsMake(S, d, rs, m);
    assert FieldOk(S, D, D.owner[c]);
    assert CellSays(S, D, c, rs, m.cells[c]);
    forall k | 0 <= k < |rs| && LastHit(D, c, rs, k)
      ensures FieldOf(D, rs[k]).oneof
    {
      HitKind(S, D, c, rs[k]);
    }
    if !NoHit(D, c, rs) {
      var k := SomeLast(D, c, rs);
    }
  }

  /** Records that parse, in a number that fits the slabs. */
  ghost predicate Parses(S: Schema, d: nat, rs: seq<Record>)
    requires d < |S|
  {
    |rs| <= 16 * 0x7f_ffff && exists cells: seq<Cell> :: CellsSay(S, S[d], rs, cells)
  }

  /** Accepted is what is tiled by records that parse and leave out no required field without a default. */
  lemma AcceptedIff(S: Schema, d: nat, s: seq<byte>)
    requires SchemaOk(S) && d < |S|
    ensures Unpack(S, d, s).Some? <==> Scan(s).Some? && Parses(S, d, Scan(s).value) && RequiredSeen(S[d], Scan(s).value)
  {
    hide CellsSay, KeepsUnknown, RequiredSeen, Acceptable, ParseAll;
    if Unpack(S, d, s).Some? {
      RecordsMake(S, d, Scan(s).value, Unpack(S, d, s).value);
    } else if Scan(s).Some? && Parses(S, d, Scan(s).value) && RequiredSeen(S[d], Scan(s).value) {
      var rs := Scan(s).value;
      var cells: seq<Cell> :| CellsSay(S, S[d], rs, cells);
      UnknownMeaning(S[d], rs);
      RecordsMake(S, d, rs, Msg(d, cells, UnknownsOf(S[d], rs)));
    }
  }

  /** Without a record of one required field, and with all others, an input decodes exactly when that field has a default. */
  lemma MissingRequired(S: Schema, d: nat, s: seq<byte>, i: nat)
    requires SchemaOk(S) && d < |S| && Scan(s).Some? && Parses(S, d, Scan(s).value)
    requires i < |S[d].fields| && S[d].fields[i].rule.Required?
    requires forall k :: 0 <= k < |Scan(s).value| ==> Scan(s).value[k].tag != S[d].fields[i].id
    requires forall j :: 0 <= j < |S[d].fields| && j != i && S[d].fields[j].rule.Required? ==>
               exists k :: 0 <= k < |Scan(s).value| && Scan(s).value[k].tag == S[d].fields[j].id
    ensures Unpack(S, d, s).Some? <==> S[d].fields[i].dflt.Some? || S[d].fields[i].dfltNum.Some?
  {
    hide Parses, Scan, Unpack;
    AcceptedIff(S, d, s);
  }

  /** Nothing decodes to the untouched message, exactly when every required field has a default. */
  lemma NothingDecodes(S: Schema, d: nat)
    requires SchemaOk(S) && d < |S|
    ensures Unpack(S, d, []).Some? <==>
            forall i :: 0 <= i < |S[d].fields| && S[d].fields[i].rule.Required? ==> S[d].fields[i].dflt.Some? || S[d].fields[i].dfltNum.Some?
    ensures Unpack(S, d, []).Some? ==> |Unpack(S, d, []).value.cells| == |S[d].owner| && Unpack(S, d, []).value.unknown == []
    ensures Unpack(S, d, []).Some? ==> forall c :: 0 <= c < |S[d].owner| ==>
              S[d].owner[c] < |S[d].fields| && Untouched(S[d].OwnerOf(c), Unpack(S, d, []).value.cells[c])
  {
    hide ParseAll, Step;
    var D := S[d];
    assert DescOk(S, D);
    CellsFit(S, d);
    ScanNothing();
    var m := InitMsg(S, d);
    assert ParseAll(S, m, []) == Some(m) by { ParseNone(S, m); }
    SeenIsPresent(S, D, []);
    forall c | 0 <= c < |D.owner|
      ensures Untouched(D.OwnerOf(c), m.cells[c])
    {
      InitUntouched(D.OwnerOf(c), m.cells[c]);
    }
  }

  lemma ParseNone(S: Schema, m: Msg)
    ensures ParseAll(S, m, []) == Some(m)
  {
  }
}
