/** Parsing cell by cell: records of other members never touch a cell. */
module Folding {
  import opened Words
  import opened Descriptors
  import opened Wire
  import opened Decoding

  /** Does this record belong to a field stored in cell `c`? */
  predicate Hits(D: Desc, c: nat, r: Record) {
    var i := Lookup(D, r.tag);
    i.Some? && D.fields[i.value].cell == c
  }

  /** What becomes of one cell while the records are parsed in order. */
  function FoldCell(S: Schema, D: Desc, c: nat, cell: Cell, rs: seq<Record>): Option<Cell>
    decreases rs
  {
    if rs == [] then Some(cell)
    else if Hits(D, c, rs[0]) then
      match StepCell(S, D.fields[Lookup(D, rs[0].tag).value], cell, rs[0])
      case None => None
      case Some(x) => FoldCell(S, D, c, x, rs[1..])
    else FoldCell(S, D, c, cell, rs[1..])
  }

  function UnknownsOf(D: Desc, rs: seq<Record>): seq<Unknown> {
    if rs == [] then []
    else
      (if Lookup(D, rs[0].tag).None? then [Unknown(rs[0].tag, rs[0].wire, rs[0].data)] else [])
      + UnknownsOf(D, rs[1..])
  }

  ghost predicate CellsInRange(D: Desc, n: nat) {
    forall i :: 0 <= i < |D.fields| ==> D.fields[i].cell < n
  }

  /** One step changes the cell it hits, and only that one. */
  lemma StepByCell(S: Schema, st: Msg, r: Record, c: nat)
    requires CellsInRange(DescOf(S, st.desc), |st.cells|) && c < |st.cells|
    requires Step(S, st, r).Some?
    ensures FoldCell(S, DescOf(S, st.desc), c, st.cells[c], [r]) == Some(Step(S, st, r).value.cells[c])
  {
  }

  lemma {:induction false} FoldConcat(S: Schema, D: Desc, c: nat, cell: Cell, a: seq<Record>, b: seq<Record>)
    ensures FoldCell(S, D, c, cell, a + b) ==
            match FoldCell(S, D, c, cell, a)
            case None => None
            case Some(x) => FoldCell(S, D, c, x, b)
    decreases a
  {
    if a == [] {
      assert a + b == b;
    } else {
      assert (a + b)[1..] == a[1..] + b;
      if Hits(D, c, a[0]) {
        var x := StepCell(S, D.fields[Lookup(D, a[0].tag).value], cell, a[0]);
        if x.Some? {
          FoldConcat(S, D, c, x.value, a[1..], b);
        }
      } else {
        FoldConcat(S, D, c, cell, a[1..], b);
      }
    }
  }

  lemma {:induction false} FoldSkip(S: Schema, D: Desc, c: nat, cell: Cell, rs: seq<Record>)
    requires forall r :: r in rs ==> !Hits(D, c, r)
    ensures FoldCell(S, D, c, cell, rs) == Some(cell)
  {
    if rs != [] {
      FoldSkip(S, D, c, cell, rs[1..]);
    }
  }

  lemma {:induction false} UnknownsConcat(D: Desc, a: seq<Record>, b: seq<Record>)
    ensures UnknownsOf(D, a + b) == UnknownsOf(D, a) + UnknownsOf(D, b)
  {
    if a == [] {
      assert a + b == b;
    } else {
      assert (a + b)[1..] == a[1..] + b;
      UnknownsConcat(D, a[1..], b);
    }
  }

  /** A successful parse is the fold of every cell, and collects the unknown records in order. */
  lemma {:induction false} ParseByCell(S: Schema, st: Msg, rs: seq<Record>)
    requires CellsInRange(DescOf(S, st.desc), |st.cells|)
    requires ParseAll(S, st, rs).Some?
    ensures var D := DescOf(S, st.desc);
            var t := ParseAll(S, st, rs).value;
            && (forall c :: 0 <= c < |st.cells| ==> FoldCell(S, D, c, st.cells[c], rs) == Some(t.cells[c]))
            && t.unknown == st.unknown + UnknownsOf(D, rs)
    decreases rs
  {
    if rs != [] {
      var D := DescOf(S, st.desc);
      var next := Step(S, st, rs[0]).value;
      ParseByCell(S, next, rs[1..]);
      Associate(st.unknown, UnknownsOf(D, [rs[0]]), UnknownsOf(D, rs[1..]));
      var t := ParseAll(S, st, rs).value;
      forall c | 0 <= c < |st.cells|
        ensures FoldCell(S, D, c, st.cells[c], rs) == Some(t.cells[c])
      {
        StepByCell(S, st, rs[0], c);
        FoldConcat(S, D, c, st.cells[c], [rs[0]], rs[1..]);
        assert [rs[0]] + rs[1..] == rs;
      }
    }
  }

  /** A parse fails only if the fold of some cell does. */
  lemma {:induction false} ParseFailsByCell(S: Schema, st: Msg, rs: seq<Record>) returns (c: nat)
    requires CellsInRange(DescOf(S, st.desc), |st.cells|)
    requires ParseAll(S, st, rs).None?
    ensures c < |st.cells| && FoldCell(S, DescOf(S, st.desc), c, st.cells[c], rs).None?
    decreases rs
  {
    var D := DescOf(S, st.desc);
    var next := Step(S, st, rs[0]);
    if next.None? {
      c := D.fields[Lookup(D, rs[0].tag).value].cell;
    } else {
      c := ParseFailsByCell(S, next.value, rs[1..]);
      StepByCell(S, st, rs[0], c);
      FoldConcat(S, D, c, st.cells[c], [rs[0]], rs[1..]);
      assert [rs[0]] + rs[1..] == rs;
    }
  }

  /** When every cell folds, the parse succeeds with those cells. */
  lemma ParseFromCells(S: Schema, st: Msg, rs: seq<Record>, cells: seq<Cell>)
    requires CellsInRange(DescOf(S, st.desc), |st.cells|) && |cells| == |st.cells|
    requires forall c :: 0 <= c < |cells| ==> FoldCell(S, DescOf(S, st.desc), c, st.cells[c], rs) == Some(cells[c])
    ensures ParseAll(S, st, rs) ==
            Some(Msg(st.desc, cells, st.unknown + UnknownsOf(DescOf(S, st.desc), rs)))
  {
    if ParseAll(S, st, rs).None? {
      var c := ParseFailsByCell(S, st, rs);
    }
    ParseByCell(S, st, rs);
    assert ParseAll(S, st, rs).value.cells == cells;
  }

  /** Parsing one part and then the other is parsing both. */
  lemma {:induction false} ParseConcat(S: Schema, st: Msg, a: seq<Record>, b: seq<Record>)
    ensures ParseAll(S, st, a + b) ==
            match ParseAll(S, st, a)
            case None => None
            case Some(t) => ParseAll(S, t, b)
    decreases a
  {
    if a == [] {
      assert a + b == b;
    } else {
      assert (a + b)[1..] == a[1..] + b;
      var next := Step(S, st, a[0]);
      if next.Some? {
        ParseConcat(S, next.value, a[1..], b);
      }
    }
  }

  lemma CellsFit(S: Schema, d: nat)
    requires SchemaOk(S) && d < |S|
    ensures CellsInRange(S[d], |S[d].owner|)
    ensures InitMsg(S, d) == Msg(d, InitCells(S[d]), [])
  {
    var D := S[d];
    assert DescOk(S, D);
    forall i | 0 <= i < |D.fields|
      ensures D.fields[i].cell < |D.owner|
    {
      assert FieldOk(S, D, i);
    }
  }
}
