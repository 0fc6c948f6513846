/** The first pass counts array slots; the second never stores more than were counted. */
module TwoPass {
  import opened Words
  import opened Descriptors
  import opened Varints
  import opened Scalars
  import opened Wire
  import opened Decoding
  import opened Folding

  /** max_b128_numbers: bytes that end a varint. */
  function Terminators(s: seq<byte>): nat {
    if s == [] then 0 else (if s[0] < 128 then 1 else 0) + Terminators(s[1..])
  }

  /** The count of count_packed_elements, when it accepts the payload. */
  function PackedCount(t: FieldType, s: seq<byte>): nat {
    if Is32(t) || Is64(t) then |s| / MinSize(t)
    else if t.Bool? then |s|
    else Terminators(s)
  }

  /** The elements a payload holds, if it parses. */
  function PackedElements(t: FieldType, s: seq<byte>): nat {
    if t.Bool? then Terminators(s) else PackedCount(t, s)
  }

  /** Every varint of the payload is a single byte. */
  predicate ShortVarints(s: seq<byte>) {
    forall i :: 0 <= i < |s| ==> s[i] < 128
  }

  /** Does this record take exactly the slots counted for it? */
  predicate CountsExactly(f: Field, r: Record) {
    f.typ.Bool? && IsPackedRecord(f, r) ==> ShortVarints(Payload(r))
  }

  /** Array slots the first pass counts for one record of a repeated field. */
  function Slots(f: Field, r: Record): nat {
    if IsPackedRecord(f, r) then PackedCount(f.typ, Payload(r)) else 1
  }

  /** Array slots counted for the cell over some records. */
  function SlotsFor(D: Desc, c: nat, rs: seq<Record>): nat {
    if rs == [] then 0
    else (if Hits(D, c, rs[0]) then Slots(D.fields[Lookup(D, rs[0].tag).value], rs[0]) else 0) + SlotsFor(D, c, rs[1..])
  }

  /** Elements the second pass stores for one record, and for the cell over some records, if they parse. */
  function Elements(f: Field, r: Record): nat {
    if IsPackedRecord(f, r) then PackedElements(f.typ, Payload(r)) else 1
  }

  function ElementsFor(D: Desc, c: nat, rs: seq<Record>): nat {
    if rs == [] then 0
    else (if Hits(D, c, rs[0]) then Elements(D.fields[Lookup(D, rs[0].tag).value], rs[0]) else 0)
         + ElementsFor(D, c, rs[1..])
  }

  /** The array is allocated for the slots counted, cut to an unsigned. */
  function Room(D: Desc, c: nat, rs: seq<Record>): nat {
    SlotsFor(D, c, rs) % TWO_32
  }

  /** Every array has room for what is stored in it when these records are parsed. */
  predicate RoomEnough(D: Desc, rs: seq<Record>) {
    forall c :: 0 <= c < |D.owner| && D.owner[c] < |D.fields| && D.OwnerOf(c).rule.Repeated? ==>
      ElementsFor(D, c, rs) <= Room(D, c, rs)
  }

  /** The same of an input, if it scans. */
  predicate RoomFor(D: Desc, s: seq<byte>) {
    Scan(s).Some? ==> RoomEnough(D, Scan(s).value)
  }

  predicate AllCountExactly(D: Desc, c: nat, rs: seq<Record>) {
    forall k :: 0 <= k < |rs| && Hits(D, c, rs[k]) ==> CountsExactly(D.fields[Lookup(D, rs[k].tag).value], rs[k])
  }

  lemma AllSplit(D: Desc, c: nat, rs: seq<Record>)
    requires rs != []
    ensures AllCountExactly(D, c, rs) <==>
            && (Hits(D, c, rs[0]) ==> CountsExactly(D.fields[Lookup(D, rs[0].tag).value], rs[0]))
            && AllCountExactly(D, c, rs[1..])
  {
    hide Hits, CountsExactly;
    assert forall k :: 0 < k < |rs| ==> rs[k] == rs[1..][k - 1];
  }

  lemma {:induction false} TerminatorsConcat(a: seq<byte>, b: seq<byte>)
    ensures Terminators(a + b) == Terminators(a) + Terminators(b)
  {
    if a == [] {
      assert a + b == b;
    } else {
      assert (a + b)[1..] == a[1..] + b;
      TerminatorsConcat(a[1..], b);
    }
  }

  lemma {:induction false} OneTerminator(s: seq<byte>)
    requires Terminated(s)
    ensures Terminators(s) == 1
  {
    if |s| > 1 {
      assert Terminated(s[1..]);
      OneTerminator(s[1..]);
    } else {
      assert Terminators(s[1..]) == 0;
    }
  }

  /** Taking one element off the front of a payload leaves one less. */
  lemma ElementSlot(t: FieldType, s: seq<byte>, n: nat)
    requires Packable(t) && 0 < n <= |s|
    requires if Is32(t) || Is64(t) then n == MinSize(t) else n == Extent(s, 10)
    ensures PackedElements(t, s) == 1 + PackedElements(t, s[n..])
  {
    if Is32(t) {
      assert |s| / 4 == 1 + (|s| - 4) / 4;
    } else if Is64(t) {
      assert |s| / 8 == 1 + (|s| - 8) / 8;
    } else {
      VarintSlot(s, n);
    }
  }

  lemma VarintSlot(s: seq<byte>, n: nat)
    requires 0 < n <= |s| && n == Extent(s, 10)
    ensures Terminators(s) == 1 + Terminators(s[n..])
  {
    TerminatorsConcat(s[..n], s[n..]);
    OneTerminator(s[..n]);
    assert s[..n] + s[n..] == s;
  }

  lemma {:induction false} TerminatorBytes(s: seq<byte>)
    ensures Terminators(s) <= |s|
    ensures Terminators(s) == |s| <==> ShortVarints(s)
  {
    if s != [] {
      TerminatorBytes(s[1..]);
      assert ShortVarints(s) <==> s[0] < 128 && ShortVarints(s[1..]) by {
        assert forall i :: 0 < i < |s| ==> s[i] == s[1..][i - 1];
      }
    }
  }

  /** A payload that parses holds that many elements. */
  lemma {:induction false} ParsedElements(t: FieldType, s: seq<byte>)
    requires Packable(t) && ParsePacked(t, s).Some?
    ensures |ParsePacked(t, s).value| == PackedElements(t, s)
    decreases |s|
  {
    if s != [] {
      var n := if Is32(t) || Is64(t) then MinSize(t) else Extent(s, 10);
      ElementSlot(t, s, n);
      ParsedElements(t, s[n..]);
    }
  }

  /**
   * The elements of a packed payload never exceed its count. They fall short of it exactly
   * for bools of which some takes more than one byte.
   */
  lemma PackedFits(t: FieldType, s: seq<byte>)
    requires Packable(t) && ParsePacked(t, s).Some?
    ensures |ParsePacked(t, s).value| <= PackedCount(t, s)
    ensures |ParsePacked(t, s).value| == PackedCount(t, s) <==> t.Bool? ==> ShortVarints(s)
  {
    ParsedElements(t, s);
    TerminatorBytes(s);
  }

  lemma {:induction false} SlotsConcat(D: Desc, c: nat, a: seq<Record>, b: seq<Record>)
    ensures SlotsFor(D, c, a + b) == SlotsFor(D, c, a) + SlotsFor(D, c, b)
  {
    if a == [] {
      assert a + b == b;
    } else {
      assert (a + b)[1..] == a[1..] + b;
      SlotsConcat(D, c, a[1..], b);
    }
  }

  lemma {:induction false} ElementsConcat(D: Desc, c: nat, a: seq<Record>, b: seq<Record>)
    ensures ElementsFor(D, c, a + b) == ElementsFor(D, c, a) + ElementsFor(D, c, b)
  {
    if a == [] {
      assert a + b == b;
    } else {
      assert (a + b)[1..] == a[1..] + b;
      ElementsConcat(D, c, a[1..], b);
    }
  }

  /** Storing a record appends its elements. */
  lemma StepStores(S: Schema, f: Field, vs: seq<Value>, r: Record)
    requires f.rule.Repeated? && (f.packed ==> Packable(f.typ)) && StepCell(S, f, Many(vs), r).Some?
    ensures var x := StepCell(S, f, Many(vs), r).value;
            x.Many? && vs <= x.vs && |x.vs| == |vs| + Elements(f, r)
  {
    if IsPackedRecord(f, r) {
      ParsedElements(f.typ, Payload(r));
    }
  }

  /** Over any records that parse, a repeated field receives exactly the elements they hold. */
  lemma {:induction false} Stores(S: Schema, D: Desc, c: nat, vs: seq<Value>, rs: seq<Record>)
    requires DescOk(S, D) && c < |D.owner| && D.OwnerOf(c).rule.Repeated?
    requires FoldCell(S, D, c, Many(vs), rs).Some?
    ensures var x := FoldCell(S, D, c, Many(vs), rs).value;
            x.Many? && |x.vs| == |vs| + ElementsFor(D, c, rs)
    decreases rs
  {
    if rs != [] {
      if Hits(D, c, rs[0]) {
        var i := Lookup(D, rs[0].tag).value;
        assert FieldOk(S, D, i) && FieldOk(S, D, D.owner[c]);
        StepStores(S, D.fields[i], vs, rs[0]);
        Stores(S, D, c, StepCell(S, D.fields[i], Many(vs), rs[0]).value.vs, rs[1..]);
      } else {
        Stores(S, D, c, vs, rs[1..]);
      }
    }
  }

  lemma NothingToCount(D: Desc, c: nat)
    ensures AllCountExactly(D, c, [])
  {
  }

  lemma OneCounted(f: Field, r: Record)
    ensures Elements(f, r) <= Slots(f, r) && (Elements(f, r) == Slots(f, r) <==> CountsExactly(f, r))
  {
    TerminatorBytes(Payload(r));
  }

  /** Records never hold more elements than slots are counted for them. */
  lemma {:induction false} ElementsCounted(D: Desc, c: nat, rs: seq<Record>)
    ensures ElementsFor(D, c, rs) <= SlotsFor(D, c, rs)
    ensures ElementsFor(D, c, rs) == SlotsFor(D, c, rs) <==> AllCountExactly(D, c, rs)
  {
    hide CountsExactly, Elements, Slots, AllCountExactly;
    if rs == [] {
      NothingToCount(D, c);
    } else {
      AllSplit(D, c, rs);
      if Hits(D, c, rs[0]) {
        OneCounted(D.fields[Lookup(D, rs[0].tag).value], rs[0]);
      }
      ElementsCounted(D, c, rs[1..]);
    }
  }

  /**
   * Two-pass agreement: over any records that parse, a repeated field receives at
   * most the number of elements the first pass counts for it, and exactly that
   * number if and only if no record for it packs a bool of more than one byte.
   */
  lemma StoredFits(S: Schema, D: Desc, c: nat, vs: seq<Value>, rs: seq<Record>)
    requires DescOk(S, D) && c < |D.owner| && D.OwnerOf(c).rule.Repeated?
    requires FoldCell(S, D, c, Many(vs), rs).Some?
    ensures var x := FoldCell(S, D, c, Many(vs), rs).value;
            && x.Many? && |x.vs| <= |vs| + SlotsFor(D, c, rs)
            && (|x.vs| == |vs| + SlotsFor(D, c, rs) <==> AllCountExactly(D, c, rs))
  {
    Stores(S, D, c, vs, rs);
    ElementsCounted(D, c, rs);
  }

  /**
   * What is stored fits the array if and only if the elements do not outnumber the count cut
   * to 32 bits; if every slot counted is used, if and only if the count is below 2^32.
   */
  lemma StoredFitsRoom(S: Schema, D: Desc, c: nat, rs: seq<Record>)
    requires DescOk(S, D) && c < |D.owner| && D.OwnerOf(c).rule.Repeated?
    requires FoldCell(S, D, c, Many([]), rs).Some?
    ensures var x := FoldCell(S, D, c, Many([]), rs).value;
            && x.Many?
            && (|x.vs| <= Room(D, c, rs) <==> ElementsFor(D, c, rs) <= Room(D, c, rs))
            && (SlotsFor(D, c, rs) < TWO_32 ==> |x.vs| <= Room(D, c, rs))
            && (AllCountExactly(D, c, rs) ==> (|x.vs| <= Room(D, c, rs) <==> SlotsFor(D, c, rs) < TWO_32))
  {
    Stores(S, D, c, [], rs);
    ElementsCounted(D, c, rs);
    CountCut(SlotsFor(D, c, rs));
  }

  lemma CountCut(n: nat)
    ensures n % TWO_32 <= n && (n < TWO_32 <==> n <= n % TWO_32)
  {
  }

  /**
   * Between the passes, after any number of records: what is stored and what is still to come
   * fit the array if and only if everything does.
   */
  lemma StoredFitsMidway(S: Schema, D: Desc, c: nat, done: seq<Record>, rest: seq<Record>)
    requires DescOk(S, D) && c < |D.owner| && D.OwnerOf(c).rule.Repeated?
    requires FoldCell(S, D, c, Many([]), done).Some?
    ensures var x := FoldCell(S, D, c, Many([]), done).value;
            && x.Many? && |x.vs| + SlotsFor(D, c, rest) <= SlotsFor(D, c, done + rest)
            && (|x.vs| + ElementsFor(D, c, rest) <= Room(D, c, done + rest)
                <==> ElementsFor(D, c, done + rest) <= Room(D, c, done + rest))
  {
    Stores(S, D, c, [], done);
    ElementsCounted(D, c, done);
    SlotsConcat(D, c, done, rest);
    ElementsConcat(D, c, done, rest);
  }

  lemma {:induction false} SlotsInData(D: Desc, c: nat, rs: seq<Record>)
    ensures SlotsFor(D, c, rs) <= Weight(rs)
  {
    if rs != [] {
      TerminatorBytes(Payload(rs[0]));
      SlotsInData(D, c, rs[1..]);
    }
  }

  /** Inputs below 2^32 bytes always have room. */
  lemma ShortInputFits(D: Desc, s: seq<byte>)
    requires Scan(s).Some? && |s| < TWO_32
    ensures RoomEnough(D, Scan(s).value)
  {
    var rs := Scan(s).value;
    assert Weight(rs) <= |s|;
    forall c | 0 <= c < |D.owner| && D.owner[c] < |D.fields| && D.OwnerOf(c).rule.Repeated?
      ensures ElementsFor(D, c, rs) <= Room(D, c, rs)
    {
      SlotsInData(D, c, rs);
      ElementsCounted(D, c, rs);
      CountCut(SlotsFor(D, c, rs));
    }
  }

  /** A packed bool written with a longer varint takes fewer elements than its two counted slots. */
  lemma BoolCountIsOnlyABound()
    ensures ParsePacked(Bool, [0x81, 0x00]) == Some([Num(1)]) && PackedCount(Bool, [0x81, 0x00]) == 2
  {
    var s: seq<byte> := [0x81, 0x00];
    assert s[1..] == [0x00];
    assert Extent([0x00], 9) == 1;
    assert Extent(s, 10) == 2;
    assert s[..2] == s && s[2..] == [];
    assert s[0] % 128 != 0;
    assert TruthByte(s);
    assert ParsePacked(Bool, s[2..]) == Some([]) && ParseNum(Bool, s[..2]) == 1;
    var one: seq<Value> := [Num(1)];
    assert one + [] == one;
  }
}
