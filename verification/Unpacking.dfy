/** protobuf_c_message_unpack in the form of the source: scan into slabs, allocate, parse. */
module Unpacking {
  import opened Words
  import opened Descriptors
  import opened Varints
  import opened Scalars
  import opened Wire
  import opened Decoding
  import opened ScanLaws
  import opened Folding
  import opened Validity
  import opened TwoPass
  import opened Ranges
  import opened Reading
  import opened Slabs
  import opened Merging

  // ---- the message under construction

  /** The message being filled in, with the array room the first pass has reserved. */
  class Builder {
    const desc: nat
    var cells: seq<Cell>
    var unknown: seq<Unknown>
    var room: seq<nat>        // elements allocated for the array of each repeated member
    var unknownRoom: nat

    constructor (S: Schema, d: nat, room: seq<nat>, unknownRoom: nat)
      requires SchemaOk(S) && d < |S|
      ensures desc == d && State() == InitMsg(S, d)
      ensures this.room == room && this.unknownRoom == unknownRoom
    {
      CellsFit(S, d);
      desc := d;
      cells := InitCells(S[d]);
      unknown := [];
      this.room := room;
      this.unknownRoom := unknownRoom;
    }

    function State(): (m: Msg)
      reads this
    {
      Msg(desc, cells, unknown)
    }

    /** Every record still to be parsed finds a well-formed cell and room for what it stores. */
    ghost predicate Ready(S: Schema, rs: seq<Record>)
      reads this
    {
      && desc < |S| && |cells| == |S[desc].owner|
      && Roomy(S[desc], cells, room, rs)
      && |unknown| + |UnknownsOf(S[desc], rs)| <= unknownRoom
      && Started(S, S[desc], cells)
    }
  }

  ghost predicate Started(S: Schema, D: Desc, cells: seq<Cell>) {
    && |cells| == |D.owner|
    && forall c :: 0 <= c < |cells| ==> D.owner[c] < |D.fields| && GoodStart(S, D, c, cells[c])
  }

  /** Array and unknown-field room left over covers the records still to be parsed. */
  ghost predicate Roomy(D: Desc, cells: seq<Cell>, room: seq<nat>, rs: seq<Record>) {
    && |room| == |cells| == |D.owner|
    && forall c :: 0 <= c < |D.owner| && D.owner[c] < |D.fields| && D.OwnerOf(c).rule.Repeated? ==>
         cells[c].Many? && |cells[c].vs| + ElementsFor(D, c, rs) <= room[c]
  }

  /** Bytes of the first element of a packed payload, or 0 when it is cut off. */
  function FirstElement(t: FieldType, s: seq<byte>): (n: nat)
    ensures n <= |s|
  {
    if Is32(t) || Is64(t) then (if |s| < MinSize(t) then 0 else MinSize(t)) else Extent(s, 10)
  }

  method ElementExtent(t: FieldType, s: seq<byte>) returns (n: nat)
    requires |s| < TWO_32
    ensures n == FirstElement(t, s)
  {
    if Is32(t) || Is64(t) {
      n := if |s| < MinSize(t) then 0 else MinSize(t);
    } else {
      n := ScanVarint(s);
    }
  }

  /** parse_packed_repeated_member: every element is stored within the room of the array. */
  method ParsePackedMember(t: FieldType, s: seq<byte>, vs: seq<Value>, room: nat) returns (r: Option<seq<Value>>)
    requires Packable(t) && |s| < TWO_32 && |vs| + PackedElements(t, s) <= room
    ensures var p := ParsePacked(t, s);
            r == if p.None? then None else Some(vs + p.value)
  {
    hide *;
    var at := 0;
    var stored := vs;
    ghost var done: seq<Value> := [];
    assert s[0..] == s;
    PrependNothing(ParsePacked(t, s));
    while at < |s|
      invariant 0 <= at <= |s|
      invariant stored == vs + done && |stored| + PackedElements(t, s[at..]) <= room
      invariant ParsePacked(t, s) == Prepend(done, ParsePacked(t, s[at..]))
      decreases |s| - at
    {
      var rem := s[at..];
      var n := ElementExtent(t, rem);
      if n == 0 {
        PrependBad(t, rem, done);
        return None;
      }
      ExtentBound(t, rem);
      var x := ReadNumber(t, rem[..n]);
      ElementSlot(t, rem, n);
      assert |stored| < room;   // array[count++] stays inside the allocation
      PrependOne(t, rem, n, done, x);
      Associate(vs, done, [Num(x)]);
      stored := stored + [Num(x)];
      done := done + [Num(x)];
      assert rem[n..] == s[at + n..];
      at := at + n;
    }
    assert s[at..] == [];
    PrependEnd(t, done);
    return Some(stored);
  }

  function Prepend(done: seq<Value>, p: Option<seq<Value>>): Option<seq<Value>> {
    if p.None? then None else Some(done + p.value)
  }

  lemma PrependBad(t: FieldType, rem: seq<byte>, done: seq<Value>)
    requires rem != [] && FirstElement(t, rem) == 0
    ensures Prepend(done, ParsePacked(t, rem)) == None
  {
  }

  lemma PrependEnd(t: FieldType, done: seq<Value>)
    ensures Prepend(done, ParsePacked(t, [])) == Some(done)
  {
    assert done + [] == done;
  }

  lemma ExtentBound(t: FieldType, s: seq<byte>)
    ensures !Is32(t) && !Is64(t) ==> FirstElement(t, s) <= 10
    ensures FirstElement(t, s) > 0 && (Is32(t) || Is64(t)) ==> FirstElement(t, s) == MinSize(t)
    ensures FirstElement(t, s) > 0 && !Is32(t) && !Is64(t) ==> FirstElement(t, s) == Extent(s, 10)
  {
  }

  lemma PrependNothing(p: Option<seq<Value>>)
    ensures Prepend([], p) == p
  {
    if p.Some? { assert [] + p.value == p.value; }
  }

  lemma PrependOne(t: FieldType, rem: seq<byte>, n: nat, done: seq<Value>, x: nat)
    requires 0 < n == FirstElement(t, rem) && x == ParseNum(t, rem[..n])
    ensures Prepend(done, ParsePacked(t, rem)) == Prepend(done + [Num(x)], ParsePacked(t, rem[n..]))
  {
    var p := ParsePacked(t, rem[n..]);
    if p.Some? {
      Associate(done, [Num(x)], p.value);
    }
  }

  lemma DelimitedLength(r: Record)
    requires WellDelimited(r)
    ensures r.prefix <= |r.data| < TWO_32
  {
  }

  /** A submessage is at most INT_MAX long, so its arrays have room. */
  lemma SubmessageFits(S: Schema, f: Field, r: Record)
    requires WellDelimited(r) && r.wire == WIRE_LENGTH && f.sub < |S|
    ensures r.prefix <= |r.data|
    ensures RoomFor(S[f.sub], r.data[r.prefix..])
  {
    hide Scan, RoomEnough;
    if Scan(r.data[r.prefix..]).Some? {
      ShortInputFits(S[f.sub], r.data[r.prefix..]);
    }
  }

  /** parse_required_member */
  method ParseRequiredMember(S: Schema, f: Field, was: Value, r: Record) returns (v: Option<Value>)
    requires SchemaOk(S) && IndexedSchema(S) && WellDelimited(r) && (f.typ.Message? ==> f.sub < |S|)
    requires was.Sub? && was.msg.Ptr? ==> TypedMsg(S, was.msg.target) && was.msg.target.desc == f.sub
    ensures v == ParseValue(S, f, was, r)
    decreases |r.data|, 2
  {
    DelimitedLength(r);
    if Packable(f.typ) {
      if !f.typ.Bool? && r.wire != NumWire(f.typ) {
        return None;
      }
      var x := ReadNumber(f.typ, r.data);
      return Some(Num(x));
    }
    if r.wire != WIRE_LENGTH {
      return None;
    }
    var content := r.data[r.prefix..];
    if f.typ.String? {
      return Some(Str(Ptr(CString(content))));
    } else if f.typ.Bytes? {
      return Some(Bin(|content|, if |content| > 0 then Ptr(content) else Null));
    }
    SubmessageFits(S, f, r);
    var subm := Unpack(S, f.sub, content);
    if subm.None? {
      return None;
    }
    if was.Sub? && was.msg.Ptr? {
      UnpackGood(S, f.sub, content);
      var merged := MergeMessages(S, was.msg.target, subm.value);
      return if merged.None? then None else Some(Sub(Ptr(merged.value)));
    }
    return Some(Sub(Ptr(subm.value)));
  }


  // ---- the first pass

  /** A scanned member: the record and the field descriptor found for it. */
  datatype Member = Member(rec: Record, field: Option<nat>)

  function Records(ms: seq<Member>): (rs: seq<Record>)
    ensures |rs| == |ms| && forall k :: 0 <= k < |ms| ==> rs[k] == ms[k].rec
  {
    seq(|ms|, k requires 0 <= k < |ms| => ms[k].rec)
  }

  predicate Found(D: Desc, m: Member) {
    m.field == Lookup(D, m.rec.tag)
  }

  /** One turn of the scanning loop: header, field lookup, extent of the data. */
  method ScanMember(S: Schema, D: Desc, s: seq<byte>, last: nat) returns (r: Option<(Member, nat)>, newLast: nat)
    requires |s| > 0 && DescOk(S, D) && Indexed(D) && (|D.fields| > 0 ==> last < |D.fields|)
    ensures r.None? ==> ScanOne(s).None?
    ensures r.Some? ==> ScanOne(s) == Some((r.value.0.rec, r.value.1)) && Found(D, r.value.0)
    ensures |D.fields| > 0 ==> newLast < |D.fields|
  {
    hide ScanHeader, DescOk, Indexed;
    var used, tag, wire := ParseTagAndWiretype(s);
    if used == 0 {
      return None, last;
    }
    var field;
    field, newLast := FindField(S, D, tag, last);
    var at := s[used..];
    var len, prefix := 0, 0;
    if wire == WIRE_VARINT {
      len := VarintEnd(at);
    } else if wire == WIRE_64BIT {
      len := if |at| < 8 then 0 else 8;
    } else if wire == WIRE_LENGTH {
      len, prefix := ScanLengthPrefixedData(at);
    } else if wire == WIRE_32BIT {
      len := if |at| < 4 then 0 else 4;
    }
    if len == 0 {
      return None, newLast;
    }
    return Some((Member(Record(tag, wire, prefix, s[used..used + len]), field), used + len)), newLast;
  }

  /** What the first pass counts: array elements per cell, required fields seen, unknown fields. */
  datatype Tally = Tally(counts: seq<nat>, seen: seq<bool>, nUnknown: nat)

  ghost predicate Seen(D: Desc, rs: seq<Record>, i: nat) {
    exists k :: 0 <= k < |rs| && Lookup(D, rs[k].tag) == Some(i)
  }

  ghost predicate Tallied(D: Desc, t: Tally, rs: seq<Record>) {
    && |t.counts| == |D.owner| && |t.seen| == |D.fields|
    && (forall c :: 0 <= c < |D.owner| && D.owner[c] < |D.fields| && D.OwnerOf(c).rule.Repeated? ==>
          t.counts[c] == SlotsFor(D, c, rs))
    && (forall i :: 0 <= i < |D.fields| && D.fields[i].rule.Required? ==> t.seen[i] == Seen(D, rs, i))
    && t.nUnknown == |UnknownsOf(D, rs)|
  }

  lemma SeenOneMore(D: Desc, rs: seq<Record>, r: Record, i: nat)
    ensures Seen(D, rs + [r], i) <==> Seen(D, rs, i) || Lookup(D, r.tag) == Some(i)
  {
    if Seen(D, rs, i) {
      var k :| 0 <= k < |rs| && Lookup(D, rs[k].tag) == Some(i);
      assert (rs + [r])[k] == rs[k];
    }
    assert (rs + [r])[|rs|] == r;
  }

  lemma OneMoreSlot(D: Desc, c: nat, rs: seq<Record>, r: Record)
    ensures SlotsFor(D, c, rs + [r]) ==
            SlotsFor(D, c, rs) + (if Hits(D, c, r) then Slots(D.fields[Lookup(D, r.tag).value], r) else 0)
  {
    SlotsConcat(D, c, rs, [r]);
    assert SlotsFor(D, c, [r][1..]) == 0;
  }

  lemma OneMoreUnknown(D: Desc, rs: seq<Record>, r: Record)
    ensures |UnknownsOf(D, rs + [r])| == |UnknownsOf(D, rs)| + if Lookup(D, r.tag).None? then 1 else 0
  {
    UnknownsConcat(D, rs, [r]);
    assert UnknownsOf(D, [r][1..]) == [];
  }

  /** A tally that differs as one more record demands. */
  lemma TallyStep(S: Schema, D: Desc, t: Tally, u: Tally, rs: seq<Record>, r: Record)
    requires DescOk(S, D) && Tallied(D, t, rs)
    requires |u.counts| == |t.counts| && |u.seen| == |t.seen|
    requires forall c :: 0 <= c < |t.counts| && D.owner[c] < |D.fields| && D.OwnerOf(c).rule.Repeated? ==>
               u.counts[c] == t.counts[c] + if Hits(D, c, r) then Slots(D.fields[Lookup(D, r.tag).value], r) else 0
    requires forall i :: 0 <= i < |t.seen| && D.fields[i].rule.Required? ==>
               u.seen[i] == (t.seen[i] || Lookup(D, r.tag) == Some(i))
    requires u.nUnknown == t.nUnknown + if Lookup(D, r.tag).None? then 1 else 0
    ensures Tallied(D, u, rs + [r])
  {
    hide DescOk, Lookup, Slots, Hits, SlotsFor, UnknownsOf, Seen;
    OneMoreUnknown(D, rs, r);
    forall c | 0 <= c < |D.owner| && D.owner[c] < |D.fields| && D.OwnerOf(c).rule.Repeated?
      ensures u.counts[c] == SlotsFor(D, c, rs + [r])
    {
      OneMoreSlot(D, c, rs, r);
    }
    forall i | 0 <= i < |D.fields| && D.fields[i].rule.Required?
      ensures u.seen[i] == Seen(D, rs + [r], i)
    {
      SeenOneMore(D, rs, r, i);
    }
  }

  /** The counting half of the loop body. */
  method CountMember(S: Schema, D: Desc, t: Tally, m: Member, ghost rs: seq<Record>) returns (r: Option<Tally>)
    requires DescOk(S, D) && Found(D, m) && Tallied(D, t, rs) && m.rec.prefix <= |m.rec.data|
    ensures r.Some? <==> Countable(D, m.rec)
    ensures r.Some? ==> Tallied(D, r.value, rs + [m.rec])
  {
    hide Lookup, SlotsFor, UnknownsOf, Tallied, Seen;
    TalliedSizes(D, t, rs);
    r := Some(t);
    if m.field.None? {
      r := Some(t.(nUnknown := t.nUnknown + 1));
    } else {
      var i := m.field.value;
      var f := D.fields[i];
      assert FieldOk(S, D, i);
      if f.rule.Required? {
        r := Some(t.(seen := t.seen[i := true]));
      } else if f.rule.Repeated? {
        var n := 1;
        if m.rec.wire == WIRE_LENGTH && (f.packed || Packable(f.typ)) {
          var ok;
          ok, n := CountPackedElements(f.typ, m.rec.data[m.rec.prefix..]);
          if !ok {
            return None;
          }
        }
        assert n == Slots(f, m.rec);
        r := Some(t.(counts := t.counts[f.cell := t.counts[f.cell] + n]));
      }
      assert FieldOk(S, D, D.owner[f.cell]);
      assert !f.rule.Repeated? ==> !D.OwnerOf(f.cell).rule.Repeated?;
    }
    TallyStep(S, D, t, r.value, rs, m.rec);
  }

  lemma TalliedSizes(D: Desc, t: Tally, rs: seq<Record>)
    requires Tallied(D, t, rs)
    ensures |t.counts| == |D.owner| && |t.seen| == |D.fields|
  {
  }

  /** The whole first pass accepts these records. */
  predicate Sizable(D: Desc, rs: seq<Record>) {
    |rs| <= MAX_RECORDS && forall k :: 0 <= k < |rs| ==> Countable(D, rs[k])
  }

  function Before(done: seq<Record>, rest: Option<seq<Record>>): Option<seq<Record>> {
    if rest.None? then None else Some(done + rest.value)
  }

  lemma ScanTurn(s: seq<byte>, done: seq<Record>, r: Record, n: nat)
    requires s != [] && ScanOne(s) == Some((r, n))
    ensures Before(done, Scan(s)) == Before(done + [r], Scan(s[n..]))
  {
    var rest := Scan(s[n..]);
    if rest.Some? {
      Associate(done, [r], rest.value);
    }
  }

  lemma ScanStops(s: seq<byte>, done: seq<Record>)
    requires s != [] && ScanOne(s).None?
    ensures Before(done, Scan(s)) == None
  {
  }

  lemma ScanEnds(done: seq<Record>)
    ensures Before(done, Scan([])) == Some(done)
  {
    assert done + [] == done;
  }

  lemma NotSizable(D: Desc, rs: seq<Record>, done: seq<Record>, r: Record, rest: Option<seq<Record>>)
    requires Before(done + [r], rest) == Some(rs) && (|done| == MAX_RECORDS || !Countable(D, r))
    ensures !Sizable(D, rs)
  {
    assert rs[|done|] == r;
  }

  ghost predicate AllFound(D: Desc, ms: seq<Member>) {
    forall k :: 0 <= k < |ms| ==> Found(D, ms[k]) && Countable(D, ms[k].rec)
  }

  /** The scanning loop. */
  method ScanAll(S: Schema, D: Desc, s: seq<byte>) returns (ok: bool, list: SlabList<Member>, t: Tally)
    requires DescOk(S, D) && Indexed(D)
    ensures fresh(list) && fresh(list.slabs)
    ensures ok <==> Scan(s).Some? && Sizable(D, Scan(s).value)
    ensures ok ==> list.Valid() && Scan(s) == Some(Records(list.Flat))
    ensures ok ==> AllFound(D, list.Flat) && Tallied(D, t, Records(list.Flat))
  {
    hide *;
    list := new SlabList(Member(Record(0, 0, 0, []), None));
    t := Tally(seq(|D.owner|, _ => 0), seq(|D.fields|, _ => false), 0);
    var at: nat, last: nat := 0, 0;
    StartOfScan(D, s, t);
    while at < |s|
      invariant 0 <= at <= |s| && (|D.fields| > 0 ==> last < |D.fields|)
      invariant fresh(list) && fresh(list.slabs) && list.Valid()
      invariant Before(Records(list.Flat), Scan(s[at..])) == Scan(s)
      invariant |list.Flat| <= MAX_RECORDS && AllFound(D, list.Flat) && Tallied(D, t, Records(list.Flat))
    {
      ghost var flat := list.Flat;
      var scanned;
      scanned, last := ScanMember(S, D, s[at..], last);
      if scanned.None? {
        ScanStops(s[at..], Records(flat));
        return false, list, t;
      }
      var (m, n) := scanned.value;
      ScanTurn(s[at..], Records(flat), m.rec, n);
      assert s[at..][n..] == s[at + n..];
      var stored := list.Append(m);
      var counted := CountMember(S, D, t, m, Records(flat));
      if !stored || counted.None? {
        if Scan(s).Some? {
          NotSizable(D, Scan(s).value, Records(flat), m.rec, Scan(s[at + n..]));
        }
        return false, list, t;
      }
      MemberAdded(D, flat, m);
      t := counted.value;
      at := at + n;
    }
    assert s[at..] == [];
    ScanEnds(Records(list.Flat));
    FoundSizable(D, list.Flat);
    return true, list, t;
  }

  lemma StartOfScan(D: Desc, s: seq<byte>, t: Tally)
    requires t == Tally(seq(|D.owner|, _ => 0), seq(|D.fields|, _ => false), 0)
    ensures Before(Records([]), Scan(s[0..])) == Scan(s)
    ensures AllFound(D, []) && Tallied(D, t, Records([]))
  {
    assert s[0..] == s && Records([]) == [];
    if Scan(s).Some? { assert [] + Scan(s).value == Scan(s).value; }
    forall i ensures !Seen(D, [], i) {}
  }

  lemma MemberAdded(D: Desc, ms: seq<Member>, m: Member)
    requires AllFound(D, ms) && Found(D, m) && Countable(D, m.rec)
    ensures AllFound(D, ms + [m]) && Records(ms + [m]) == Records(ms) + [m.rec]
  {
  }

  lemma FoundSizable(D: Desc, ms: seq<Member>)
    requires AllFound(D, ms) && |ms| <= MAX_RECORDS
    ensures Sizable(D, Records(ms))
  {
  }

  // ---- between the passes

  /** Every required field without a default was seen. */
  method AllRequired(D: Desc, t: Tally, ghost rs: seq<Record>) returns (ok: bool)
    requires Tallied(D, t, rs)
    ensures ok <==> forall i :: 0 <= i < |D.fields| ==> Present(D, rs, i)
  {
    for i := 0 to |D.fields|
      invariant forall k :: 0 <= k < i ==> Present(D, rs, k)
    {
      var f := D.fields[i];
      assert Present(D, rs, i) <==> (f.rule.Required? && f.dflt.None? && f.dfltNum.None? ==> Seen(D, rs, i));
      if f.rule.Required? && f.dflt.None? && f.dfltNum.None? && !t.seen[i] {
        return false;
      }
    }
    return true;
  }

  /** The arrays are allocated for the counts, each cut to an unsigned. */
  function RoomOf(counts: seq<nat>): (room: seq<nat>)
    ensures |room| == |counts| && forall c :: 0 <= c < |counts| ==> room[c] == counts[c] % TWO_32
  {
    seq(|counts|, c requires 0 <= c < |counts| => counts[c] % TWO_32)
  }

  /** They have room for all that was scanned, provided that the counts are not cut too far. */
  lemma FreshlyReady(S: Schema, d: nat, b: Builder, t: Tally, rs: seq<Record>)
    requires SchemaOk(S) && d < |S| && Tallied(S[d], t, rs) && RoomEnough(S[d], rs)
    requires b.desc == d && b.State() == InitMsg(S, d) && b.room == RoomOf(t.counts) && b.unknownRoom == t.nUnknown
    ensures b.Ready(S, rs)
  {
    CellsFit(S, d);
    var D := S[d];
    forall c | 0 <= c < |b.cells|
      ensures D.owner[c] < |D.fields| && GoodStart(S, D, c, b.cells[c])
      ensures D.OwnerOf(c).rule.Repeated? ==> b.cells[c] == Many([])
    {
      InitCellGood(S, D, c);
    }
  }

  // ---- the second pass

  lemma RoomyStep(S: Schema, D: Desc, cells: seq<Cell>, room: seq<nat>, r: Record, rest: seq<Record>, i: nat, x: Cell)
    requires DescOk(S, D) && Roomy(D, cells, room, [r] + rest) && Lookup(D, r.tag) == Some(i)
    requires D.fields[i].cell < |cells| && StepCell(S, D.fields[i], cells[D.fields[i].cell], r) == Some(x)
    ensures Roomy(D, cells[D.fields[i].cell := x], room, rest)
  {
    var f := D.fields[i];
    assert FieldOk(S, D, i) && FieldOk(S, D, D.owner[f.cell]);
    forall c | 0 <= c < |D.owner| && D.owner[c] < |D.fields| && D.OwnerOf(c).rule.Repeated?
      ensures var y := cells[f.cell := x][c]; y.Many? && |y.vs| + ElementsFor(D, c, rest) <= room[c]
    {
      ElementsSplit(D, c, r, rest);
      if c == f.cell {
        StepStores(S, f, cells[c].vs, r);
      }
    }
  }

  lemma ElementsSplit(D: Desc, c: nat, r: Record, rest: seq<Record>)
    ensures ElementsFor(D, c, [r] + rest) ==
            (if Hits(D, c, r) then Elements(D.fields[Lookup(D, r.tag).value], r) else 0) + ElementsFor(D, c, rest)
    ensures |UnknownsOf(D, [r] + rest)| == (if Lookup(D, r.tag).None? then 1 else 0) + |UnknownsOf(D, rest)|
  {
    assert ([r] + rest)[1..] == rest;
  }

  lemma RoomySkip(D: Desc, cells: seq<Cell>, room: seq<nat>, r: Record, rest: seq<Record>)
    requires Roomy(D, cells, room, [r] + rest) && Lookup(D, r.tag).None?
    ensures Roomy(D, cells, room, rest)
  {
    forall c: nat
      ensures ElementsFor(D, c, rest) == ElementsFor(D, c, [r] + rest)
    {
      ElementsSplit(D, c, r, rest);
    }
  }

  lemma StartedStep(S: Schema, D: Desc, cells: seq<Cell>, r: Record, i: nat, x: Cell)
    requires SchemaOk(S) && DescOk(S, D) && Started(S, D, cells) && WellDelimited(r) && Lookup(D, r.tag) == Some(i)
    requires D.fields[i].cell < |cells| && StepCell(S, D.fields[i], cells[D.fields[i].cell], r) == Some(x)
    ensures Started(S, D, cells[D.fields[i].cell := x])
  {
    assert FieldOk(S, D, i);
    StepCellGood(S, D, i, cells[D.fields[i].cell], r);
    GoodIsStart(S, D, D.fields[i].cell, x);
  }

  /** What a started cell tells about the value that parse_required_member finds in place. */
  lemma InPlace(S: Schema, D: Desc, cells: seq<Cell>, i: nat)
    requires DescOk(S, D) && Started(S, D, cells) && i < |D.fields| && D.fields[i].cell < |cells|
    ensures var f, cell := D.fields[i], cells[D.fields[i].cell];
            && (f.rule.Repeated? ==> cell.Many?)
            && (f.oneof ==> cell.NoCase? || (cell.Case? && Lookup(D, cell.id).Some?))
            && (!f.rule.Repeated? && !f.oneof ==>
                  && (cell.Flagged? <==> Flaggable(f)) && (cell.Flagged? || cell.Single?)
                  && (cell.v.Sub? && cell.v.msg.Ptr? ==> TypedMsg(S, cell.v.msg.target) && cell.v.msg.target.desc == f.sub))
  {
    var f := D.fields[i];
    var c := f.cell;
    assert FieldOk(S, D, i) && FieldOk(S, D, D.owner[c]);
    assert TypedCell(S, D, c, cells[c]);
    if !f.rule.Repeated? && !f.oneof {
      assert TypedValue(S, D.OwnerOf(c), cells[c].v);
    }
  }

  /** parse_oneof_member */
  method ParseOneofMember(S: Schema, D: Desc, f: Field, cell: Cell, r: Record) returns (c: Option<Cell>)
    requires SchemaOk(S) && IndexedSchema(S) && WellDelimited(r) && (f.typ.Message? ==> f.sub < |S|)
    requires DescOk(S, D) && Indexed(D) && (cell.NoCase? || (cell.Case? && Lookup(D, cell.id).Some?))
    requires f.oneof && !f.rule.Repeated?
    ensures c == StepCell(S, f, cell, r)
    decreases |r.data|, 3
  {
    if cell.Case? {
      KnownTag(S, D, cell.id);
      var index := IntRangeLookup(D.ranges, cell.id, Ids(D));
      if index < 0 {
        return None;
      }
      // the old member is freed and the union cleared
    }
    var v := ParseRequiredMember(S, f, ZeroValue(f), r);
    return if v.None? then None else Some(Case(r.tag, v.value));
  }

  /** parse_optional_member */
  method ParseOptionalMember(S: Schema, f: Field, cell: Cell, r: Record) returns (c: Option<Cell>)
    requires SchemaOk(S) && IndexedSchema(S) && WellDelimited(r) && (f.typ.Message? ==> f.sub < |S|)
    requires !f.oneof && !f.rule.Repeated? && (cell.Flagged? || cell.Single?)
    requires cell.v.Sub? && cell.v.msg.Ptr? ==> TypedMsg(S, cell.v.msg.target) && cell.v.msg.target.desc == f.sub
    ensures c == StepCell(S, f, cell, r)
    decreases |r.data|, 3
  {
    var v := ParseRequiredMember(S, f, cell.v, r);
    return if v.None? then None else Some(if cell.Flagged? then Flagged(true, v.value) else Single(v.value));
  }

  /** parse_repeated_member: the element goes into the next free slot of the array. */
  method ParseRepeatedMember(S: Schema, f: Field, vs: seq<Value>, r: Record, room: nat) returns (c: Option<Cell>)
    requires SchemaOk(S) && IndexedSchema(S) && WellDelimited(r) && (f.typ.Message? ==> f.sub < |S|)
    requires f.rule.Repeated? && !IsPackedRecord(f, r) && |vs| < room
    ensures c == StepCell(S, f, Many(vs), r)
    decreases |r.data|, 3
  {
    var v := ParseRequiredMember(S, f, ZeroValue(f), r);
    return if v.None? then None else Some(Many(vs + [v.value]));
  }

  method ParsePackedCell(S: Schema, f: Field, vs: seq<Value>, r: Record, room: nat) returns (c: Option<Cell>)
    requires IsPackedRecord(f, r) && Packable(f.typ) && WellDelimited(r) && |vs| + Elements(f, r) <= room
    ensures c == StepCell(S, f, Many(vs), r)
  {
    DelimitedLength(r);
    var ws := ParsePackedMember(f.typ, r.data[r.prefix..], vs, room);
    return if ws.None? then None else Some(Many(ws.value));
  }

  lemma RequiredCell(S: Schema, f: Field, cell: Cell, r: Record)
    requires f.rule.Required? && !f.oneof && cell.Single?
    ensures StepCell(S, f, cell, r) ==
            var v := ParseValue(S, f, cell.v, r);
            if v.None? then None else Some(Single(v.value))
  {
  }

  lemma FieldInRange(S: Schema, D: Desc, i: nat)
    requires DescOk(S, D) && i < |D.fields|
    ensures var f := D.fields[i];
            && f.cell < |D.owner| && (f.typ.Message? ==> f.sub < |S|) && (f.packed ==> Packable(f.typ))
            && (f.oneof ==> !f.rule.Repeated? && !f.rule.Required?)
  {
    assert FieldOk(S, D, i);
  }

  lemma HasRoom(S: Schema, D: Desc, cells: seq<Cell>, room: seq<nat>, r: Record, rest: seq<Record>, i: nat)
    requires DescOk(S, D) && Roomy(D, cells, room, [r] + rest) && Lookup(D, r.tag) == Some(i)
    requires D.fields[i].rule.Repeated?
    ensures var c := D.fields[i].cell;
            c < |cells| == |room| && cells[c].Many? && |cells[c].vs| + Elements(D.fields[i], r) <= room[c]
  {
    assert FieldOk(S, D, i);
    ElementsSplit(D, D.fields[i].cell, r, rest);
  }

  /** parse_member: one record into the message, within the allocated room. */
  method ParseMember(S: Schema, b: Builder, m: Member, ghost rest: seq<Record>) returns (ok: bool)
    requires SchemaOk(S) && IndexedSchema(S) && WellDelimited(m.rec)
    requires b.Ready(S, [m.rec] + rest) && Found(S[b.desc], m)
    modifies b
    ensures ok <==> Step(S, old(b.State()), m.rec).Some?
    ensures ok ==> Step(S, old(b.State()), m.rec) == Some(b.State()) && b.Ready(S, rest)
    decreases |m.rec.data|, 4
  {
    hide DescOk, Lookup, GoodStart, StepCell, WellDelimited, Roomy, Started, FieldOk, ElementsFor, UnknownsOf;
    var D := S[b.desc];
    var r := m.rec;
    DelimitedLength(r);
    assert DescOk(S, D) && Indexed(D);
    if m.field.None? {
      ElementsSplit(D, 0, r, rest);
      RoomySkip(D, b.cells, b.room, r, rest);
      assert |b.unknown| < b.unknownRoom;   // unknown_fields[n_unknown_fields++] stays inside the allocation
      b.unknown := b.unknown + [Unknown(r.tag, r.wire, r.data)];
      return true;
    }
    var i := m.field.value;
    var f := D.fields[i];
    ElementsSplit(D, f.cell, r, rest);
    FieldInRange(S, D, i);
    var cell := b.cells[f.cell];
    InPlace(S, D, b.cells, i);
    var c;
    if f.rule.Required? {
      var v := ParseRequiredMember(S, f, cell.v, r);
      c := if v.None? then None else Some(Single(v.value));
      RequiredCell(S, f, cell, r);
    } else if f.rule.Repeated? {
      HasRoom(S, D, b.cells, b.room, r, rest, i);
      if r.wire == WIRE_LENGTH && (f.packed || Packable(f.typ)) {
        c := ParsePackedCell(S, f, cell.vs, r, b.room[f.cell]);
      } else {
        c := ParseRepeatedMember(S, f, cell.vs, r, b.room[f.cell]);
      }
    } else if f.oneof {
      c := ParseOneofMember(S, D, f, cell, r);
    } else {
      c := ParseOptionalMember(S, f, cell, r);
    }
    if c.None? {
      return false;
    }
    RoomyStep(S, D, b.cells, b.room, r, rest, i, c.value);
    StartedStep(S, D, b.cells, r, i, c.value);
    b.cells := b.cells[f.cell := c.value];
    return true;
  }

  lemma {:induction false} WeightOf(rs: seq<Record>, k: nat)
    requires k < |rs|
    ensures |rs[k].data| < Weight(rs)
  {
    if k > 0 { WeightOf(rs[1..], k - 1); }
  }

  /** After record k. */
  lemma ParseTurn(S: Schema, st: Msg, rs: seq<Record>, k: nat)
    requires k < |rs|
    ensures rs[k..] == [rs[k]] + rs[k + 1..]
    ensures ParseAll(S, st, rs[k..]) ==
            var next := Step(S, st, rs[k]);
            if next.None? then None else ParseAll(S, next.value, rs[k + 1..])
  {
    assert rs[k..][1..] == rs[k + 1..];
  }

  /** The parsing loops over the slabs. */
  method ParseMembers(S: Schema, b: Builder, list: SlabList<Member>) returns (ok: bool)
    requires SchemaOk(S) && IndexedSchema(S) && list.Valid() && b.Ready(S, Records(list.Flat))
    requires AllFound(S[b.desc], list.Flat) && forall k :: 0 <= k < |list.Flat| ==> WellDelimited(list.Flat[k].rec)
    modifies b
    ensures ok <==> ParseAll(S, old(b.State()), Records(list.Flat)).Some?
    ensures ok ==> ParseAll(S, old(b.State()), Records(list.Flat)) == Some(b.State())
    decreases Weight(Records(list.Flat)), 0
  {
    hide ParseAll, Weight, Step, Roomy, Started, UnknownsOf, WellDelimited, Found, Countable, SlabList.Valid, SlabList.Reached;
    list.AllReached();
    ghost var D := S[b.desc];
    ghost var rs := Records(list.Flat);
    ghost var k := 0;
    assert rs[0..] == rs;
    for i := 0 to |list.slabs|
      invariant k == list.Reached(i) && k <= |rs|
      invariant b.Ready(S, rs[k..])
      invariant ParseAll(S, old(b.State()), rs) == ParseAll(S, b.State(), rs[k..])
    {
      var max := if i == |list.slabs| - 1 then list.inSlab else SlabSize(i);
      list.SlabEntries(i);
      for j := 0 to max
        invariant k == list.Reached(i) + j
        invariant b.Ready(S, rs[k..])
        invariant ParseAll(S, old(b.State()), rs) == ParseAll(S, b.State(), rs[k..])
      {
        var m := list.slabs[i][j];
        assert m == list.Flat[k];
        ParseTurn(S, b.State(), rs, k);
        WeightOf(rs, k);
        var done := ParseMember(S, b, m, rs[k + 1..]);
        if !done {
          return false;
        }
        k := k + 1;
      }
    }
    list.AllReached();
    assert rs[k..] == [];
    ParseNothing(S, b.State());
    return true;
  }

  lemma ParseNothing(S: Schema, st: Msg)
    ensures ParseAll(S, st, []) == Some(st)
  {
  }

  lemma Refused(S: Schema, d: nat, s: seq<byte>)
    requires d < |S| && (Scan(s).None? || !Sizable(S[d], Scan(s).value))
    ensures Decoding.Unpack(S, d, s).None?
  {
    if Scan(s).Some? { assert !Acceptable(S[d], Scan(s).value); }
  }

  lemma Accepted(S: Schema, d: nat, s: seq<byte>)
    requires d < |S| && Scan(s).Some? && Sizable(S[d], Scan(s).value)
    ensures var D, rs := S[d], Scan(s).value;
            Decoding.Unpack(S, d, s) ==
              if forall i :: 0 <= i < |D.fields| ==> Present(D, rs, i) then ParseAll(S, InitMsg(S, d), rs) else None
    ensures Weight(Scan(s).value) <= |s|
  {
  }

  /** protobuf_c_message_unpack */
  method Unpack(S: Schema, d: nat, s: seq<byte>) returns (r: Option<Msg>)
    requires SchemaOk(S) && IndexedSchema(S) && d < |S| && RoomFor(S[d], s)
    ensures r == Decoding.Unpack(S, d, s)
    decreases |s|, 1
  {
    hide ParseAll, Scan, Sizable, RoomEnough, Tallied, DescOk, Indexed, WellDelimited, Present, Countable;
    var D := S[d];
    var scanned, list, t := ScanAll(S, D, s);
    if !scanned {
      Refused(S, d, s);
      return None;
    }
    ghost var rs := Records(list.Flat);
    Accepted(S, d, s);
    var seen := AllRequired(D, t, rs);
    if !seen {
      return None;
    }
    var b := new Builder(S, d, RoomOf(t.counts), t.nUnknown);
    FreshlyReady(S, d, b, t, rs);
    ScannedAreDelimited(s);
    var ok := ParseMembers(S, b, list);
    return if ok then Some(b.State()) else None;
  }
}
