/**
 * An input whose element count is cut to 32 bits when the array is allocated: a repeated bool
 * in three packed records that count 2^32 elements together.
 */
module AllocationCut {
  import opened Words
  import opened Descriptors
  import opened Varints
  import opened Scalars
  import opened Wire
  import opened Decoding
  import opened ScanLaws
  import opened Folding
  import opened RoundTrip
  import opened TwoPass

  const BOOLS: Field := Field(1, Repeated, Bool, true, false, 0, 0, None, None)
  const FLAGS: Schema := [Desc([BOOLS], [0], [IntRange(1, 0), IntRange(0, 1)])]

  function Zeros(n: nat): (s: seq<byte>)
    ensures |s| == n && forall i :: 0 <= i < n ==> s[i] == 0
  {
    seq(n, _ => 0)
  }

  /** n packed values, all false. */
  function Falses(n: nat): Record {
    LengthRecord(1, Zeros(n))
  }

  /** Two records of the largest payload and a short one. */
  function ThreeRecords(): seq<Record> {
    [Falses(INT_MAX), Falses(INT_MAX), Falses(2)]
  }

  lemma FlagsOk()
    ensures SchemaOk(FLAGS) && Lookup(FLAGS[0], 1) == Some(0)
    ensures InitMsg(FLAGS, 0) == Msg(0, [Many([])], [])
  {
    assert FieldOk(FLAGS, FLAGS[0], 0);
    assert DescOk(FLAGS, FLAGS[0]);
    assert InitMsg(FLAGS, 0).cells == [Many([])];
  }

  lemma {:induction false} ZerosParse(s: seq<byte>)
    requires forall i :: 0 <= i < |s| ==> s[i] == 0
    ensures ParsePacked(Bool, s).Some?
    decreases |s|
  {
    if s != [] {
      assert Extent(s, 10) == 1;
      ZerosParse(s[1..]);
    }
  }

  lemma FalsesCount(n: nat)
    requires n <= INT_MAX
    ensures var r := Falses(n);
            && r.tag == 1 && ValidRecord(r) && IsPackedRecord(BOOLS, r) && Countable(FLAGS[0], r)
            && Slots(BOOLS, r) == n && Elements(BOOLS, r) == n
            && ParsePacked(Bool, Payload(r)).Some?
  {
    FlagsOk();
    PrefixedScans(Zeros(n), []);
    assert Prefixed(Zeros(n)) + [] == Prefixed(Zeros(n));
    PayloadOfContent(1, Zeros(n));
    TerminatorBytes(Zeros(n));
    ZerosParse(Zeros(n));
    hide Zeros, Terminators, ParsePacked, Varint;
  }

  /** The records parse on top of any elements. */
  ghost predicate Parses(rs: seq<Record>) {
    forall vs: seq<Value> :: FoldCell(FLAGS, FLAGS[0], 0, Many(vs), rs).Some?
  }

  lemma FalsesParsed(vs: seq<Value>, n: nat)
    requires n <= INT_MAX
    ensures var x := StepCell(FLAGS, BOOLS, Many(vs), Falses(n));
            x.Some? && x.value.Many?
  {
    FalsesCount(n);
    hide Falses, ParsePacked;
  }

  lemma OneMore(n: nat, rest: seq<Record>)
    requires n <= INT_MAX && Parses(rest)
    ensures var rs := [Falses(n)] + rest;
            && Parses(rs)
            && SlotsFor(FLAGS[0], 0, rs) == n + SlotsFor(FLAGS[0], 0, rest)
            && ElementsFor(FLAGS[0], 0, rs) == n + ElementsFor(FLAGS[0], 0, rest)
  {
    var r, rs := Falses(n), [Falses(n)] + rest;
    FlagsOk();
    FalsesCount(n);
    hide Falses, StepCell, Slots, Elements, Lookup;
    assert rs[0] == r && rs[1..] == rest && Hits(FLAGS[0], 0, r);
    forall vs: seq<Value>
      ensures FoldCell(FLAGS, FLAGS[0], 0, Many(vs), rs).Some?
    {
      FalsesParsed(vs, n);
    }
  }

  lemma NothingCounted()
    ensures Parses([]) && SlotsFor(FLAGS[0], 0, []) == ElementsFor(FLAGS[0], 0, []) == 0
  {
  }

  lemma Counts()
    ensures Parses(ThreeRecords())
    ensures SlotsFor(FLAGS[0], 0, ThreeRecords()) == ElementsFor(FLAGS[0], 0, ThreeRecords()) == TWO_32
  {
    hide Falses, SlotsFor, ElementsFor, Parses;
    NothingCounted();
    var none: seq<Record> := [];
    var one, two := [Falses(2)] + none, [Falses(INT_MAX)] + ([Falses(2)] + none);
    OneMore(2, none);
    OneMore(INT_MAX, one);
    OneMore(INT_MAX, two);
    assert ThreeRecords() == [Falses(INT_MAX)] + two;
  }

  lemma EachValid(r: Record)
    requires r in ThreeRecords()
    ensures ValidRecord(r) && Countable(FLAGS[0], r)
  {
    hide Falses, ValidRecord, Countable;
    FalsesCount(INT_MAX);
    FalsesCount(2);
  }

  lemma ThreeScan()
    ensures Scan(Flatten(ThreeRecords())) == Some(ThreeRecords())
  {
    hide *;
    var rs := ThreeRecords();
    forall r | r in rs ensures ValidRecord(r) { EachValid(r); }
    ScanFlatten(rs, []);
    NothingScanned(rs);
  }

  lemma NothingScanned(rs: seq<Record>)
    ensures Append(rs, Scan([])) == Some(rs) && Flatten(rs) + [] == Flatten(rs)
  {
    hide Flatten;
    assert rs + [] == rs;
  }

  lemma ThreeAcceptable()
    ensures Acceptable(FLAGS[0], ThreeRecords())
  {
    hide Falses, Countable;
    forall k | 0 <= k < |ThreeRecords()| ensures Countable(FLAGS[0], ThreeRecords()[k]) { EachValid(ThreeRecords()[k]); }
    assert !BOOLS.rule.Required?;
  }

  lemma NoRoom(rs: seq<Record>)
    requires SlotsFor(FLAGS[0], 0, rs) == ElementsFor(FLAGS[0], 0, rs) == TWO_32
    ensures Room(FLAGS[0], 0, rs) == 0 && !RoomEnough(FLAGS[0], rs)
  {
    hide SlotsFor, ElementsFor;
    assert FLAGS[0].OwnerOf(0) == BOOLS;
  }

  /** The input decodes to 2^32 elements, for which an array without room is allocated. */
  lemma NoRoomForAll()
    ensures var s, D := Flatten(ThreeRecords()), FLAGS[0];
            && SchemaOk(FLAGS) && Scan(s) == Some(ThreeRecords())
            && Unpack(FLAGS, 0, s).Some? && |Unpack(FLAGS, 0, s).value.cells| == 1
            && Unpack(FLAGS, 0, s).value.cells[0].Many? && |Unpack(FLAGS, 0, s).value.cells[0].vs| == TWO_32
            && Room(D, 0, ThreeRecords()) == 0 && !RoomEnough(D, ThreeRecords())
  {
    hide *;
    FlagsOk();
    ThreeScan();
    ThreeAcceptable();
    Counts();
    NoRoom(ThreeRecords());
    Decoded(ThreeRecords());
  }

  /** What records that parse decode to. */
  lemma Decoded(rs: seq<Record>)
    requires Scan(Flatten(rs)) == Some(rs) && Acceptable(FLAGS[0], rs) && Parses(rs)
    ensures var m := Unpack(FLAGS, 0, Flatten(rs));
            && m.Some? && |m.value.cells| == 1
            && m.value.cells[0].Many? && |m.value.cells[0].vs| == ElementsFor(FLAGS[0], 0, rs)
  {
    hide Scan, Flatten, FoldCell, ElementsFor, UnknownsOf, ParseAll, Acceptable, InitMsg;
    FlagsOk();
    var st := InitMsg(FLAGS, 0);
    Stores(FLAGS, FLAGS[0], 0, [], rs);
    ParseFromCells(FLAGS, st, rs, [FoldCell(FLAGS, FLAGS[0], 0, Many([]), rs).value]);
  }
}
