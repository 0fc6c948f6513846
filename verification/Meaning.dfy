/**
 * What the bytes of a message say, told without the decoder: the number an element stands
 * for, and the values that one record gives.
 */
module Meaning {
  import opened Words
  import opened Descriptors
  import opened Varints
  import opened Scalars
  import opened Wire
  import opened Decoding
  import opened ScanLaws
  import opened Folding

  // ---- numbers

  predicate SaysFixed(s: seq<byte>, bits: nat) {
    bits < Pow256(|s|) && forall i :: 0 <= i < |s| ==> s[i] == Digit(bits, i)
  }

  /** The digits determine the number read. */
  lemma {:induction false} FixedMeaning(s: seq<byte>, bits: nat)
    ensures SaysFixed(s, bits) <==> bits == FromLittleEndian(s)
  {
    hide Digit;
    if s != [] {
      FixedMeaning(s[1..], bits / 256);
      assert bits < Pow256(|s|) <==> bits / 256 < Pow256(|s| - 1);
      NextDigit(bits, 0);
      if SaysFixed(s, bits) {
        forall i | 0 <= i < |s| - 1
          ensures s[1..][i] == Digit(bits / 256, i)
        {
          NextDigit(bits, i);
        }
      } else if bits == FromLittleEndian(s) {
        forall i | 0 <= i < |s|
          ensures s[i] == Digit(bits, i)
        {
          if i > 0 {
            NextDigit(bits, i - 1);
            assert s[1..][i - 1] == Digit(bits / 256, i - 1);
          }
        }
      }
    }
  }

  /** 0, -1, 1, -2, ... are counted 0, 1, 2, 3, ... */
  function Counted(x: int): int {
    if x >= 0 then 2 * x else -2 * x - 1
  }

  /** Is this the number that the bytes of an element of the type stand for? */
  predicate Says(t: FieldType, s: seq<byte>, bits: nat) {
    match t
    case Int32 | UInt32 | Enum => bits == VarintValue(s) % TWO_32
    case Int64 | UInt64 => bits == VarintValue(s) % TWO_64
    case SInt32 => bits < TWO_32 && Counted(Signed(bits, TWO_32)) == VarintValue(s) % TWO_32
    case SInt64 => bits < TWO_64 && Counted(Signed(bits, TWO_64)) == VarintValue(s) % TWO_64
    case Bool => bits == if VarintValue(s) == 0 then 0 else 1
    case _ => SaysFixed(s, bits)
  }

  lemma UnzigzagCounts(u: nat, limit: nat, bits: nat)
    requires u < limit && limit % 2 == 0
    ensures bits < limit && Counted(Signed(bits, limit)) == u <==> bits == Nat(Unzigzag(u, limit))
  {
  }

  lemma {:induction false} TruthIsNonzero(s: seq<byte>)
    ensures TruthByte(s) <==> VarintValue(s) != 0
  {
    if s != [] {
      TruthIsNonzero(s[1..]);
      if TruthByte(s[1..]) {
        var i :| 0 <= i < |s| - 1 && s[1..][i] % 128 != 0;
        assert s[i + 1] % 128 != 0;
      }
      assert s[0] % 128 != 0 ==> TruthByte(s);
      if TruthByte(s) && s[0] % 128 == 0 {
        var i :| 0 <= i < |s| && s[i] % 128 != 0;
        assert s[1..][i - 1] % 128 != 0;
      }
    }
  }

  /** The decoder reads the number that the bytes stand for. */
  lemma NumberRead(t: FieldType, s: seq<byte>, bits: nat)
    requires Packable(t)
    ensures Says(t, s, bits) <==> bits == ParseNum(t, s)
  {
    hide Unzigzag, Counted, Signed, VarintValue, TruthByte, SaysFixed;
    match t {
      case SInt32 => UnzigzagCounts(VarintValue(s) % TWO_32, TWO_32, bits);
      case SInt64 => UnzigzagCounts(VarintValue(s) % TWO_64, TWO_64, bits);
      case Bool => TruthIsNonzero(s);
      case _ => FixedMeaning(s, bits);
    }
  }

  /** The wire type of a number's record. */
  function NumberWire(t: FieldType): nat {
    match t
    case SFixed32 | Fixed32 | Float => 5
    case SFixed64 | Fixed64 | Double => 1
    case _ => 0
  }

  /** The bytes written for a number, type by type. */
  predicate OnWire(t: FieldType, bits: nat, s: seq<byte>) {
    match t
    case Int32 | Enum =>
      Signed(VarintValue(s), TWO_64) == Signed(bits, TWO_32) && (bits >= TWO_32 / 2 ==> |s| == 10)
    case UInt32 | Int64 | UInt64 => VarintValue(s) == bits
    case SInt32 => VarintValue(s) == Counted(Signed(bits, TWO_32))
    case SInt64 => VarintValue(s) == Counted(Signed(bits, TWO_64))
    case Bool => s == [if bits == 0 then 0 else 1]
    case SFixed32 | Fixed32 | Float => |s| == 4 && SaysFixed(s, bits)
    case _ => |s| == 8 && SaysFixed(s, bits)
  }

  lemma SignedTen(bits: nat)
    requires TWO_32 / 2 <= bits < TWO_32
    ensures |Varint(SignExtend(bits))| == 10
  {
    hide Varint, Pow128;
    Pow128Values();
    VarintLength(SignExtend(bits), 10);
    VarintLength(SignExtend(bits), 9);
  }

  lemma FixedOnWire(bits: nat, n: nat)
    requires bits < Pow256(n)
    ensures SaysFixed(LittleEndian(bits, n), bits)
  {
    LittleEndianDigits(bits, n);
  }

  /** Every number is written as its type demands, and in the fewest bytes with that value. */
  lemma NumberOnWire(t: FieldType, bits: nat)
    requires Packable(t) && bits < NumLimit(t)
    ensures OnWire(t, bits, NumBytes(t, bits)) && NumWire(t) == NumberWire(t)
    ensures !Is32(t) && !Is64(t) ==> NumBytes(t, bits) == Varint(VarintValue(NumBytes(t, bits)))
  {
    hide Varint, VarintValue, Zigzag, LittleEndian, SaysFixed, SignExtend;
    Pow256Values();
    match t {
      case Int32 | Enum =>
        VarintRoundTrip(SignExtend(bits));
        if bits >= TWO_32 / 2 { SignedTen(bits); }
      case UInt32 | Int64 | UInt64 => VarintRoundTrip(bits);
      case SInt32 => ZigzagRoundTrip(bits, TWO_32); ZigzagMeaning(bits, TWO_32); VarintRoundTrip(Zigzag(bits, TWO_32));
      case SInt64 => ZigzagRoundTrip(bits, TWO_64); ZigzagMeaning(bits, TWO_64); VarintRoundTrip(Zigzag(bits, TWO_64));
      case Bool => BoolByte(if bits != 0 then 1 else 0);
      case SFixed32 | Fixed32 | Float => FixedOnWire(bits, 4);
      case SFixed64 | Fixed64 | Double => FixedOnWire(bits, 8);
      case _ =>
    }
  }

  lemma BoolByte(b: nat)
    requires b < 128
    ensures Varint(b) == [b] && VarintValue([b]) == b
  {
  }

  // ---- single values

  /** The bytes in front of the first NUL, or all of them. */
  predicate UpToNul(s: seq<byte>, t: seq<byte>) {
    t <= s && NulFree(t) && (|t| < |s| ==> s[|t|] == 0)
  }

  lemma {:induction false} CStringMeaning(s: seq<byte>, t: seq<byte>)
    ensures UpToNul(s, t) <==> t == CString(s)
  {
    if s != [] && s[0] != 0 {
      if t != [] { CStringMeaning(s[1..], t[1..]); }
      CStringMeaning(s[1..], CString(s[1..]));
      if UpToNul(s, t) {
        assert t == [s[0]] + t[1..];
      }
    }
  }

  /** Does the record on its own give the field this value? A bool may come with any wire type. */
  predicate Gives(S: Schema, g: Field, r: Record, v: Value) {
    match v
    case Num(bits) => Packable(g.typ) && (g.typ.Bool? || r.wire == NumberWire(g.typ)) && Says(g.typ, r.data, bits)
    case Str(s) => g.typ.String? && r.wire == WIRE_LENGTH && s.Ptr? && UpToNul(Payload(r), s.target)
    case Bin(len, data) =>
      && g.typ.Bytes? && r.wire == WIRE_LENGTH && len == |Payload(r)|
      && data == if len == 0 then Null else Ptr(Payload(r))
    case Sub(m) =>
      g.typ.Message? && r.wire == WIRE_LENGTH && m.Ptr? && Unpack(S, g.sub, Payload(r)) == Some(m.target)
  }

  /** A value parsed over one that is no message is what the record gives. */
  lemma ValueMeaning(S: Schema, g: Field, was: Value, r: Record, v: Value)
    requires g.typ.Message? && was.Sub? ==> was.msg.Null?
    ensures Gives(S, g, r, v) <==> ParseValue(S, g, was, r) == Some(v)
  {
    hide Says, ParseNum, UpToNul, CString, Unpack;
    match v {
      case Num(bits) => if Packable(g.typ) { NumberRead(g.typ, r.data, bits); }
      case Str(s) => if s.Ptr? { CStringMeaning(Payload(r), s.target); }
      case _ =>
    }
  }

  // ---- packed elements

  function Flat<T>(parts: seq<seq<T>>): seq<T> {
    if parts == [] then [] else parts[0] + Flat(parts[1..])
  }

  /** The bytes of one element: a fixed number of them, or a varint of at most ten. */
  predicate IsElement(t: FieldType, s: seq<byte>) {
    match t
    case SFixed32 | Fixed32 | Float => |s| == 4
    case SFixed64 | Fixed64 | Double => |s| == 8
    case _ => Terminated(s) && |s| <= 10
  }

  /** The payload is cut into elements, and each says its number. */
  predicate Cut(t: FieldType, pieces: seq<seq<byte>>, vs: seq<Value>) {
    |pieces| == |vs| && forall i :: 0 <= i < |vs| ==> IsElement(t, pieces[i]) && vs[i].Num? && Says(t, pieces[i], vs[i].bits)
  }

  ghost predicate Packs(t: FieldType, s: seq<byte>, vs: seq<Value>) {
    exists pieces: seq<seq<byte>> :: Cut(t, pieces, vs) && Flat(pieces) == s
  }

  lemma ElementFirst(t: FieldType, piece: seq<byte>, rest: seq<byte>)
    requires Packable(t) && IsElement(t, piece)
    ensures piece != []
    ensures ParsePacked(t, piece + rest) ==
            match ParsePacked(t, rest)
            case None => None
            case Some(vs) => Some([Num(ParseNum(t, piece))] + vs)
  {
    hide ParseNum, Terminated;
    assert piece != [] by { if piece == [] { EmptyIsNone(t); } }
    var s := piece + rest;
    assert s[..|piece|] == piece && s[|piece|..] == rest;
    if !Is32(t) && !Is64(t) {
      ExtentOfTerminated(piece, rest, 10);
    }
  }

  lemma EmptyIsNone(t: FieldType)
    ensures !IsElement(t, [])
  {
  }

  lemma {:induction false} CutParses(t: FieldType, pieces: seq<seq<byte>>, vs: seq<Value>)
    requires Packable(t) && Cut(t, pieces, vs)
    ensures ParsePacked(t, Flat(pieces)) == Some(vs)
  {
    hide ParsePacked, ParseNum, Says, IsElement;
    if vs == [] {
      ParseNothing(t);
    } else {
      CutParses(t, pieces[1..], vs[1..]);
      ElementFirst(t, pieces[0], Flat(pieces[1..]));
      NumberRead(t, pieces[0], vs[0].bits);
      assert [vs[0]] + vs[1..] == vs;
    }
  }

  lemma ParseNothing(t: FieldType)
    ensures ParsePacked(t, []) == Some([])
  {
  }

  /** The element at the front of a payload that parses. */
  lemma ParsedFront(t: FieldType, s: seq<byte>) returns (piece: seq<byte>)
    requires Packable(t) && s != [] && ParsePacked(t, s).Some?
    ensures IsElement(t, piece) && 0 < |piece| <= |s| && s == piece + s[|piece|..]
    ensures ParsePacked(t, s[|piece|..]).Some?
  {
    hide ParseNum, Terminated;
    var n := if Is32(t) || Is64(t) then (if |s| < MinSize(t) then 0 else MinSize(t)) else Extent(s, 10);
    piece := s[..n];
  }

  lemma {:induction false} ParsedCut(t: FieldType, s: seq<byte>, vs: seq<Value>) returns (pieces: seq<seq<byte>>)
    requires Packable(t) && ParsePacked(t, s) == Some(vs)
    ensures Cut(t, pieces, vs) && Flat(pieces) == s
    decreases |s|
  {
    hide ParsePacked, ParseNum, Says, IsElement;
    if s == [] {
      ParseNothing(t);
      pieces := [];
    } else {
      var piece := ParsedFront(t, s);
      var rest := s[|piece|..];
      ElementFirst(t, piece, rest);
      var ws := ParsePacked(t, rest).value;
      var others := ParsedCut(t, rest, ws);
      NumberRead(t, piece, ParseNum(t, piece));
      pieces := [piece] + others;
      assert pieces[1..] == others;
    }
  }

  /** A packed payload parses to the numbers of its elements, in order. */
  lemma PackedMeaning(t: FieldType, s: seq<byte>, vs: seq<Value>)
    requires Packable(t)
    ensures Packs(t, s, vs) <==> ParsePacked(t, s) == Some(vs)
  {
    if ParsePacked(t, s) == Some(vs) {
      var pieces := ParsedCut(t, s, vs);
    }
    if pieces: seq<seq<byte>> :| Cut(t, pieces, vs) && Flat(pieces) == s {
      CutParses(t, pieces, vs);
    }
  }

  /** What a record adds to a repeated field: packed numbers, whatever the field is declared as, or one value. */
  ghost predicate Adds(S: Schema, f: Field, r: Record, vs: seq<Value>) {
    if Packable(f.typ) && r.wire == WIRE_LENGTH then Packs(f.typ, Payload(r), vs)
    else |vs| == 1 && Gives(S, f, r, vs[0])
  }

  lemma RepeatedMeaning(S: Schema, f: Field, cell: Cell, r: Record, vs: seq<Value>)
    requires f.rule.Repeated? && (f.packed ==> Packable(f.typ)) && cell.Many?
    ensures Adds(S, f, r, vs) <==> StepCell(S, f, cell, r) == Some(Many(cell.vs + vs))
  {
    hide Packs, Gives, ParsePacked, ParseValue;
    if IsPackedRecord(f, r) {
      PackedMeaning(f.typ, Payload(r), vs);
      var p := ParsePacked(f.typ, Payload(r));
      if p.Some? { SameSuffix(cell.vs, p.value, vs); }
    } else {
      var p := ParseValue(S, f, ZeroValue(f), r);
      if p.Some? {
        SameSuffix(cell.vs, [p.value], vs);
        ValueMeaning(S, f, ZeroValue(f), r, p.value);
      }
      if |vs| == 1 {
        ValueMeaning(S, f, ZeroValue(f), r, vs[0]);
        assert vs == [vs[0]];
      }
    }
  }

  lemma SameSuffix<T>(a: seq<T>, b: seq<T>, c: seq<T>)
    ensures a + b == a + c <==> b == c
  {
    if a + b == a + c {
      assert b == (a + b)[|a|..] && c == (a + c)[|a|..];
    }
  }
}
