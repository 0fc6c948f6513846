/** Wire forms of the numeric types: ZigZag, sign extension, fixed words, booleans. */
module Scalars {
  import opened Words
  import opened Descriptors
  import opened Varints

  /** `x ^ mask` on `bits`-wide words when the mask is all zeros or all ones. */
  function XorMask(x: nat, limit: nat, ones: bool): (r: int) {
    if ones then limit - 1 - x else x
  }

  /** Zigzag on the bit pattern of an integer of some width; `limit` is two to the width. */
  function Zigzag(v: nat, limit: nat): int
    requires limit > 0
  {
    XorMask(2 * v % limit, limit, v >= limit / 2)
  }

  /** (u >> 1) ^ -(u & 1). */
  function Unzigzag(u: nat, limit: nat): int {
    XorMask(u / 2, limit, u % 2 == 1)
  }

  lemma DoubleMod(v: nat, limit: nat)
    requires v < limit
    ensures 2 * v % limit == if 2 * v < limit then 2 * v else 2 * v - limit
  {
    if 2 * v < limit {
      ModUnique(2 * v, limit, 0, 2 * v);
    } else {
      ModUnique(2 * v, limit, 1, 2 * v - limit);
    }
  }

  lemma ZigzagRoundTrip(v: nat, limit: nat)
    requires v < limit && limit % 2 == 0
    ensures 0 <= Zigzag(v, limit) < limit
    ensures Unzigzag(Zigzag(v, limit), limit) == v
  {
    DoubleMod(v, limit);
  }

  /** The signed integer a bit pattern stands for. */
  function Signed(v: nat, limit: nat): int {
    if v < limit / 2 then v else v - limit
  }

  /** ZigZag numbers 0, -1, 1, -2, 2, ... in that order. */
  lemma ZigzagMeaning(v: nat, limit: nat)
    requires v < limit && limit % 2 == 0
    ensures Zigzag(v, limit) ==
            var x := Signed(v, limit); if x >= 0 then 2 * x else -2 * x - 1
  {
    DoubleMod(v, limit);
  }

  /** int32 values are sign-extended to 64 bits before they are written. */
  function SignExtend(v: nat): (r: nat)
    requires v < TWO_32
    ensures r < TWO_64
    ensures Signed(r, TWO_64) == Signed(v, TWO_32)
  {
    if v >= TWO_32 / 2 then v + (TWO_64 - TWO_32) else v
  }

  const WIRE_VARINT: nat := 0
  const WIRE_64BIT: nat := 1
  const WIRE_LENGTH: nat := 2
  const WIRE_32BIT: nat := 5

  function NumWire(t: FieldType): nat {
    if Is32(t) then WIRE_32BIT else if Is64(t) then WIRE_64BIT else WIRE_VARINT
  }

  function Nat(x: int): nat { if x < 0 then 0 else x }

  /** The bytes of a numeric value, without its tag. */
  function NumBytes(t: FieldType, bits: nat): seq<byte> {
    match t
    case Int32 => Varint(SignExtend(bits % TWO_32))
    case Enum => Varint(SignExtend(bits % TWO_32))
    case UInt32 => Varint(bits)
    case SInt32 => Varint(Nat(Zigzag(bits, TWO_32)))
    case Int64 => Varint(bits)
    case UInt64 => Varint(bits)
    case SInt64 => Varint(Nat(Zigzag(bits, TWO_64)))
    case Bool => [if bits != 0 then 1 else 0]
    case _ => LittleEndian(bits, if Is64(t) then 8 else 4)
  }

  predicate TruthByte(s: seq<byte>) { exists i :: 0 <= i < |s| && s[i] % 128 != 0 }

  /** The value a decoder stores for the bytes of one element. */
  function ParseNum(t: FieldType, s: seq<byte>): (r: nat)
  {
    match t
    case Int32 => VarintValue(s) % TWO_32
    case Enum => VarintValue(s) % TWO_32
    case UInt32 => VarintValue(s) % TWO_32
    case SInt32 => Nat(Unzigzag(VarintValue(s) % TWO_32, TWO_32))
    case Int64 => VarintValue(s) % TWO_64
    case UInt64 => VarintValue(s) % TWO_64
    case SInt64 => Nat(Unzigzag(VarintValue(s) % TWO_64, TWO_64))
    case Bool => if TruthByte(s) then 1 else 0
    case _ => FromLittleEndian(s)
  }

  lemma Pow256Values()
    ensures Pow256(4) == TWO_32
    ensures Pow256(8) == TWO_64
  {
    assert Pow256(4) == 256 * (256 * (256 * (256 * Pow256(0))));
    assert Pow256(8) == 256 * (256 * (256 * (256 * Pow256(4))));
  }

  lemma Pow128Values()
    ensures Pow128(1) == 0x80
    ensures Pow128(2) == 0x4000
    ensures Pow128(3) == 0x20_0000
    ensures Pow128(4) == 0x1000_0000
    ensures Pow128(5) == 0x8_0000_0000
    ensures Pow128(6) == 0x400_0000_0000
    ensures Pow128(7) == 0x2_0000_0000_0000
    ensures Pow128(8) == 0x100_0000_0000_0000
    ensures Pow128(9) == 0x8000_0000_0000_0000
    ensures Pow128(10) == 0x40_0000_0000_0000_0000
  {
    assert Pow128(2) == 128 * (128 * Pow128(0));
    assert Pow128(4) == 128 * (128 * Pow128(2));
    assert Pow128(6) == 128 * (128 * Pow128(4));
    assert Pow128(8) == 128 * (128 * Pow128(6));
    assert Pow128(10) == 128 * (128 * Pow128(8));
  }

  lemma VarintParse(v: nat, limit: nat)
    requires 0 < v < limit || v == 0 < limit
    ensures VarintValue(Varint(v)) % limit == v
  {
    VarintRoundTrip(v);
    ModUnique(v, limit, 0, v);
  }

  lemma ZigzagParse(v: nat, limit: nat)
    requires v < limit && limit % 2 == 0
    ensures Nat(Unzigzag(VarintValue(Varint(Nat(Zigzag(v, limit)))) % limit, limit)) == v
  {
    ZigzagRoundTrip(v, limit);
    VarintParse(Zigzag(v, limit), limit);
  }

  /** Every number of a C member's range survives; a bool comes back as 0 or 1. */
  lemma NumRoundTrip(t: FieldType, bits: nat)
    requires Packable(t) && bits < NumLimit(t)
    ensures ParseNum(t, NumBytes(t, bits)) == if t.Bool? then (if bits != 0 then 1 else 0) else bits
  {
    match t {
      case Int32 => SignedParse(bits);
      case Enum => SignedParse(bits);
      case UInt32 => VarintParse(bits, TWO_32);
      case SInt32 => ZigzagParse(bits, TWO_32);
      case Int64 => VarintParse(bits, TWO_64);
      case UInt64 => VarintParse(bits, TWO_64);
      case SInt64 => ZigzagParse(bits, TWO_64);
      case Bool =>
        if bits != 0 { assert NumBytes(t, bits)[0] % 128 != 0; }
      case _ =>
    }
    Pow256Values();
    if Is32(t) {
      LittleEndianRoundTrip(bits, 4);
    } else if Is64(t) {
      LittleEndianRoundTrip(bits, 8);
    }
  }

  lemma SignedParse(bits: nat)
    requires bits < TWO_32
    ensures VarintValue(Varint(SignExtend(bits % TWO_32))) % TWO_32 == bits
  {
    VarintRoundTrip(SignExtend(bits));
    SignTruncate(bits);
  }

  lemma SignTruncate(bits: nat)
    requires bits < TWO_32
    ensures SignExtend(bits) % TWO_32 == bits
  {
  }

  /** A number takes between its type's minimum and ten bytes. */
  lemma NumBytesLength(t: FieldType, bits: nat)
    requires Packable(t) && bits < NumLimit(t)
    ensures MinSize(t) <= |NumBytes(t, bits)| <= 10 * MinSize(t)
    ensures Is32(t) || Is64(t) || t.Bool? ==> |NumBytes(t, bits)| == MinSize(t)
  {
    hide Varint, Pow128, Zigzag, LittleEndian;
    Pow128Values();
    match t {
      case Int32 => VarintLength(SignExtend(bits), 10);
      case Enum => VarintLength(SignExtend(bits), 10);
      case UInt32 => VarintLength(bits, 10);
      case SInt32 => ZigzagRoundTrip(bits, TWO_32); VarintLength(Zigzag(bits, TWO_32), 10);
      case Int64 => VarintLength(bits, 10);
      case UInt64 => VarintLength(bits, 10);
      case SInt64 => ZigzagRoundTrip(bits, TWO_64); VarintLength(Zigzag(bits, TWO_64), 10);
      case _ =>
    }
  }

  /** get_type_min_size */
  function MinSize(t: FieldType): nat {
    if Is32(t) then 4 else if Is64(t) then 8 else 1
  }

  lemma NumBytesTerminated(t: FieldType, bits: nat)
    requires Packable(t) && bits < NumLimit(t) && !Is32(t) && !Is64(t)
    ensures Terminated(NumBytes(t, bits)) && |NumBytes(t, bits)| <= 10
  {
    hide Varint, Zigzag, SignExtend, Terminated, LittleEndian;
    NumBytesLength(t, bits);
    LastGroup(if bits != 0 then 1 else 0);
    match t {
      case Int32 => VarintRoundTrip(SignExtend(bits));
      case Enum => VarintRoundTrip(SignExtend(bits));
      case UInt32 => VarintRoundTrip(bits);
      case SInt32 => VarintRoundTrip(Nat(Zigzag(bits, TWO_32)));
      case Int64 => VarintRoundTrip(bits);
      case UInt64 => VarintRoundTrip(bits);
      case SInt64 => VarintRoundTrip(Nat(Zigzag(bits, TWO_64)));
      case Bool =>
    }
  }
}
