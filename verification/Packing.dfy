/** The pack family: writing a message into a flat buffer. */
module Packing {
  import opened Words
  import opened Descriptors
  import opened Varints
  import opened Scalars
  import opened Wire
  import opened Sizes

  // ---- bytes and varints

  lemma PutByte(s: seq<byte>, at: nat, done: seq<byte>, b: byte)
    requires at + |done| < |s|
    ensures Splice(s, at, done)[at + |done| := b] == Splice(s, at, done + [b])
  {
  }

  /** The loop shared by the varint writers; `v | 0x80` cut to a byte is v % 128 + 128. */
  method PutVarint(value: nat, out: array<byte>, at: nat) returns (rv: nat)
    requires at + |Varint(value)| <= out.Length
    modifies out
    ensures rv == |Varint(value)|
    ensures out[..] == Splice(old(out[..]), at, Varint(value))
  {
    var v := value;
    rv := 0;
    ghost var was := out[..];
    ghost var done: seq<byte> := [];
    while v >= 0x80
      invariant |done| == rv && done + Varint(v) == Varint(value)
      invariant out[..] == Splice(was, at, done)
    {
      PutByte(was, at, done, v % 128 + 128);
      out[at + rv] := v % 128 + 128;
      done := done + [v % 128 + 128];
      rv, v := rv + 1, v / 128;
    }
    PutByte(was, at, done, v);
    out[at + rv] := v;
    rv := rv + 1;
  }

  /** uint32_pack; the source unrolls the loop, which runs at most four times. */
  method Uint32Pack(value: nat, out: array<byte>, at: nat) returns (rv: nat)
    requires value < TWO_32 && at + |Varint(value)| <= out.Length
    modifies out
    ensures rv == |Varint(value)| <= 5
    ensures out[..] == Splice(old(out[..]), at, Varint(value))
  {
    VarintSize(value);
    rv := PutVarint(value, out, at);
  }

  /** Shifting down by 7 or 14 bits in two steps. */
  lemma ShiftTwice(x: nat)
    ensures x / 0x80 / 0x80 == x / 0x4000
    ensures x / 0x4000 / 0x80 == x / 0x20_0000
    ensures x / 0x4000 / 0x4000 == x / 0x1000_0000
  {
  }

  /** The four low groups of a 64-bit value come from its low word. */
  lemma VarintOfWords(hi: nat, lo: nat)
    requires 0 < hi && lo < TWO_32
    ensures Varint(0x1_0000_0000 * hi + lo) ==
            [lo % 128 + 128, lo / 0x80 % 128 + 128, lo / 0x4000 % 128 + 128, lo / 0x20_0000 % 128 + 128]
            + Varint(16 * hi + lo / 0x1000_0000)
  {
    hide Varint;
    var q := lo / 0x4000;
    TwoGroups(0x4_0000 * hi, lo);
    TwoGroups(16 * hi, q);
    ShiftTwice(lo);
    assert q / 0x80 == lo / 0x20_0000 && q / 0x4000 == lo / 0x1000_0000;
    Concat4(lo % 128 + 128, lo / 0x80 % 128 + 128, q % 128 + 128, q / 0x80 % 128 + 128, Varint(16 * hi + q / 0x4000));
  }

  lemma Concat4(a: byte, b: byte, c: byte, d: byte, s: seq<byte>)
    ensures [a, b] + ([c, d] + s) == [a, b, c, d] + s
  {
  }

  lemma TwoGroups(x: nat, lo: nat)
    requires x > 0
    ensures Varint(0x4000 * x + lo) == [lo % 128 + 128, lo / 0x80 % 128 + 128] + Varint(x + lo / 0x4000)
  {
    hide Varint;
    LowGroup(128 * x, lo);
    LowGroup(x, lo / 128);
    ShiftTwice(lo);
    Associate([lo % 128 + 128], [lo / 0x80 % 128 + 128], Varint(x + lo / 0x4000));
  }

  lemma LowGroup(x: nat, lo: nat)
    requires x > 0
    ensures Varint(128 * x + lo) == [lo % 128 + 128] + Varint(x + lo / 128)
  {
    var v := 128 * x + lo;
    ModUnique(v, 128, x + lo / 128, lo % 128);
    assert Varint(v) == [v % 128 + 128] + Varint(v / 128);
  }

  lemma FifthGroup(hi: nat, t: nat)
    requires t < 16
    ensures hi < 8 ==> 16 * hi + t < 128
    ensures (16 * hi + t) % 128 == 16 * (hi % 8) + t && (16 * hi + t) / 128 == hi / 8
  {
    ModUnique(16 * hi + t, 128, hi / 8, 16 * (hi % 8) + t);
  }

  method PutLowGroups(lo: nat, out: array<byte>, at: nat)
    requires lo < TWO_32 && at + 4 <= out.Length
    modifies out
    ensures out[..] == Splice(old(out[..]), at, LowGroups(lo))
  {
    out[at] := lo % 128 + 128;
    out[at + 1] := lo / 0x80 % 128 + 128;
    out[at + 2] := lo / 0x4000 % 128 + 128;
    out[at + 3] := lo / 0x20_0000 % 128 + 128;
  }

  function LowGroups(lo: nat): (s: seq<byte>)
    ensures |s| == 4
  {
    [lo % 128 + 128, lo / 0x80 % 128 + 128, lo / 0x4000 % 128 + 128, lo / 0x20_0000 % 128 + 128]
  }

  lemma Uint64Bytes(value: nat)
    requires 0x1_0000_0000 <= value < TWO_64
    ensures var hi, lo := value / 0x1_0000_0000, value % 0x1_0000_0000;
            var t := lo / 0x1000_0000;
            && t < 16
            && Varint(value) == LowGroups(lo) +
               if hi < 8 then [16 * hi + t] else [16 * (hi % 8) + t + 128] + Varint(hi / 8)
  {
    var hi, lo := value / 0x1_0000_0000, value % 0x1_0000_0000;
    VarintOfWords(hi, lo);
    FifthGroup(hi, lo / 0x1000_0000);
  }

  /** uint64_pack */
  method Uint64Pack(value: nat, out: array<byte>, at: nat) returns (rv: nat)
    requires value < TWO_64 && at + |Varint(value)| <= out.Length
    modifies out
    ensures rv == |Varint(value)|
    ensures out[..] == Splice(old(out[..]), at, Varint(value))
  {
    var hi, lo := value / 0x1_0000_0000, value % 0x1_0000_0000;
    if hi == 0 {
      rv := Uint32Pack(lo, out, at);
      return;
    }
    Uint64Bytes(value);
    var t := lo / 0x1000_0000;
    ghost var was, head := out[..], LowGroups(lo);
    PutLowGroups(lo, out, at);
    if hi < 8 {
      PutByte(was, at, head, 16 * hi + t);
      out[at + 4] := 16 * hi + t;
      rv := 5;
    } else {
      var b := 16 * (hi % 8) + t + 128;
      PutByte(was, at, head, b);
      out[at + 4] := b;
      SpliceSplice(was, at, head + [b], Varint(hi / 8));
      assert head + [b] + Varint(hi / 8) == Varint(value);
      rv := PutVarint(hi / 8, out, at + 5);
      rv := rv + 5;
    }
  }

  /** A negative int32 is written as its 64-bit sign extension, always ten bytes. */
  lemma NegativeVarint(v: nat)
    requires TWO_32 / 2 <= v < TWO_32
    ensures Varint(SignExtend(v)) ==
            [v % 128 + 128, v / 0x80 % 128 + 128, v / 0x4000 % 128 + 128, v / 0x20_0000 % 128 + 128,
             v / 0x1000_0000 + 0xf0, 0xff, 0xff, 0xff, 0xff, 1]
  {
    var hi := TWO_32 - 1;
    var t := v / 0x1000_0000;
    assert SignExtend(v) == 0x1_0000_0000 * hi + v;
    VarintOfWords(hi, v);
    FifthGroup(hi, t);
    assert 16 * hi + t >= 128;
    assert Varint(16 * hi + t) == [t + 0xf0] + Varint(0x1fff_ffff);
    assert Varint(0x1fff_ffff) == [0xff] + Varint(0x3f_ffff);
    assert Varint(0x3f_ffff) == [0xff] + Varint(0x7fff);
    assert Varint(0x7fff) == [0xff] + Varint(0xff);
    assert Varint(0xff) == [0xff] + Varint(1);
  }

  /** The upper six bytes of a negative number: four bits of its own, then only sign bits. */
  function SignBytes(v: nat): (s: seq<byte>)
    requires TWO_32 / 2 <= v < TWO_32
  {
    [v / 0x1000_0000 + 0xf0, 0xff, 0xff, 0xff, 0xff, 1]
  }

  method PutSignBytes(v: nat, out: array<byte>, at: nat)
    requires TWO_32 / 2 <= v < TWO_32 && at + 6 <= out.Length
    modifies out
    ensures out[..] == Splice(old(out[..]), at, SignBytes(v))
  {
    out[at] := v / 0x1000_0000 + 0xf0;   // bit 31 is set, so this is a bitwise or
    out[at + 1], out[at + 2], out[at + 3], out[at + 4] := 0xff, 0xff, 0xff, 0xff;
    out[at + 5] := 1;
  }

  /** int32_pack, on the bit pattern of its argument. */
  method Int32Pack(value: nat, out: array<byte>, at: nat) returns (rv: nat)
    requires value < TWO_32 && at + |Varint(SignExtend(value))| <= out.Length
    modifies out
    ensures rv == |Varint(SignExtend(value))|
    ensures out[..] == Splice(old(out[..]), at, Varint(SignExtend(value)))
  {
    hide Splice, Varint;
    if Signed(value, TWO_32) < 0 {
      NegativeVarint(value);
      assert LowGroups(value) + SignBytes(value) == Varint(SignExtend(value));
      SpliceSplice(out[..], at, LowGroups(value), SignBytes(value));
      PutLowGroups(value, out, at);
      PutSignBytes(value, out, at + 4);
      return 10;
    } else {
      rv := Uint32Pack(value, out, at);
    }
  }

  /** memcpy */
  method CopyIn(src: seq<byte>, out: array<byte>, at: nat)
    requires at + |src| <= out.Length
    modifies out
    ensures out[..] == Splice(old(out[..]), at, src)
  {
    ghost var was := out[..];
    for i := 0 to |src|
      invariant out[..] == Splice(was, at, src[..i])
    {
      PutByte(was, at, src[..i], src[i]);
      out[at + i] := src[i];
      assert src[..i] + [src[i]] == src[..i + 1];
    }
    assert src[..|src|] == src;
  }

  /** memmove within the buffer, towards higher addresses. */
  method MoveUp(out: array<byte>, dst: nat, src: nat, n: nat)
    requires src <= dst && dst + n <= out.Length
    modifies out
    ensures out[..] == Splice(old(out[..]), dst, old(out[src..src + n]))
  {
    ghost var was := out[..];
    var i := n;
    while i > 0
      invariant 0 <= i <= n
      invariant forall k :: 0 <= k < dst + i ==> out[k] == was[k]
      invariant forall k :: dst + i <= k < dst + n ==> out[k] == was[k - dst + src]
      invariant forall k :: dst + n <= k < out.Length ==> out[k] == was[k]
    {
      i := i - 1;
      out[dst + i] := out[src + i];
    }
  }

  lemma LowByteFirst(v: nat, n: nat)
    requires n > 0
    ensures LittleEndian(v, n) == [v % 256] + LittleEndian(v / 256, n - 1)
  {
  }

  /** fixed32_pack and fixed64_pack, byte by byte as on a big-endian host. */
  method FixedPack(value: nat, n: nat, out: array<byte>, at: nat) returns (rv: nat)
    requires at + n <= out.Length
    modifies out
    ensures rv == n && out[..] == Splice(old(out[..]), at, LittleEndian(value, n))
  {
    hide Splice, LittleEndian;
    ghost var was := out[..];
    ghost var done: seq<byte> := [];
    var v := value;
    SpliceNothing(was, at);
    rv := 0;
    while rv < n
      invariant rv <= n && |done| == rv && done + LittleEndian(v, n - rv) == LittleEndian(value, n)
      invariant out[..] == Splice(was, at, done)
    {
      PutByte(was, at, done, v % 256);
      LowByteFirst(v, n - rv);
      Associate(done, [v % 256], LittleEndian(v / 256, n - rv - 1));
      out[at + rv] := v % 256;
      done := done + [v % 256];
      rv, v := rv + 1, v / 256;
    }
    assert done == done + LittleEndian(v, 0);
  }

  /** boolean_pack */
  method BooleanPack(value: bool, out: array<byte>, at: nat) returns (rv: nat)
    requires at < out.Length
    modifies out
    ensures rv == 1 && out[..] == Splice(old(out[..]), at, [if value then 1 else 0])
  {
    out[at] := if value then 1 else 0;
    rv := 1;
  }

  /** The per-type pack function of a number. */
  method NumPack(t: FieldType, bits: nat, out: array<byte>, at: nat) returns (rv: nat)
    requires Packable(t) && bits < NumLimit(t) && at + |NumBytes(t, bits)| <= out.Length
    modifies out
    ensures rv == |NumBytes(t, bits)|
    ensures out[..] == Splice(old(out[..]), at, NumBytes(t, bits))
  {
    hide Splice, Varint, LittleEndian, Zigzag;
    if Is32(t) || Is64(t) {
      rv := FixedPack(bits, MinSize(t), out, at);
      return;
    }
    match t {
      case Int32 => rv := Int32Pack(bits, out, at);
      case Enum => rv := Int32Pack(bits, out, at);
      case UInt32 => rv := Uint32Pack(bits, out, at);
      case SInt32 =>
        ZigzagRoundTrip(bits, TWO_32);
        rv := Uint32Pack(Zigzag(bits, TWO_32), out, at);
      case Int64 => rv := Uint64Pack(bits, out, at);
      case UInt64 => rv := Uint64Pack(bits, out, at);
      case SInt64 =>
        ZigzagRoundTrip(bits, TWO_64);
        rv := Uint64Pack(Zigzag(bits, TWO_64), out, at);
      case Bool => rv := BooleanPack(bits != 0, out, at);
    }
  }

  // ---- tags

  /** A tag shifted into place has its low three bits clear, so or-ing in the wire type adds it. */
  lemma HeaderOr(tag: nat, wire: nat)
    requires wire < 8
    ensures var h := Varint(8 * tag);
            && h[0] % 8 == 0 && h[0] + wire < 256
            && Header(tag, wire) == h[0 := h[0] + wire]
  {
    var v := 8 * tag;
    assert v % 128 == 8 * (tag % 16) && v / 128 == tag / 16 by {
      ModUnique(v, 128, tag / 16, 8 * (tag % 16));
    }
    assert (v + wire) % 128 == 8 * (tag % 16) + wire && (v + wire) / 128 == tag / 16 by {
      ModUnique(v + wire, 128, tag / 16, 8 * (tag % 16) + wire);
    }
  }

  /** tag_pack; the caller then adds the wire type to the first byte. */
  method TagPack(tag: nat, wire: nat, out: array<byte>, at: nat) returns (rv: nat)
    requires tag < TWO_32 && wire < 8 && at + |Header(tag, wire)| <= out.Length
    modifies out
    ensures rv == |Header(tag, wire)|
    ensures out[..] == Splice(old(out[..]), at, Header(tag, wire))
  {
    HeaderOr(tag, wire);
    if tag < 0x2000_0000 {
      rv := Uint32Pack(8 * tag, out, at);
    } else {
      rv := Uint64Pack(8 * tag, out, at);
    }
    assert out[at] == Varint(8 * tag)[0];
    out[at] := out[at] + wire;
  }

  // ---- length-prefixed values

  /** string_pack and binary_data_pack. */
  method ContentPack(content: seq<byte>, out: array<byte>, at: nat) returns (rv: nat)
    requires |content| < TWO_32 && at + |Prefixed(content)| <= out.Length
    modifies out
    ensures rv == |Prefixed(content)|
    ensures out[..] == Splice(old(out[..]), at, Prefixed(content))
  {
    hide Splice;
    SpliceSplice(out[..], at, Varint(|content|), content);
    rv := Uint32Pack(|content|, out, at);
    CopyIn(content, out, at + rv);
    rv := rv + |content|;
  }

  /**
   * The fix-up both users of a guessed length share: the body stands `gap` bytes
   * behind `at`; it is moved up if its length takes more than that, and the length
   * is written in front of it.
   */
  method WriteLength(out: array<byte>, at: nat, gap: nat, n: nat, ghost was: seq<byte>, ghost body: seq<byte>)
    returns (rv: nat)
    requires |was| == out.Length && |body| == n < TWO_32
    requires gap <= |Varint(n)| && at + |Prefixed(body)| <= out.Length
    requires out[..] == Splice(was, at + gap, body)
    modifies out
    ensures rv == |Prefixed(body)|
    ensures out[..] == Splice(was, at, Prefixed(body))
  {
    hide Splice, Varint;
    var size := Uint32Size(n);
    SpliceShifted(was, at, gap, Varint(n), body);
    if size != gap {
      SpliceRead(was, at + gap, body);
      assert out[at + gap..at + gap + n] == out[..][at + gap..at + gap + n];
      MoveUp(out, at + size, at + gap, n);
    }
    rv := Uint32Pack(n, out, at);
    rv := rv + n;
  }

  function SubContent(S: Schema, r: Ref<Msg>): seq<byte> {
    if r.Ptr? then Enc(S, r.target) else []
  }

  /** prefixed_message_pack: the body is written behind a one-byte gap. */
  method PrefixedMessagePack(S: Schema, r: Ref<Msg>, out: array<byte>, at: nat) returns (rv: nat)
    requires SchemaOk(S) && (r.Ptr? ==> TypedMsg(S, r.target))
    requires |SubContent(S, r)| < TWO_32 && at + |Prefixed(SubContent(S, r))| <= out.Length
    modifies out
    ensures rv == |Prefixed(SubContent(S, r))|
    ensures out[..] == Splice(old(out[..]), at, Prefixed(SubContent(S, r)))
    decreases r, 0
  {
    hide Splice;
    ghost var was := out[..];
    if !r.Ptr? {
      SpliceNothing(was, at);
      PutByte(was, at, [], 0);
      assert Prefixed([]) == [] + [0];
      out[at] := 0;
      rv := 1;
    } else {
      ShortFits(S, r.target);
      var n := MessagePack(S, r.target, out, at + 1);
      rv := WriteLength(out, at, 1, n, was, Enc(S, r.target));
    }
  }

  // ---- fields

  /** required_field_pack */
  method RequiredFieldPack(S: Schema, f: Field, v: Value, out: array<byte>, at: nat) returns (rv: nat)
    requires SchemaOk(S) && f.id < TWO_32 && TypedValue(S, f, v)
    requires Fits(ValueRecord(S, f, v))
    requires at + |EncRecord(ValueRecord(S, f, v))| <= out.Length
    modifies out
    ensures rv == |EncRecord(ValueRecord(S, f, v))|
    ensures out[..] == Splice(old(out[..]), at, EncRecord(ValueRecord(S, f, v)))
    decreases v, 1
  {
    hide Splice;
    ghost var r := ValueRecord(S, f, v);
    var wire := if v.Num? then NumWire(f.typ) else WIRE_LENGTH;
    SpliceSplice(out[..], at, Header(f.id, wire), r.data);
    ValueFits(S, f, v);
    rv := TagPack(f.id, wire, out, at);
    var n;
    match v {
      case Num(bits) => n := NumPack(f.typ, bits, out, at + rv);
      case Str(s) => n := ContentPack(Content(f, s), out, at + rv);
      case Bin(_, data) => n := ContentPack(Content(f, data), out, at + rv);
      case Sub(m) =>
        assert r.data == Prefixed(SubContent(S, m));
        n := PrefixedMessagePack(S, m, out, at + rv);
    }
    rv := rv + n;
  }

  /** Payloads of packed fields are at most ten times their minimum, so the length grows by at most a byte. */
  lemma {:induction false} PayloadBounds(S: Schema, f: Field, vs: seq<Value>)
    requires Packable(f.typ) && forall i :: 0 <= i < |vs| ==> TypedValue(S, f, vs[i])
    ensures MinSize(f.typ) * |vs| <= |PackedPayload(f.typ, vs)| <= 10 * (MinSize(f.typ) * |vs|)
  {
    hide NumBytes, MinSize, PackedPayload, TypedValue;
    if vs == [] {
      EmptyPayload(f.typ);
    } else {
      FirstInPayload(S, f, vs);
      PayloadBounds(S, f, vs[1..]);
      TenfoldSum(MinSize(f.typ), |vs| - 1, |NumBytes(f.typ, vs[0].bits)|, |PackedPayload(f.typ, vs[1..])|);
    }
  }

  lemma EmptyPayload(t: FieldType)
    ensures PackedPayload(t, []) == []
  {
  }

  lemma FirstInPayload(S: Schema, f: Field, vs: seq<Value>)
    requires Packable(f.typ) && vs != [] && TypedValue(S, f, vs[0])
    ensures vs[0].Num?
    ensures |PackedPayload(f.typ, vs)| == |NumBytes(f.typ, vs[0].bits)| + |PackedPayload(f.typ, vs[1..])|
    ensures MinSize(f.typ) <= |NumBytes(f.typ, vs[0].bits)| <= 10 * MinSize(f.typ)
  {
    hide NumBytes, MinSize;
    NumBytesLength(f.typ, vs[0].bits);
  }

  lemma TenfoldSum(min: nat, count: nat, first: nat, rest: nat)
    requires min <= first <= 10 * min && min * count <= rest <= 10 * (min * count)
    ensures min * (count + 1) <= first + rest <= 10 * (min * (count + 1))
  {
    assert min * (count + 1) == min * count + min;
  }

  lemma LengthGrowth(min: nat, len: nat)
    requires min <= len <= 10 * min
    ensures |Varint(min)| <= |Varint(len)| <= |Varint(min)| + 1
  {
    var n := |Varint(min)|;
    VarintLength(min, n);
    VarintLength(len, n + 1);
    VarintLength(min, |Varint(len)|);
    VarintLength(len, |Varint(len)|);
  }

  /** The element loop of repeated_field_pack. */
  method PayloadPack(S: Schema, f: Field, vs: seq<Value>, out: array<byte>, at: nat) returns (rv: nat)
    requires Packable(f.typ) && forall i :: 0 <= i < |vs| ==> TypedValue(S, f, vs[i])
    requires |PackedPayload(f.typ, vs)| < TWO_32 && at + |PackedPayload(f.typ, vs)| <= out.Length
    modifies out
    ensures rv == |PackedPayload(f.typ, vs)|
    ensures out[..] == Splice(old(out[..]), at, PackedPayload(f.typ, vs))
  {
    hide Splice;
    SpliceNothing(out[..], at);
    rv := 0;
    ghost var was := out[..];
    ghost var done: seq<byte> := [];
    for i := 0 to |vs|
      invariant |done| == rv && done + PackedPayload(f.typ, vs[i..]) == PackedPayload(f.typ, vs)
      invariant rv + |PackedPayload(f.typ, vs[i..])| == |PackedPayload(f.typ, vs)|
      invariant out[..] == Splice(was, at, done)
    {
      PayloadElement(f.typ, vs, i);
      ghost var bytes := NumBytes(f.typ, vs[i].bits);
      SpliceNext(was, at, PackedPayload(f.typ, vs), done, bytes, PackedPayload(f.typ, vs[i + 1..]));
      var n := NumPack(f.typ, vs[i].bits, out, at + rv);
      done := done + bytes;
      rv := rv + n;
    }
    assert done == PackedPayload(f.typ, vs);
  }

  /** repeated_field_pack for a packed field: guess the length of the length, move the payload if it was short. */
  method PackedFieldPack(S: Schema, f: Field, vs: seq<Value>, out: array<byte>, at: nat) returns (rv: nat)
    requires Packable(f.typ) && f.id < TWO_32 && forall i :: 0 <= i < |vs| ==> TypedValue(S, f, vs[i])
    requires vs != []
    requires var r := LengthRecord(f.id, PackedPayload(f.typ, vs));
             Fits(r) && at + |EncRecord(r)| <= out.Length
    modifies out
    ensures var r := LengthRecord(f.id, PackedPayload(f.typ, vs));
            && rv == |EncRecord(r)| % TWO_32   // header_len + payload_len is an unsigned sum
            && out[..] == Splice(old(out[..]), at, EncRecord(r))
  {
    hide Splice;
    ghost var payload := PackedPayload(f.typ, vs);
    SpliceSplice(out[..], at, Header(f.id, WIRE_LENGTH), Prefixed(payload));
    var headerLen := TagPack(f.id, WIRE_LENGTH, out, at);
    ghost var tagged := out[..];
    PayloadBounds(S, f, vs);
    var minLength := MinSize(f.typ) * |vs|;
    LengthGrowth(minLength, |payload|);
    var lengthSizeMin := Uint32Size(minLength);
    var payloadLen := PayloadPack(S, f, vs, out, at + headerLen + lengthSizeMin);
    var actualLengthSize := Uint32Size(payloadLen);
    assert lengthSizeMin != actualLengthSize ==> actualLengthSize == lengthSizeMin + 1;   // the source's own assertion
    var n := WriteLength(out, at + headerLen, lengthSizeMin, payloadLen, tagged, payload);
    rv := (headerLen + n) % TWO_32;
  }

  /** repeated_field_pack, one record per element. */
  method ElementsPack(S: Schema, f: Field, vs: seq<Value>, out: array<byte>, at: nat) returns (rv: nat)
    requires SchemaOk(S) && f.id < TWO_32 && AllFit(ElementRecords(S, f, vs)) && |vs| < TWO_32
    requires forall i :: 0 <= i < |vs| ==> TypedValue(S, f, vs[i])
    requires at + |Flatten(ElementRecords(S, f, vs))| <= out.Length
    modifies out
    ensures rv == |Flatten(ElementRecords(S, f, vs))|
    ensures out[..] == Splice(old(out[..]), at, Flatten(ElementRecords(S, f, vs)))
    decreases vs, 0
  {
    NoElements(S, f, vs);
    hide *;
    SpliceNothing(out[..], at);
    ghost var was, all := out[..], Flatten(ElementRecords(S, f, vs));
    ghost var done: seq<byte> := [];
    rv := 0;
    for i := 0 to |vs|
      invariant |done| == rv && done + Flatten(ElementRecords(S, f, vs[i..])) == all
      invariant rv + |Flatten(ElementRecords(S, f, vs[i..]))| == |all|
      invariant out[..] == Splice(was, at, done)
    {
      FlattenElement(S, f, vs, i);
      ElementFits(S, f, vs, i);
      ghost var bytes := EncRecord(ValueRecord(S, f, vs[i]));
      SpliceNext(was, at, all, done, bytes, Flatten(ElementRecords(S, f, vs[i + 1..])));
      var n := RequiredFieldPack(S, f, vs[i], out, at + rv);
      done := done + bytes;
      rv := rv + n;
    }
    NothingLeft(done, Flatten(ElementRecords(S, f, vs[|vs|..])), all);
  }

  /** repeated_field_pack */
  method RepeatedFieldPack(S: Schema, f: Field, vs: seq<Value>, out: array<byte>, at: nat) returns (rv: nat)
    requires SchemaOk(S) && f.id < TWO_32 && f.rule.Repeated? && (f.packed ==> Packable(f.typ))
    requires forall i :: 0 <= i < |vs| ==> TypedValue(S, f, vs[i])
    requires FieldFits(S, f, Many(vs)) && PackedShort(S, f, Many(vs))
    requires at + |Flatten(FieldRecords(S, f, Many(vs)))| <= out.Length
    modifies out
    ensures rv == |Flatten(FieldRecords(S, f, Many(vs)))|
    ensures out[..] == Splice(old(out[..]), at, Flatten(FieldRecords(S, f, Many(vs))))
    decreases vs, 1
  {
    hide Splice;
    if !f.packed {
      rv := ElementsPack(S, f, vs, out, at);
    } else if |vs| == 0 {
      SpliceNothing(out[..], at);
      rv := 0;
    } else {
      FlattenOne(LengthRecord(f.id, PackedPayload(f.typ, vs)));
      PackedPayloadFits(S, f, vs);
      rv := PackedFieldPack(S, f, vs, out, at);
    }
  }

  /** The dispatch on label. */
  method FieldPack(S: Schema, D: Desc, i: nat, cell: Cell, out: array<byte>, at: nat) returns (rv: nat)
    requires SchemaOk(S) && DescOk(S, D) && i < |D.fields| && FieldOk(S, D, i)
    requires TypedCell(S, D, D.fields[i].cell, cell)
    requires FieldFits(S, D.fields[i], cell) && PackedShort(S, D.fields[i], cell)
    requires at + |Flatten(FieldRecords(S, D.fields[i], cell))| <= out.Length
    modifies out
    ensures rv == |Flatten(FieldRecords(S, D.fields[i], cell))|
    ensures out[..] == Splice(old(out[..]), at, Flatten(FieldRecords(S, D.fields[i], cell)))
    decreases cell, 0
  {
    hide Splice;
    var f := D.fields[i];
    CellShape(S, D, i, cell);
    if f.rule.Repeated? {
      rv := RepeatedFieldPack(S, f, cell.vs, out, at);
    } else {
      var e := ValueToSend(S, D, i, cell);
      if e.None? {
        SpliceNothing(out[..], at);
        return 0;
      }
      FlattenOne(ValueRecord(S, f, e.value));
      EmittedTyped(S, D, i, cell);
      rv := RequiredFieldPack(S, f, e.value, out, at);
    }
  }

  /** unknown_field_pack */
  method UnknownFieldPack(u: Unknown, out: array<byte>, at: nat) returns (rv: nat)
    requires TypedUnknown(u) && at + |EncRecord(UnknownRecord(u))| <= out.Length
    modifies out
    ensures rv == |EncRecord(UnknownRecord(u))|
    ensures out[..] == Splice(old(out[..]), at, EncRecord(UnknownRecord(u)))
  {
    hide Splice;
    SpliceSplice(out[..], at, Header(u.tag, u.wire), u.data);
    rv := TagPack(u.tag, u.wire, out, at);
    CopyIn(u.data, out, at + rv);
    rv := rv + |u.data|;
  }

  /** The second loop of protobuf_c_message_pack. */
  method UnknownFieldsPack(us: seq<Unknown>, out: array<byte>, at: nat) returns (rv: nat)
    requires forall i :: 0 <= i < |us| ==> TypedUnknown(us[i])
    requires at + |Flatten(UnknownRecords(us))| <= out.Length
    modifies out
    ensures rv == |Flatten(UnknownRecords(us))|
    ensures out[..] == Splice(old(out[..]), at, Flatten(UnknownRecords(us)))
  {
    hide Splice;
    SpliceNothing(out[..], at);
    rv := 0;
    ghost var was, all := out[..], Flatten(UnknownRecords(us));
    ghost var done: seq<byte> := [];
    for i := 0 to |us|
      invariant |done| == rv && done + Flatten(UnknownRecords(us[i..])) == all
      invariant rv + |Flatten(UnknownRecords(us[i..]))| == |all|
      invariant out[..] == Splice(was, at, done)
    {
      UnknownsSplit(us, i);
      ghost var bytes := EncRecord(UnknownRecord(us[i]));
      SpliceNext(was, at, all, done, bytes, Flatten(UnknownRecords(us[i + 1..])));
      var n := UnknownFieldPack(us[i], out, at + rv);
      done := done + bytes;
      rv := rv + n;
    }
    assert done == all;
  }

  lemma PackedOfShort(S: Schema, m: Msg, i: nat)
    requires m.desc < |S| && i < |S[m.desc].fields| && S[m.desc].fields[i].cell < |m.cells| && AllPackedShort(S, m)
    ensures PackedShort(S, S[m.desc].fields[i], m.cells[S[m.desc].fields[i].cell])
  {
    hide PackedShort;
    var D := DescOf(S, m.desc);
    assert D == S[m.desc];
    assert PackedShort(S, D.fields[i], m.cells[D.fields[i].cell]);
  }

  /** One turn of the first loop of protobuf_c_message_pack. */
  method NextFieldPack(S: Schema, m: Msg, i: nat, out: array<byte>, at: nat) returns (rv: nat, ghost bytes: seq<byte>)
    requires SchemaOk(S) && TypedMsg(S, m) && MessageFits(S, m) && AllPackedShort(S, m) && i < |S[m.desc].fields|
    requires at + |Flatten(RecordsFrom(S, m, i))| <= out.Length
    modifies out
    ensures rv == |bytes| && Flatten(RecordsFrom(S, m, i)) == bytes + Flatten(RecordsFrom(S, m, i + 1))
    ensures out[..] == Splice(old(out[..]), at, bytes)
    decreases m, 0
  {
    DescInRange(S, m);
    hide *;
    FieldsSplit(S, m, i);
    FieldReady(S, m, i);
    FieldOfFitting(S, m, i);
    PackedOfShort(S, m, i);
    var f := S[m.desc].fields[i];
    bytes := Flatten(FieldRecords(S, f, m.cells[f.cell]));
    rv := FieldPack(S, S[m.desc], i, m.cells[f.cell], out, at);
  }

  /** The first loop of protobuf_c_message_pack. */
  method KnownFieldsPack(S: Schema, m: Msg, out: array<byte>, at: nat) returns (rv: nat)
    requires SchemaOk(S) && TypedMsg(S, m)
    requires MessageFits(S, m) && AllPackedShort(S, m) && at + |Flatten(RecordsFrom(S, m, 0))| <= out.Length
    modifies out
    ensures rv == |Flatten(RecordsFrom(S, m, 0))|
    ensures out[..] == Splice(old(out[..]), at, Flatten(RecordsFrom(S, m, 0)))
    decreases m, 1
  {
    DescInRange(S, m);
    FieldsEnd(S, m);
    hide *;
    SpliceNothing(out[..], at);
    ghost var was, known := out[..], Flatten(RecordsFrom(S, m, 0));
    rv := 0;
    ghost var done: seq<byte> := [];
    for i := 0 to |S[m.desc].fields|
      invariant |done| == rv && done + Flatten(RecordsFrom(S, m, i)) == known
      invariant rv + |Flatten(RecordsFrom(S, m, i))| == |known|
      invariant out[..] == Splice(was, at, done)
    {
      var n;
      ghost var bytes;
      n, bytes := NextFieldPack(S, m, i, out, at + rv);
      SpliceNext(was, at, known, done, bytes, Flatten(RecordsFrom(S, m, i + 1)));
      done := done + bytes;
      rv := rv + n;
    }
    NothingLeft(done, Flatten(RecordsFrom(S, m, |S[m.desc].fields|)), known);
  }

  /**
   * protobuf_c_message_pack: exactly Enc(m) is written at `at`, nothing else in
   * the buffer changes, and the number of bytes is returned.
   */
  method MessagePack(S: Schema, m: Msg, out: array<byte>, at: nat) returns (rv: nat)
    requires SchemaOk(S) && TypedMsg(S, m) && MessageFits(S, m) && AllPackedShort(S, m)
    requires at + |Enc(S, m)| <= out.Length
    modifies out
    ensures rv == |Enc(S, m)|
    ensures out[..] == Splice(old(out[..]), at, Enc(S, m))
    decreases m, 2
  {
    EncSplit(S, m);
    assert forall i :: 0 <= i < |m.unknown| ==> TypedUnknown(m.unknown[i]);
    hide *;
    ghost var was := out[..];
    ghost var known, tail := Flatten(RecordsFrom(S, m, 0)), Flatten(UnknownRecords(m.unknown));
    SpliceSplice(was, at, known, tail);
    rv := KnownFieldsPack(S, m, out, at);
    assert out[..] == Splice(was, at, known);
    var n := UnknownFieldsPack(m.unknown, out, at + rv);
    rv := rv + n;
  }
}
