/** The SocketBuffer of ksocket: PDUs with a big-endian length and type in front of the payload. */
module Framing {
  import opened Words

  datatype Pdu = Pdu(kind: nat, payload: seq<byte>)

  const HEADER: nat := 6

  predicate Framable(p: Pdu) {
    p.kind < 0x1_0000 && |p.payload| < TWO_32
  }

  function BigEndian(v: nat, n: nat): (s: seq<byte>)
    ensures |s| == n
  {
    if n == 0 then [] else BigEndian(v / 256, n - 1) + [v % 256]
  }

  function FromBigEndian(s: seq<byte>): nat {
    if s == [] then 0 else 256 * FromBigEndian(s[..|s| - 1]) + s[|s| - 1]
  }

  lemma {:induction false} BigEndianRoundTrip(v: nat, n: nat)
    requires v < Pow256(n)
    ensures FromBigEndian(BigEndian(v, n)) == v
  {
    if n > 0 {
      BigEndianRoundTrip(v / 256, n - 1);
      var s := BigEndian(v, n);
      assert s[..n - 1] == BigEndian(v / 256, n - 1) && s[n - 1] == v % 256;
    }
  }

  /** The bytes written are the digits, the highest first. */
  lemma {:induction false} BigEndianDigits(v: nat, n: nat)
    ensures forall i :: 0 <= i < n ==> BigEndian(v, n)[i] == Digit(v, n - 1 - i)
  {
    hide Digit;
    if n > 0 {
      BigEndianDigits(v / 256, n - 1);
      NextDigit(v, 0);
      forall i | 0 <= i < n
        ensures BigEndian(v, n)[i] == Digit(v, n - 1 - i)
      {
        if i < n - 1 { NextDigit(v, n - 2 - i); }
      }
    }
  }

  /** Length, type, payload. */
  function Frame(p: Pdu): (s: seq<byte>)
    ensures |s| == HEADER + |p.payload|
  {
    BigEndian(|p.payload|, 4) + BigEndian(p.kind, 2) + p.payload
  }

  /** Byte by byte: four bytes of length, two of type, each with the highest first, and the payload. */
  lemma FrameLayout(p: Pdu, i: nat)
    requires i < |Frame(p)|
    ensures |Frame(p)| == 6 + |p.payload|
    ensures Frame(p)[i] ==
            if i < 4 then Digit(|p.payload|, 3 - i)
            else if i < 6 then Digit(p.kind, 5 - i)
            else p.payload[i - 6]
  {
    hide Digit, BigEndian;
    BigEndianDigits(|p.payload|, 4);
    BigEndianDigits(p.kind, 2);
    BigEndianLength(|p.payload|, 4);
    BigEndianLength(p.kind, 2);
  }

  lemma BigEndianLength(v: nat, n: nat)
    ensures |BigEndian(v, n)| == n
  {
  }

  function Frames(ps: seq<Pdu>): seq<byte> {
    if ps == [] then [] else Frame(ps[0]) + Frames(ps[1..])
  }

  lemma {:induction false} FramesSnoc(ps: seq<Pdu>, p: Pdu)
    ensures Frames(ps + [p]) == Frames(ps) + Frame(p)
  {
    if ps == [] {
      assert ps + [p] == [p] && [p][1..] == [];
      assert Frames([p]) == Frame(p) + [];
    } else {
      assert (ps + [p])[1..] == ps[1..] + [p];
      FramesSnoc(ps[1..], p);
      Associate(Frame(ps[0]), Frames(ps[1..]), Frame(p));
    }
  }

  function LengthField(s: seq<byte>): nat
    requires |s| >= HEADER
  {
    FromBigEndian(s[..4])
  }

  function TypeField(s: seq<byte>): nat
    requires |s| >= HEADER
  {
    FromBigEndian(s[4..6])
  }

  /** Does a whole PDU lie at the front? */
  predicate Complete(s: seq<byte>) {
    |s| >= HEADER && |s| >= HEADER + LengthField(s)
  }

  /** The whole PDUs at the front of a byte string. */
  function Decode(s: seq<byte>): seq<Pdu>
    decreases |s|
  {
    if !Complete(s) then []
    else
      var n := HEADER + LengthField(s);
      [Pdu(TypeField(s), s[HEADER..n])] + Decode(s[n..])
  }

  lemma FrontFrame(p: Pdu, rest: seq<byte>)
    requires Framable(p)
    ensures var s := Frame(p) + rest;
            && Complete(s) && LengthField(s) == |p.payload| && TypeField(s) == p.kind
            && s[HEADER..HEADER + |p.payload|] == p.payload && s[HEADER + |p.payload|..] == rest
  {
    var s := Frame(p) + rest;
    assert Pow256(4) == 256 * (256 * (256 * (256 * Pow256(0)))) && Pow256(2) == 256 * (256 * Pow256(0));
    assert s[..4] == BigEndian(|p.payload|, 4) && s[4..6] == BigEndian(p.kind, 2);
    BigEndianRoundTrip(|p.payload|, 4);
    BigEndianRoundTrip(p.kind, 2);
  }

  /** Decoding frames gives the PDUs back, in order. */
  lemma {:induction false} FramesRoundTrip(ps: seq<Pdu>)
    requires forall i :: 0 <= i < |ps| ==> Framable(ps[i])
    ensures Decode(Frames(ps)) == ps
    decreases |ps|
  {
    if ps != [] {
      FrontFrame(ps[0], Frames(ps[1..]));
      FramesRoundTrip(ps[1..]);
    }
  }

  /** The test at the end of GetPdu. */
  predicate Judged(b: seq<byte>, consumed: nat, used: nat)
    requires consumed + HEADER <= |b|
  {
    used >= HEADER && used >= HEADER + FromBigEndian(b[consumed..consumed + 4])
  }

  class SocketBuffer {
    const buffer: array<byte>
    var used: nat
    var consumed: nat

    /** The buffer is an object in memory, so that sums with 32-bit lengths do not wrap around. */
    ghost predicate Valid()
      reads this
    {
      consumed <= used <= buffer.Length < TWO_64 / 2
    }

    /** The bytes added or received and not yet consumed. */
    function Contents(): seq<byte>
      requires Valid()
      reads this, buffer
    {
      buffer[consumed..used]
    }

    constructor (size: nat)
      requires size < TWO_64 / 2
      ensures Valid() && buffer.Length == size && used == 0 && consumed == 0 && fresh(buffer)
    {
      buffer := new byte[size](_ => 0);
      used, consumed := 0, 0;
    }

    /** SizeCheck: the last byte is never used, and consumed bytes still count until they are swept. */
    predicate SizeCheck(required: nat)
      reads this
    {
      used + required < buffer.Length
    }

    /** Writes at GetEnd(), behind what is in use. */
    method WriteBehind(bytes: seq<byte>)
      requires Valid() && used + |bytes| <= buffer.Length
      modifies buffer
      ensures Valid() && Contents() == old(Contents()) && buffer[used..used + |bytes|] == bytes
    {
      forall i | 0 <= i < |bytes| {
        buffer[used + i] := bytes[i];
      }
    }

    /** Writes at GetEnd() and takes the bytes into use. */
    method Append(bytes: seq<byte>)
      requires Valid() && used + |bytes| <= buffer.Length
      modifies this`used, buffer
      ensures Valid() && used == old(used) + |bytes| && Contents() == old(Contents()) + bytes
    {
      WriteBehind(bytes);
      TakeIntoUse(|bytes|);
    }

    method TakeIntoUse(n: nat)
      requires Valid() && used + n <= buffer.Length
      modifies this`used
      ensures Valid() && used == old(used) + n && Contents() == old(Contents()) + old(buffer[used..used + n])
    {
      ghost var from := used;
      used := used + n;
      assert buffer[consumed..used] == buffer[consumed..from] + buffer[from..used];
    }

    /** AddPrimitve of a big-endian number of n bytes. */
    method AddPrimitive(v: nat, n: nat) returns (ok: bool)
      requires Valid()
      modifies this`used, buffer
      ensures Valid() && (ok <==> old(used) + n < buffer.Length)
      ensures ok ==> used == old(used) + n && Contents() == old(Contents()) + BigEndian(v, n)
      ensures !ok ==> used == old(used) && buffer[..] == old(buffer[..])
    {
      if !SizeCheck(n) {
        return false;
      }
      Append(BigEndian(v, n));
      ok := true;
    }

    /**
     * AddPdu, of a serializer that announces `size` bytes and writes `bytes`. A wrong
     * announcement is noticed only when header and bytes have been written; the header then
     * stays in use.
     */
    method AddPdu(kind: nat, size: nat, bytes: seq<byte>) returns (ok: bool)
      requires Valid() && kind < 0x1_0000 && size < TWO_32
      requires used + HEADER + size < buffer.Length ==> used + HEADER + |bytes| <= buffer.Length
      modifies this`used, buffer
      ensures Valid() && (ok <==> old(used) + HEADER + size < buffer.Length && |bytes| == size)
      ensures ok ==> Contents() == old(Contents()) + Frame(Pdu(kind, bytes))
      ensures !ok ==> Contents() == old(Contents()) + if old(used) + HEADER + size < buffer.Length
                                                      then BigEndian(size, 4) + BigEndian(kind, 2) else []
    {
      ghost var was := Contents();
      if !SizeCheck(HEADER + size) {
        return false;
      }
      var added := AddPrimitive(size, 4);
      if !added {
        return false;
      }
      added := AddPrimitive(kind, 2);
      if !added {
        return false;
      }
      Associate(was, BigEndian(size, 4), BigEndian(kind, 2));
      WriteBehind(bytes);
      if |bytes| != size {
        return false;
      }
      TakeIntoUse(size);
      Associate(was, BigEndian(size, 4) + BigEndian(kind, 2), bytes);
      ok := true;
    }

    /**
     * GetPdu after `received` bytes were stored behind those in use. The lengths are compared
     * with `used`, which includes consumed bytes.
     */
    method GetPdu(received: nat) returns (ok: bool, kind: nat, length: nat)
      requires Valid()
      requires HEADER <= used + received <= buffer.Length ==> consumed + HEADER <= buffer.Length
      modifies this`used, this`consumed
      ensures received > buffer.Length - old(used) ==> !ok && used == old(used)
      ensures received <= buffer.Length - old(used) ==>
                && used == old(used) + received
                && (ok <==> used >= HEADER && Judged(buffer[..], old(consumed), used))
      ensures ok ==>
                && consumed == old(consumed) + HEADER && used >= HEADER && old(consumed) + HEADER <= buffer.Length
                && length == FromBigEndian(buffer[old(consumed)..old(consumed) + 4])
                && kind == FromBigEndian(buffer[old(consumed) + 4..old(consumed) + 6])
      ensures !ok ==> consumed == old(consumed)
      ensures Valid() <==> !ok || old(consumed) + HEADER <= used
    {
      ok, kind, length := false, 0, 0;
      if received > buffer.Length - used {
        return;
      }
      used := used + received;
      if used < HEADER {
        return;
      }
      length := FromBigEndian(buffer[consumed..consumed + 4]);
      kind := FromBigEndian(buffer[consumed + 4..consumed + 6]);
      if used < HEADER + length {
        return;
      }
      consumed := consumed + HEADER;
      ok := true;
    }

    /**
     * Consume; `size` and the sum with it are size_t. A size so large that the sum wraps around
     * is accepted and moves the read position backwards.
     */
    method Consume(size: nat) returns (ok: bool)
      requires Valid() && size < TWO_64
      modifies this`consumed
      ensures Valid()
      ensures size + old(consumed) < TWO_64 ==>
                && (ok <==> size <= |old(Contents())|)
                && Contents() == (if ok then old(Contents())[size..] else old(Contents()))
                && consumed == old(consumed) + if ok then size else 0
      ensures size + old(consumed) >= TWO_64 ==> ok && consumed == size + old(consumed) - TWO_64 < old(consumed)
    {
      var sum := (size + consumed) % TWO_64;
      if sum > used {
        return false;
      }
      consumed := sum;
      ok := true;
    }

    /** Sweep: what is left moves to the front. */
    method Sweep()
      requires Valid()
      modifies this, buffer
      ensures Valid() && consumed == 0 && used == |old(Contents())| && Contents() == old(Contents())
    {
      if consumed == 0 {
        return;
      }
      if used != consumed {
        forall i | 0 <= i < used - consumed {
          buffer[i] := buffer[consumed + i];
        }
      }
      used := used - consumed;
      consumed := 0;
    }

    /** recv into GetStart() of an empty buffer; `used` is only advanced by the GetPdu that follows. */
    method Load(data: seq<byte>)
      requires Valid() && used == consumed == 0 && |data| <= buffer.Length
      modifies buffer
      ensures buffer[..|data|] == data
    {
      forall i | 0 <= i < |data| {
        buffer[i] := data[i];
      }
    }

    /** One turn of the receiving protocol: GetPdu, then Consume and Sweep. */
    method TakePdu(received: nat, ghost rest: seq<byte>) returns (ok: bool, p: Pdu)
      requires Valid() && consumed == 0
      requires used + received == |rest| <= buffer.Length && buffer[..|rest|] == rest
      modifies this, buffer
      ensures Valid() && consumed == 0 && (ok <==> Complete(rest))
      ensures ok ==> p == Pdu(TypeField(rest), rest[HEADER..HEADER + LengthField(rest)])
      ensures ok ==> Contents() == rest[HEADER + LengthField(rest)..]
    {
      HeaderBytes(buffer[..], rest);
      var kind, length;
      ok, kind, length := GetPdu(received);
      p := Pdu(kind, []);
      if ok {
        assert Contents() == rest[HEADER..];
        var payload := buffer[consumed..consumed + length];
        assert payload == rest[HEADER..HEADER + length];
        p := Pdu(kind, payload);
        assert rest[HEADER..][length..] == rest[HEADER + length..];
        var all := Consume(length);
        Sweep();
      }
    }

    /** GetPdu, Consume and Sweep until no whole PDU is left: exactly the PDUs of the data, in order. */
    method Drain(data: seq<byte>) returns (pdus: seq<Pdu>)
      requires Valid() && used == consumed == 0 && |data| <= buffer.Length
      modifies this, buffer
      ensures Valid() && consumed == 0 && pdus == Decode(data)
    {
      Load(data);
      pdus := [];
      var received: nat, more := |data|, true;
      ghost var rest := data;
      assert [] + Decode(data) == Decode(data);
      hide Decode, Complete;
      while more
        invariant Valid() && consumed == 0
        invariant more ==> used + received == |rest| <= buffer.Length && buffer[..|rest|] == rest
        invariant more ==> pdus + Decode(rest) == Decode(data)
        invariant !more ==> pdus == Decode(data)
        decreases more, |rest|
      {
        DecodeFront(rest, pdus);
        var ok, p := TakePdu(received, rest);
        received := 0;
        if ok {
          pdus := pdus + [p];
          rest := Contents();
        } else {
          more := false;
        }
      }
    }
  }

  lemma HeaderBytes(buffer: seq<byte>, rest: seq<byte>)
    requires |rest| <= |buffer| && buffer[..|rest|] == rest
    ensures |rest| >= HEADER ==> buffer[0..4] == rest[..4] && buffer[4..6] == rest[4..6]
  {
    if |rest| >= HEADER {
      assert buffer[0..4] == buffer[..|rest|][..4] && buffer[4..6] == buffer[..|rest|][4..6];
    }
  }

  lemma DecodeFront(rest: seq<byte>, done: seq<Pdu>)
    ensures !Complete(rest) ==> done + Decode(rest) == done
    ensures Complete(rest) ==>
              var n := HEADER + LengthField(rest);
              n <= |rest| && done + Decode(rest) == done + [Pdu(TypeField(rest), rest[HEADER..n])] + Decode(rest[n..])
  {
  }

  lemma {:induction false} ZeroNumber(s: seq<byte>)
    requires forall i :: 0 <= i < |s| ==> s[i] == 0
    ensures FromBigEndian(s) == 0
    decreases |s|
  {
    if s != [] { ZeroNumber(s[..|s| - 1]); }
  }

  /** GetPdu judges every buffer rightly at this read position. */
  ghost predicate JudgesRightly(consumed: nat) {
    forall b: seq<byte>, used: nat :: consumed + HEADER <= |b| && consumed <= used <= |b| ==>
      (Judged(b, consumed, used) <==> Complete(b[consumed..used]))
  }

  /**
   * One call is misjudged exactly when what is unconsumed is shorter than the PDU its length field
   * announces, but would be long enough if the consumed bytes counted too.
   */
  lemma MisjudgedExactly(b: seq<byte>, consumed: nat, used: nat)
    requires consumed <= used <= |b| && consumed + HEADER <= |b|
    ensures var need := HEADER + FromBigEndian(b[consumed..consumed + 4]);
            (Judged(b, consumed, used) != Complete(b[consumed..used])) <==> used - consumed < need <= used
  {
    if used - consumed >= HEADER {
      assert b[consumed..used][..4] == b[consumed..consumed + 4];
    }
  }

  /** It does so exactly when everything consumed has been swept. */
  lemma SweptIsJudgedRightly(consumed: nat)
    ensures JudgesRightly(consumed) <==> consumed == 0
  {
    if consumed == 0 {
      forall b: seq<byte>, used: nat | HEADER <= |b| && used <= |b|
        ensures Judged(b, 0, used) <==> Complete(b[0..used])
      {
        if used >= HEADER { assert b[0..used][..4] == b[0..4]; }
      }
    } else {
      var b: seq<byte> := seq(consumed + HEADER, _ => 0);
      var used := if consumed < HEADER then HEADER else consumed;
      ZeroNumber(b[consumed..consumed + 4]);
      assert Judged(b, consumed, used) && !Complete(b[consumed..used]);
    }
  }

  /** Adding PDUs to an empty buffer and draining a receiver loaded with it yields the same PDUs in order. */
  method SendAndReceive(sender: SocketBuffer, receiver: SocketBuffer, pdus: seq<Pdu>) returns (ok: bool, got: seq<Pdu>)
    requires sender.Valid() && sender.used == sender.consumed == 0
    requires receiver.Valid() && receiver.used == receiver.consumed == 0 && receiver.buffer.Length == sender.buffer.Length
    requires sender != receiver && sender.buffer != receiver.buffer
    requires forall i :: 0 <= i < |pdus| ==> Framable(pdus[i])
    modifies sender, sender.buffer, receiver, receiver.buffer
    ensures ok <==> |Frames(pdus)| < sender.buffer.Length || pdus == []
    ensures ok ==> got == pdus
  {
    got := [];
    for i := 0 to |pdus|
      invariant sender.Valid() && sender.consumed == 0 && sender.Contents() == Frames(pdus[..i])
      invariant receiver.Valid() && receiver.used == receiver.consumed == 0
      invariant i > 0 ==> |Frames(pdus[..i])| < sender.buffer.Length
    {
      assert pdus[..i + 1] == pdus[..i] + [pdus[i]];
      FramesSnoc(pdus[..i], pdus[i]);
      FramesPrefix(pdus, i + 1);
      ok := sender.AddPdu(pdus[i].kind, |pdus[i].payload|, pdus[i].payload);
      if !ok {
        return;
      }
    }
    assert pdus[..|pdus|] == pdus;
    ok := true;
    if pdus != [] {
      got := receiver.Drain(sender.Contents());
      FramesRoundTrip(pdus);
    }
  }

  lemma FramesPrefix(ps: seq<Pdu>, i: nat)
    requires i <= |ps|
    ensures |Frames(ps[..i])| <= |Frames(ps)|
    decreases |ps| - i
  {
    if i < |ps| {
      assert ps[..i + 1] == ps[..i] + [ps[i]];
      FramesSnoc(ps[..i], ps[i]);
      FramesPrefix(ps, i + 1);
    } else {
      assert ps[..i] == ps;
    }
  }
}
