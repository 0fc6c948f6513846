/** Progressive Murmur3: the carry of pending bytes, and independence of chunks and alignment. */
module Murmur {

  /** A byte held in a 32-bit word. */
  type octet = x: bv32 | x < 0x100

  /** ROTL32 */
  function Rotl(x: bv32, r: bv6): bv32
    requires r < 32
  {
    (x << r) | (x >> (32 - r))
  }

  /** The five factors, C1 and C2 among them. */
  function Times1(x: bv32): bv32 { x * 0xcc9e2d51 }
  function Times2(x: bv32): bv32 { x * 0x1b873593 }
  function Times3(x: bv32): bv32 { x * 5 }
  function Times4(x: bv32): bv32 { x * 0x85ebca6b }
  function Times5(x: bv32): bv32 { x * 0xc2b2ae35 }

  function Xor(x: bv32, y: bv32): bv32 {
    x ^ y
  }

  /** The mixing of a word before it enters the hash. */
  function Mix(k: bv32): bv32 {
    Times2(Rotl(Times1(k), 15))
  }

  /** DOBLOCK */
  function DoBlock(h: bv32, k: bv32): bv32 {
    Times3(Rotl(Xor(h, Mix(k)), 13)) + 0xe6546b64
  }

  /** Little-endian word of four bytes. */
  function Word(b: seq<octet>): bv32
    requires |b| == 4
  {
    var b0: bv32, b1: bv32, b2: bv32, b3: bv32 := b[0], b[1], b[2], b[3];
    b0 | (b1 << 8) | (b2 << 16) | (b3 << 24)
  }

  // ---- what is computed, byte by byte

  /** Running hash and the bytes, at most three, that do not yet fill a block. */
  datatype State = State(h: bv32, pending: seq<octet>)

  function AbsorbByte(st: State, b: octet): (next: State)
    requires |st.pending| < 4
    ensures |next.pending| < 4
  {
    var p := st.pending + [b];
    if |p| == 4 then State(DoBlock(st.h, Word(p)), []) else State(st.h, p)
  }

  function Absorb(st: State, data: seq<octet>): (next: State)
    requires |st.pending| < 4
    ensures |next.pending| < 4
    decreases |data|
  {
    if data == [] then st else Absorb(AbsorbByte(st, data[0]), data[1..])
  }

  lemma {:induction false} AbsorbConcat(st: State, a: seq<octet>, b: seq<octet>)
    requires |st.pending| < 4
    ensures Absorb(st, a + b) == Absorb(Absorb(st, a), b)
    decreases |a|
  {
    if a == [] {
      assert a + b == b;
    } else {
      assert (a + b)[1..] == a[1..] + b;
      AbsorbConcat(AbsorbByte(st, a[0]), a[1..], b);
    }
  }

  /** The original, all-at-once definition: whole blocks first, then the tail. */
  function Blocks(h: bv32, data: seq<octet>): bv32
    decreases |data|
  {
    if |data| < 4 then h else Blocks(DoBlock(h, Word(data[..4])), data[4..])
  }

  function TailOf(data: seq<octet>): (t: seq<octet>)
    ensures |t| < 4
  {
    if |data| < 4 then data else TailOf(data[4..])
  }

  lemma AbsorbFew(st: State, data: seq<octet>)
    requires |st.pending| + |data| < 4
    ensures Absorb(st, data) == State(st.h, st.pending + data)
    decreases |data|
  {
    if data != [] {
      AbsorbFew(State(st.h, st.pending + [data[0]]), data[1..]);
      assert st.pending + [data[0]] + data[1..] == st.pending + data;
    } else {
      assert st.pending + data == st.pending;
    }
  }

  /** Bytes that complete a block. */
  lemma AbsorbToBlock(st: State, data: seq<octet>)
    requires |st.pending| < 4 && |st.pending| + |data| == 4
    ensures Absorb(st, data) == State(DoBlock(st.h, Word(st.pending + data)), [])
  {
    hide DoBlock, Word;
    var m := |data| - 1;
    assert data == data[..m] + [data[m]];
    AbsorbConcat(st, data[..m], [data[m]]);
    AbsorbFew(st, data[..m]);
    assert st.pending + data[..m] + [data[m]] == st.pending + data;
    assert [data[m]][1..] == [];
  }

  /** Byte by byte, the result is that of the all-at-once definition. */
  lemma {:induction false} AbsorbIsBlocks(h: bv32, data: seq<octet>)
    ensures Absorb(State(h, []), data) == State(Blocks(h, data), TailOf(data))
    decreases |data|
  {
    if |data| < 4 {
      AbsorbFew(State(h, []), data);
      assert [] + data == data;
    } else {
      assert data == data[..4] + data[4..];
      AbsorbConcat(State(h, []), data[..4], data[4..]);
      AbsorbToBlock(State(h, []), data[..4]);
      assert [] + data[..4] == data[..4];
      AbsorbIsBlocks(DoBlock(h, Word(data[..4])), data[4..]);
    }
  }

  // ---- the carry word

  function Byte(c: bv32, i: nat): octet
    requires i < 4
  {
    if i == 0 then c & 0xff
    else if i == 1 then (c >> 8) & 0xff
    else if i == 2 then (c >> 16) & 0xff
    else c >> 24
  }

  function High(b: octet): bv32 {
    var w: bv32 := b;
    w << 24
  }

  /** The n topmost bytes of the carry, oldest first. */
  function Top(c: bv32, n: nat): (t: seq<octet>)
    requires n <= 4
    ensures |t| == n && forall i :: 0 <= i < n ==> t[i] == Byte(c, 4 - n + i)
  {
    if n == 0 then [] else [Byte(c, 4 - n)] + Top(c, n - 1)
  }

  /** The low two bits of a stored carry count its bytes. */
  function CountOf(c: bv32): (n: nat)
    ensures n < 4
  {
    if c & 3 == 0 then 0 else if c & 3 == 1 then 1 else if c & 3 == 2 then 2 else 3
  }

  function Encoded(n: nat): bv32
    requires n < 4
  {
    if n == 0 then 0 else if n == 1 then 1 else if n == 2 then 2 else 3
  }

  function Pending(c: bv32): (p: seq<octet>)
    ensures |p| < 4
  {
    Top(c, CountOf(c))
  }

  lemma ShiftedBytes(c: bv32, b: octet)
    ensures var s := (c >> 8) | High(b);
            Byte(s, 3) == b && Byte(s, 2) == Byte(c, 3) && Byte(s, 1) == Byte(c, 2) && Byte(s, 0) == Byte(c, 1)
  {
  }

  /** c>>8 | byte<<24 appends a byte. */
  lemma ShiftIn(c: bv32, n: nat, b: octet)
    requires n < 4
    ensures Top((c >> 8) | High(b), n + 1) == Top(c, n) + [b]
  {
    hide Byte;
    ShiftedBytes(c, b);
  }

  lemma WordOfTop(c: bv32)
    ensures Word(Top(c, 4)) == c
  {
  }

  lemma StoredCarry(c: bv32, n: nat)
    requires n < 4
    ensures var s := (c & 0xffffff00) | Encoded(n);
            CountOf(s) == n && Byte(s, 1) == Byte(c, 1) && Byte(s, 2) == Byte(c, 2) && Byte(s, 3) == Byte(c, 3)
  {
  }

  /** Storing the count in the low byte keeps the pending bytes. */
  lemma PendingStored(c: bv32, n: nat)
    requires n < 4
    ensures Pending((c & 0xffffff00) | Encoded(n)) == Top(c, n)
  {
    hide Byte, CountOf;
    StoredCarry(c, n);
  }

  // ---- PMurHash32_Process

  /** DOBYTES: bytes at..at+count of the data are pushed through the carry. */
  method DoBytes(data: seq<octet>, at: nat, count: nat, h1: bv32, carry: bv32, pending: nat)
    returns (h: bv32, c: bv32, n: nat)
    requires pending < 4 && at + count <= |data|
    ensures n < 4 && n == (pending + count) % 4
    ensures Absorb(State(h1, Top(carry, pending)), data[at..at + count]) == State(h, Top(c, n))
  {
    hide DoBlock, Word, Top, Byte, High, Absorb;
    h, c, n := h1, carry, pending;
    ghost var st := State(h1, Top(carry, pending));
    AbsorbNothing(st, data[at..at]);
    for i := 0 to count
      invariant n < 4 && n == (pending + i) % 4 && |st.pending| < 4
      invariant Absorb(st, data[at..at + i]) == State(h, Top(c, n))
    {
      assert data[at..at + i + 1] == data[at..at + i] + [data[at + i]];
      AbsorbConcat(st, data[at..at + i], [data[at + i]]);
      PushByte(h, c, n, data[at + i]);
      c := (c >> 8) | High(data[at + i]);
      n := n + 1;
      if n == 4 {
        h := DoBlock(h, c);
        n := 0;
      }
    }
  }

  lemma AbsorbNothing(st: State, none: seq<octet>)
    requires |st.pending| < 4 && none == []
    ensures Absorb(st, none) == st
  {
  }

  lemma TopSize(c: bv32, n: nat)
    requires n <= 4
    ensures |Top(c, n)| == n
  {
  }

  lemma PushByte(h: bv32, c: bv32, n: nat, b: octet)
    requires n < 4
    ensures var s := (c >> 8) | High(b);
            Absorb(State(h, Top(c, n)), [b]) == if n == 3 then State(DoBlock(h, s), Top(s, 0)) else State(h, Top(s, n + 1))
  {
    hide DoBlock, Word, Byte, High;
    ShiftIn(c, n, b);
    assert [b][1..] == [];
    if n == 3 { WordOfTop((c >> 8) | High(b)); }
  }

  /** The block formed from n carried bytes and the first 4 - n of a word. */
  function Joined(c: bv32, n: nat, w: bv32): bv32
    requires n < 4
  {
    if n == 0 then w
    else if n == 1 then (c >> 24) | (w << 8)
    else if n == 2 then (c >> 16) | (w << 16)
    else (c >> 8) | (w << 24)
  }

  lemma WordBytes(d: seq<octet>)
    requires |d| == 4
    ensures forall i :: 0 <= i < 4 ==> Byte(Word(d), i) == d[i]
  {
    var b0: bv32, b1: bv32, b2: bv32, b3: bv32 := d[0], d[1], d[2], d[3];
    assert Byte(Word(d), 0) == d[0] && Byte(Word(d), 1) == d[1] && Byte(Word(d), 2) == d[2] && Byte(Word(d), 3) == d[3];
  }

  lemma Joined1(c: bv32, w: bv32)
    ensures var j := (c >> 24) | (w << 8);
            Byte(j, 0) == Byte(c, 3) && Byte(j, 1) == Byte(w, 0) && Byte(j, 2) == Byte(w, 1) && Byte(j, 3) == Byte(w, 2)
  {
  }

  lemma Joined2(c: bv32, w: bv32)
    ensures var j := (c >> 16) | (w << 16);
            Byte(j, 0) == Byte(c, 2) && Byte(j, 1) == Byte(c, 3) && Byte(j, 2) == Byte(w, 0) && Byte(j, 3) == Byte(w, 1)
  {
  }

  lemma Joined3(c: bv32, w: bv32)
    ensures var j := (c >> 8) | (w << 24);
            Byte(j, 0) == Byte(c, 1) && Byte(j, 1) == Byte(c, 2) && Byte(j, 2) == Byte(c, 3) && Byte(j, 3) == Byte(w, 0)
  {
  }

  lemma JoinedBytes(c: bv32, n: nat, w: bv32)
    requires n < 4
    ensures forall i :: 0 <= i < 4 ==>
              Byte(Joined(c, n, w), i) == if i < n then Byte(c, 4 - n + i) else Byte(w, i - n)
  {
    hide Byte;
    if n == 1 {
      Joined1(c, w);
    } else if n == 2 {
      Joined2(c, w);
    } else if n == 3 {
      Joined3(c, w);
    }
  }

  lemma JoinedTop(c: bv32, n: nat, d: seq<octet>)
    requires n < 4 && |d| == 4
    ensures Top(c, n) + d[..4 - n] == Top(Joined(c, n, Word(d)), 4)
  {
    var j := Joined(c, n, Word(d));
    WordBytes(d);
    JoinedBytes(c, n, Word(d));
    TopBytes(c, n);
    TopBytes(j, 4);
    hide *;
    forall i | 0 <= i < 4
      ensures (Top(c, n) + d[..4 - n])[i] == Top(j, 4)[i]
    {
      assert Top(j, 4)[i] == Byte(j, i);
    }
  }

  lemma RestTop(n: nat, d: seq<octet>)
    requires n < 4 && |d| == 4
    ensures d[4 - n..] == Top(Word(d), n)
  {
    WordBytes(d);
    TopBytes(Word(d), n);
    hide *;
  }

  lemma TopBytes(c: bv32, n: nat)
    requires n <= 4
    ensures |Top(c, n)| == n && forall i :: 0 <= i < n ==> Top(c, n)[i] == Byte(c, 4 - n + i)
  {
  }

  /** One word read from memory with n bytes carried. */
  lemma CarriedBlock(h: bv32, c: bv32, n: nat, d: seq<octet>)
    requires n < 4 && |d| == 4
    ensures Absorb(State(h, Top(c, n)), d) == State(DoBlock(h, Joined(c, n, Word(d))), Top(Word(d), n))
  {
    hide *;
    var w, st := Word(d), State(h, Top(c, n));
    var first, rest := d[..4 - n], d[4 - n..];
    var j := Joined(c, n, w);
    TopSize(c, n);
    JoinedTop(c, n, d);
    RestTop(n, d);
    WordOfTop(j);
    assert d == first + rest;
    AbsorbConcat(st, first, rest);
    AbsorbToBlock(st, first);
    AbsorbFew(State(DoBlock(h, j), []), rest);
    assert [] + rest == rest;
  }

  /**
   * The loop that hashes words as they are read, next to any carried bytes. It leaves the
   * carry alone, which is right when nothing is carried or no whole word is left.
   */
  method DirectWords(data: seq<octet>, at: nat, h1: bv32, ghost carried: seq<octet>) returns (p: nat, h: bv32)
    requires at <= |data| && (carried == [] || (|carried| < 4 && |data| - at < 4))
    ensures at <= p <= |data| && p == at + (|data| - at) / 4 * 4
    ensures Absorb(State(h1, carried), data[at..p]) == State(h, carried)
  {
    hide DoBlock, Word, Absorb;
    p, h := at, h1;
    var end := at + (|data| - at) / 4 * 4;
    ghost var st := State(h1, carried);
    AbsorbNothing(st, data[at..at]);
    while p < end
      invariant at <= p <= end <= |data| && (end - p) % 4 == 0
      invariant Absorb(st, data[at..p]) == State(h, carried)
    {
      assert data[at..p + 4] == data[at..p] + data[p..p + 4];
      AbsorbConcat(st, data[at..p], data[p..p + 4]);
      AbsorbToBlock(State(h, []), data[p..p + 4]);
      assert [] + data[p..p + 4] == data[p..p + 4];
      h := DoBlock(h, Word(data[p..p + 4]));
      p := p + 4;
    }
  }

  lemma NextWord(st: State, before: seq<octet>, h: bv32, c: bv32, n: nat, d: seq<octet>)
    requires |st.pending| < 4 && n < 4 && |d| == 4 && Absorb(st, before) == State(h, Top(c, n))
    ensures Absorb(st, before + d) == State(DoBlock(h, Joined(c, n, Word(d))), Top(Word(d), n))
  {
    hide *;
    AbsorbConcat(st, before, d);
    TopSize(c, n);
    CarriedBlock(h, c, n, d);
  }

  /** The loops over whole words, one for each carry count. */
  method WholeWords(data: seq<octet>, at: nat, h1: bv32, carry: bv32, n: nat) returns (p: nat, h: bv32, c: bv32)
    requires n < 4 && at <= |data|
    ensures at <= p <= |data| && p == at + (|data| - at) / 4 * 4
    ensures Absorb(State(h1, Top(carry, n)), data[at..p]) == State(h, Top(c, n))
  {
    hide *;
    TopSize(carry, n);
    c := carry;
    if n == 0 {
      p, h := DirectWords(data, at, h1, Top(carry, n));
    } else {
      p, h, c := CarriedWords(data, at, h1, carry, n);
    }
  }

  method CarriedWords(data: seq<octet>, at: nat, h1: bv32, carry: bv32, n: nat) returns (p: nat, h: bv32, c: bv32)
    requires n < 4 && at <= |data|
    ensures at <= p <= |data| && p == at + (|data| - at) / 4 * 4
    ensures Absorb(State(h1, Top(carry, n)), data[at..p]) == State(h, Top(c, n))
  {
    hide *;
    TopSize(carry, n);
    p, h, c := at, h1, carry;
    var words := (|data| - at) / 4;
    ghost var st := State(h1, Top(carry, n));
    AbsorbNothing(st, data[at..at]);
    for i := 0 to words
      invariant p == at + 4 * i
      invariant Absorb(st, data[at..p]) == State(h, Top(c, n))
    {
      var d := data[p..p + 4];
      assert data[at..p + 4] == data[at..p] + d;
      NextWord(st, data[at..p], h, c, n, d);
      h := DoBlock(h, Joined(c, n, Word(d)));
      c := Word(d);
      p := p + 4;
    }
  }

  /** The word loop of either kind of machine. */
  method WordLoops(data: seq<octet>, at: nat, h1: bv32, carry: bv32, n: nat, unalignedSafe: bool)
    returns (p: nat, h: bv32, c: bv32)
    requires n < 4 && at <= |data| && (unalignedSafe ==> n == 0 || |data| - at < 4)
    ensures at <= p <= |data| && p == at + (|data| - at) / 4 * 4
    ensures Absorb(State(h1, Top(carry, n)), data[at..p]) == State(h, Top(c, n))
  {
    hide Absorb, Top;
    TopSize(carry, n);
    c := carry;
    if unalignedSafe {
      p, h := DirectWords(data, at, h1, Top(carry, n));
    } else {
      p, h, c := WholeWords(data, at, h1, carry, n);
    }
  }

  /**
   * The bytes consumed before the words: as many as complete the carry, or as many as align
   * the pointer, if the data is that long.
   */
  method Lead(data: seq<octet>, h1: bv32, carry: bv32, pending: nat, unalignedSafe: bool, address: nat)
    returns (p: nat, h: bv32, c: bv32, n: nat)
    requires pending < 4
    ensures n < 4 && p <= |data| && (unalignedSafe ==> n == 0 || |data| - p < 4)
    ensures Absorb(State(h1, Top(carry, pending)), data[..p]) == State(h, Top(c, n))
  {
    hide Top, Absorb;
    var lead := if unalignedSafe then (4 - pending) % 4 else (4 - address % 4) % 4;
    if lead > 0 && lead <= |data| {
      h, c, n := DoBytes(data, 0, lead, h1, carry, pending);
      p := lead;
      assert data[0..lead] == data[..lead];
    } else {
      p, h, c, n := 0, h1, carry, pending;
      TopSize(carry, pending);
      AbsorbNothing(State(h1, Top(carry, pending)), data[..0]);
    }
  }

  /**
   * PMurHash32_Process. On machines that may read unaligned words, the carry is completed
   * first, if the data is long enough, and words are then hashed as they are read; otherwise
   * the pointer is aligned first, and words are joined with what is carried. Either way the
   * state represented by hash and carry absorbs the data.
   */
  method Process(h1: bv32, carry: bv32, data: seq<octet>, unalignedSafe: bool, address: nat) returns (h: bv32, c: bv32)
    ensures State(h, Pending(c)) == Absorb(State(h1, Pending(carry)), data)
  {
    hide *;
    var n := CountOf(carry);
    ghost var st := State(h1, Top(carry, n));
    assert Pending(carry) == Top(carry, n) by { PendingIsTop(carry); }
    TopSize(carry, n);
    var p, end: nat;
    p, h, c, n := Lead(data, h1, carry, n, unalignedSafe, address);
    TopSize(c, n);
    end, h, c := WordLoops(data, p, h, c, n, unalignedSafe);
    assert data[..end] == data[..p] + data[p..end];
    AbsorbConcat(st, data[..p], data[p..end]);
    TopSize(c, n);
    assert data == data[..end] + data[end..end + (|data| - end)];
    AbsorbConcat(st, data[..end], data[end..end + (|data| - end)]);
    h, c, n := DoBytes(data, end, |data| - end, h, c, n);
    PendingStored(c, n);
    c := (c & 0xffffff00) | Encoded(n);
  }

  lemma PendingIsTop(c: bv32)
    ensures Pending(c) == Top(c, CountOf(c))
  {
  }

  // ---- PMurHash32_Result

  /** A word with its own upper bits, shifted down, added without carry. */
  function Smear16(x: bv32): bv32 { x ^ (x >> 16) }
  function Smear13(x: bv32): bv32 { x ^ (x >> 13) }

  /** fmix */
  function Fmix(h: bv32): bv32 {
    Smear16(Times5(Smear13(Times4(Smear16(h)))))
  }

  /** The bytes of the carry, moved down to the bottom. */
  function Unpushed(carry: bv32): bv32 {
    var n := CountOf(carry);
    if n == 0 then 0 else if n == 1 then carry >> 24 else if n == 2 then carry >> 16 else carry >> 8
  }

  function Result(h: bv32, carry: bv32, total: bv32): bv32 {
    Fmix(Xor(if CountOf(carry) == 0 then h else Xor(h, Mix(Unpushed(carry))), total))
  }

  /** The tail as a little-endian number. */
  function TailWord(t: seq<octet>): bv32
    requires |t| < 4
  {
    if |t| == 0 then 0
    else if |t| == 1 then t[0]
    else if |t| == 2 then Two(t[0], t[1])
    else Three(t[0], t[1], t[2])
  }

  function Two(x: bv32, y: bv32): bv32 { x | (y << 8) }

  function Three(x: bv32, y: bv32, z: bv32): bv32 { x | (y << 8) | (z << 16) }

  /** Finalization as defined on the tail bytes. */
  function Finish(st: State, total: bv32): bv32
    requires |st.pending| < 4
  {
    Fmix(Xor(if st.pending == [] then st.h else Xor(st.h, Mix(TailWord(st.pending))), total))
  }

  lemma TopByte(c: bv32)
    ensures c >> 24 == Byte(c, 3)
  {
  }

  lemma TopTwo(c: bv32)
    ensures c >> 16 == ((c >> 16) & 0xff) | ((c >> 24) << 8)
  {
  }

  lemma TopThree(c: bv32)
    ensures c >> 8 == ((c >> 8) & 0xff) | (((c >> 16) & 0xff) << 8) | ((c >> 24) << 16)
  {
  }

  lemma TwoBytes(c: bv32)
    ensures c >> 16 == Two(Byte(c, 2), Byte(c, 3))
  {
    TopTwo(c);
  }

  lemma ThreeBytes(c: bv32)
    ensures c >> 8 == Three(Byte(c, 1), Byte(c, 2), Byte(c, 3))
  {
    TopThree(c);
  }

  lemma CarryTail(carry: bv32)
    ensures |Pending(carry)| == CountOf(carry)
    ensures CountOf(carry) > 0 ==> Unpushed(carry) == TailWord(Pending(carry))
  {
    hide CountOf, Two, Three, Byte;
    TopBytes(carry, CountOf(carry));
    TopByte(carry);
    TwoBytes(carry);
    ThreeBytes(carry);
  }

  /** Only the pending bytes of a carry reach the result. */
  lemma ResultOfPending(h: bv32, carry: bv32, total: bv32)
    ensures Result(h, carry, total) == Finish(State(h, Pending(carry)), total)
  {
    hide Mix, Fmix, Xor, TailWord, Unpushed, Pending, CountOf;
    CarryTail(carry);
  }

  /** Murmur3A, all at once. */
  function Murmur3A(seed: bv32, data: seq<octet>, total: bv32): bv32 {
    Finish(State(Blocks(seed, data), TailOf(data)), total)
  }

  function Concatenation(chunks: seq<seq<octet>>): seq<octet> {
    if chunks == [] then [] else Concatenation(chunks[..|chunks| - 1]) + chunks[|chunks| - 1]
  }

  /** Hashing progressively gives the same for every division into chunks, on both kinds of machine and at every address. */
  method Progressive(seed: bv32, chunks: seq<seq<octet>>, total: bv32, unalignedSafe: bool, addresses: seq<nat>)
    returns (r: bv32)
    requires |addresses| == |chunks|
    ensures r == Murmur3A(seed, Concatenation(chunks), total)
  {
    hide Absorb, Finish, Result, Top, Byte, CountOf;
    var h, c: bv32 := seed, 0;
    EmptyCarry();
    AbsorbNothing(State(seed, []), Concatenation(chunks[..0]));
    for i := 0 to |chunks|
      invariant |Pending(c)| < 4
      invariant State(h, Pending(c)) == Absorb(State(seed, []), Concatenation(chunks[..i]))
    {
      assert chunks[..i + 1][..i] == chunks[..i];
      AbsorbConcat(State(seed, []), Concatenation(chunks[..i]), chunks[i]);
      h, c := Process(h, c, chunks[i], unalignedSafe, addresses[i]);
    }
    assert chunks[..|chunks|] == chunks;
    AbsorbIsBlocks(seed, Concatenation(chunks));
    ResultOfPending(h, c, total);
    r := Result(h, c, total);
  }

  lemma EmptyCarry()
    ensures Pending(0) == []
  {
  }
}
