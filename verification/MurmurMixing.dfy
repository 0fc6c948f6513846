/**
 * What the mixing of Murmur3 keeps: every step is invertible, so no block, tail or seed is
 * lost on the way to the result. Known results tie down the constants.
 */
module MurmurMixing {
  import opened Murmur

  // ---- nothing is lost: every step keeps different words different

  function Divide1(y: bv32): bv32 { y * 0xdee13bb1 }

  lemma Times1Is(x: bv32)
    ensures Times1(x) == x * 0xcc9e2d51
  {
  }

  lemma DivideProduct1(x: bv32)
    ensures Divide1(x * 0xcc9e2d51) == x
  {
  }

  lemma DivideBack1(x: bv32)
    ensures Divide1(Times1(x)) == x
  {
    hide *;
    Times1Is(x);
    DivideProduct1(x);
  }

  function Divide2(y: bv32): bv32 { y * 0x56ed309b }

  lemma Times2Is(x: bv32)
    ensures Times2(x) == x * 0x1b873593
  {
  }

  lemma DivideProduct2(x: bv32)
    ensures Divide2(x * 0x1b873593) == x
  {
  }

  lemma DivideBack2(x: bv32)
    ensures Divide2(Times2(x)) == x
  {
    hide *;
    Times2Is(x);
    DivideProduct2(x);
  }

  function Divide3(y: bv32): bv32 { y * 0xcccccccd }

  lemma Times3Is(x: bv32)
    ensures Times3(x) == x * 5
  {
  }

  lemma DivideProduct3(x: bv32)
    ensures Divide3(x * 5) == x
  {
  }

  lemma DivideBack3(x: bv32)
    ensures Divide3(Times3(x)) == x
  {
    hide *;
    Times3Is(x);
    DivideProduct3(x);
  }

  function Divide4(y: bv32): bv32 { y * 0xa5cb9243 }

  lemma Times4Is(x: bv32)
    ensures Times4(x) == x * 0x85ebca6b
  {
  }

  lemma DivideProduct4(x: bv32)
    ensures Divide4(x * 0x85ebca6b) == x
  {
  }

  lemma DivideBack4(x: bv32)
    ensures Divide4(Times4(x)) == x
  {
    hide *;
    Times4Is(x);
    DivideProduct4(x);
  }

  function Divide5(y: bv32): bv32 { y * 0x7ed1b41d }

  lemma Times5Is(x: bv32)
    ensures Times5(x) == x * 0xc2b2ae35
  {
  }

  lemma DivideProduct5(x: bv32)
    ensures Divide5(x * 0xc2b2ae35) == x
  {
  }

  lemma DivideBack5(x: bv32)
    ensures Divide5(Times5(x)) == x
  {
    hide *;
    Times5Is(x);
    DivideProduct5(x);
  }

  /** The factors are odd, so each has an inverse modulo 2^32. */
  lemma FactorsDiffer(x: bv32, y: bv32)
    requires x != y
    ensures Times1(x) != Times1(y) && Times2(x) != Times2(y) && Times3(x) != Times3(y)
    ensures Times4(x) != Times4(y) && Times5(x) != Times5(y)
  {
    hide *;
    DivideBack1(x);
    DivideBack1(y);
    DivideBack2(x);
    DivideBack2(y);
    DivideBack3(x);
    DivideBack3(y);
    DivideBack4(x);
    DivideBack4(y);
    DivideBack5(x);
    DivideBack5(y);
  }

  lemma RotateBack(x: bv32)
    ensures Rotl(Rotl(x, 15), 17) == x && Rotl(Rotl(x, 13), 19) == x
  {
  }

  lemma RotationDiffers(x: bv32, y: bv32)
    requires x != y
    ensures Rotl(x, 15) != Rotl(y, 15) && Rotl(x, 13) != Rotl(y, 13)
  {
    hide Rotl;
    RotateBack(x);
    RotateBack(y);
  }

  lemma Smear16Is(x: bv32)
    ensures Smear16(x) == x ^ (x >> 16)
  {
  }

  lemma Shift16(x: bv32)
    ensures Smear16(x ^ (x >> 16)) == x
  {
  }

  lemma Smear16Back(x: bv32)
    ensures Smear16(Smear16(x)) == x
  {
    hide Smear16;
    Smear16Is(x);
    Shift16(x);
  }

  function Unsmear13(y: bv32): bv32 { y ^ (y >> 13) ^ (y >> 26) }

  lemma Smear13Is(x: bv32)
    ensures Smear13(x) == x ^ (x >> 13)
  {
  }

  lemma Shift13(x: bv32)
    ensures Unsmear13(x ^ (x >> 13)) == x
  {
  }

  lemma Smear13Back(x: bv32)
    ensures Unsmear13(Smear13(x)) == x
  {
    hide Smear13, Unsmear13;
    Smear13Is(x);
    Shift13(x);
  }

  lemma SmearDiffers(x: bv32, y: bv32)
    requires x != y
    ensures Smear16(x) != Smear16(y) && Smear13(x) != Smear13(y)
  {
    hide Smear16, Smear13, Unsmear13;
    Smear16Back(x);
    Smear16Back(y);
    Smear13Back(x);
    Smear13Back(y);
  }

  lemma SumDiffers(x: bv32, y: bv32)
    requires x != y
    ensures x + 0xe6546b64 != y + 0xe6546b64
  {
  }

  lemma XorDiffers(x: bv32, y: bv32, z: bv32)
    requires x != y
    ensures Xor(x, z) != Xor(y, z) && Xor(z, x) != Xor(z, y)
  {
  }

  lemma MixDiffers(k: bv32, l: bv32)
    requires k != l
    ensures Mix(k) != Mix(l)
  {
    hide Times1, Times2, Times3, Rotl;
    FactorsDiffer(k, l);
    RotationDiffers(Times1(k), Times1(l));
    FactorsDiffer(Rotl(Times1(k), 15), Rotl(Times1(l), 15));
  }

  /** The steps of a block behind the exclusive or. */
  function Scrambled(x: bv32): bv32 {
    Times3(Rotl(x, 13)) + 0xe6546b64
  }

  lemma BlockIs(h: bv32, k: bv32)
    ensures DoBlock(h, k) == Scrambled(Xor(h, Mix(k)))
  {
    hide Times3, Rotl, Xor, Mix;
  }

  lemma ScrambledDiffers(x: bv32, y: bv32)
    requires x != y
    ensures Scrambled(x) != Scrambled(y)
  {
    hide Times1, Times2, Times3, Rotl;
    RotationDiffers(x, y);
    FactorsDiffer(Rotl(x, 13), Rotl(y, 13));
    SumDiffers(Times3(Rotl(x, 13)), Times3(Rotl(y, 13)));
  }

  /** Different words, or different hashes so far, give different hashes. */
  lemma BlockDiffers(h: bv32, k: bv32, other: bv32)
    ensures k != other ==> DoBlock(h, k) != DoBlock(h, other)
    ensures h != other ==> DoBlock(h, k) != DoBlock(other, k)
  {
    hide *;
    BlockIs(h, k);
    BlockIs(h, other);
    BlockIs(other, k);
    if k != other {
      MixDiffers(k, other);
      XorDiffers(Mix(k), Mix(other), h);
      ScrambledDiffers(Xor(h, Mix(k)), Xor(h, Mix(other)));
    }
    if h != other {
      XorDiffers(h, other, Mix(k));
      ScrambledDiffers(Xor(h, Mix(k)), Xor(other, Mix(k)));
    }
  }

  lemma FmixDiffers(h: bv32, g: bv32)
    requires h != g
    ensures Fmix(h) != Fmix(g)
  {
    hide Times4, Times5, Smear16, Smear13;
    SmearDiffers(h, g);
    FactorsDiffer(Smear16(h), Smear16(g));
    var a, b := Times4(Smear16(h)), Times4(Smear16(g));
    SmearDiffers(a, b);
    FactorsDiffer(Smear13(a), Smear13(b));
    SmearDiffers(Times5(Smear13(a)), Times5(Smear13(b)));
  }

  lemma {:induction false} BlocksDiffer(h: bv32, g: bv32, data: seq<octet>)
    requires h != g
    ensures Blocks(h, data) != Blocks(g, data)
    decreases |data|
  {
    hide DoBlock, Word;
    if |data| >= 4 {
      BlockDiffers(h, Word(data[..4]), g);
      BlocksDiffer(DoBlock(h, Word(data[..4])), DoBlock(g, Word(data[..4])), data[4..]);
    }
  }

  lemma WordDiffers(a: seq<octet>, b: seq<octet>)
    requires |a| == |b| == 4 && a != b
    ensures Word(a) != Word(b)
  {
    hide Word, Byte;
    WordBytes(a);
    WordBytes(b);
    assert exists i :: 0 <= i < 4 && a[i] != b[i];
  }

  /** The same but for one whole block. */
  predicate DifferInBlock(a: seq<octet>, b: seq<octet>, j: nat) {
    && |a| == |b| && 4 * j + 4 <= |a| && a[4 * j..4 * j + 4] != b[4 * j..4 * j + 4]
    && a[..4 * j] == b[..4 * j] && a[4 * j + 4..] == b[4 * j + 4..]
  }

  lemma {:induction false} BlockNotLost(h: bv32, a: seq<octet>, b: seq<octet>, j: nat)
    requires DifferInBlock(a, b, j)
    ensures Blocks(h, a) != Blocks(h, b) && TailOf(a) == TailOf(b)
    decreases j
  {
    hide DoBlock, Word;
    if j == 0 {
      assert a[..4] == a[0..4] && b[..4] == b[0..4];
      WordDiffers(a[..4], b[..4]);
      BlockDiffers(h, Word(a[..4]), Word(b[..4]));
      BlocksDiffer(DoBlock(h, Word(a[..4])), DoBlock(h, Word(b[..4])), a[4..]);
    } else {
      assert a[..4] == a[..4 * j][..4] && b[..4] == b[..4 * j][..4];
      BlockShifted(a, b, j);
      BlockNotLost(DoBlock(h, Word(a[..4])), a[4..], b[4..], j - 1);
    }
  }

  lemma BlockShifted(a: seq<octet>, b: seq<octet>, j: nat)
    requires j > 0 && DifferInBlock(a, b, j)
    ensures DifferInBlock(a[4..], b[4..], j - 1)
  {
    var i := 4 * (j - 1);
    assert a[4..][i..i + 4] == a[4 * j..4 * j + 4] && b[4..][i..i + 4] == b[4 * j..4 * j + 4];
    assert a[4..][..i] == a[..4 * j][4..] && b[4..][..i] == b[..4 * j][4..];
    assert a[4..][i + 4..] == a[4 * j + 4..] && b[4..][i + 4..] == b[4 * j + 4..];
  }

  lemma FinishDiffers(g: bv32, h: bv32, tail: seq<octet>, total: bv32)
    requires |tail| < 4 && g != h
    ensures Finish(State(g, tail), total) != Finish(State(h, tail), total)
  {
    hide Fmix, Mix, TailWord, Xor;
    var k := Mix(TailWord(tail));
    XorDiffers(g, h, k);
    var x, y := if tail == [] then g else Xor(g, k), if tail == [] then h else Xor(h, k);
    XorDiffers(x, y, total);
    FmixDiffers(Xor(x, total), Xor(y, total));
  }

  /** Inputs that differ in exactly one whole block have different results. */
  lemma BlockReachesResult(seed: bv32, a: seq<octet>, b: seq<octet>, j: nat, total: bv32)
    requires DifferInBlock(a, b, j)
    ensures Murmur3A(seed, a, total) != Murmur3A(seed, b, total)
  {
    hide Finish, Blocks, TailOf;
    BlockNotLost(seed, a, b, j);
    FinishDiffers(Blocks(seed, a), Blocks(seed, b), TailOf(a), total);
  }

  /** Different seeds have different results for the same data. */
  lemma SeedReachesResult(seed: bv32, other: bv32, data: seq<octet>, total: bv32)
    requires seed != other
    ensures Murmur3A(seed, data, total) != Murmur3A(other, data, total)
  {
    hide Finish, Blocks, TailOf;
    BlocksDiffer(seed, other, data);
    FinishDiffers(Blocks(seed, data), Blocks(other, data), TailOf(data), total);
  }

  /** Different totals have different results. */
  lemma TotalReachesResult(seed: bv32, data: seq<octet>, total: bv32, other: bv32)
    requires total != other
    ensures Murmur3A(seed, data, total) != Murmur3A(seed, data, other)
  {
    hide Fmix, Mix, TailWord, Blocks, TailOf, Xor;
    var h, t := Blocks(seed, data), TailOf(data);
    var x := if t == [] then h else Xor(h, Mix(TailWord(t)));
    XorDiffers(total, other, x);
    FmixDiffers(Xor(x, total), Xor(x, other));
  }

  lemma OneByte(x: bv32, y: bv32)
    requires x < 0x100 && y < 0x100
    ensures Two(x, y) & 0xff == x && (Two(x, y) >> 8) & 0xff == y
  {
  }

  lemma ThreeBytesKept(x: bv32, y: bv32, z: bv32)
    requires x < 0x100 && y < 0x100 && z < 0x100
    ensures Three(x, y, z) & 0xff == x && (Three(x, y, z) >> 8) & 0xff == y && (Three(x, y, z) >> 16) & 0xff == z
  {
  }

  lemma TailWordDiffers(a: seq<octet>, b: seq<octet>)
    requires 0 < |a| == |b| < 4 && a != b
    ensures TailWord(a) != TailWord(b)
  {
    hide Two, Three;
    if |a| == 2 {
      OneByte(a[0], a[1]);
      OneByte(b[0], b[1]);
    } else if |a| == 3 {
      ThreeBytesKept(a[0], a[1], a[2]);
      ThreeBytesKept(b[0], b[1], b[2]);
    }
  }

  function WholeBytes(n: nat): nat { n / 4 * 4 }

  lemma {:induction false} TailBehindBlocks(h: bv32, a: seq<octet>, b: seq<octet>, m: nat)
    requires |a| == |b| && m % 4 == 0 && m <= |a| < m + 4 && a[..m] == b[..m]
    ensures Blocks(h, a) == Blocks(h, b) && TailOf(a) == a[m..] && TailOf(b) == b[m..]
    decreases m
  {
    hide DoBlock, Word;
    if m > 0 {
      assert a[..4] == a[..m][..4] && b[..4] == b[..m][..4];
      assert a[4..][..m - 4] == a[..m][4..] && b[4..][..m - 4] == b[..m][4..];
      TailBehindBlocks(DoBlock(h, Word(a[..4])), a[4..], b[4..], m - 4);
      assert a[4..][m - 4..] == a[m..] && b[4..][m - 4..] == b[m..];
    } else {
      assert a[0..] == a && b[0..] == b;
    }
  }

  /** Inputs that differ only in the bytes behind the last whole block have different results. */
  lemma TailReachesResult(seed: bv32, a: seq<octet>, b: seq<octet>, total: bv32)
    requires |a| == |b| && a[..WholeBytes(|a|)] == b[..WholeBytes(|a|)] && a != b
    ensures Murmur3A(seed, a, total) != Murmur3A(seed, b, total)
  {
    hide Fmix, Mix, TailWord, Blocks, TailOf, Xor;
    TailBehindBlocks(seed, a, b, WholeBytes(|a|));
    var h, s, t := Blocks(seed, a), TailOf(a), TailOf(b);
    assert a == a[..WholeBytes(|a|)] + s && b == b[..WholeBytes(|a|)] + t;
    TailWordDiffers(s, t);
    MixDiffers(TailWord(s), TailWord(t));
    XorDiffers(Mix(TailWord(s)), Mix(TailWord(t)), h);
    XorDiffers(Xor(h, Mix(TailWord(s))), Xor(h, Mix(TailWord(t))), total);
    FmixDiffers(Xor(Xor(h, Mix(TailWord(s))), total), Xor(Xor(h, Mix(TailWord(t))), total));
  }

  // ---- known results

  lemma ResultOfNothing()
    ensures Murmur3A(1, [], 0) == 0x514e28b7
  {
  }

  /** "a" */
  lemma ResultOfByte()
    ensures Murmur3A(0, [0x61], 1) == 0x3c2569b2
  {
    var data: seq<octet> := [0x61];
    assert Blocks(0, data) == 0 && TailOf(data) == data;
    assert Mix(0x61) == 0x504ba9d5;
  }

  lemma FirstBlock(data: seq<octet>)
    requires |data| >= 4 && data[..4] == [0x61, 0x62, 0x63, 0x64]
    ensures Word(data[..4]) == 0x64636261 && DoBlock(0, Word(data[..4])) == 0x86a7049e
  {
    hide DoBlock;
    KnownBlock();
  }

  lemma KnownBlock()
    ensures DoBlock(0, 0x64636261) == 0x86a7049e
  {
  }

  /** "abcd" */
  lemma ResultOfBlock()
    ensures Murmur3A(0, [0x61, 0x62, 0x63, 0x64], 4) == 0x43ed676a
  {
    hide DoBlock, Word, Fmix;
    var data: seq<octet> := [0x61, 0x62, 0x63, 0x64];
    assert data[..4] == data && data[4..] == [];
    FirstBlock(data);
    assert Fmix(0x86a7049e ^ 4) == 0x43ed676a by { KnownFinal(); }
  }

  lemma KnownFinal()
    ensures Fmix(0x86a7049e ^ 4) == 0x43ed676a && Fmix(0x3bc61feb) == 0x883c9b06
    ensures Xor(Xor(0x86a7049e, Mix(0x676665)), 7) == 0x3bc61feb
  {
  }

  /** "abcdefg" */
  lemma ResultOfBlockAndTail()
    ensures Murmur3A(0, [0x61, 0x62, 0x63, 0x64, 0x65, 0x66, 0x67], 7) == 0x883c9b06
  {
    hide DoBlock, Word, Fmix, Mix, Xor;
    var data: seq<octet> := [0x61, 0x62, 0x63, 0x64, 0x65, 0x66, 0x67];
    var tail: seq<octet> := [0x65, 0x66, 0x67];
    assert data[..4] == [0x61, 0x62, 0x63, 0x64] && data[4..] == tail;
    FirstBlock(data);
    assert TailOf(data) == tail && Blocks(0, data) == 0x86a7049e;
    assert TailWord(tail) == 0x676665;
    KnownFinal();
  }
}
