/**
 What the reference definition of `Sha256` says, word by word and bit by bit: the functions of section 4.1.2 of
 FIPS 180-4 on single bits, the padding of section 5.1.1, and the computation of section 6.2.2 step by step.
 */
module Sha256Standard {
  import opened Powers
  import opened Bits
  import opened Limbs
  import opened Sha256

  // ------------------------------------------------ the functions on single bits

  /** Bit `i` of a word, from the least significant end. */
  predicate BitAt(x: nat, i: nat) { x / Pow2(i) % 2 == 1 }

  lemma WordBitAt(x: U32, i: nat)
    requires i < 32
    ensures WordBits(x)[31 - i] <==> BitAt(x, i)
  {
    BitsOfAt(x, 32, i);
  }

  lemma BitOfWord(b: Word, i: nat)
    requires i < 32
    ensures BitAt(ToWord(b), i) <==> b[31 - i]
  {
    BitsOfValue(b);
    BitsOfAt(ToWord(b), 32, i);
  }

  lemma RotatedBit(x: U32, n: nat, i: nat)
    requires 0 < n < 32 && i < 32
    ensures RotR(WordBits(x), n)[31 - i] <==> BitAt(x, (i + n) % 32)
  {
    WordBitAt(x, (i + n) % 32);
  }

  lemma ShiftedBit(x: U32, n: nat, i: nat)
    requires n < 32 && i < 32
    ensures ShR(WordBits(x), n)[31 - i] <==> i + n < 32 && BitAt(x, i + n)
  {
    if i + n < 32 { WordBitAt(x, i + n); }
  }

  lemma Xor3Bit(a: Word, b: Word, c: Word, i: nat)
    requires i < 32
    ensures BitAt(ToWord(Xor3Word(a, b, c)), i) <==> ((a[31 - i] != b[31 - i]) != c[31 - i])
  {
    BitOfWord(Xor3Word(a, b, c), i);
  }

  /** The four sigma functions of the standard, by their rotation and shift amounts. */
  lemma SigmaBits(x: U32, i: nat)
    requires i < 32
    ensures BitAt(BigSigma0(x), i) <==>
            ((BitAt(x, (i + 2) % 32) != BitAt(x, (i + 13) % 32)) != BitAt(x, (i + 22) % 32))
    ensures BitAt(BigSigma1(x), i) <==>
            ((BitAt(x, (i + 6) % 32) != BitAt(x, (i + 11) % 32)) != BitAt(x, (i + 25) % 32))
    ensures BitAt(SmallSigma0(x), i) <==>
            ((BitAt(x, (i + 7) % 32) != BitAt(x, (i + 18) % 32)) != (i + 3 < 32 && BitAt(x, i + 3)))
    ensures BitAt(SmallSigma1(x), i) <==>
            ((BitAt(x, (i + 17) % 32) != BitAt(x, (i + 19) % 32)) != (i + 10 < 32 && BitAt(x, i + 10)))
  {
    RotatedXor(x, 2, 13, 22, i);
    RotatedXor(x, 6, 11, 25, i);
    ShiftedXor(x, 7, 18, 3, i);
    ShiftedXor(x, 17, 19, 10, i);
  }

  lemma RotatedXor(x: U32, m: nat, n: nat, k: nat, i: nat)
    requires 0 < m < 32 && 0 < n < 32 && 0 < k < 32 && i < 32
    ensures var b := WordBits(x);
      BitAt(ToWord(Xor3Word(RotR(b, m), RotR(b, n), RotR(b, k))), i) <==>
      ((BitAt(x, (i + m) % 32) != BitAt(x, (i + n) % 32)) != BitAt(x, (i + k) % 32))
  {
    var b := WordBits(x);
    Xor3Bit(RotR(b, m), RotR(b, n), RotR(b, k), i);
    RotatedBit(x, m, i);
    RotatedBit(x, n, i);
    RotatedBit(x, k, i);
  }

  lemma ShiftedXor(x: U32, m: nat, n: nat, k: nat, i: nat)
    requires 0 < m < 32 && 0 < n < 32 && k < 32 && i < 32
    ensures var b := WordBits(x);
      BitAt(ToWord(Xor3Word(RotR(b, m), RotR(b, n), ShR(b, k))), i) <==>
      ((BitAt(x, (i + m) % 32) != BitAt(x, (i + n) % 32)) != (i + k < 32 && BitAt(x, i + k)))
  {
    var b := WordBits(x);
    Xor3Bit(RotR(b, m), RotR(b, n), ShR(b, k), i);
    RotatedBit(x, m, i);
    RotatedBit(x, n, i);
    ShiftedBit(x, k, i);
  }

  /** Choice by the first word, and the majority of three. */
  lemma ChoiceAndMajority(x: U32, y: U32, z: U32, i: nat)
    requires i < 32
    ensures BitAt(Ch(x, y, z), i) <==> if BitAt(x, i) then BitAt(y, i) else BitAt(z, i)
    ensures BitAt(Maj(x, y, z), i) <==> Bit1(x, i) + Bit1(y, i) + Bit1(z, i) >= 2
  {
    var a, b, c := WordBits(x), WordBits(y), WordBits(z);
    WordBitAt(x, i);
    WordBitAt(y, i);
    WordBitAt(z, i);
    BitOfWord(seq(32, (i: nat) requires i < 32 => Xor(a[i] && b[i], !a[i] && c[i])), i);
    BitOfWord(seq(32, (i: nat) requires i < 32 => Xor(Xor(a[i] && b[i], a[i] && c[i]), b[i] && c[i])), i);
  }

  function Bit1(x: nat, i: nat): nat { if BitAt(x, i) then 1 else 0 }

  // ------------------------------------------------ the padding

  /** One bit, the fewest zeros that fill up a block, and the length in 64 bits. */
  lemma PaddingIsMinimal(message: seq<bool>)
    requires |message| < Pow2(64)
    ensures var p, n := Padded(message), |message|;
      && |p| % 512 == 0 && n + 65 <= |p| < n + 65 + 512
      && p[..n] == message && p[n] && (forall i | n < i < |p| - 64 :: !p[i])
      && BitsValue(p[|p| - 64..]) == n
  {
    var n, k := |message|, ZeroBits(|message|);
    var p := Padded(message);
    NoneSet(k);
    BitsRoundTrip(n, 64);
    assert |p| == n + 1 + k + 64;
    assert p[|p| - 64..] == BitsOf(n, 64);
    forall i | n < i < |p| - 64 ensures !p[i] { assert p[i] == Falses(k)[i - n - 1]; }
  }

  lemma {:induction false} NoneSet(n: nat)
    ensures forall i | 0 <= i < n :: !Falses(n)[i]
  {
    if n > 0 { NoneSet(n - 1); }
  }

  // ------------------------------------------------ the computation

  /** Word `t` of the schedule. */
  ghost predicate RightWord(block: seq<bool>, w: seq<U32>, t: nat)
    requires |block| == 512 && |w| == 64 && t < 64
  {
    if t < 16 then w[t] == BitsValue(block[32 * t..32 * t + 32])
    else w[t] == (SmallSigma1(w[t - 2]) + w[t - 7] + SmallSigma0(w[t - 15]) + w[t - 16]) % 0x1_0000_0000
  }

  /** The eight working variables after round `t`, without the two auxiliary sums. */
  ghost predicate RightRound(v: Vars, r: Vars, k: U32, w: U32) {
    && r.b == v.a && r.c == v.b && r.d == v.c && r.f == v.e && r.g == v.f && r.h == v.g
    && r.e == (v.d + v.h + BigSigma1(v.e) + Ch(v.e, v.f, v.g) + k + w) % 0x1_0000_0000
    && r.a == (v.h + BigSigma1(v.e) + Ch(v.e, v.f, v.g) + k + w + BigSigma0(v.a) + Maj(v.a, v.b, v.c)) % 0x1_0000_0000
  }

  ghost predicate RightSum(s: Vars, v: Vars, r: Vars) {
    && r.a == (s.a + v.a) % 0x1_0000_0000 && r.b == (s.b + v.b) % 0x1_0000_0000
    && r.c == (s.c + v.c) % 0x1_0000_0000 && r.d == (s.d + v.d) % 0x1_0000_0000
    && r.e == (s.e + v.e) % 0x1_0000_0000 && r.f == (s.f + v.f) % 0x1_0000_0000
    && r.g == (s.g + v.g) % 0x1_0000_0000 && r.h == (s.h + v.h) % 0x1_0000_0000
  }

  /** From the state before a block to the one after it: schedule, 64 rounds with these constants, addition. */
  ghost predicate RightBlock(s: Vars, k: seq<U32>, block: seq<bool>, r: Vars, w: seq<U32>, v: seq<Vars>)
    requires |block| == 512 && |k| == 64
  {
    && |w| == 64 && |v| == 65 && v[0] == s && RightSum(s, v[64], r)
    && (forall t: nat | t < 64 :: RightWord(block, w, t))
    && (forall t: nat | t < 64 :: RightRound(v[t], v[t + 1], k[t], w[t]))
  }

  ghost predicate SomeRightBlock(s: Vars, k: seq<U32>, block: seq<bool>, r: Vars)
    requires |block| == 512 && |k| == 64
  {
    exists w, v :: RightBlock(s, k, block, r, w, v)
  }

  lemma RoundIsRight(v: Vars, k: U32, w: U32)
    ensures RightRound(v, Round(v, k, w), k, w)
  {
    var x := v.h + BigSigma1(v.e) + Ch(v.e, v.f, v.g) + k + w;
    var y := BigSigma0(v.a) + Maj(v.a, v.b, v.c);
    SumOfSums(x, y);
    SumOfSums(v.d, x);
    assert v.d % BASE == v.d;
  }

  lemma SumOfSums(x: nat, y: nat)
    ensures (x % BASE + y % BASE) % BASE == (x + y) % BASE
  {
    AddAfterMod(x, y % BASE);
    AddAfterMod(y, x);
  }

  lemma CompressIsRight(s: Vars, k: seq<U32>, block: seq<bool>) returns (w: seq<U32>, v: seq<Vars>)
    requires |block| == 512 && |k| == 64
    ensures RightBlock(s, k, block, Compress(s, k, block), w, v)
  {
    var m := BlockWords(block);
    var step := RoundStep(k, m);
    w := seq(64, (t: nat) requires t < 64 => Schedule(m, t));
    v := seq(65, (t: nat) requires t < 65 => Iterate(s, step, t));
    WordsAreRight(block, m, w);
    RoundStepIs(k, m);
    RoundsAreRight(s, k, m, step, v, w);
    SumIsRight(s, Iterate(s, step, 64));
  }

  lemma SumIsRight(s: Vars, v: Vars)
    ensures RightSum(s, v, AddVars(s, v))
  {}

  lemma WordsAreRight(block: seq<bool>, m: seq<U32>, w: seq<U32>)
    requires |block| == 512 && m == BlockWords(block) && |w| == 64 && forall i: nat | i < 64 :: w[i] == Schedule(m, i)
    ensures forall t: nat | t < 64 :: RightWord(block, w, t)
  {
    forall t: nat | t < 64 ensures RightWord(block, w, t) { WordIsRight(block, m, w, t); }
  }

  lemma RoundsAreRight(s: Vars, k: seq<U32>, m: seq<U32>, step: (Vars, nat) -> Vars, v: seq<Vars>, w: seq<U32>)
    requires |k| == |w| == 64 && |v| == 65 && |m| == 16 && IsRoundStep(step, k, m)
    requires forall t: nat | t < 65 :: v[t] == Iterate(s, step, t)
    requires forall t: nat | t < 64 :: w[t] == Schedule(m, t)
    ensures forall t: nat | t < 64 :: RightRound(v[t], v[t + 1], k[t], w[t])
  {
    forall t: nat | t < 64 ensures RightRound(v[t], v[t + 1], k[t], w[t]) {
      StepIsRight(s, k, m, step, t, v[t], v[t + 1], w[t]);
    }
  }

  lemma StepIsRight(s: Vars, k: seq<U32>, m: seq<U32>, step: (Vars, nat) -> Vars, t: nat, v: Vars, r: Vars, w: U32)
    requires |k| == 64 && IsRoundStep(step, k, m) && t < 64
    requires v == Iterate(s, step, t) && r == Iterate(s, step, t + 1) && w == Schedule(m, t)
    ensures RightRound(v, r, k[t], w)
  {
    assert r == step(v, t) == Round(v, k[t], w);
    RoundIsRight(v, k[t], w);
  }

  lemma WordIsRight(block: seq<bool>, m: seq<U32>, w: seq<U32>, t: nat)
    requires |block| == 512 && m == BlockWords(block) && |w| == 64 && t < 64
    requires forall i: nat | i < 64 :: w[i] == Schedule(m, i)
    ensures RightWord(block, w, t)
  {
    if t >= 16 { assert w[t - 2] == Schedule(m, t - 2) && w[t - 7] == Schedule(m, t - 7); }
  }

  lemma BlockIsRight(k: seq<U32>, p: seq<bool>, step: (Vars, nat) -> Vars, s0: Vars, i: nat, s: Vars, r: Vars)
    requires |k| == 64 && IsBlockStep(step, k, p) && s == Iterate(s0, step, i) && r == Iterate(s0, step, i + 1)
    ensures SomeRightBlock(s, k, Block(p, i), r)
  {
    var w, v := CompressIsRight(s, k, Block(p, i));
    assert r == step(s, i) == Compress(s, k, Block(p, i));
  }

  /** The digest, as the standard computes it: a state for every block, from the table of initial words on. */
  lemma DigestIsStandard(message: seq<bool>) returns (h: seq<Vars>)
    ensures var p := Padded(message);
      && |h| == |p| / 512 + 1
      && h[0] == Vars(H256[0], H256[1], H256[2], H256[3], H256[4], H256[5], H256[6], H256[7])
      && (forall i: nat | i < |p| / 512 :: SomeRightBlock(h[i], K256, Block(p, i), h[i + 1]))
      && (forall i: nat | i < |p| / 512 :: Block(p, i) == p[512 * i..512 * i + 512])
      && RightDigest(h[|p| / 512], Digest(message))
  {
    var p := Padded(message);
    var n := |p| / 512;
    var step := BlockStep(K256, p);
    h := seq(n + 1, (i: nat) requires i < n + 1 => Iterate(InitialVars(), step, i));
    BlockStepIs(K256, p);
    forall i: nat | i < n ensures SomeRightBlock(h[i], K256, Block(p, i), h[i + 1]) {
      BlockIsRight(K256, p, step, InitialVars(), i, h[i], h[i + 1]);
    }
    DigestIsRight(h[n]);
  }

  /** The eight words of the state, one after the other. */
  ghost predicate RightDigest(s: Vars, d: seq<bool>) {
    && |d| == 256
    && BitsValue(d[0..32]) == s.a && BitsValue(d[32..64]) == s.b && BitsValue(d[64..96]) == s.c
    && BitsValue(d[96..128]) == s.d && BitsValue(d[128..160]) == s.e && BitsValue(d[160..192]) == s.f
    && BitsValue(d[192..224]) == s.g && BitsValue(d[224..256]) == s.h
  }

  lemma DigestIsRight(s: Vars)
    ensures RightDigest(s, DigestBits(s))
  {
    var d := DigestBits(s);
    assert d[0..32] == WordBits(s.a) && d[32..64] == WordBits(s.b) && d[64..96] == WordBits(s.c);
    assert d[96..128] == WordBits(s.d) && d[128..160] == WordBits(s.e) && d[160..192] == WordBits(s.f);
    assert d[192..224] == WordBits(s.g) && d[224..256] == WordBits(s.h);
    WordReadsBack(s.a);
    WordReadsBack(s.b);
    WordReadsBack(s.c);
    WordReadsBack(s.d);
    WordReadsBack(s.e);
    WordReadsBack(s.f);
    WordReadsBack(s.g);
    WordReadsBack(s.h);
  }

  lemma WordReadsBack(x: U32)
    ensures BitsValue(WordBits(x)) == x
  {
    WordBound();
    BitsRoundTrip(x, 32);
  }
}
