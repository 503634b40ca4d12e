/**
 SHA-256: the reference definition of FIPS 180-4 and the circuit of `make_circuits`, evaluated on values, with its
 field polynomials for the bit operations and its rolling 16-word schedule.
 */
module Sha256 {
  import opened Powers
  import opened Sequences
  import opened Bits
  import opened Limbs
  import opened Goldilocks

  const H256: seq<U32> := [
    0x6a09e667, 0xbb67ae85, 0x3c6ef372, 0xa54ff53a,
    0x510e527f, 0x9b05688c, 0x1f83d9ab, 0x5be0cd19
  ]

  /** The round constants, eight to a row. */
  const K256: seq<U32> := K256_0 + K256_8 + (K256_16 + K256_24) + (K256_32 + K256_40 + (K256_48 + K256_56))

  const K256_0: seq<U32> := [
    0x428A2F98, 0x71374491, 0xB5C0FBCF, 0xE9B5DBA5,
    0x3956C25B, 0x59F111F1, 0x923F82A4, 0xAB1C5ED5
  ]
  const K256_8: seq<U32> := [
    0xD807AA98, 0x12835B01, 0x243185BE, 0x550C7DC3,
    0x72BE5D74, 0x80DEB1FE, 0x9BDC06A7, 0xC19BF174
  ]
  const K256_16: seq<U32> := [
    0xE49B69C1, 0xEFBE4786, 0x0FC19DC6, 0x240CA1CC,
    0x2DE92C6F, 0x4A7484AA, 0x5CB0A9DC, 0x76F988DA
  ]
  const K256_24: seq<U32> := [
    0x983E5152, 0xA831C66D, 0xB00327C8, 0xBF597FC7,
    0xC6E00BF3, 0xD5A79147, 0x06CA6351, 0x14292967
  ]
  const K256_32: seq<U32> := [
    0x27B70A85, 0x2E1B2138, 0x4D2C6DFC, 0x53380D13,
    0x650A7354, 0x766A0ABB, 0x81C2C92E, 0x92722C85
  ]
  const K256_40: seq<U32> := [
    0xA2BFE8A1, 0xA81A664B, 0xC24B8B70, 0xC76C51A3,
    0xD192E819, 0xD6990624, 0xF40E3585, 0x106AA070
  ]
  const K256_48: seq<U32> := [
    0x19A4C116, 0x1E376C08, 0x2748774C, 0x34B0BCB5,
    0x391C0CB3, 0x4ED8AA4A, 0x5B9CCA4F, 0x682E6FF3
  ]
  const K256_56: seq<U32> := [
    0x748F82EE, 0x78A5636F, 0x84C87814, 0x8CC70208,
    0x90BEFFFA, 0xA4506CEB, 0xBEF9A3F7, 0xC67178F2
  ]

  // ------------------------------------------------ reference: sections 4.1.2, 5.1.1 and 6.2 of FIPS 180-4

  type Word = b: seq<bool> | |b| == 32 witness BitsOf(0, 32)

  function WordBits(x: U32): Word { BitsOf(x, 32) }

  function ToWord(b: Word): U32 {
    BitsValueBound(b);
    WordBound();
    BitsValue(b)
  }

  function RotR(b: Word, n: nat): Word
    requires n < 32
  {
    b[32 - n..] + b[..32 - n]
  }

  function ShR(b: Word, n: nat): Word
    requires n < 32
  {
    seq(n, (i: nat) => false) + b[..32 - n]
  }

  function Xor(a: bool, b: bool): bool { a != b }

  function Xor3Word(a: Word, b: Word, c: Word): Word {
    seq(32, (i: nat) requires i < 32 => Xor(Xor(a[i], b[i]), c[i]))
  }

  function BigSigma0(x: U32): U32 {
    var b := WordBits(x);
    ToWord(Xor3Word(RotR(b, 2), RotR(b, 13), RotR(b, 22)))
  }

  function BigSigma1(x: U32): U32 {
    var b := WordBits(x);
    ToWord(Xor3Word(RotR(b, 6), RotR(b, 11), RotR(b, 25)))
  }

  function SmallSigma0(x: U32): U32 {
    var b := WordBits(x);
    ToWord(Xor3Word(RotR(b, 7), RotR(b, 18), ShR(b, 3)))
  }

  function SmallSigma1(x: U32): U32 {
    var b := WordBits(x);
    ToWord(Xor3Word(RotR(b, 17), RotR(b, 19), ShR(b, 10)))
  }

  function Ch(x: U32, y: U32, z: U32): U32 {
    var a, b, c := WordBits(x), WordBits(y), WordBits(z);
    ToWord(seq(32, (i: nat) requires i < 32 => Xor(a[i] && b[i], !a[i] && c[i])))
  }

  function Maj(x: U32, y: U32, z: U32): U32 {
    var a, b, c := WordBits(x), WordBits(y), WordBits(z);
    ToWord(seq(32, (i: nat) requires i < 32 => Xor(Xor(a[i] && b[i], a[i] && c[i]), b[i] && c[i])))
  }

  /** The message schedule of one block. */
  function Schedule(m: seq<U32>, t: nat): U32
    requires |m| == 16
  {
    if t < 16 then m[t]
    else (SmallSigma1(Schedule(m, t - 2)) + Schedule(m, t - 7) +
          SmallSigma0(Schedule(m, t - 15)) + Schedule(m, t - 16)) % BASE
  }

  datatype Vars = Vars(a: U32, b: U32, c: U32, d: U32, e: U32, f: U32, g: U32, h: U32)

  function Round(v: Vars, k: U32, w: U32): Vars {
    var t1 := (v.h + BigSigma1(v.e) + Ch(v.e, v.f, v.g) + k + w) % BASE;
    var t2 := (BigSigma0(v.a) + Maj(v.a, v.b, v.c)) % BASE;
    Vars((t1 + t2) % BASE, v.a, v.b, v.c, (v.d + t1) % BASE, v.e, v.f, v.g)
  }

  /** `n` steps from `s`, numbered from zero. */
  function Iterate(s: Vars, step: (Vars, nat) -> Vars, n: nat): Vars {
    if n == 0 then s else step(Iterate(s, step, n - 1), n - 1)
  }

  /** Round `i` with the round constants `k`; nothing happens beyond the last constant. */
  function RoundStep(k: seq<U32>, m: seq<U32>): (Vars, nat) -> Vars
    requires |m| == 16
  {
    (v: Vars, i: nat) => if i < |k| then Round(v, k[i], Schedule(m, i)) else v
  }

  /** Addition modulo 2^32; the circuit's `add_u32` drops the carry. */
  function AddU32(a: U32, b: U32): U32 { (a + b) % BASE }

  function AddVars(s: Vars, v: Vars): Vars {
    Vars(AddU32(s.a, v.a), AddU32(s.b, v.b), AddU32(s.c, v.c), AddU32(s.d, v.d),
         AddU32(s.e, v.e), AddU32(s.f, v.f), AddU32(s.g, v.g), AddU32(s.h, v.h))
  }

  function BlockWords(bits: seq<bool>): (m: seq<U32>)
    requires |bits| == 512
    ensures |m| == 16
  {
    seq(16, (i: nat) requires i < 16 => ToWord(bits[32 * i..32 * i + 32]))
  }

  /** The bits of block `i`; beyond the message there are none set. */
  function Block(bits: seq<bool>, i: nat): (b: seq<bool>)
    ensures |b| == 512
  {
    if 512 * (i + 1) <= |bits| then bits[512 * i..512 * (i + 1)] else Falses(512)
  }

  function Compress(s: Vars, k: seq<U32>, block: seq<bool>): Vars
    requires |block| == 512
  {
    AddVars(s, Iterate(s, RoundStep(k, BlockWords(block)), |k|))
  }

  function BlockStep(k: seq<U32>, bits: seq<bool>): (Vars, nat) -> Vars {
    (s: Vars, i: nat) => Compress(s, k, Block(bits, i))
  }

  function InitialVars(): Vars {
    Vars(H256[0], H256[1], H256[2], H256[3], H256[4], H256[5], H256[6], H256[7])
  }

  function Falses(n: nat): (s: seq<bool>)
    ensures |s| == n
  {
    if n == 0 then [] else Falses(n - 1) + [false]
  }

  /** The number k of zero bits with length + 1 + k congruent to 448 modulo 512, the least one. */
  function ZeroBits(length: nat): (k: nat)
    ensures (length + 1 + k) % 512 == 448 && k < 512
  {
    (959 - length % 512) % 512
  }

  function Padded(message: seq<bool>): (p: seq<bool>)
    ensures |p| % 512 == 0
  {
    var k := ZeroBits(|message|);
    assert (|message| + 1 + k + 64) % 512 == 0;
    message + [true] + Falses(k) + BitsOf(|message|, 64)
  }

  function DigestBits(s: Vars): seq<bool> {
    WordBits(s.a) + WordBits(s.b) + WordBits(s.c) + WordBits(s.d) +
    WordBits(s.e) + WordBits(s.f) + WordBits(s.g) + WordBits(s.h)
  }

  function Digest(message: seq<bool>): seq<bool> {
    var p := Padded(message);
    DigestBits(Iterate(InitialVars(), BlockStep(K256, p), |p| / 512))
  }

  /** Rotation as the standard defines it, by two shifts. */
  lemma RotRIsTwoShifts(x: U32, n: nat)
    requires n < 32
    ensures ToWord(RotR(WordBits(x), n)) == x / Pow2(n) + x % Pow2(n) * Pow2(32 - n)
  {
    var b := WordBits(x);
    WordBound();
    BitsRoundTrip(x, 32);
    BitsConcat(b[..32 - n], b[32 - n..]);
    assert b[..32 - n] + b[32 - n..] == b;
    BitsConcat(b[32 - n..], b[..32 - n]);
    BitsValueBound(b[32 - n..]);
    DivModUnique(x, Pow2(n), BitsValue(b[..32 - n]), BitsValue(b[32 - n..]));
  }

  // ------------------------------------------------ the circuit's bit operations

  /** `xor3` as a sequence of field operations. */
  function Xor3Gate(a: int, b: int, c: int): int {
    var m := FMul(b, c);
    var twoB := FAdd(b, b);
    var twoC := FAdd(c, c);
    var twoM := FAdd(m, m);
    var fourM := FAdd(twoM, twoM);
    var oneSubTwoB := FSub(1, twoB);
    var oneSubTwoBSubTwoC := FSub(oneSubTwoB, twoC);
    var factor := FAdd(oneSubTwoBSubTwoC, fourM);
    var res := FMul(a, factor);
    FSub(FAdd(FAdd(res, b), c), twoM)
  }

  function ChGate(a: int, b: int, c: int): int { FAdd(FMul(a, FSub(b, c)), c) }

  function MajGate(a: int, b: int, c: int): int {
    var m := FMul(b, c);
    var twoM := FMul(2, m);
    FAdd(FMul(a, FSub(FAdd(b, c), twoM)), m)
  }

  /** On bits the polynomials are the boolean operations. */
  lemma Xor3IsBoolean(a: bool, b: bool, c: bool)
    ensures Xor3Gate(Bit(a), Bit(b), Bit(c)) == Bit(Xor(Xor(a, b), c))
  {
    Xor3Table();
    Xor3TableOfOne();
  }

  lemma Xor3Table()
    ensures Xor3Gate(0, 0, 0) == 0 && Xor3Gate(0, 0, 1) == 1 && Xor3Gate(0, 1, 0) == 1 && Xor3Gate(0, 1, 1) == 0
  {}

  lemma Xor3TableOfOne()
    ensures Xor3Gate(1, 0, 0) == 1 && Xor3Gate(1, 0, 1) == 0 && Xor3Gate(1, 1, 0) == 0 && Xor3Gate(1, 1, 1) == 1
  {}

  lemma ChIsBoolean(a: bool, b: bool, c: bool)
    ensures ChGate(Bit(a), Bit(b), Bit(c)) == Bit(Xor(a && b, !a && c))
  {}

  lemma MajIsBoolean(a: bool, b: bool, c: bool)
    ensures MajGate(Bit(a), Bit(b), Bit(c)) == Bit(Xor(Xor(a && b, a && c), b && c))
  {}

  // ------------------------------------------------ the circuit's words

  /** `rotate32`: the index table of a right rotation. */
  method Rotate32(y: nat) returns (res: seq<nat>)
    requires y <= 32
    ensures |res| == 32 && forall i | 0 <= i < 32 :: res[i] == if i < y then 32 - y + i else i - y
  {
    res := [];
    for i := 32 - y to 32
      invariant |res| == i - (32 - y) && forall k | 0 <= k < |res| :: res[k] == 32 - y + k
    {
      res := res + [i];
    }
    for i := 0 to 32 - y
      invariant |res| == y + i
      invariant forall k | 0 <= k < |res| :: res[k] == if k < y then 32 - y + k else k - y
    {
      res := res + [i];
    }
  }

  /** `shift32`: positions shifted in point at the extra zero bit, index 32. */
  method Shift32(y: nat) returns (res: seq<nat>)
    requires y <= 32
    ensures |res| == 32 && forall i | 0 <= i < 32 :: res[i] == if i < y then 32 else i - y
  {
    res := [];
    for i := 32 - y to 32
      invariant |res| == i - (32 - y) && forall k | 0 <= k < |res| :: res[k] == 32
    {
      res := res + [32];
    }
    for i := 0 to 32 - y
      invariant |res| == y + i
      invariant forall k | 0 <= k < |res| :: res[k] == if k < y then 32 else k - y
    {
      res := res + [i];
    }
  }

  /** `u32_to_bits_target`: the little-endian split read backwards, as field elements. */
  method U32ToBits(a: U32) returns (res: seq<int>)
    ensures |res| == 32 && forall i | 0 <= i < 32 :: res[i] == Bit(WordBits(a)[i])
  {
    var bitTargets := SplitLe(a, 32);
    SplitLeReversed(a, 32);
    res := [];
    var i := 32;
    while i > 0
      invariant 0 <= i <= 32 && |res| == 32 - i
      invariant forall k | 0 <= k < |res| :: res[k] == Bit(bitTargets[31 - k])
    {
      i := i - 1;
      res := res + [Bit(bitTargets[i])];
    }
    forall k: nat | k < 32 ensures res[k] == Bit(WordBits(a)[k]) { ReverseAt(bitTargets, k); }
  }

  /** `le_sum` over the bits of a word read backwards is the word's number. */
  lemma ReversedSum(b: Word)
    ensures LeSum(Reverse(b)) == ToWord(b)
  {
    LeSumReversed(b);
  }

  /** `bits_to_u32_target` on bits that carry 0 or 1. */
  method BitsToU32(bits: seq<int>, ghost w: Word) returns (r: U32)
    requires |bits| == 32 && forall i | 0 <= i < 32 :: bits[i] == Bit(w[i])
    ensures r == ToWord(w)
  {
    var b := seq(32, (i: nat) requires i < 32 => bits[i] == 1);
    assert b == w;
    ReversedSum(w);
    r := LeSum(Reverse(b));
  }

  /** The loop shared by the four sigma functions. */
  method Xor3Circuit(bits: seq<int>, t0: seq<nat>, t1: seq<nat>, t2: seq<nat>,
                     ghost w0: Word, ghost w1: Word, ghost w2: Word) returns (r: U32)
    requires |t0| == |t1| == |t2| == 32
    requires forall i | 0 <= i < 32 :: t0[i] < |bits| && t1[i] < |bits| && t2[i] < |bits|
    requires forall i | 0 <= i < 32 ::
               bits[t0[i]] == Bit(w0[i]) && bits[t1[i]] == Bit(w1[i]) && bits[t2[i]] == Bit(w2[i])
    ensures r == ToWord(Xor3Word(w0, w1, w2))
  {
    var resBits: seq<int> := [];
    for i := 0 to 32
      invariant |resBits| == i && forall k | 0 <= k < i :: resBits[k] == Bit(Xor3Word(w0, w1, w2)[k])
    {
      Xor3IsBoolean(w0[i], w1[i], w2[i]);
      resBits := resBits + [Xor3Gate(bits[t0[i]], bits[t1[i]], bits[t2[i]])];
    }
    r := BitsToU32(resBits, Xor3Word(w0, w1, w2));
  }

  method BigSigma0Circuit(a: U32) returns (r: U32)
    ensures r == BigSigma0(a)
  {
    var bits := U32ToBits(a);
    var t0 := Rotate32(2);
    var t1 := Rotate32(13);
    var t2 := Rotate32(22);
    ghost var b := WordBits(a);
    r := Xor3Circuit(bits, t0, t1, t2, RotR(b, 2), RotR(b, 13), RotR(b, 22));
  }

  method BigSigma1Circuit(a: U32) returns (r: U32)
    ensures r == BigSigma1(a)
  {
    var bits := U32ToBits(a);
    var t0 := Rotate32(6);
    var t1 := Rotate32(11);
    var t2 := Rotate32(25);
    ghost var b := WordBits(a);
    r := Xor3Circuit(bits, t0, t1, t2, RotR(b, 6), RotR(b, 11), RotR(b, 25));
  }

  method SmallSigma0Circuit(a: U32) returns (r: U32)
    ensures r == SmallSigma0(a)
  {
    var bits := U32ToBits(a);
    bits := bits + [Bit(false)];
    var t0 := Rotate32(7);
    var t1 := Rotate32(18);
    var t2 := Shift32(3);
    ghost var b := WordBits(a);
    r := Xor3Circuit(bits, t0, t1, t2, RotR(b, 7), RotR(b, 18), ShR(b, 3));
  }

  method SmallSigma1Circuit(a: U32) returns (r: U32)
    ensures r == SmallSigma1(a)
  {
    var bits := U32ToBits(a);
    bits := bits + [Bit(false)];
    var t0 := Rotate32(17);
    var t1 := Rotate32(19);
    var t2 := Shift32(10);
    ghost var b := WordBits(a);
    r := Xor3Circuit(bits, t0, t1, t2, RotR(b, 17), RotR(b, 19), ShR(b, 10));
  }

  method ChCircuit(a: U32, b: U32, c: U32) returns (r: U32)
    ensures r == Ch(a, b, c)
  {
    var aBits := U32ToBits(a);
    var bBits := U32ToBits(b);
    var cBits := U32ToBits(c);
    ghost var x, y, z := WordBits(a), WordBits(b), WordBits(c);
    ghost var w: Word := seq(32, (i: nat) requires i < 32 => Xor(x[i] && y[i], !x[i] && z[i]));
    var resBits: seq<int> := [];
    for i := 0 to 32
      invariant |resBits| == i && forall k | 0 <= k < i :: resBits[k] == Bit(w[k])
    {
      ChIsBoolean(x[i], y[i], z[i]);
      resBits := resBits + [ChGate(aBits[i], bBits[i], cBits[i])];
    }
    r := BitsToU32(resBits, w);
  }

  method MajCircuit(a: U32, b: U32, c: U32) returns (r: U32)
    ensures r == Maj(a, b, c)
  {
    var aBits := U32ToBits(a);
    var bBits := U32ToBits(b);
    var cBits := U32ToBits(c);
    ghost var x, y, z := WordBits(a), WordBits(b), WordBits(c);
    ghost var w: Word := seq(32, (i: nat) requires i < 32 => Xor(Xor(x[i] && y[i], x[i] && z[i]), y[i] && z[i]));
    var resBits: seq<int> := [];
    for i := 0 to 32
      invariant |resBits| == i && forall k | 0 <= k < i :: resBits[k] == Bit(w[k])
    {
      MajIsBoolean(x[i], y[i], z[i]);
      resBits := resBits + [MajGate(aBits[i], bBits[i], cBits[i])];
    }
    r := BitsToU32(resBits, w);
  }

  // ------------------------------------------------ the rounds

  lemma AddAfterMod(x: int, y: int)
    ensures (x % BASE + y) % BASE == (x + y) % BASE
  {
    ghost var q, r := x / BASE, x % BASE;
    assert x + y == q * BASE + (r + y);
  }

  lemma SumOfFour(h: U32, s: U32, c: U32, k: U32)
    ensures AddU32(AddU32(AddU32(h, s), c), k) == (h + s + c + k) % BASE
  {
    AddAfterMod(h + s, c);
    AddAfterMod(h + s + c, k);
  }

  lemma SumOfFive(h: U32, s: U32, c: U32, k: U32, w: U32)
    ensures AddU32(AddU32(AddU32(AddU32(h, s), c), k), w) == (h + s + c + k + w) % BASE
    ensures AddU32(w, AddU32(AddU32(AddU32(h, s), c), k)) == (h + s + c + k + w) % BASE
  {
    SumOfFour(h, s, c, k);
    AddAfterMod(h + s + c + k, w);
  }

  lemma ScheduleSum(x0: U32, s0: U32, s1: U32, x9: U32)
    ensures AddU32(x0, AddU32(AddU32(s0, s1), x9)) == (s1 + x9 + s0 + x0) % BASE
  {
    SumOfFour(s0, s1, x9, x0);
  }

  /** `step` is the standard's round for this message; only a use of the round itself brings its definition in. */
  ghost predicate IsRoundStep(step: (Vars, nat) -> Vars, k: seq<U32>, m: seq<U32>) {
    |m| == 16 && forall v: Vars, i: nat {:trigger Round(v, k[i], Schedule(m, i))} | i < |k| ::
      step(v, i) == Round(v, k[i], Schedule(m, i))
  }

  lemma RoundStepIs(k: seq<U32>, m: seq<U32>)
    requires |m| == 16
    ensures IsRoundStep(RoundStep(k, m), k, m)
  {}

  /** One of the first sixteen rounds. */
  method FirstRound(v: Vars, k: U32, w: U32) returns (r: Vars)
    ensures r == Round(v, k, w)
  {
    var t1 := v.h;
    var bigSigma1E := BigSigma1Circuit(v.e);
    t1 := AddU32(t1, bigSigma1E);
    var chEFG := ChCircuit(v.e, v.f, v.g);
    t1 := AddU32(t1, chEFG);
    t1 := AddU32(t1, k);
    t1 := AddU32(t1, w);
    SumOfFive(v.h, bigSigma1E, chEFG, k, w);
    var t2 := BigSigma0Circuit(v.a);
    var majABC := MajCircuit(v.a, v.b, v.c);
    t2 := AddU32(t2, majABC);
    r := Vars(AddU32(t1, t2), v.a, v.b, v.c, AddU32(v.d, t1), v.e, v.f, v.g);
  }

  method OneFirstRound(v: Vars, k: seq<U32>, w: U32, i: nat, ghost m: seq<U32>, ghost step: (Vars, nat) -> Vars)
      returns (r: Vars)
    requires IsRoundStep(step, k, m) && i < |k| && w == Schedule(m, i)
    ensures r == step(v, i)
  {
    r := FirstRound(v, k[i], w);
  }

  lemma ScheduleOfMessage(m: seq<U32>, t: nat)
    requires |m| == 16 && t < 16
    ensures Schedule(m, t) == m[t]
  {}

  /** `le_sum` over the reversed bits of message word `i`. */
  method ReadWord(bits: seq<bool>, i: nat) returns (w: U32)
    requires |bits| == 512 && i < 16
    ensures w == BlockWords(bits)[i]
  {
    ReversedSum(bits[32 * i..32 * i + 32]);
    w := LeSum(Reverse(bits[32 * i..32 * i + 32]));
  }

  /** The first sixteen rounds: message words enter the window as they are used. */
  method FirstRounds(state: Vars, k: seq<U32>, bits: seq<bool>, ghost m: seq<U32>, ghost step: (Vars, nat) -> Vars)
      returns (v: Vars, x: seq<U32>)
    requires |bits| == 512 && |k| == 64 && m == BlockWords(bits) && IsRoundStep(step, k, m)
    ensures v == Iterate(state, step, 16) && x == m
  {
    x := [];
    v := state;
    for i := 0 to 16
      invariant |x| == i && forall j | 0 <= j < i :: x[j] == m[j]
      invariant v == Iterate(state, step, i)
    {
      var word := ReadWord(bits, i);
      x := x + [word];
      ScheduleOfMessage(m, i);
      v := OneFirstRound(v, k, x[i], i, m, step);
    }
  }

  /** The window holds the last sixteen words of the schedule, each at its number modulo 16. */
  ghost predicate Window(x: seq<U32>, m: seq<U32>, t: nat)
    requires |m| == 16
  {
    |x| == 16 && t >= 16 && forall s: nat | t - 16 <= s < t :: x[s % 16] == Schedule(m, s)
  }

  lemma ScheduleStep(m: seq<U32>, t: nat, w0: U32, w1: U32, w9: U32, w14: U32)
    requires |m| == 16 && t >= 16
    requires w0 == Schedule(m, t - 16) && w1 == Schedule(m, t - 15)
    requires w9 == Schedule(m, t - 7) && w14 == Schedule(m, t - 2)
    ensures Schedule(m, t) == AddU32(w0, AddU32(AddU32(SmallSigma0(w1), SmallSigma1(w14)), w9))
  {
    ScheduleSum(w0, SmallSigma0(w1), SmallSigma1(w14), w9);
  }

  /** The four words the next one is made of are where the circuit looks for them. */
  lemma WindowReads(x: seq<U32>, m: seq<U32>, i: nat)
    requires |m| == 16 && Window(x, m, i)
    ensures Schedule(m, i) == AddU32(x[i % 16], AddU32(AddU32(SmallSigma0(x[(i + 1) % 16]),
                                                             SmallSigma1(x[(i + 14) % 16])), x[(i + 9) % 16]))
  {
    assert (i - 16) % 16 == i % 16 && (i - 15) % 16 == (i + 1) % 16;
    assert (i - 2) % 16 == (i + 14) % 16 && (i - 7) % 16 == (i + 9) % 16;
    ScheduleStep(m, i, x[(i - 16) % 16], x[(i - 15) % 16], x[(i - 7) % 16], x[(i - 2) % 16]);
  }

  lemma OtherSlot(s: nat, i: nat)
    requires i < s + 16 && s < i
    ensures s % 16 != i % 16
  {
    assert i == 16 * (i / 16) + i % 16 && s == 16 * (s / 16) + s % 16;
  }

  /** Overwriting one slot moves the window on by one word. */
  lemma WindowMoves(x: seq<U32>, m: seq<U32>, i: nat, w: U32)
    requires |m| == 16 && Window(x, m, i) && w == Schedule(m, i)
    ensures Window(x[i % 16 := w], m, i + 1)
  {
    var y := x[i % 16 := w];
    forall s: nat | i + 1 - 16 <= s < i + 1 ensures y[s % 16] == Schedule(m, s) {
      if s < i {
        assert x[s % 16] == Schedule(m, s);
        OtherSlot(s, i);
      }
    }
  }

  /** One entry of the rolling schedule. */
  method NextWord(x: seq<U32>, ghost m: seq<U32>, i: nat) returns (y: seq<U32>)
    requires |m| == 16 && Window(x, m, i)
    ensures Window(y, m, i + 1) && y[i % 16] == Schedule(m, i)
  {
    WindowReads(x, m, i);
    var s0 := SmallSigma0Circuit(x[(i + 1) % 16]);
    var s1 := SmallSigma1Circuit(x[(i + 14) % 16]);
    var s0AddS1 := AddU32(s0, s1);
    var s0AddS1AddX := AddU32(s0AddS1, x[(i + 9) % 16]);
    var w := AddU32(x[i % 16], s0AddS1AddX);
    WindowMoves(x, m, i, w);
    y := x[i % 16 := w];
  }

  lemma WindowStarts(m: seq<U32>)
    requires |m| == 16
    ensures Window(m, m, 16)
  {
    forall s: nat | s < 16 ensures m[s % 16] == Schedule(m, s) { ScheduleOfMessage(m, s); }
  }

  /** One of the last forty-eight rounds: the schedule word is added last. */
  method LaterRound(v: Vars, k: U32, w: U32) returns (r: Vars)
    ensures r == Round(v, k, w)
  {
    var bigSigma0A := BigSigma0Circuit(v.a);
    var bigSigma1E := BigSigma1Circuit(v.e);
    var chEFG := ChCircuit(v.e, v.f, v.g);
    var majABC := MajCircuit(v.a, v.b, v.c);
    var sum := AddU32(v.h, bigSigma1E);
    sum := AddU32(sum, chEFG);
    sum := AddU32(sum, k);
    SumOfFive(v.h, bigSigma1E, chEFG, k, w);
    var t1 := AddU32(w, sum);
    var t2 := AddU32(bigSigma0A, majABC);
    r := Vars(AddU32(t1, t2), v.a, v.b, v.c, AddU32(v.d, t1), v.e, v.f, v.g);
  }

  method OneLaterRound(v: Vars, k: seq<U32>, w: U32, i: nat, ghost m: seq<U32>, ghost step: (Vars, nat) -> Vars)
      returns (r: Vars)
    requires IsRoundStep(step, k, m) && i < |k| && w == Schedule(m, i)
    ensures r == step(v, i)
  {
    r := LaterRound(v, k[i], w);
  }

  /** The last forty-eight rounds over the rolling window. */
  method LaterRounds(ghost state: Vars, k: seq<U32>, m: seq<U32>, v0: Vars, ghost step: (Vars, nat) -> Vars)
      returns (v: Vars)
    requires |k| == 64 && IsRoundStep(step, k, m) && v0 == Iterate(state, step, 16)
    ensures v == Iterate(state, step, 64)
  {
    var x := m;
    v := v0;
    WindowStarts(m);
    for i := 16 to 64
      invariant Window(x, m, i) && v == Iterate(state, step, i)
    {
      x := NextWord(x, m, i);
      v := OneLaterRound(v, k, x[i % 16], i, m, step);
    }
  }

  // ------------------------------------------------ the whole circuit

  datatype Outcome = Panic | Built(digest: seq<bool>)

  /** The padding the circuit lays out, bit by bit. */
  method PadMessage(input: seq<bool>) returns (message: seq<bool>)
    requires |input| < 0x1_0000_0000_0000_0000 && |input| % 512 != 447
    ensures message == Padded(input)
  {
    var msgLen := |input|;
    var blockCount := (msgLen + 65 + 511) / 512;
    var p := 512 * blockCount - 64 - msgLen;
    PaddingLength(msgLen);
    message := input;
    message := message + [true];
    for i := 0 to p - 1
      invariant message == input + [true] + Falses(i)
    {
      message := message + [false];
    }
    ghost var front := message;
    var length := Reverse(SplitLe(msgLen, 64));
    SplitLeReversed(msgLen, 64);
    for i := 0 to 64
      invariant message == front + length[..i]
    {
      message := message + [length[i]];
    }
    assert length[..64] == length;
  }

  lemma PaddingLength(msgLen: nat)
    ensures var p := 512 * ((msgLen + 65 + 511) / 512) - 64 - msgLen;
      p >= 1 && (p > 1 <==> msgLen % 512 != 447) && p - 1 == ZeroBits(msgLen)
    ensures 512 * ((msgLen + 65 + 511) / 512) == msgLen + 1 + ZeroBits(msgLen) + 64
  {
    var q, r := msgLen / 512, msgLen % 512;
    assert msgLen == 512 * q + r;
    if r <= 447 {
      assert (msgLen + 576) / 512 == q + 1;
    } else {
      assert (msgLen + 576) / 512 == q + 2;
    }
  }

  /** `step` is the standard's treatment of block `i` of these bits. */
  ghost predicate IsBlockStep(step: (Vars, nat) -> Vars, k: seq<U32>, bits: seq<bool>) {
    forall s: Vars, i: nat {:trigger Compress(s, k, Block(bits, i))} :: step(s, i) == Compress(s, k, Block(bits, i))
  }

  lemma BlockStepIs(k: seq<U32>, bits: seq<bool>)
    ensures IsBlockStep(BlockStep(k, bits), k, bits)
  {}

  /** The rounds, then the addition to the state. */
  method HashBlock(state: Vars, k: seq<U32>, block: seq<bool>) returns (r: Vars)
    requires |block| == 512 && |k| == 64
    ensures r == Compress(state, k, block)
  {
    ghost var m := BlockWords(block);
    ghost var step := RoundStep(k, m);
    RoundStepIs(k, m);
    var v, x := FirstRounds(state, k, block, m, step);
    v := LaterRounds(state, k, x, v, step);
    r := AddVars(state, v);
  }

  lemma SliceIsBlock(message: seq<bool>, blk: nat)
    requires 512 * (blk + 1) <= |message|
    ensures message[512 * blk..512 * (blk + 1)] == Block(message, blk)
  {}

  lemma StepIsCompress(step: (Vars, nat) -> Vars, k: seq<U32>, bits: seq<bool>, s: Vars, i: nat, block: seq<bool>,
                       r: Vars)
    requires IsBlockStep(step, k, bits) && block == Block(bits, i) && r == Compress(s, k, block)
    ensures r == step(s, i)
  {}

  method OneBlock(state: Vars, k: seq<U32>, message: seq<bool>, blk: nat, ghost step: (Vars, nat) -> Vars)
      returns (r: Vars)
    requires 512 * (blk + 1) <= |message| && |k| == 64 && IsBlockStep(step, k, message)
    ensures r == step(state, blk)
  {
    SliceIsBlock(message, blk);
    r := HashBlock(state, k, message[512 * blk..512 * (blk + 1)]);
    StepIsCompress(step, k, message, state, blk, message[512 * blk..512 * (blk + 1)], r);
  }

  /** The loop over the blocks, from the initial state and the table of round constants. */
  method HashPadded(initial: Vars, k: seq<U32>, message: seq<bool>, blockCount: nat, ghost step: (Vars, nat) -> Vars)
      returns (state: Vars)
    requires |k| == 64 && |message| == 512 * blockCount && IsBlockStep(step, k, message)
    ensures state == Iterate(initial, step, blockCount)
  {
    state := initial;
    for blk := 0 to blockCount
      invariant state == Iterate(initial, step, blk)
    {
      state := OneBlock(state, k, message, blk, step);
    }
  }

  /**
   `make_circuits`: SHA-256 of the message for every length the builder accepts; it refuses exactly the lengths
   congruent to 447 modulo 512, which the standard pads with no zero bit.
   */
  method MakeCircuits(input: seq<bool>) returns (r: Outcome)
    requires |input| < 0x1_0000_0000_0000_0000
    ensures r.Panic? <==> |input| % 512 == 447
    ensures r.Built? ==> r.digest == Digest(input)
  {
    var msgLen := |input|;
    var blockCount := (msgLen + 65 + 511) / 512;
    var p := 512 * blockCount - 64 - msgLen;
    PaddingLength(msgLen);
    if !(p > 1) { return Panic; }
    var message := PadMessage(input);
    assert |message| == 512 * blockCount && |message| / 512 == blockCount;
    BlockStepIs(K256, message);
    var state := HashPadded(InitialVars(), K256, message, blockCount, BlockStep(K256, message));
    r := Built(DigestBits(state));
  }
}
