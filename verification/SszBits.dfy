/** SSZ little-endian numbers as bit lists, and the byte swap of 64-bit values. */
module SszBits {
  import opened Powers
  import opened Sequences
  import opened Bits
  import opened Bytes
  import opened Limbs

  // ------------------------------------------------ bits and limbs

  /** `reverse_endianness`: the order of the bytes reversed, the bits inside each byte kept. */
  function ReverseEndianness(bits: seq<bool>): (r: seq<bool>)
    ensures |r| == |bits|
  {
    if |bits| < 8 then bits else ReverseEndianness(bits[8..]) + bits[..8]
  }

  /** The SSZ number of a list of bytes given as bits: the first byte is the least significant. */
  function SszValue(bits: seq<bool>): nat {
    if |bits| < 8 then 0 else BitsValue(bits[..8]) + 256 * SszValue(bits[8..])
  }

  lemma {:induction false} ReversedBytesValue(bits: seq<bool>)
    requires |bits| % 8 == 0
    ensures BitsValue(ReverseEndianness(bits)) == SszValue(bits)
    decreases |bits|
  {
    if bits != [] {
      ReversedBytesValue(bits[8..]);
      BitsConcat(ReverseEndianness(bits[8..]), bits[..8]);
      assert Pow2(8) == 256;
    }
  }

  lemma {:induction false} ReverseEndiannessSplit(a: seq<bool>, b: seq<bool>)
    requires |a| % 8 == 0 && |b| % 8 == 0
    ensures ReverseEndianness(a + b) == ReverseEndianness(b) + ReverseEndianness(a)
    decreases |a|
  {
    if a == [] {
      assert a + b == b && ReverseEndianness(a) == [];
    } else {
      var c, rest := a + b, a[8..];
      ReverseEndiannessSplit(rest, b);
      assert c[8..] == rest + b && c[..8] == a[..8];
      assert ReverseEndianness(c) == ReverseEndianness(rest + b) + a[..8];
      assert ReverseEndianness(a) == ReverseEndianness(rest) + a[..8];
    }
  }

  lemma {:induction false} ReverseEndiannessTwice(bits: seq<bool>)
    requires |bits| % 8 == 0
    ensures ReverseEndianness(ReverseEndianness(bits)) == bits
    decreases |bits|
  {
    if bits != [] {
      ReverseEndiannessTwice(bits[8..]);
      ReverseEndiannessSplit(ReverseEndianness(bits[8..]), bits[..8]);
      assert bits[..8][..8] == bits[..8] && bits[..8][8..] == [];
      assert bits == bits[..8] + bits[8..];
    }
  }

  /** Bytes further back weigh more. */
  lemma {:induction false} SszConcat(a: seq<bool>, b: seq<bool>)
    requires |a| % 8 == 0
    ensures SszValue(a + b) == SszValue(a) + SszValue(b) * Pow2(|a|)
    decreases |a|
  {
    if a == [] {
      assert a + b == b && Pow2(0) == 1;
    } else {
      SszConcat(a[8..], b);
      assert (a + b)[..8] == a[..8] && (a + b)[8..] == a[8..] + b;
      ByteMore(|a|);
      TimesByte(SszValue(a[8..]), SszValue(b), Pow2(|a| - 8));
    }
  }

  lemma ByteMore(n: nat)
    requires n >= 8
    ensures Pow2(n) == 256 * Pow2(n - 8)
  {
    Pow2Add(8, n - 8);
    assert Pow2(8) == 256;
  }

  lemma TimesByte(x: nat, y: nat, p: nat)
    ensures 256 * (x + y * p) == 256 * x + y * (256 * p)
  {}

  lemma OneByte(b: seq<bool>)
    requires |b| == 8
    ensures SszValue(b) == BitsValue(b)
  {
    assert b[..8] == b && b[8..] == [];
  }

  lemma HighPart(v: nat, p: nat)
    requires v < 256 * p
    ensures v / 256 < p
  {}

  /** Read as an SSZ number, the bits of a number are that number with its bytes swapped. */
  lemma {:induction false} SszOfBits(v: nat, n: nat)
    requires v < Pow2(8 * n)
    ensures SszValue(BitsOf(v, 8 * n)) == ByteSwap(v, n)
  {
    if n > 0 {
      var m := 8 * (n - 1);
      assert Pow2(8) == 256;
      Pow2Add(8, m);
      HighPart(v, Pow2(m));
      BitsOfSplit(v / 256, v % 256, m, 8);
      SszConcat(BitsOf(v / 256, m), BitsOf(v % 256, 8));
      OneByte(BitsOf(v % 256, 8));
      BitsRoundTrip(v % 256, 8);
      BytePower(n - 1);
      SszOfBits(v / 256, n - 1);
    }
  }

  lemma WordOf(word: seq<bool>)
    requires |word| == 32
    ensures LeSum(Reverse(word)) == BitsValue(word) < BASE
  {
    LeSumReversed(word);
    BitsValueBound(word);
    WordBound();
  }

  /** A word read behind the others stands before them once the list is reversed. */
  lemma NextWord(limbs: seq<U32>, read: seq<bool>, word: seq<bool>, w: U32)
    requires |word| == 32 && w == BitsValue(word) && Val(limbs) == BitsValue(read)
    ensures Val([w] + limbs) == BitsValue(read + word)
  {
    var next := [w] + limbs;
    ValFirst(next);
    assert next[1..] == limbs;
    BitsConcat(read, word);
    WordBound();
    assert Pow2(|word|) == BASE;
  }

  /** `bits_to_biguint_target`: words of 32 bits pushed in reading order, then reversed. */
  method BitsToBiguint(bits: seq<bool>) returns (limbs: seq<U32>)
    requires |bits| % 32 == 0
    ensures |limbs| == |bits| / 32 && Val(limbs) == BitsValue(bits)
  {
    var words: seq<U32> := [];
    assert bits[..0] == [];
    for i := 0 to |bits| / 32
      invariant |words| == i && |Reverse(words)| == i && Val(Reverse(words)) == BitsValue(bits[..i * 32])
    {
      var word := bits[i * 32..(i + 1) * 32];
      assert bits[..(i + 1) * 32] == bits[..i * 32] + word;
      WordOf(word);
      var w: U32 := LeSum(Reverse(word));
      NextWord(Reverse(words), bits[..i * 32], word, w);
      assert (words + [w])[..i] == words;
      words := words + [w];
    }
    assert bits[..|bits| / 32 * 32] == bits;
    limbs := Reverse(words);
  }

  /** `biguint_to_bits_target`: the limbs from the top, each most significant bit first. */
  method BiguintToBits(a: seq<U32>) returns (res: seq<bool>)
    ensures |res| == 32 * |a| && BitsValue(res) == Val(a)
  {
    res := [];
    var i := |a|;
    assert a[i..] == [] && Pow(BASE, 0) == 1;
    while i > 0
      invariant 0 <= i <= |a| && |res| == 32 * (|a| - i)
      invariant BitsValue(res) == Val(a[i..])
    {
      i := i - 1;
      SplitLeReversed(a[i], 32);
      WordBound();
      BitsRoundTrip(a[i], 32);
      BitsConcat(res, BitsOf(a[i], 32));
      ValFirst(a[i..]);
      assert a[i..][1..] == a[i + 1..];
      res := res + Reverse(SplitLe(a[i], 32));
    }
    assert a[0..] == a;
  }

  /** `ssz_num_to_bits`: the SSZ bytes of the number, then padding to 256 bits. */
  method SszNumToBits(num: seq<U32>, bitLen: nat) returns (bits: seq<bool>)
    requires bitLen <= 256
    ensures |bits| == 32 * |num| + (256 - bitLen)
    ensures forall i | 32 * |num| <= i < |bits| :: !bits[i]
    ensures SszValue(bits[..32 * |num|]) == Val(num)
    ensures ReverseEndianness(bits[..32 * |num|]) == BitsOf(Val(num), 32 * |num|)
  {
    var plain := BiguintToBits(num);
    ReversedBytesValue(ReverseEndianness(plain));
    ReverseEndiannessTwice(plain);
    BitsOfValue(plain);
    bits := ReverseEndianness(plain) + seq(256 - bitLen, (i: nat) => false);
    assert bits[..32 * |num|] == ReverseEndianness(plain);
  }

  lemma WholeBytes(n: nat)
    requires n % 32 == 0
    ensures n % 8 == 0
  {
    assert n == 8 * (4 * (n / 32));
  }

  /** `ssz_num_from_bits`: the limbs of the SSZ number. */
  method SszNumFromBits(bits: seq<bool>) returns (limbs: seq<U32>)
    requires |bits| % 32 == 0
    ensures |limbs| == |bits| / 32 && Val(limbs) == SszValue(bits)
  {
    WholeBytes(|bits|);
    ReversedBytesValue(bits);
    limbs := BitsToBiguint(ReverseEndianness(bits));
  }

  /** Reading back what was written gives the same limbs, for every limb count. */
  method SszRoundTrip(num: seq<U32>) returns (back: seq<U32>)
    requires 32 * |num| <= 256
    ensures back == num
  {
    var bits := SszNumToBits(num, 32 * |num|);
    back := SszNumFromBits(bits[..32 * |num|]);
    ValInjective(back, num);
  }

  // ------------------------------------------------ the byte swap

  /** The low `n` bytes of a number in the opposite order. */
  function ByteSwap(v: nat, n: nat): nat {
    if n == 0 then 0 else v % 256 * Pow(256, n - 1) + ByteSwap(v / 256, n - 1)
  }

  lemma {:induction false} ByteSwapBytes(v: nat, n: nat)
    ensures ByteSwap(v, n) == BeValue(Reverse(BeBytes(v, n)))
  {
    if n > 0 {
      ByteSwapBytes(v / 256, n - 1);
      var front := BeBytes(v / 256, n - 1);
      var all: seq<Byte> := BeBytes(v, n);
      assert all[..n - 1] == front;
      ReverseLength(front);
      var first: seq<Byte> := [v % 256];
      BeValueConcat(first, Reverse(front));
      assert first[..0] == [] && BeValue([]) == 0 && BeValue(first) == v % 256;
    }
  }

  /** Swapping twice gives the number back. */
  lemma ByteSwapTwice(v: nat, n: nat)
    requires v < Pow(256, n)
    ensures ByteSwap(v, n) < Pow(256, n) && ByteSwap(ByteSwap(v, n), n) == v
  {
    var b := BeBytes(v, n);
    ReverseLength(b);
    ByteSwapBytes(v, n);
    BeValueBound(Reverse(b));
    BeBytesOfValue(Reverse(b));
    ByteSwapBytes(ByteSwap(v, n), n);
    ReverseTwice(b);
    BeRoundTrip(v, n);
  }

  /** What the low m + 1 bits of the current byte and the `k` bytes after it still contribute. */
  function SwapTail(v: nat, m: nat, k: nat): int
    requires m < 8
  {
    DivBound(v, Pow2(m + 1));
    v % Pow2(m + 1) * Pow2(8 * k + 7 - m) + ByteSwap(v / Pow2(m + 1), k)
  }

  lemma TailInsideByte(v: nat, m: nat, k: nat)
    requires 0 < m < 8
    ensures SwapTail(v, m, k) == v % 2 * Pow2(8 * k + 7 - m) + SwapTail(v / 2, m - 1, k)
  {
    var h, w := Pow2(m), Pow2(8 * k + 7 - m);
    DivDiv(v, 2, h);
    LowBit(v, h);
    DoublePower(8 * k + 7 - m);
    MulDistrib(v % 2, 2 * (v / 2 % h), w);
    MulAssoc(v / 2 % h, 2, w);
    assert 2 * (v / 2 % h) == v / 2 % h * 2;
  }

  lemma DoublePower(n: nat)
    ensures Pow2(n + 1) == 2 * Pow2(n)
  {}

  lemma TailAtByteEnd(v: nat, k: nat)
    ensures Pow2(1) == 2 && SwapTail(v, 0, k) == v % 2 * Pow2(8 * k + 7) + ByteSwap(v / 2, k)
    ensures k > 0 ==> ByteSwap(v / 2, k) == SwapTail(v / 2, 7, k - 1)
  {
    assert Pow2(1) == 2;
    if k > 0 { TailAtByteStart(v / 2, k - 1); }
  }

  lemma TailAtByteStart(v: nat, k: nat)
    ensures SwapTail(v, 7, k) == ByteSwap(v, k + 1)
  {
    assert Pow2(8) == 256;
    BytePower(k);
  }

  lemma LowBit(v: nat, h: nat)
    requires h >= 1
    ensures v % (2 * h) == v % 2 + 2 * (v / 2 % h)
  {
    var q, r := v / 2 / h, v / 2 % h;
    assert v / 2 == q * h + r;
    assert q * (2 * h) == 2 * (q * h);
    DivModUnique(v, 2 * h, q, v % 2 + 2 * r);
  }

  lemma {:induction false} BytePower(k: nat)
    ensures Pow2(8 * k) == Pow(256, k)
  {
    if k > 0 {
      BytePower(k - 1);
      Pow2Add(8, 8 * (k - 1));
      assert Pow2(8) == 256;
    }
  }

  /** What the bits from position `i` down still contribute. */
  function Remaining(v: nat, i: int): int
    requires i >= -1
  {
    if i == -1 then 0 else SwapTail(v, i % 8, i / 8)
  }

  lemma ByteIndex(i: nat)
    ensures i % 8 == 0 && i > 0 ==> (i - 1) / 8 == i / 8 - 1
    ensures i % 8 != 0 ==> (i - 1) / 8 == i / 8
  {}

  /** One turn of the loop at position `i`. */
  lemma TailStep(v: nat, i: nat, p: nat)
    requires p == 8 * (i / 8) + 7 - i % 8
    ensures SwapTail(v, i % 8, i / 8) ==
            (if v % 2 == 1 then Pow2(p) else 0) + Remaining(v / 2, i - 1)
  {
    assert v % 2 == 0 || v % 2 == 1;
    assert 0 * Pow2(p) == 0;
    if i % 8 == 0 {
      TailAtByteEnd(v, i / 8);
      if i > 0 { assert (i - 1) % 8 == 7 && (i - 1) / 8 == i / 8 - 1; }
    } else {
      TailInsideByte(v, i % 8, i / 8);
      assert (i - 1) % 8 == i % 8 - 1 && (i - 1) / 8 == i / 8;
    }
  }

  /** One turn of the loop, whose `c` is the last position of the byte of `i`. */
  lemma Turn(v: nat, i: nat, c: int, p: int)
    requires c == 8 * (i / 8) + 7 && p == i - i % 8 + (c - i)
    ensures p >= 0 && Remaining(v, i) == (if v % 2 == 1 then Pow2(p) else 0) + Remaining(v / 2, i - 1)
    ensures i > 0 ==> (if i % 8 == 0 then c - 8 else c) == 8 * ((i - 1) / 8) + 7
  {
    TailStep(v, i, p);
    ByteIndex(i);
  }

  /** `reverse64`: bits consumed from the low end, each placed at its mirrored byte. */
  method Reverse64(v0: nat) returns (r: nat)
    ensures r == ByteSwap(v0, 8)
  {
    var v, c := v0, 63;
    r := 0;
    var i := 63;
    TailAtByteStart(v0, 7);
    while i >= 0
      invariant -1 <= i <= 63
      invariant i >= 0 ==> c == 8 * (i / 8) + 7
      invariant r + Remaining(v, i) == ByteSwap(v0, 8)
    {
      var m := i % 8;
      var p := i - m + (c - i);
      Turn(v, i, c, p);
      if m == 0 {
        c := c - 8;
      }
      if v % 2 == 1 {
        r := r + Pow2(p);
      }
      v := v / 2;
      i := i - 1;
    }
  }
}
