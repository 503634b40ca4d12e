/**
 Where the tables of SHA-256 come from: sections 4.2.2 and 5.3.3 of FIPS 180-4 take them from the cube roots of the
 first 64 primes and the square roots of the first eight.
 */
module Sha256Constants {
  import opened Powers
  import opened Limbs
  import opened Sha256

  // ------------------------------------------------ the first 64 primes

  const PRIMES: seq<nat> :=
    PRIMES_0 + PRIMES_8 + (PRIMES_16 + PRIMES_24) + (PRIMES_32 + PRIMES_40 + (PRIMES_48 + PRIMES_56))

  const PRIMES_0: seq<nat> := [2, 3, 5, 7, 11, 13, 17, 19]
  const PRIMES_8: seq<nat> := [23, 29, 31, 37, 41, 43, 47, 53]
  const PRIMES_16: seq<nat> := [59, 61, 67, 71, 73, 79, 83, 89]
  const PRIMES_24: seq<nat> := [97, 101, 103, 107, 109, 113, 127, 131]
  const PRIMES_32: seq<nat> := [137, 139, 149, 151, 157, 163, 167, 173]
  const PRIMES_40: seq<nat> := [179, 181, 191, 193, 197, 199, 211, 223]
  const PRIMES_48: seq<nat> := [227, 229, 233, 239, 241, 251, 257, 263]
  const PRIMES_56: seq<nat> := [269, 271, 277, 281, 283, 293, 307, 311]

  ghost predicate IsPrime(n: nat) { n >= 2 && forall d | 2 <= d < n :: n % d != 0 }

  /** The next prime after `p`. */
  ghost predicate IsNextPrime(p: nat, q: nat) { p < q && IsPrime(q) && forall n | p < n < q :: !IsPrime(n) }

  /** Not divisible by a smaller one of the first seven primes. */
  predicate Sieved(n: nat) {
    || n == 2 || n == 3 || n == 5 || n == 7 || n == 11 || n == 13 || n == 17
    || (n > 1 && n % 2 != 0 && n % 3 != 0 && n % 5 != 0 && n % 7 != 0 && n % 11 != 0 && n % 13 != 0 && n % 17 != 0)
  }

  lemma MultipleIsNotSieved(n: nat, q: nat, m: nat)
    requires n == m * q && m >= 2
    requires q == 2 || q == 3 || q == 5 || q == 7 || q == 11 || q == 13 || q == 17
    ensures !Sieved(n)
  {
    MulDivExact(m, q);
    if q == 2 {
    } else if q == 3 {
    } else if q == 5 {
    } else if q == 7 {
    } else if q == 11 {
    } else if q == 13 {
    } else {
    }
  }

  lemma ProductIsNotSieved(n: nat, d: nat, e: nat)
    requires n == d * e && 2 <= d <= e && n < 324
    ensures !Sieved(n)
  {
    if d >= 18 {
      MulMono(18, d, e);
      assert false;
    }
    var q := if d % 2 == 0 then 2 else if d % 3 == 0 then 3 else d;
    var m := d / q;
    assert d == m * q && m >= 1;
    MulMono(1, m, e);
    assert m * q * e == m * e * q;
    MultipleIsNotSieved(n, q, m * e);
  }

  /** Below 18 squared, what the first seven primes leave are primes. */
  lemma SievedIsPrime(n: nat)
    requires n < 324
    ensures Sieved(n) <==> IsPrime(n)
  {
    if Sieved(n) {
      forall d | 2 <= d < n ensures n % d != 0 {
        if n % d == 0 {
          var e := n / d;
          assert n == d * e;
          if d <= e { ProductIsNotSieved(n, d, e); } else { ProductIsNotSieved(n, e, d); }
        }
      }
    } else if n >= 2 {
      assert n % 2 == 0 || n % 3 == 0 || n % 5 == 0 || n % 7 == 0 || n % 11 == 0 || n % 13 == 0 || n % 17 == 0;
    }
  }

  /** From `n` up to `q` everything is divided. */
  predicate AllDivided(n: nat, q: nat)
    decreases q - n
  {
    n >= q || (!Sieved(n) && AllDivided(n + 1, q))
  }

  lemma {:induction false} NoneLeft(p: nat, q: nat, n: nat)
    requires p <= n < q && AllDivided(p, q)
    ensures !Sieved(n)
    decreases q - p
  {
    if p < n { NoneLeft(p + 1, q, n); }
  }

  /** The next number after `p` that is not divided. */
  predicate Follows(p: nat, q: nat) { p < q < 324 && AllDivided(p + 1, q) && Sieved(q) }

  lemma NextSieved(p: nat, r: nat, q: nat)
    requires r == p + 1 <= q < 324 && AllDivided(r, q) && Sieved(q)
    ensures Follows(p, q)
  {}

  lemma FollowsIsNextPrime(p: nat, q: nat)
    requires Follows(p, q)
    ensures IsNextPrime(p, q)
  {
    forall n: nat | p < n < q ensures !Sieved(n) { NoneLeft(p + 1, q, n); }
    forall n: nat | p < n <= q ensures Sieved(n) <==> IsPrime(n) { SievedIsPrime(n); }
  }

  // ------------------------------------------------ roots

  function Cubed(m: nat): nat { m * m * m }

  /** The first 32 bits of the fractional part of the cube root of `p`. */
  ghost predicate IsCubeRootFraction(k: U32, p: nat) {
    exists w: nat :: IsCubeRoot(w * BASE + k, p)
  }

  /** The cube root of `p`, times 2^32, rounded down. */
  ghost predicate IsCubeRoot(m: nat, p: nat) { Cubed(m) <= p * 0x1_00000000_00000000_00000000 < Cubed(m + 1) }

  function Squared(m: nat): nat { m * m }

  /** The first 32 bits of the fractional part of the square root of `p`. */
  ghost predicate IsSquareRootFraction(h: U32, p: nat) {
    exists w: nat :: IsSquareRoot(w * BASE + h, p)
  }

  ghost predicate IsSquareRoot(m: nat, p: nat) { Squared(m) <= p * 0x1_00000000_00000000 < Squared(m + 1) }

  // ------------------------------------------------ the tables

  /** Eight numbers that follow each other; `before` is the one before the first. */
  ghost predicate PrimeRow(p: seq<nat>, before: nat) {
    |p| == 8 && forall j | 0 <= j < 8 :: Follows(if j == 0 then before else p[j - 1], p[j])
  }

  /** Eight constants with the primes they belong to. */
  ghost predicate ConstantRow(k: seq<U32>, p: seq<nat>) {
    |k| == |p| == 8 && forall j | 0 <= j < 8 :: IsCubeRootFraction(k[j], p[j])
  }

  lemma CubeRoot(k: U32, w: nat, p: nat)
    requires IsCubeRoot(w * BASE + k, p)
    ensures IsCubeRootFraction(k, p)
  {}

  lemma Primes0()
    ensures Follows(1, 2) && Follows(2, 3) && Follows(3, 5) && Follows(5, 7)
  {
    NextSieved(1, 2, 2); NextSieved(2, 3, 3); NextSieved(3, 4, 5); NextSieved(5, 6, 7);
  }

  lemma Primes4()
    ensures Follows(7, 11) && Follows(11, 13) && Follows(13, 17) && Follows(17, 19)
  {
    NextSieved(7, 8, 11); NextSieved(11, 12, 13); NextSieved(13, 14, 17); NextSieved(17, 18, 19);
  }

  lemma Primes8()
    ensures Follows(19, 23) && Follows(23, 29) && Follows(29, 31) && Follows(31, 37)
  {
    NextSieved(19, 20, 23); NextSieved(23, 24, 29); NextSieved(29, 30, 31); NextSieved(31, 32, 37);
  }

  lemma Primes12()
    ensures Follows(37, 41) && Follows(41, 43) && Follows(43, 47) && Follows(47, 53)
  {
    NextSieved(37, 38, 41); NextSieved(41, 42, 43); NextSieved(43, 44, 47); NextSieved(47, 48, 53);
  }

  lemma Primes16()
    ensures Follows(53, 59) && Follows(59, 61) && Follows(61, 67) && Follows(67, 71)
  {
    NextSieved(53, 54, 59); NextSieved(59, 60, 61); NextSieved(61, 62, 67); NextSieved(67, 68, 71);
  }

  lemma Primes20()
    ensures Follows(71, 73) && Follows(73, 79) && Follows(79, 83) && Follows(83, 89)
  {
    NextSieved(71, 72, 73); NextSieved(73, 74, 79); NextSieved(79, 80, 83); NextSieved(83, 84, 89);
  }

  lemma Primes24()
    ensures Follows(89, 97) && Follows(97, 101) && Follows(101, 103) && Follows(103, 107)
  {
    NextSieved(89, 90, 97); NextSieved(97, 98, 101); NextSieved(101, 102, 103); NextSieved(103, 104, 107);
  }

  lemma Primes28()
    ensures Follows(107, 109) && Follows(109, 113) && Follows(113, 127) && Follows(127, 131)
  {
    NextSieved(107, 108, 109); NextSieved(109, 110, 113); NextSieved(113, 114, 127); NextSieved(127, 128, 131);
  }

  lemma Primes32()
    ensures Follows(131, 137) && Follows(137, 139) && Follows(139, 149) && Follows(149, 151)
  {
    NextSieved(131, 132, 137); NextSieved(137, 138, 139); NextSieved(139, 140, 149); NextSieved(149, 150, 151);
  }

  lemma Primes36()
    ensures Follows(151, 157) && Follows(157, 163) && Follows(163, 167) && Follows(167, 173)
  {
    NextSieved(151, 152, 157); NextSieved(157, 158, 163); NextSieved(163, 164, 167); NextSieved(167, 168, 173);
  }

  lemma Primes40()
    ensures Follows(173, 179) && Follows(179, 181) && Follows(181, 191) && Follows(191, 193)
  {
    NextSieved(173, 174, 179); NextSieved(179, 180, 181); NextSieved(181, 182, 191); NextSieved(191, 192, 193);
  }

  lemma Primes44()
    ensures Follows(193, 197) && Follows(197, 199) && Follows(199, 211) && Follows(211, 223)
  {
    NextSieved(193, 194, 197); NextSieved(197, 198, 199); NextSieved(199, 200, 211); NextSieved(211, 212, 223);
  }

  lemma Primes48()
    ensures Follows(223, 227) && Follows(227, 229) && Follows(229, 233) && Follows(233, 239)
  {
    NextSieved(223, 224, 227); NextSieved(227, 228, 229); NextSieved(229, 230, 233); NextSieved(233, 234, 239);
  }

  lemma Primes52()
    ensures Follows(239, 241) && Follows(241, 251) && Follows(251, 257) && Follows(257, 263)
  {
    NextSieved(239, 240, 241); NextSieved(241, 242, 251); NextSieved(251, 252, 257); NextSieved(257, 258, 263);
  }

  lemma Primes56()
    ensures Follows(263, 269) && Follows(269, 271) && Follows(271, 277) && Follows(277, 281)
  {
    NextSieved(263, 264, 269); NextSieved(269, 270, 271); NextSieved(271, 272, 277); NextSieved(277, 278, 281);
  }

  lemma Primes60()
    ensures Follows(281, 283) && Follows(283, 293) && Follows(293, 307) && Follows(307, 311)
  {
    NextSieved(281, 282, 283); NextSieved(283, 284, 293); NextSieved(293, 294, 307); NextSieved(307, 308, 311);
  }

  lemma PrimeRow0()
    ensures PrimeRow(PRIMES_0, 1)
  {
    Primes0();
    Primes4();
  }

  lemma PrimeRow8()
    ensures PrimeRow(PRIMES_8, 19)
  {
    Primes8();
    Primes12();
  }

  lemma PrimeRow16()
    ensures PrimeRow(PRIMES_16, 53)
  {
    Primes16();
    Primes20();
  }

  lemma PrimeRow24()
    ensures PrimeRow(PRIMES_24, 89)
  {
    Primes24();
    Primes28();
  }

  lemma PrimeRow32()
    ensures PrimeRow(PRIMES_32, 131)
  {
    Primes32();
    Primes36();
  }

  lemma PrimeRow40()
    ensures PrimeRow(PRIMES_40, 173)
  {
    Primes40();
    Primes44();
  }

  lemma PrimeRow48()
    ensures PrimeRow(PRIMES_48, 223)
  {
    Primes48();
    Primes52();
  }

  lemma PrimeRow56()
    ensures PrimeRow(PRIMES_56, 263)
  {
    Primes56();
    Primes60();
  }

  lemma ConstantRow0()
    ensures ConstantRow(K256_0, PRIMES_0)
  {
    CubeRoot(0x428A2F98, 1, 2); CubeRoot(0x71374491, 1, 3); CubeRoot(0xB5C0FBCF, 1, 5); CubeRoot(0xE9B5DBA5, 1, 7);
    CubeRoot(0x3956C25B, 2, 11); CubeRoot(0x59F111F1, 2, 13); CubeRoot(0x923F82A4, 2, 17); CubeRoot(0xAB1C5ED5, 2, 19);
  }

  lemma ConstantRow8()
    ensures ConstantRow(K256_8, PRIMES_8)
  {
    CubeRoot(0xD807AA98, 2, 23); CubeRoot(0x12835B01, 3, 29); CubeRoot(0x243185BE, 3, 31); CubeRoot(0x550C7DC3, 3, 37);
    CubeRoot(0x72BE5D74, 3, 41); CubeRoot(0x80DEB1FE, 3, 43); CubeRoot(0x9BDC06A7, 3, 47); CubeRoot(0xC19BF174, 3, 53);
  }

  lemma ConstantRow16()
    ensures ConstantRow(K256_16, PRIMES_16)
  {
    CubeRoot(0xE49B69C1, 3, 59); CubeRoot(0xEFBE4786, 3, 61); CubeRoot(0x0FC19DC6, 4, 67); CubeRoot(0x240CA1CC, 4, 71);
    CubeRoot(0x2DE92C6F, 4, 73); CubeRoot(0x4A7484AA, 4, 79); CubeRoot(0x5CB0A9DC, 4, 83); CubeRoot(0x76F988DA, 4, 89);
  }

  lemma ConstantRow24()
    ensures ConstantRow(K256_24, PRIMES_24)
  {
    CubeRoot(0x983E5152, 4, 97); CubeRoot(0xA831C66D, 4, 101);
    CubeRoot(0xB00327C8, 4, 103); CubeRoot(0xBF597FC7, 4, 107);
    CubeRoot(0xC6E00BF3, 4, 109); CubeRoot(0xD5A79147, 4, 113);
    CubeRoot(0x06CA6351, 5, 127); CubeRoot(0x14292967, 5, 131);
  }

  lemma ConstantRow32()
    ensures ConstantRow(K256_32, PRIMES_32)
  {
    CubeRoot(0x27B70A85, 5, 137); CubeRoot(0x2E1B2138, 5, 139);
    CubeRoot(0x4D2C6DFC, 5, 149); CubeRoot(0x53380D13, 5, 151);
    CubeRoot(0x650A7354, 5, 157); CubeRoot(0x766A0ABB, 5, 163);
    CubeRoot(0x81C2C92E, 5, 167); CubeRoot(0x92722C85, 5, 173);
  }

  lemma ConstantRow40()
    ensures ConstantRow(K256_40, PRIMES_40)
  {
    CubeRoot(0xA2BFE8A1, 5, 179); CubeRoot(0xA81A664B, 5, 181);
    CubeRoot(0xC24B8B70, 5, 191); CubeRoot(0xC76C51A3, 5, 193);
    CubeRoot(0xD192E819, 5, 197); CubeRoot(0xD6990624, 5, 199);
    CubeRoot(0xF40E3585, 5, 211); CubeRoot(0x106AA070, 6, 223);
  }

  lemma ConstantRow48()
    ensures ConstantRow(K256_48, PRIMES_48)
  {
    CubeRoot(0x19A4C116, 6, 227); CubeRoot(0x1E376C08, 6, 229);
    CubeRoot(0x2748774C, 6, 233); CubeRoot(0x34B0BCB5, 6, 239);
    CubeRoot(0x391C0CB3, 6, 241); CubeRoot(0x4ED8AA4A, 6, 251);
    CubeRoot(0x5B9CCA4F, 6, 257); CubeRoot(0x682E6FF3, 6, 263);
  }

  lemma ConstantRow56()
    ensures ConstantRow(K256_56, PRIMES_56)
  {
    CubeRoot(0x748F82EE, 6, 269); CubeRoot(0x78A5636F, 6, 271);
    CubeRoot(0x84C87814, 6, 277); CubeRoot(0x8CC70208, 6, 281);
    CubeRoot(0x90BEFFFA, 6, 283); CubeRoot(0xA4506CEB, 6, 293);
    CubeRoot(0xBEF9A3F7, 6, 307); CubeRoot(0xC67178F2, 6, 311);
  }

  function ConstantsOf(r: nat): seq<U32> {
    if r == 0 then K256_0 else if r == 1 then K256_8 else if r == 2 then K256_16 else if r == 3 then K256_24
    else if r == 4 then K256_32 else if r == 5 then K256_40 else if r == 6 then K256_48 else K256_56
  }

  function PrimesOf(r: nat): seq<nat> {
    if r == 0 then PRIMES_0 else if r == 1 then PRIMES_8 else if r == 2 then PRIMES_16 else if r == 3 then PRIMES_24
    else if r == 4 then PRIMES_32 else if r == 5 then PRIMES_40 else if r == 6 then PRIMES_48 else PRIMES_56
  }

  lemma RowsAreRight(r: nat)
    requires r < 8
    ensures PrimeRow(PrimesOf(r), if r == 0 then 1 else PrimesOf(r - 1)[7]) && ConstantRow(ConstantsOf(r), PrimesOf(r))
  {
    if r == 0 {
      PrimeRow0();
      ConstantRow0();
    } else if r == 1 {
      PrimeRow8();
      ConstantRow8();
    } else if r == 2 {
      PrimeRow16();
      ConstantRow16();
    } else if r == 3 {
      PrimeRow24();
      ConstantRow24();
    } else if r == 4 {
      PrimeRow32();
      ConstantRow32();
    } else if r == 5 {
      PrimeRow40();
      ConstantRow40();
    } else if r == 6 {
      PrimeRow48();
      ConstantRow48();
    } else {
      PrimeRow56();
      ConstantRow56();
    }
  }

  lemma ElementOfRows<T>(a: seq<T>, b: seq<T>, c: seq<T>, d: seq<T>, e: seq<T>, f: seq<T>, g: seq<T>, h: seq<T>, t: nat)
    requires |a| == |b| == |c| == |d| == |e| == |f| == |g| == |h| == 8 && t < 64
    ensures (a + b + (c + d) + (e + f + (g + h)))[t] ==
      (if t < 8 then a else if t < 16 then b else if t < 24 then c else if t < 32 then d
       else if t < 40 then e else if t < 48 then f else if t < 56 then g else h)[t % 8]
  {}

  lemma ConstantIsInRow(t: nat)
    requires t < 64
    ensures K256[t] == ConstantsOf(t / 8)[t % 8]
  {
    ElementOfRows(K256_0, K256_8, K256_16, K256_24, K256_32, K256_40, K256_48, K256_56, t);
  }

  lemma PrimeIsInRow(t: nat)
    requires t < 64
    ensures PRIMES[t] == PrimesOf(t / 8)[t % 8]
  {
    ElementOfRows(PRIMES_0, PRIMES_8, PRIMES_16, PRIMES_24, PRIMES_32, PRIMES_40, PRIMES_48, PRIMES_56, t);
  }

  lemma PrimeBefore(t: nat)
    requires 0 < t < 64
    ensures PRIMES[t - 1] == if t % 8 == 0 then PrimesOf(t / 8 - 1)[7] else PrimesOf(t / 8)[t % 8 - 1]
  {
    PrimeIsInRow(t - 1);
    if t % 8 == 0 {
      assert (t - 1) / 8 == t / 8 - 1 && (t - 1) % 8 == 7;
    } else {
      assert (t - 1) / 8 == t / 8 && (t - 1) % 8 == t % 8 - 1;
    }
  }

  lemma RightInRow(k: seq<U32>, p: seq<nat>, before: nat, j: nat, c: U32, o: nat, q: nat)
    requires PrimeRow(p, before) && ConstantRow(k, p) && j < 8
    requires c == k[j] && q == p[j] && o == if j == 0 then before else p[j - 1]
    ensures IsNextPrime(o, q) && IsCubeRootFraction(c, q)
  {
    FollowsIsNextPrime(o, q);
  }

  /** Round constant `t` is made of the cube root of prime number `t`, counted from 2 on. */
  lemma RoundConstants(t: nat)
    requires t < 64
    ensures IsNextPrime(if t == 0 then 1 else PRIMES[t - 1], PRIMES[t]) && IsCubeRootFraction(K256[t], PRIMES[t])
  {
    var r, j := t / 8, t % 8;
    RowsAreRight(r);
    ConstantIsInRow(t);
    PrimeIsInRow(t);
    var before := if r == 0 then 1 else PrimesOf(r - 1)[7];
    var o := if j == 0 then before else PrimesOf(r)[j - 1];
    if t > 0 { PrimeBefore(t); }
    RightInRow(ConstantsOf(r), PrimesOf(r), before, j, K256[t], o, PRIMES[t]);
  }

  lemma SquareRoot(h: U32, w: nat, p: nat)
    requires IsSquareRoot(w * BASE + h, p)
    ensures IsSquareRootFraction(h, p)
  {}

  /** Word `t` of the initial state is made of the square root of the same prime. */
  lemma InitialState(t: nat)
    requires t < 8
    ensures PRIMES[t] == PRIMES_0[t] && IsSquareRootFraction(H256[t], PRIMES_0[t])
  {
    PrimeIsInRow(t);
    SquareRoot(0x6A09E667, 1, 2); SquareRoot(0xBB67AE85, 1, 3);
    SquareRoot(0x3C6EF372, 2, 5); SquareRoot(0xA54FF53A, 2, 7);
    SquareRoot(0x510E527F, 3, 11); SquareRoot(0x9B05688C, 3, 13);
    SquareRoot(0x1F83D9AB, 4, 17); SquareRoot(0x5BE0CD19, 4, 19);
  }
}
