/**
 Long-hand 256-bit arithmetic on two 128-bit halves. Results are written through a target object that may be
 the same object as an operand; every contract speaks of the operands' values on entry.
 */
module WideArithmetic {
  import opened Powers

  /** 2^128. */
  const B: nat := 0x1_0000_0000_0000_0000_0000_0000_0000_0000

  type U128 = x: int | 0 <= x < B

  lemma HalfIsPower()
    ensures Pow2(128) == B && Pow2(256) == B * B
  {
    assert Pow2(8) == 256;
    Pow2Square(8, 256);
    Pow2Square(16, 0x1_0000);
    Pow2Square(32, 0x1_0000_0000);
    Pow2Square(64, 0x1_0000_0000_0000_0000);
    Pow2Square(128, B);
  }

  // ------------------------------------------------ 128-bit primitives

  function Add128(a: U128, b: U128): U128 { (a + b) % B }
  function Sub128(a: U128, b: U128): U128 { (a - b) % B }
  function Shl128(a: U128, k: nat): U128 { a * Pow2(k) % B }
  function Shr128(a: U128, k: nat): (r: U128) {
    ShrBound(a, k);
    a / Pow2(k)
  }

  lemma ShrBound(a: nat, k: nat)
    ensures 0 <= a / Pow2(k) <= a
  {
    DivBound(a, Pow2(k));
  }

  /** Bitwise or of two natural numbers. */
  function BitOr(a: nat, b: nat): nat
    decreases a + b
  {
    if a == 0 then b else if b == 0 then a
    else 2 * BitOr(a / 2, b / 2) + (if a % 2 == 1 || b % 2 == 1 then 1 else 0)
  }

  lemma {:induction false} BitOrBound(a: nat, b: nat, n: nat)
    requires a < Pow2(n) && b < Pow2(n)
    ensures BitOr(a, b) < Pow2(n)
  {
    if a != 0 && b != 0 { BitOrBound(a / 2, b / 2, n - 1); }
  }

  /** On disjoint bits, or is addition: `a` is a multiple of 2^k and `b` lies below it. */
  lemma {:induction false} BitOrDisjoint(a: nat, b: nat, k: nat)
    requires b < Pow2(k)
    ensures BitOr(a * Pow2(k), b) == a * Pow2(k) + b
  {
    var p := Pow2(k);
    if a != 0 && b != 0 {
      var h := Pow2(k - 1);
      assert a * (2 * h) == 2 * (a * h);
      MulMono(1, a, h);
      BitOrDisjoint(a, b / 2, k - 1);
      assert a * p / 2 == a * h && a * p % 2 == 0;
    } else if a == 0 {
      assert a * p == 0;
    }
  }

  function Or128(a: U128, b: U128): U128 {
    HalfIsPower();
    BitOrBound(a, b, 128);
    BitOr(a, b)
  }

  // ------------------------------------------------ the number facts behind the shifts

  lemma SplitByPower(a: nat, p: nat, c: nat)
    requires p > 0 && c > 0
    ensures a == a / c * c + a % c && a * p == a / c * (p * c) + a % c * p && a % c * p + p <= p * c
    ensures a * p % (p * c) == a % c * p && a * p / (p * c) == a / c
  {
    var q, r := a / c, a % c;
    DivModParts(a, c);
    MulDistrib(q * c, r, p);
    MulAssoc(q, c, p);
    assert c * p == p * c;
    MulMono(r + 1, c, p);
    MulDistrib(r, 1, p);
    DivModUnique(a * p, p * c, q, r * p);
  }

  lemma ShiftLeftParts(hi: nat, lo: nat, p: nat, c: nat)
    requires p > 0 && c > 0 && hi < p * c && lo < p * c
    ensures hi * p % (p * c) + lo / c < p * c
    ensures (hi * (p * c) + lo) * p ==
            hi / c * (p * c * (p * c)) + ((hi * p % (p * c) + lo / c) * (p * c) + lo * p % (p * c))
  {
    var b := p * c;
    SplitByPower(hi, p, c);
    SplitByPower(lo, p, c);
    DivModParts(lo, c);
    assert lo / c < p by {
      MulMono(p, if lo / c >= p then lo / c else p, c);
    }
    ShiftLeftSum(hi / c, hi % c * p, lo / c, lo % c * p, hi * p, lo * p, b);
    calc {
      (hi * b + lo) * p;
      { MulDistrib(hi * b, lo, p); MulAssoc(hi, b, p); MulAssoc(hi, p, b); assert b * p == p * b; }
      hi * p * b + lo * p;
    }
  }

  lemma ShiftLeftSum(qh: nat, rh: nat, ql: nat, rl: nat, hp: nat, lp: nat, b: nat)
    requires hp == qh * b + rh && lp == ql * b + rl
    ensures hp * b + lp == qh * (b * b) + ((rh + ql) * b + rl)
  {
    MulDistrib(qh * b, rh, b);
    MulAssoc(qh, b, b);
    MulDistrib(rh, ql, b);
  }

  lemma ShiftRightParts(hi: nat, lo: nat, p: nat, c: nat)
    requires p > 0 && c > 0 && hi < p * c && lo < p * c
    ensures lo / p + hi * c % (p * c) < p * c
    ensures (hi * (p * c) + lo) / p == hi / p * (p * c) + (lo / p + hi * c % (p * c))
  {
    SplitByPower(hi, c, p);
    assert c * p == p * c;
    DivModParts(hi, p);
    DivModParts(lo, p);
    ShiftRightNamed(hi, lo, p, c, p * c, hi / p, hi % p, lo / p, lo % p);
  }

  lemma ShiftRightNamed(hi: nat, lo: nat, p: nat, c: nat, b: nat, qh: nat, rh: nat, ql: nat, rl: nat)
    requires p > 0 && b == p * c && lo < b
    requires hi == qh * p + rh && lo == ql * p + rl && rh < p && rl < p
    ensures ql + rh * c < b && (hi * b + lo) / p == qh * b + (ql + rh * c)
  {
    assert c * p == p * c;
    MulMono(c, if ql >= c then ql else c, p);
    MulDistrib(rh, 1, c);
    MulMono(rh + 1, p, c);
    ShiftRightSum(qh, rh, ql, rl, p, c);
    DivModUnique(hi * b + lo, p, qh * b + (ql + rh * c), rl);
  }

  lemma ShiftRightSum(qh: nat, rh: nat, ql: nat, rl: nat, p: nat, c: nat)
    ensures (qh * p + rh) * (p * c) + (ql * p + rl) == (qh * (p * c) + (ql + rh * c)) * p + rl
  {
    var b := p * c;
    MulDistrib(qh * p, rh, b);
    MulAssoc(qh, p, b);
    MulAssoc(qh, b, p);
    assert p * b == b * p;
    MulAssoc(rh, c, p);
    assert c * p == b;
    MulDistrib(qh * b, ql + rh * c, p);
    MulDistrib(ql, rh * c, p);
  }
}
