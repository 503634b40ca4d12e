/** `u256_t` and its operations, written through pointers: any parameter may alias any other. */
module Uint256 {
  import opened Powers
  import opened WideArithmetic

  class U256 {
    var hi: U128
    var lo: U128

    constructor (hi: U128, lo: U128)
      ensures this.hi == hi && this.lo == lo
    {
      this.hi := hi;
      this.lo := lo;
    }

    function Value(): nat
      reads this
    {
      hi * B + lo
    }
  }

  lemma ValueBound(x: U256)
    ensures x.Value() < Pow2(256)
  {
    HalfIsPower();
  }

  predicate Zero256(number: U256)
    reads number
    ensures Zero256(number) <==> number.Value() == 0
  {
    number.lo == 0 && number.hi == 0
  }

  method Clear256(target: U256)
    modifies target
    ensures target.Value() == 0
  {
    target.hi := 0;
    target.lo := 0;
  }

  method Copy256(target: U256, number: U256)
    modifies target
    ensures target.hi == old(number.hi) && target.lo == old(number.lo)
  {
    target.hi := number.hi;
    target.lo := number.lo;
  }

  predicate Equal256(number1: U256, number2: U256)
    reads number1, number2
    ensures Equal256(number1, number2) <==> number1.Value() == number2.Value()
  {
    number1.hi == number2.hi && number1.lo == number2.lo
  }

  predicate Gt256(number1: U256, number2: U256)
    reads number1, number2
    ensures Gt256(number1, number2) <==> number1.Value() > number2.Value()
  {
    if number1.hi == number2.hi then number1.lo > number2.lo else number1.hi > number2.hi
  }

  predicate Gte256(number1: U256, number2: U256)
    reads number1, number2
    ensures Gte256(number1, number2) <==> number1.Value() >= number2.Value()
  {
    Gt256(number1, number2) || Equal256(number1, number2)
  }

  // ------------------------------------------------ shifts

  lemma ModByParts(v: nat, q: nat, rest: nat)
    requires rest < B * B && v == q * (B * B) + rest
    ensures v % Pow2(256) == rest
  {
    HalfIsPower();
    DivModUnique(v, B * B, q, rest);
  }

  lemma LeftByHalfParts(hi: nat, lo: nat, p: nat, hp: nat, q: nat, r: nat)
    requires hp == hi * p && lo * p == q * B + r
    ensures (hi * B + lo) * (B * p) == (hp + q) * (B * B) + r * B
  {
    calc {
      (hi * B + lo) * (B * p);
      { assert B * p == p * B; MulAssoc(hi * B + lo, p, B); }
      (hi * B + lo) * p * B;
      { MulDistrib(hi * B, lo, p); MulAssoc(hi, B, p); MulAssoc(hi, p, B); }
      (hp * B + lo * p) * B;
    }
  }

  lemma LeftByHalfOrMore(hi: U128, lo: U128, value: nat)
    requires 128 <= value < 256
    ensures (hi * B + lo) * Pow2(value) % Pow2(256) == lo * Pow2(value - 128) % B * B
  {
    var p := Pow2(value - 128);
    HalfIsPower();
    Pow2Add(128, value - 128);
    DivModParts(lo * p, B);
    DivBound(lo * p, B);
    var q, r := lo * p / B, lo * p % B;
    LeftByHalfParts(hi, lo, p, hi * p, q, r);
    ModByParts((hi * B + lo) * (B * p), hi * p + q, r * B);
  }

  lemma LeftByLess(hi: U128, lo: U128, value: nat)
    requires 0 < value < 128
    ensures Shl128(hi, value) + Shr128(lo, 128 - value) < B
    ensures (hi * B + lo) * Pow2(value) % Pow2(256) ==
            (Shl128(hi, value) + Shr128(lo, 128 - value)) * B + Shl128(lo, value)
  {
    var p, c := Pow2(value), Pow2(128 - value);
    HalfIsPower();
    Pow2Add(value, 128 - value);
    ShiftLeftParts(hi, lo, p, c);
    var rest := (Shl128(hi, value) + Shr128(lo, 128 - value)) * B + Shl128(lo, value);
    assert (hi * B + lo) * p == hi / c * (B * B) + rest;
    DivBound(hi, c);
    ModByParts((hi * B + lo) * p, hi / c, rest);
  }

  lemma LeftByAll(v: nat, value: nat)
    requires value >= 256
    ensures v * Pow2(value) % Pow2(256) == 0
  {
    Pow2Add(value - 256, 256);
    MulAssoc(v, Pow2(value - 256), Pow2(256));
    MulDivExact(v * Pow2(value - 256), Pow2(256));
  }

  /** The five cases of the left shift. */
  ghost predicate LeftResult(hi: U128, lo: U128, value: nat, goal: nat) {
    && (value >= 256 ==> goal == 0)
    && (128 < value < 256 ==> goal == Shl128(lo, value - 128) * B)
    && (value == 128 ==> goal == lo * B)
    && (value == 0 ==> goal == hi * B + lo)
    && (0 < value < 128 ==>
          Shl128(hi, value) + Shr128(lo, 128 - value) < B &&
          goal == (Shl128(hi, value) + Shr128(lo, 128 - value)) * B + Shl128(lo, value))
  }

  lemma ShlZero(x: U128)
    ensures Shl128(x, 0) == x
  {
    assert Pow2(0) == 1 && x * 1 == x;
  }

  lemma LeftByZero(v: nat)
    requires v < Pow2(256)
    ensures v * Pow2(0) % Pow2(256) == v
  {
    assert Pow2(0) == 1;
    DivModUnique(v, Pow2(256), 0, v);
  }

  lemma LeftCases(hi: U128, lo: U128, value: nat, goal: nat)
    requires goal == (hi * B + lo) * Pow2(value) % Pow2(256)
    ensures LeftResult(hi, lo, value, goal)
  {
    if value >= 256 {
      LeftByAll(hi * B + lo, value);
    } else if value >= 128 {
      LeftByHalfOrMore(hi, lo, value);
      ShlZero(lo);
    } else if value == 0 {
      HalfIsPower();
      LeftByZero(hi * B + lo);
    } else {
      LeftByLess(hi, lo, value);
    }
  }

  /** target := number * 2^value, modulo 2^256. */
  method Shiftl256(number: U256, value: nat, target: U256)
    modifies target
    ensures target.Value() == old(number.Value()) * Pow2(value) % Pow2(256)
  {
    ghost var goal := number.Value() * Pow2(value) % Pow2(256);
    LeftCases(number.hi, number.lo, value, goal);
    ShiftLeftTo(number, value, target, goal);
  }

  /** A left shift by less than one half: bits cross from the low half to the high one. */
  method ShiftLeftWithin(number: U256, value: nat, target: U256)
    requires 0 < value < 128 && Shl128(number.hi, value) + Shr128(number.lo, 128 - value) < B
    modifies target
    ensures target.hi == old(Shl128(number.hi, value)) + old(Shr128(number.lo, 128 - value))
    ensures target.lo == old(Shl128(number.lo, value))
  {
    var tmp1 := Shl128(number.hi, value);
    var tmp2 := Shr128(number.lo, 128 - value);
    AddWraps(tmp1, tmp2);
    var result := new U256(Add128(tmp1, tmp2), Shl128(number.lo, value));
    Copy256(target, result);
  }

  /** The body of `shiftl256`, with the value to be reached named. */
  method ShiftLeftTo(number: U256, value: nat, target: U256, ghost goal: nat)
    requires LeftResult(number.hi, number.lo, value, goal)
    modifies target
    ensures target.Value() == goal
  {
    if value >= 256 {
      Clear256(target);
    } else if value == 128 {
      target.hi := number.lo;
      target.lo := 0;
    } else if value == 0 {
      Copy256(target, number);
    } else if value < 128 {
      ShiftLeftWithin(number, value, target);
    } else {
      target.hi := Shl128(number.lo, value - 128);
      target.lo := 0;
    }
  }

  lemma RightByLess(hi: U128, lo: U128, value: nat)
    requires 0 < value < 128
    ensures Shr128(lo, value) + Shl128(hi, 128 - value) < B
    ensures (hi * B + lo) / Pow2(value) ==
            Shr128(hi, value) * B + (Shr128(lo, value) + Shl128(hi, 128 - value))
  {
    HalfIsPower();
    Pow2Add(value, 128 - value);
    ShiftRightParts(hi, lo, Pow2(value), Pow2(128 - value));
  }

  lemma RightByHalfOrMore(hi: U128, lo: U128, value: nat)
    requires 128 <= value < 256
    ensures (hi * B + lo) / Pow2(value) == Shr128(hi, value - 128)
  {
    HalfIsPower();
    Pow2Add(128, value - 128);
    DivDiv(hi * B + lo, B, Pow2(value - 128));
    DivModUnique(hi * B + lo, B, hi, lo);
  }

  /** The five cases of the right shift. */
  ghost predicate RightResult(hi: U128, lo: U128, value: nat, goal: nat) {
    && (value >= 256 ==> goal == 0)
    && (128 < value < 256 ==> goal == Shr128(hi, value - 128))
    && (value == 128 ==> goal == hi)
    && (value == 0 ==> goal == hi * B + lo)
    && (0 < value < 128 ==>
          Shr128(lo, value) + Shl128(hi, 128 - value) < B &&
          goal == Shr128(hi, value) * B + (Shr128(lo, value) + Shl128(hi, 128 - value)))
  }

  lemma RightCases(hi: U128, lo: U128, value: nat, goal: nat)
    requires goal == (hi * B + lo) / Pow2(value)
    ensures RightResult(hi, lo, value, goal)
  {
    if value >= 256 {
      HalfIsPower();
      Pow2Mono(256, value);
      DivModUnique(hi * B + lo, Pow2(value), 0, hi * B + lo);
    } else if value >= 128 {
      RightByHalfOrMore(hi, lo, value);
      assert Pow2(0) == 1;
    } else if value > 0 {
      RightByLess(hi, lo, value);
    }
  }

  /** target := number / 2^value. */
  method Shiftr256(number: U256, value: nat, target: U256)
    modifies target
    ensures target.Value() == old(number.Value()) / Pow2(value)
  {
    ShrBound(number.Value(), value);
    ghost var goal: nat := number.Value() / Pow2(value);
    RightCases(number.hi, number.lo, value, goal);
    ShiftRightTo(number, value, target, goal);
  }

  /** The body of `shiftr256`, with the value to be reached named. */
  method ShiftRightTo(number: U256, value: nat, target: U256, ghost goal: nat)
    requires RightResult(number.hi, number.lo, value, goal)
    modifies target
    ensures target.Value() == goal
  {
    if value >= 256 {
      Clear256(target);
    } else if value == 128 {
      target.lo := number.hi;
      target.hi := 0;
    } else if value == 0 {
      Copy256(target, number);
    } else if value < 128 {
      var tmp1 := Shr128(number.lo, value);
      var tmp2 := Shl128(number.hi, 128 - value);
      var result := new U256(Shr128(number.hi, value), Add128(tmp1, tmp2));
      Copy256(target, result);
    } else {
      target.lo := Shr128(number.hi, value - 128);
      target.hi := 0;
    }
  }

  // ------------------------------------------------ bit length

  function BitLen(n: nat): nat { if n == 0 then 0 else 1 + BitLen(n / 2) }

  /** The bit length is the least k with n < 2^k. */
  lemma {:induction false} BitLenBounds(n: nat)
    ensures n < Pow2(BitLen(n)) && (n > 0 ==> BitLen(n) >= 1 && Pow2(BitLen(n) - 1) <= n)
  {
    if n > 0 { BitLenBounds(n / 2); }
  }

  lemma BitLenUnique(n: nat, k: nat)
    requires k >= 1 && Pow2(k - 1) <= n < Pow2(k)
    ensures BitLen(n) == k
  {
    BitLenBounds(n);
    Pow2Mono(if BitLen(n) < k then BitLen(n) else k - 1, k - 1);
    Pow2Mono(k, if k < BitLen(n) then BitLen(n) - 1 else k);
  }

  lemma BitLenOfHalves(hi: U128, lo: U128)
    requires hi > 0
    ensures BitLen(hi * B + lo) == 128 + BitLen(hi)
  {
    BitLenBounds(hi);
    HighBounds(hi, lo, BitLen(hi));
    BitLenUnique(hi * B + lo, 128 + BitLen(hi));
  }

  lemma HighBounds(hi: U128, lo: U128, k: nat)
    requires k >= 1 && Pow2(k - 1) <= hi < Pow2(k)
    ensures Pow2(128 + k - 1) <= hi * B + lo < Pow2(128 + k)
  {
    HalfIsPower();
    Pow2Add(128, k);
    Pow2Add(128, k - 1);
    HalvesBetween(hi, lo, Pow2(k - 1), Pow2(k), B);
  }

  lemma HalvesBetween(hi: nat, lo: nat, a: nat, b: nat, w: nat)
    requires a <= hi < b && lo < w
    ensures w * a <= hi * w + lo < w * b
  {
    MulMono(a, hi, w);
    MulMono(hi + 1, b, w);
    MulDistrib(hi, 1, w);
  }

  lemma BitLenAtMost(n: nat, k: nat)
    requires n < Pow2(k)
    ensures BitLen(n) <= k
  {
    BitLenBounds(n);
    Pow2Mono(k, if BitLen(n) > k then BitLen(n) - 1 else k);
  }

  method Bits256(number: U256) returns (result: nat)
    ensures result == BitLen(number.Value()) && result <= 256
  {
    ValueBound(number);
    BitLenAtMost(number.Value(), 256);
    assert Pow2(1) == 2;
    result := 0;
    if number.hi != 0 {
      BitLenOfHalves(number.hi, number.lo);
      result := 128;
      var up := number.hi;
      while up != 0
        invariant result + BitLen(up) == BitLen(number.Value())
        decreases up
      {
        up := Shr128(up, 1);
        result := result + 1;
      }
    } else {
      var low := number.lo;
      while low != 0
        invariant result + BitLen(low) == BitLen(number.Value())
        decreases low
      {
        low := Shr128(low, 1);
        result := result + 1;
      }
    }
  }

  // ------------------------------------------------ addition, subtraction, or

  lemma AddWraps(a: U128, b: U128)
    ensures Add128(a, b) == if a + b < B then a + b else a + b - B
  {}

  lemma HalvesAdd(h1: U128, l1: U128, h2: U128, l2: U128)
    ensures var v1, v2 := h1 * B + l1, h2 * B + l2;
      var high, low := Add128(h1, h2), Add128(l1, l2);
      var hi := if l1 > low then Add128(high, 1) else high;
      hi * B + low == (v1 + v2) % Pow2(256)
  {
    HalfIsPower();
    AddWraps(h1, h2);
    AddWraps(l1, l2);
    AddWraps(Add128(h1, h2), 1);
    var high, low := Add128(h1, h2), Add128(l1, l2);
    var v := (if l1 > low then Add128(high, 1) else high) * B + low;
    var sum := h1 * B + l1 + (h2 * B + l2);
    assert sum == v || sum == B * B + v;
    DivModUnique(sum, B * B, if sum == v then 0 else 1, v);
  }

  /** target := number1 + number2, modulo 2^256. */
  method Add256(number1: U256, number2: U256, target: U256)
    modifies target
    ensures target.Value() == (old(number1.Value()) + old(number2.Value())) % Pow2(256)
  {
    ghost var hi1, lo1, hi2, lo2 := number1.hi, number1.lo, number2.hi, number2.lo;
    target.hi := Add128(number1.hi, number2.hi);
    var tmp := Add128(number1.lo, number2.lo);
    if number1.lo > tmp {
      target.hi := Add128(target.hi, 1);
    }
    target.lo := Add128(number1.lo, number2.lo);
    HalvesAdd(hi1, lo1, hi2, lo2);
  }

  lemma SubWraps(a: U128, b: U128)
    ensures Sub128(a, b) == if a >= b then a - b else a - b + B
  {}

  lemma SubHalves(h1: U128, l1: U128, h2: U128, l2: U128)
    ensures var v1, v2 := h1 * B + l1, h2 * B + l2;
      var high, low := Sub128(h1, h2), Sub128(l1, l2);
      var hi := if low > l1 then Sub128(high, 1) else high;
      hi * B + low == if v1 >= v2 then v1 - v2 else v1 - v2 + Pow2(256)
  {
    HalfIsPower();
    SubWraps(h1, h2);
    SubWraps(l1, l2);
    SubWraps(Sub128(h1, h2), 1);
  }

  /** target := number1 - number2, modulo 2^256. */
  method Minus256(number1: U256, number2: U256, target: U256)
    modifies target
    ensures old(number1.Value()) >= old(number2.Value()) ==>
              target.Value() == old(number1.Value()) - old(number2.Value())
    ensures old(number1.Value()) < old(number2.Value()) ==>
              target.Value() == old(number1.Value()) - old(number2.Value()) + Pow2(256)
  {
    SubHalves(number1.hi, number1.lo, number2.hi, number2.lo);
    target.hi := Sub128(number1.hi, number2.hi);
    var tmp := Sub128(number1.lo, number2.lo);
    if tmp > number1.lo {
      target.hi := Sub128(target.hi, 1);
    }
    target.lo := Sub128(number1.lo, number2.lo);
  }

  method Or256(number1: U256, number2: U256, target: U256)
    modifies target
    ensures target.hi == Or128(old(number1.hi), old(number2.hi))
    ensures target.lo == Or128(old(number1.lo), old(number2.lo))
  {
    target.hi := Or128(number1.hi, number2.hi);
    target.lo := Or128(number1.lo, number2.lo);
  }
}
