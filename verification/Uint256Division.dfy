/** Shift-subtract division, and the field negation built on it. */
module Uint256Division {
  import opened Powers
  import opened WideArithmetic
  import opened Uint256

  // ------------------------------------------------ setting one quotient bit

  lemma OrLowBit(qhi: U128, qlo: U128, k: nat)
    requires k < 128 && (qhi * B + qlo) % Pow2(k + 1) == 0
    ensures BitOr(qlo, Pow2(k)) == qlo + Pow2(k)
  {
    var m := Pow2(k + 1);
    HalfIsPower();
    Pow2Add(127 - k, k + 1);
    LowIsMultiple(qhi, qlo, Pow2(127 - k), m);
    DivBound(qlo, m);
    BitOrDisjoint(qlo / m, Pow2(k), k + 1);
  }

  lemma LowIsMultiple(qhi: nat, qlo: nat, t: nat, m: nat)
    requires m > 0 && (qhi * (t * m) + qlo) % m == 0
    ensures qlo == qlo / m * m
  {
    MulAssoc(qhi, t, m);
    MulMono(0, qhi, t);
    AddMultiple(qlo, qhi * t, m);
    DivModParts(qlo, m);
  }

  lemma HighMultiple(qhi: U128, qlo: U128, t: nat, c: nat)
    requires qhi * B + qlo == t * (c * B)
    ensures qlo == 0 && qhi == t * c
  {
    MulAssoc(t, c, B);
    DivModUnique(t * c * B, B, t * c, 0);
    DivModUnique(qhi * B + qlo, B, qhi, qlo);
  }

  lemma OrHighBit(qhi: U128, qlo: U128, k: nat)
    requires 128 <= k < 256 && (qhi * B + qlo) % Pow2(k + 1) == 0
    ensures qlo == 0 && BitOr(qhi, Pow2(k - 128)) == qhi + Pow2(k - 128)
  {
    var m := Pow2(k + 1);
    HalfIsPower();
    Pow2Add(k - 127, 128);
    DivModParts(qhi * B + qlo, m);
    var t := (qhi * B + qlo) / m;
    HighMultiple(qhi, qlo, t, Pow2(k - 127));
    BitOrDisjoint(t, Pow2(k - 128), k - 127);
  }

  /** `or256` adds a bit below every bit that is already set. */
  lemma OrIsAdd(qhi: U128, qlo: U128, ahi: U128, alo: U128, k: nat)
    requires k < 256 && (qhi * B + qlo) % Pow2(k + 1) == 0 && ahi * B + alo == Pow2(k)
    ensures Or128(qhi, ahi) * B + Or128(qlo, alo) == qhi * B + qlo + Pow2(k)
  {
    HalfIsPower();
    if k < 128 {
      Pow2StrictMono(k, 128);
      assert ahi == 0 && alo == Pow2(k);
      OrLowBit(qhi, qlo, k);
    } else {
      Pow2Add(128, k - 128);
      Pow2StrictMono(k - 128, 128);
      assert ahi == Pow2(k - 128) && alo == 0;
      OrHighBit(qhi, qlo, k);
    }
  }

  // ------------------------------------------------ the division loop

  /**
   State of the loop: k is the exponent of `adder`, or -1 once the remainder is below the divisor.
   */
  ghost predicate LoopState(l: nat, r: nat, k: int, q: nat, m: nat, copyd: nat, adder: nat) {
    && -1 <= k < 256 && l == q * r + m
    && (k == -1 ==> m < r)
    && (k >= 0 ==> adder == Pow2(k) && copyd == r * Pow2(k) && m < 2 * copyd && q % Pow2(k + 1) == 0)
  }

  lemma BitLenMonotone(r: nat, l: nat)
    requires r <= l
    ensures BitLen(r) <= BitLen(l)
  {
    BitLenBounds(l);
    BitLenAtMost(r, BitLen(l));
  }

  /** Scaling by 2^d keeps a number between its two neighbouring powers. */
  lemma ScaledBounds(r: nat, n: nat, d: nat)
    requires n >= 1 && Pow2(n - 1) <= r < Pow2(n)
    ensures Pow2(n - 1 + d) <= r * Pow2(d) < Pow2(n + d)
  {
    Pow2Add(n, d);
    Pow2Add(n - 1, d);
    MulMono(Pow2(n - 1), r, Pow2(d));
    MulMono(r + 1, Pow2(n), Pow2(d));
    MulDistrib(r, 1, Pow2(d));
  }

  function Scaled(r: nat, d: nat): nat { r * Pow2(d) }

  lemma StartShift(l: nat, r: nat, w: nat)
    requires 1 <= r <= l < Pow2(w)
    ensures BitLen(r) <= BitLen(l) <= w
    ensures var d := BitLen(l) - BitLen(r);
      d < w && r * Pow2(d) < Pow2(w) && Pow2(d) < Pow2(w) && l < 2 * (r * Pow2(d))
  {
    BitLenBounds(l);
    BitLenBounds(r);
    BitLenAtMost(l, w);
    BitLenMonotone(r, l);
    AlignedBounds(l, r, BitLen(r), BitLen(l) - BitLen(r), w);
  }

  lemma AlignedBounds(l: nat, r: nat, n: nat, d: nat, w: nat)
    requires n >= 1 && n + d <= w && Pow2(n - 1) <= r < Pow2(n) && l < Pow2(n + d)
    ensures d < w && r * Pow2(d) < Pow2(w) && Pow2(d) < Pow2(w) && l < 2 * (r * Pow2(d))
  {
    ScaledBounds(r, n, d);
    DoubleOf(n + d);
    Pow2Mono(n + d, w);
    Pow2StrictMono(d, w);
    assert n + d - 1 == n - 1 + d;
  }

  lemma DoubleOf(n: nat)
    requires n >= 1
    ensures Pow2(n) == 2 * Pow2(n - 1)
  {}

  lemma HalveCopy(r: nat, k: nat)
    requires k >= 1
    ensures r * Pow2(k) / 2 == r * Pow2(k - 1) && Pow2(k) / 2 == Pow2(k - 1)
    ensures r * Pow2(k) == 2 * (r * Pow2(k - 1))
  {
    var p := Pow2(k - 1);
    MulAssoc(r, 2, p);
    assert r * (2 * p) == 2 * (r * p);
  }

  /** The aligned divisor before the loop, moved down one place when it is too large. */
  lemma FirstState(l: nat, r: nat, d: nat, copyd: nat)
    requires d < 256 && r >= 1 && copyd == r * Pow2(d) && l < 2 * copyd
    ensures copyd <= l ==> LoopState(l, r, d, 0, l, copyd, Pow2(d))
    ensures copyd > l >= r ==> d >= 1 && LoopState(l, r, d - 1, 0, l, copyd / 2, Pow2(d) / 2)
  {
    DivModUnique(0, Pow2(d), 0, 0);
    DivModUnique(0, Pow2(d + 1), 0, 0);
    if d >= 1 { HalveCopy(r, d); } else { assert Pow2(0) == 1; }
  }

  /** Both branches of one turn keep the state, one power lower. */
  lemma LoopTurn(l: nat, r: nat, k: int, q: nat, m: nat, copyd: nat, adder: nat, q': nat, m': nat)
    requires LoopState(l, r, k, q, m, copyd, adder) && m >= r >= 1
    requires if m >= copyd then q' == q + adder && m' == m - copyd else q' == q && m' == m
    ensures k >= 0 && LoopState(l, r, k - 1, q', m', copyd / 2, adder / 2)
  {
    MulDistrib(q, Pow2(k), r);
    assert Pow2(k) * r == r * Pow2(k);
    if k >= 1 {
      HalveCopy(r, k);
      var h := Pow2(k);
      DivModParts(q, 2 * h);
      var t := q / (2 * h);
      MulAssoc(t, 2, h);
      assert q == t * 2 * h;
      MulDistrib(t * 2, 1, h);
      MulDivExact(t * 2, h);
      MulDivExact(t * 2 + 1, h);
    } else {
      assert Pow2(0) == 1;
    }
  }

  /** A left shift that loses no bits. */
  method ShiftExact(number: U256, value: nat, target: U256, ghost v: nat, ghost x: nat)
    requires number.Value() == v && x == v * Pow2(value) && x < Pow2(256)
    modifies target
    ensures target.Value() == x
  {
    DivModUnique(x, Pow2(256), 0, x);
    Shiftl256(number, value, target);
  }

  /** Both copies one place down. */
  method HalveBoth(copyd: U256, adder: U256)
    requires copyd != adder
    modifies copyd, adder
    ensures copyd.Value() == old(copyd.Value()) / 2 && adder.Value() == old(adder.Value()) / 2
  {
    assert Pow2(1) == 2;
    Shiftr256(copyd, 1, copyd);
    Shiftr256(adder, 1, adder);
  }

  /** The divisor fits: subtract it and set the quotient bit. */
  method TakeBit(resMod: U256, resDiv: U256, copyd: U256, adder: U256, ghost k: nat)
    requires resMod != resDiv && copyd !in {resMod, resDiv} && adder !in {resMod, resDiv}
    requires resMod.Value() >= copyd.Value() && k < 256
    requires adder.Value() == Pow2(k) && resDiv.Value() % Pow2(k + 1) == 0
    modifies resMod, resDiv
    ensures resMod.Value() == old(resMod.Value()) - copyd.Value()
    ensures resDiv.Value() == old(resDiv.Value()) + Pow2(k)
  {
    OrIsAdd(resDiv.hi, resDiv.lo, adder.hi, adder.lo, k);
    Minus256(resMod, copyd, resMod);
    Or256(resDiv, adder, resDiv);
  }

  /** The divisor shifted under the dividend's top bit, or one place less when that is too much. */
  method AlignDivisor(resMod: U256, r: U256, diffBits: nat, one: U256, copyd: U256, adder: U256,
                      ghost M: nat, ghost R: nat, ghost x: nat) returns (ghost k: int)
    requires 1 <= R <= M && one.Value() == 1 && R == r.Value() && M == resMod.Value() && x == R * Pow2(diffBits)
    requires diffBits < 256 && Pow2(diffBits) < Pow2(256) && x < Pow2(256) && M < 2 * x
    requires copyd != adder && copyd !in {resMod, r, one} && adder !in {resMod, r, one}
    modifies copyd, adder
    ensures LoopState(M, R, k, 0, M, copyd.Value(), adder.Value())
  {
    FirstState(M, R, diffBits, x);
    ShiftExact(r, diffBits, copyd, R, x);
    ShiftExact(one, diffBits, adder, 1, Pow2(diffBits));
    k := diffBits;
    if Gt256(copyd, resMod) {
      HalveBoth(copyd, adder);
      k := k - 1;
    }
  }

  /** The loop of `divmod256`. */
  method DivideLoop(r: U256, resMod: U256, resDiv: U256, copyd: U256, adder: U256,
                    ghost L: nat, ghost R: nat, ghost Q: nat, ghost M: nat, ghost k0: int)
    requires R >= 1 && Q == L / R && M == L % R
    requires r !in {resMod, resDiv, copyd, adder}
    requires resMod != resDiv && copyd !in {resMod, resDiv} && adder !in {resMod, resDiv, copyd}
    requires r.Value() == R >= 1 && resDiv.Value() == 0 && resMod.Value() == L
    requires LoopState(L, R, k0, 0, L, copyd.Value(), adder.Value())
    modifies resMod, resDiv, copyd, adder
    ensures resDiv.Value() == Q && resMod.Value() == M
  {
    ghost var k, q, m := k0, 0, L;
    while Gte256(resMod, r)
      invariant resDiv.Value() == q && resMod.Value() == m
      invariant LoopState(L, R, k, q, m, copyd.Value(), adder.Value())
      decreases k + 1
    {
      ghost var c, a := copyd.Value(), adder.Value();
      ghost var q', m' := if m >= c then q + a else q, if m >= c then m - c else m;
      LoopTurn(L, R, k, q, m, c, a, q', m');
      if Gte256(resMod, copyd) {
        TakeBit(resMod, resDiv, copyd, adder, k);
      }
      HalveBoth(copyd, adder);
      k, q, m := k - 1, q', m';
    }
    DivModUnique(L, R, q, m);
  }

  /** The branch of `divmod256` for a dividend that is not below the divisor. */
  method LongDivide(r: U256, resMod: U256, resDiv: U256, one: U256, diffBits: nat,
                    ghost L: nat, ghost R: nat, ghost Q: nat, ghost M: nat)
    requires resMod != resDiv && r !in {resMod, resDiv} && one !in {resMod, resDiv}
    requires r.Value() == R >= 1 && resMod.Value() == L >= R && resDiv.Value() == 0 && one.Value() == 1
    requires diffBits == BitLen(L) - BitLen(R) && L < Pow2(256) && Q == L / R && M == L % R
    modifies resMod, resDiv
    ensures resDiv.Value() == Q && resMod.Value() == M
  {
    StartShift(L, R, 256);
    var copyd := new U256(0, 0);
    var adder := new U256(0, 0);
    ghost var x := Scaled(R, diffBits);
    ghost var k := AlignDivisor(resMod, r, diffBits, one, copyd, adder, L, R, x);
    DivideLoop(r, resMod, resDiv, copyd, adder, L, R, Q, M, k);
  }

  /** The same from the dividend `l` into the two results, in the order the results are written. */
  method DivideInto(l: U256, r: U256, retDiv: U256, retMod: U256, diffBits: nat,
                    ghost L: nat, ghost R: nat, ghost Q: nat, ghost M: nat)
    requires l.Value() == L && r.Value() == R && 1 <= R <= L < Pow2(256) && Q == L / R && M == L % R
    requires diffBits == BitLen(L) - BitLen(R)
    modifies retDiv, retMod
    ensures retDiv != retMod ==> retDiv.Value() == Q
    ensures retMod.Value() == M
  {
    var one := new U256(0, 1);
    var resDiv := new U256(0, 0);
    var resMod := new U256(l.hi, l.lo);
    LongDivide(r, resMod, resDiv, one, diffBits, L, R, Q, M);
    Copy256(retDiv, resDiv);
    Copy256(retMod, resMod);
  }

  /** `divmod256` with its operands' values, and the quotient and remainder to be found, named. */
  method DivModNamed(l: U256, r: U256, retDiv: U256, retMod: U256,
                     ghost L: nat, ghost R: nat, ghost Q: nat, ghost M: nat)
    requires l.Value() == L < Pow2(256) && r.Value() == R >= 1 && Q == L / R && M == L % R
    requires L < R ==> Q == 0 && M == L
    requires R <= L ==> BitLen(R) <= BitLen(L)
    modifies retDiv, retMod
    ensures retDiv != retMod ==> retDiv.Value() == Q && retMod.Value() == M
    ensures retDiv == retMod ==> retMod.Value() == if L < R then 0 else M
  {
    var bitsL := Bits256(l);
    var bitsR := Bits256(r);
    // unsigned 32-bit subtraction
    var diffBits := if bitsL >= bitsR then bitsL - bitsR else bitsL + 0x1_0000_0000 - bitsR;
    if Gt256(r, l) {
      Copy256(retMod, l);
      Clear256(retDiv);
    } else {
      DivideInto(l, r, retDiv, retMod, diffBits, L, R, Q, M);
    }
  }

  /**
   l = div * r + mod with mod < r. `retDiv` may be the object `l`, and any of the results may be `r`; one object
   for both results keeps the last thing written to it. The loop does not end for a zero divisor.
   */
  method DivMod256(l: U256, r: U256, retDiv: U256, retMod: U256)
    requires r.Value() != 0
    modifies retDiv, retMod
    ensures retDiv != retMod ==> retDiv.Value() == old(l.Value()) / old(r.Value())
    ensures retDiv != retMod ==> retMod.Value() == old(l.Value()) % old(r.Value())
    ensures retDiv == retMod ==>
      retMod.Value() == if old(l.Value()) < old(r.Value()) then 0 else old(l.Value()) % old(r.Value())
  {
    ghost var L, R := l.Value(), r.Value();
    ValueBound(l);
    DivBound(L, R);
    if L < R { DivModUnique(L, R, 0, L); } else { BitLenMonotone(R, L); }
    DivModNamed(l, r, retDiv, retMod, L, R, L / R, L % R);
  }

  /** A zero divisor keeps the loop guard true for ever. */
  lemma ZeroDivisorNeverExits(resMod: U256, r: U256)
    requires r.Value() == 0
    ensures Gte256(resMod, r)
  {}

  // ------------------------------------------------ field negation

  /** What `negate_y_field` leaves in its output for a prime `q` and a coordinate `y`. */
  function Negated(q: nat, y: nat): nat
    requires q > 0
  {
    if y == 0 then 0 else q - y % q
  }

  /** It is an additive inverse, reduced exactly when `y` is zero or no multiple of the field order. */
  lemma NegatedIsInverse(q: nat, y: nat)
    requires q > 0
    ensures (y + Negated(q, y)) % q == 0 && Negated(q, y) <= q
    ensures Negated(q, y) < q <==> y == 0 || y % q != 0
  {
    DivModParts(y, q);
    if y != 0 {
      MulDistrib(y / q, 1, q);
      MulDivExact(y / q + 1, q);
    } else {
      DivModUnique(0, q, 0, 0);
    }
  }

  /**
   `negate_y_field`. The output is cleared first: when it is the coordinate itself, the result is zero. A zero field
   order, or an output that is the field order itself, makes the division run for ever on a nonzero coordinate.
   */
  method NegateYField(fieldC: U256, pointY: U256, output: U256)
    requires pointY.Value() != 0 && output != pointY ==> fieldC.Value() != 0 && output != fieldC
    modifies output
    ensures output == pointY || old(pointY.Value()) == 0 ==> output.Value() == 0
    ensures output != pointY && old(pointY.Value()) != 0 ==>
      output.Value() == Negated(old(fieldC.Value()), old(pointY.Value()))
  {
    output.hi := 0;
    output.lo := 0;
    if pointY.hi != 0 || pointY.lo != 0 {
      var resDiv := new U256(0, 0);
      var resMod := new U256(0, 0);
      DivMod256(pointY, fieldC, resDiv, resMod);
      DivModParts(pointY.Value(), fieldC.Value());
      Minus256(fieldC, resMod, output);
    }
  }
}
