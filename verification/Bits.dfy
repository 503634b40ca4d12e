/** Bit lists and the numbers they denote. */
module Bits {
  import opened Powers
  import opened Sequences

  function BitOf(b: bool): nat { if b then 1 else 0 }

  /** The number a bit list denotes, most significant bit first. */
  function BitsValue(b: seq<bool>): nat {
    if b == [] then 0 else 2 * BitsValue(b[..|b| - 1]) + BitOf(b[|b| - 1])
  }

  /** The `n` low bits of a number, most significant first. */
  function BitsOf(x: nat, n: nat): (b: seq<bool>)
    ensures |b| == n
  {
    if n == 0 then [] else BitsOf(x / 2, n - 1) + [x % 2 == 1]
  }

  /** `split_le`: the low bits of a number, least significant first. */
  function SplitLe(x: nat, n: nat): (r: seq<bool>)
    ensures |r| == n
  {
    if n == 0 then [] else [x % 2 == 1] + SplitLe(x / 2, n - 1)
  }

  /** `le_sum`. */
  function LeSum(b: seq<bool>): nat {
    if b == [] then 0 else BitOf(b[0]) + 2 * LeSum(b[1..])
  }

  lemma {:induction false} BitsValueBound(b: seq<bool>)
    ensures BitsValue(b) < Pow2(|b|)
  {
    if b != [] { BitsValueBound(b[..|b| - 1]); }
  }

  lemma BitsValueStep(front: seq<bool>, last: bool)
    ensures BitsValue(front + [last]) == 2 * BitsValue(front) + BitOf(last)
  {
    assert (front + [last])[..|front|] == front;
  }

  lemma HalfBelow(x: nat, p: nat)
    requires x < 2 * p
    ensures x / 2 < p
  {}

  lemma {:induction false} BitsRoundTrip(x: nat, n: nat)
    requires x < Pow2(n)
    ensures BitsValue(BitsOf(x, n)) == x
  {
    if n > 0 {
      HalfBelow(x, Pow2(n - 1));
      BitsRoundTrip(x / 2, n - 1);
      BitsValueStep(BitsOf(x / 2, n - 1), x % 2 == 1);
    }
  }

  lemma {:induction false} BitsOfValue(b: seq<bool>)
    ensures BitsOf(BitsValue(b), |b|) == b
  {
    if b != [] {
      var front, last := b[..|b| - 1], b[|b| - 1];
      BitsOfValue(front);
      assert b == front + [last];
      var v := BitsValue(b);
      assert v / 2 == BitsValue(front) && v % 2 == BitOf(last);
    }
  }

  lemma {:induction false} BitsConcat(a: seq<bool>, b: seq<bool>)
    ensures BitsValue(a + b) == BitsValue(a) * Pow2(|b|) + BitsValue(b)
  {
    if b == [] {
      assert a + b == a && Pow2(0) == 1;
    } else {
      var front := b[..|b| - 1];
      BitsConcat(a, front);
      assert (a + b)[..|a + b| - 1] == a + front;
      MulAssoc(BitsValue(a), 2, Pow2(|front|));
      assert BitsValue(a) * (2 * Pow2(|front|)) == 2 * (BitsValue(a) * Pow2(|front|));
    }
  }

  /** The high bits of a number, then its low ones. */
  lemma {:induction false} BitsOfSplit(q: nat, r: nat, m: nat, n: nat)
    requires r < Pow2(n)
    ensures BitsOf(q * Pow2(n) + r, m + n) == BitsOf(q, m) + BitsOf(r, n)
  {
    if n == 0 {
      assert Pow2(0) == 1;
    } else {
      HalfOfSplit(q, Pow2(n - 1), r);
      BitsOfSplit(q, r / 2, m, n - 1);
    }
  }

  lemma HalfOfSplit(q: nat, h: nat, r: nat)
    ensures (q * (2 * h) + r) / 2 == q * h + r / 2 && (q * (2 * h) + r) % 2 == r % 2
  {
    assert q * (2 * h) == 2 * (q * h);
  }

  /** Bit `i` from the least significant end. */
  lemma {:induction false} BitsOfAt(x: nat, n: nat, i: nat)
    requires i < n
    ensures BitsOf(x, n)[n - 1 - i] <==> x / Pow2(i) % 2 == 1
  {
    if i == 0 {
      assert Pow2(0) == 1;
    } else {
      BitsOfAt(x / 2, n - 1, i - 1);
      DivDiv(x, 2, Pow2(i - 1));
    }
  }

  /** The two bit orders of the gadgets agree. */
  lemma {:induction false} LeSumReversed(b: seq<bool>)
    ensures LeSum(Reverse(b)) == BitsValue(b)
  {
    if b != [] {
      LeSumReversed(b[..|b| - 1]);
      assert Reverse(b)[1..] == Reverse(b[..|b| - 1]);
    }
  }

  lemma {:induction false} SplitLeReversed(x: nat, n: nat)
    ensures Reverse(SplitLe(x, n)) == BitsOf(x, n)
  {
    if n > 0 {
      SplitLeReversed(x / 2, n - 1);
      ReverseCons(x % 2 == 1, SplitLe(x / 2, n - 1));
    }
  }
}
