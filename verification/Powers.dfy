/** Powers of two and of an arbitrary base, with the division facts the other modules use. */
module Powers {

  function Pow2(n: nat): (r: nat)
    ensures r >= 1
  {
    if n == 0 then 1 else 2 * Pow2(n - 1)
  }

  function Pow(b: nat, n: nat): (r: nat)
    ensures b >= 1 ==> r >= 1
  {
    if n == 0 then 1 else b * Pow(b, n - 1)
  }

  lemma {:induction false} Pow2Add(a: nat, b: nat)
    ensures Pow2(a + b) == Pow2(a) * Pow2(b)
  {
    if a == 0 {
      assert Pow2(0) == 1;
    } else {
      Pow2Add(a - 1, b);
      calc {
        Pow2(a + b);
        2 * Pow2(a - 1 + b);
        2 * (Pow2(a - 1) * Pow2(b));
        (2 * Pow2(a - 1)) * Pow2(b);
      }
    }
  }

  lemma {:induction false} PowAdd(b: nat, m: nat, n: nat)
    ensures Pow(b, m + n) == Pow(b, m) * Pow(b, n)
  {
    if m == 0 {
      assert Pow(b, 0) == 1;
    } else {
      PowAdd(b, m - 1, n);
      assert m + n - 1 == m - 1 + n;
      MulAssoc(b, Pow(b, m - 1), Pow(b, n));
    }
  }

  lemma Pow2Small()
    ensures Pow2(1) == 2 && Pow2(2) == 4 && Pow2(3) == 8 && Pow2(4) == 16 && Pow2(5) == 32 && Pow2(6) == 64
  {}

  lemma {:induction false} Pow2Mono(a: nat, b: nat)
    requires a <= b
    ensures Pow2(a) <= Pow2(b)
    decreases b
  {
    if a < b { Pow2Mono(a, b - 1); }
  }

  lemma {:induction false} Pow2StrictMono(a: nat, b: nat)
    requires a < b
    ensures 2 * Pow2(a) <= Pow2(b)
  {
    Pow2Mono(a + 1, b);
  }

  lemma MulMono(a: nat, b: nat, c: nat)
    requires a <= b
    ensures a * c <= b * c && c * a <= c * b
  {}

  lemma MulAssoc(a: int, b: int, c: int)
    ensures a * b * c == a * (b * c)
  {}

  lemma MulDistrib(a: int, b: int, c: int)
    ensures (a + b) * c == a * c + b * c
    ensures c * (a + b) == c * a + c * b
  {}

  /** The quotient and remainder are determined by the division equation. */
  lemma DivModUnique(a: nat, b: nat, q: nat, r: nat)
    requires a == q * b + r && r < b
    ensures a / b == q && a % b == r
  {
    var q', r' := a / b, a % b;
    assert a == q' * b + r' && 0 <= r' < b;
    MulDistrib(q', 1, b);
    MulDistrib(q, 1, b);
    MulMono(q' + 1, if q' < q then q else q' + 1, b);
    MulMono(q + 1, if q < q' then q' else q + 1, b);
  }

  /** Dividing twice is dividing by the product. */
  lemma DivDiv(a: nat, b: nat, c: nat)
    requires b > 0 && c > 0
    ensures b * c > 0 && a / b / c == a / (b * c)
  {
    var q, r := a / b, a % b;
    var q', r' := q / c, q % c;
    DivDivParts(a, b, c, q', r', r);
  }

  lemma DivDivParts(a: nat, b: nat, c: nat, q: nat, r: nat, r0: nat)
    requires r0 < b && r < c && a == (q * c + r) * b + r0
    ensures b * c > 0 && a / (b * c) == q
  {
    MulDistrib(q * c, r, b);
    MulAssoc(q, c, b);
    assert c * b == b * c;
    MulDistrib(r, 1, b);
    MulMono(r + 1, c, b);
    DivModUnique(a, b * c, q, r * b + r0);
  }

  lemma DivModParts(a: nat, b: nat)
    requires b > 0
    ensures a == a / b * b + a % b && a / b * b <= a < a / b * b + b && a % b < b
  {}

  lemma DivBound(a: nat, b: nat)
    requires b >= 1
    ensures 0 <= a / b <= a
  {
    DivModParts(a, b);
    MulMono(1, b, a / b);
  }

  lemma Pow2Square(n: nat, v: nat)
    requires Pow2(n) == v
    ensures Pow2(2 * n) == v * v
  {
    Pow2Add(n, n);
  }

  lemma DoubleParts(v: nat, p: nat, k: nat, b: nat, r: nat)
    requires b <= 1 && r < p && v == (2 * k + b) * p + r
    ensures v / (2 * p) == k && v % (2 * p) == b * p + r
  {
    MulDistrib(2 * k, b, p);
    MulAssoc(k, 2, p);
    assert 2 * k * p == k * (2 * p);
    DivModUnique(v, 2 * p, k, b * p + r);
  }

  /** Doubling a power of two adds one binary digit to quotient and remainder. */
  lemma DivModDouble(v: nat, p: nat)
    requires p > 0
    ensures v / (2 * p) == v / p / 2
    ensures v % (2 * p) == v / p % 2 * p + v % p
  {
    DivModParts(v, p);
    DoubleParts(v, p, v / p / 2, v / p % 2, v % p);
  }

  lemma MulDivExact(q: nat, b: nat)
    requires b > 0
    ensures q * b / b == q && q * b % b == 0
  {
    DivModUnique(q * b, b, q, 0);
  }

  /** The multiple of `b` at or below `a`. */
  lemma FloorMultiple(a: nat, b: nat)
    requires b > 0
    ensures a / b * b / b == a / b && a / b * b <= a < a / b * b + b
  {
    MulDivExact(a / b, b);
    DivModParts(a, b);
  }

  lemma AddMultiple(a: nat, q: nat, b: nat)
    requires b > 0
    ensures (a + q * b) / b == a / b + q && (a + q * b) % b == a % b
  {
    var k, r := a / b, a % b;
    assert a == k * b + r;
    assert (k + q) * b == k * b + q * b;
    DivModUnique(a + q * b, b, k + q, r);
  }
}
