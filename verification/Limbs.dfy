/**
 The big-integer gadgets, evaluated on values: a target becomes the 32-bit value it carries, a `connect` or an
 assertion becomes an accept condition. Limbs are least significant first.
 */
module Limbs {
  import opened Powers

  const BASE: nat := 0x1_0000_0000

  type U32 = x: int | 0 <= x < BASE

  lemma WordBound()
    ensures Pow2(32) == BASE
  {
    assert Pow2(8) == 256;
    Pow2Square(8, 256);
    Pow2Square(16, 0x1_0000);
  }

  function Val(l: seq<U32>): nat {
    if l == [] then 0 else Val(l[..|l| - 1]) + l[|l| - 1] * Pow(BASE, |l| - 1)
  }

  /** Limb `i`, or zero beyond the end. */
  function At(l: seq<U32>, i: nat): U32 { if i < |l| then l[i] else 0 }

  function MaxLen(a: seq<U32>, b: seq<U32>): nat { if |a| > |b| then |a| else |b| }

  /** The value of the first `n` limbs of a list continued with zeros. */
  function ValTo(l: seq<U32>, n: nat): nat {
    if n == 0 then 0 else ValTo(l, n - 1) + At(l, n - 1) * Pow(BASE, n - 1)
  }

  lemma {:induction false} ValToIsVal(l: seq<U32>, n: nat)
    ensures n <= |l| ==> ValTo(l, n) == Val(l[..n])
    ensures n >= |l| ==> ValTo(l, n) == Val(l)
  {
    if n == 0 {
      assert l[..0] == [];
    } else {
      ValToIsVal(l, n - 1);
      if n <= |l| { assert l[..n][..n - 1] == l[..n - 1]; }
      assert l[..|l|] == l;
      assert 0 * Pow(BASE, n - 1) == 0;
    }
  }

  lemma ValPush(l: seq<U32>, x: U32)
    ensures Val(l + [x]) == Val(l) + x * Pow(BASE, |l|)
  {
    assert (l + [x])[..|l|] == l;
  }

  lemma {:induction false} ValBound(l: seq<U32>)
    ensures Val(l) < Pow(BASE, |l|)
  {
    if l != [] {
      ValBound(l[..|l| - 1]);
      var p := Pow(BASE, |l| - 1);
      var top: int := l[|l| - 1];
      MulMono(top + 1, BASE, p);
      MulDistrib(top, 1, p);
    }
  }

  /** Lists of one length with one value are one list. */
  lemma {:induction false} ValInjective(a: seq<U32>, b: seq<U32>)
    requires |a| == |b| && Val(a) == Val(b)
    ensures a == b
  {
    if a != [] {
      var n := |a| - 1;
      ValBound(a[..n]);
      ValBound(b[..n]);
      DivModUnique(Val(a), Pow(BASE, n), a[n], Val(a[..n]));
      DivModUnique(Val(a), Pow(BASE, n), b[n], Val(b[..n]));
      ValInjective(a[..n], b[..n]);
      assert a == a[..n] + [a[n]] && b == b[..n] + [b[n]];
    }
  }

  /** The `n` low limbs of a number. */
  function ToLimbs(v: nat, n: nat): (l: seq<U32>)
    ensures |l| == n
  {
    if n == 0 then [] else [v % BASE] + ToLimbs(v / BASE, n - 1)
  }

  lemma {:induction false} ValFirst(l: seq<U32>)
    requires l != []
    ensures Val(l) == l[0] + BASE * Val(l[1..])
  {
    var n := |l| - 1;
    if n == 0 {
      assert l[..0] == [] && l[1..] == [] && Pow(BASE, 0) == 1;
    } else {
      ValFirst(l[..n]);
      assert l[..n][1..] == l[1..][..n - 1] && l[1..][n - 1] == l[n];
      var p := Pow(BASE, n - 1);
      assert l[n] * (BASE * p) == BASE * (l[n] * p) by { MulAssoc(l[n], p, BASE); }
    }
  }

  lemma {:induction false} ToLimbsValue(v: nat, n: nat)
    requires v < Pow(BASE, n)
    ensures Val(ToLimbs(v, n)) == v
  {
    if n > 0 {
      ToLimbsValue(v / BASE, n - 1);
      ValFirst(ToLimbs(v, n));
      assert ToLimbs(v, n)[1..] == ToLimbs(v / BASE, n - 1);
    }
  }

  // ------------------------------------------------ addition and subtraction

  lemma CarryStep(x: nat, carry: nat, p: nat)
    ensures x % BASE * p + x / BASE * (BASE * p) == x * p
  {
    MulAssoc(x / BASE, BASE, p);
    MulDistrib(x % BASE, x / BASE * BASE, p);
  }

  /** `add_biguint`: the exact sum, one limb longer than the longer operand. */
  method AddBiguint(a: seq<U32>, b: seq<U32>) returns (r: seq<U32>)
    ensures |r| == MaxLen(a, b) + 1 && Val(r) == Val(a) + Val(b)
  {
    var numLimbs := MaxLen(a, b);
    var combined: seq<U32> := [];
    var carry: U32 := 0;
    for i := 0 to numLimbs
      invariant |combined| == i && carry <= 1
      invariant Val(combined) + carry * Pow(BASE, i) == ValTo(a, i) + ValTo(b, i)
    {
      var sum := carry + At(a, i) + At(b, i);
      ValPush(combined, sum % BASE);
      ghost var p := Pow(BASE, i);
      CarryStep(sum, carry, p);
      MulDistrib(carry + At(a, i), At(b, i), p);
      MulDistrib(carry, At(a, i), p);
      combined := combined + [sum % BASE];
      carry := sum / BASE;
    }
    ValPush(combined, carry);
    ValToIsVal(a, numLimbs);
    ValToIsVal(b, numLimbs);
    r := combined + [carry];
  }

  /** Dropping the carry limb keeps the sum modulo the width. */
  lemma DropTopLimb(r: seq<U32>, v: nat)
    requires |r| >= 1 && Val(r) == v
    ensures Val(r[..|r| - 1]) == v % Pow(BASE, |r| - 1)
  {
    ValBound(r[..|r| - 1]);
    DivModUnique(v, Pow(BASE, |r| - 1), r[|r| - 1], Val(r[..|r| - 1]));
  }

  /** `sub_biguint`: the exact difference when there is no final borrow, wrapped around once otherwise. */
  method SubBiguint(a: seq<U32>, b: seq<U32>) returns (r: seq<U32>)
    ensures |r| == MaxLen(a, b)
    ensures Val(a) >= Val(b) ==> Val(r) == Val(a) - Val(b)
    ensures Val(a) < Val(b) ==> Val(r) == Val(a) - Val(b) + Pow(BASE, |r|)
  {
    var numLimbs := MaxLen(a, b);
    r := [];
    var borrow: int := 0;
    for i := 0 to numLimbs
      invariant |r| == i && 0 <= borrow <= 1
      invariant Val(r) - borrow * Pow(BASE, i) == ValTo(a, i) - ValTo(b, i)
    {
      var diff := At(a, i) - At(b, i) - borrow;
      var newBorrow := if diff < 0 then 1 else 0;
      ghost var p := Pow(BASE, i);
      BorrowStep(At(a, i), At(b, i), borrow, newBorrow, p);
      ValPush(r, diff + BASE * newBorrow);
      r := r + [diff + BASE * newBorrow];
      borrow := newBorrow;
    }
    ValToIsVal(a, numLimbs);
    ValToIsVal(b, numLimbs);
    ValBound(r);
  }

  lemma BorrowStep(x: int, y: int, borrow: int, newBorrow: int, p: int)
    ensures (x - y - borrow + BASE * newBorrow) * p - newBorrow * (BASE * p) == x * p - y * p - borrow * p
  {
    MulAssoc(newBorrow, BASE, p);
    assert newBorrow * BASE == BASE * newBorrow;
    MulDistrib(x - y - borrow, BASE * newBorrow, p);
    MulDistrib(x - y, -borrow, p);
    MulDistrib(x, -y, p);
    assert -y * p == -(y * p) && -borrow * p == -(borrow * p);
  }

  // ------------------------------------------------ multiplication by columns

  function Sum(s: seq<nat>): nat { if s == [] then 0 else Sum(s[..|s| - 1]) + s[|s| - 1] }

  function ColumnsVal(c: seq<seq<nat>>): nat {
    if c == [] then 0 else ColumnsVal(c[..|c| - 1]) + Sum(c[|c| - 1]) * Pow(BASE, |c| - 1)
  }

  lemma {:induction false} PushIntoColumn(c: seq<seq<nat>>, k: nat, x: nat)
    requires k < |c|
    ensures ColumnsVal(c[k := c[k] + [x]]) == ColumnsVal(c) + x * Pow(BASE, k)
  {
    var d := c[k := c[k] + [x]];
    var n := |c| - 1;
    if k == n {
      assert d[..n] == c[..n];
      assert (c[k] + [x])[..|c[k]|] == c[k];
      MulDistrib(Sum(c[k]), x, Pow(BASE, k));
    } else {
      PushIntoColumn(c[..n], k, x);
      assert d[..n] == c[..n][k := c[..n][k] + [x]];
    }
  }

  lemma {:induction false} EmptyColumns(n: nat, c: seq<seq<nat>>)
    requires |c| == n && forall k | 0 <= k < n :: c[k] == []
    ensures ColumnsVal(c) == 0
  {
    if n > 0 {
      EmptyColumns(n - 1, c[..n - 1]);
      assert Sum([]) == 0 && 0 * Pow(BASE, n - 1) == 0;
    }
  }

  lemma OneProduct(x: U32, y: U32, i: nat, j: nat)
    ensures x * y % BASE * Pow(BASE, i + j) + x * y / BASE * Pow(BASE, i + j + 1) ==
            x * Pow(BASE, i) * (y * Pow(BASE, j))
  {
    var p, q := Pow(BASE, i), Pow(BASE, j);
    PowAdd(BASE, i, j);
    CarryStep(x * y, 0, p * q);
    assert Pow(BASE, i + j + 1) == BASE * Pow(BASE, i + j);
    Shuffle(x, y, p, q);
  }

  lemma Shuffle(x: int, y: int, p: int, q: int)
    ensures x * y * (p * q) == x * p * (y * q)
  {
    MulAssoc(x, y, p * q);
    MulAssoc(y, p, q);
    assert y * p == p * y;
    MulAssoc(p, y, q);
    MulAssoc(x, p, y * q);
  }

  lemma ValTake(l: seq<U32>, i: nat)
    requires i < |l|
    ensures Val(l[..i + 1]) == Val(l[..i]) + l[i] * Pow(BASE, i)
  {
    assert l[..i + 1][..i] == l[..i];
  }

  function PushProduct(c: seq<seq<nat>>, k: nat, x: U32, y: U32): seq<seq<nat>>
    requires k + 1 < |c|
  {
    var d := c[k := c[k] + [x * y % BASE]];
    d[k + 1 := d[k + 1] + [x * y / BASE]]
  }

  lemma PushProductValue(c: seq<seq<nat>>, i: nat, j: nat, x: U32, y: U32)
    requires i + j + 1 < |c|
    ensures ColumnsVal(PushProduct(c, i + j, x, y)) == ColumnsVal(c) + x * Pow(BASE, i) * (y * Pow(BASE, j))
  {
    var d := c[i + j := c[i + j] + [x * y % BASE]];
    PushIntoColumn(c, i + j, x * y % BASE);
    PushIntoColumn(d, i + j + 1, x * y / BASE);
    OneProduct(x, y, i, j);
  }

  lemma RowStep(c: seq<seq<nat>>, start: nat, i: nat, j: nat, x: U32, b: seq<U32>, xp: nat)
    requires j < |b| && i + j + 1 < |c| && xp == x * Pow(BASE, i)
    requires ColumnsVal(c) == start + xp * Val(b[..j])
    ensures ColumnsVal(PushProduct(c, i + j, x, b[j])) == start + xp * Val(b[..j + 1])
  {
    PushProductValue(c, i, j, x, b[j]);
    ValTake(b, j);
    MulDistrib(Val(b[..j]), b[j] * Pow(BASE, j), xp);
  }

  lemma ProductParts(x: U32, y: U32)
    ensures 0 <= x * y && 0 <= x * y % BASE && 0 <= x * y / BASE
  {
    MulMono(0, x, y);
  }

  /** The products of one limb of `a`. */
  method MulRow(columns: seq<seq<nat>>, i: nat, x: U32, b: seq<U32>) returns (toAdd: seq<seq<nat>>)
    requires i + |b| < |columns|
    ensures |toAdd| == |columns| && ColumnsVal(toAdd) == ColumnsVal(columns) + x * Pow(BASE, i) * Val(b)
  {
    toAdd := columns;
    ghost var xp := x * Pow(BASE, i);
    assert b[..0] == [] && xp * 0 == 0;
    for j := 0 to |b|
      invariant |toAdd| == |columns|
      invariant ColumnsVal(toAdd) == ColumnsVal(columns) + xp * Val(b[..j])
    {
      RowStep(toAdd, ColumnsVal(columns), i, j, x, b, xp);
      ProductParts(x, b[j]);
      var product, carry := x * b[j] % BASE, x * b[j] / BASE;
      ghost var next := PushProduct(toAdd, i + j, x, b[j]);
      toAdd := toAdd[i + j := toAdd[i + j] + [product]];
      toAdd := toAdd[i + j + 1 := toAdd[i + j + 1] + [carry]];
      assert toAdd == next;
    }
    assert b[..|b|] == b;
  }

  /** The first loop: each product's low word in its column, the high word in the next one. */
  method MulColumns(a: seq<U32>, b: seq<U32>) returns (toAdd: seq<seq<nat>>)
    ensures |toAdd| == |a| + |b| && ColumnsVal(toAdd) == Val(a) * Val(b)
  {
    toAdd := seq(|a| + |b|, (i: nat) => []);
    EmptyColumns(|toAdd|, toAdd);
    assert a[..0] == [];
    for i := 0 to |a|
      invariant |toAdd| == |a| + |b|
      invariant ColumnsVal(toAdd) == Val(a[..i]) * Val(b)
    {
      ValTake(a, i);
      MulDistrib(Val(a[..i]), a[i] * Pow(BASE, i), Val(b));
      toAdd := MulRow(toAdd, i, a[i], b);
    }
    assert a[..|a|] == a;
  }

  /** `mul_biguint`: the exact product, and the pushed final carry is always zero. */
  method MulBiguint(a: seq<U32>, b: seq<U32>) returns (r: seq<U32>)
    ensures |r| == |a| + |b| + 1 && Val(r) == Val(a) * Val(b) && r[|a| + |b|] == 0
  {
    var toAdd := MulColumns(a, b);
    var combined: seq<U32> := [];
    var carry: nat := 0;
    for i := 0 to |toAdd|
      invariant |combined| == i
      invariant Val(combined) + carry * Pow(BASE, i) == ColumnsVal(toAdd[..i])
    {
      assert toAdd[..i + 1][..i] == toAdd[..i];
      var sum := Sum(toAdd[i]) + carry;
      ghost var p := Pow(BASE, i);
      ValPush(combined, sum % BASE);
      CarryStep(sum, 0, p);
      MulDistrib(Sum(toAdd[i]), carry, p);
      combined := combined + [sum % BASE];
      carry := sum / BASE;
    }
    assert toAdd[..|toAdd|] == toAdd;
    NoFinalCarry(a, b, Val(combined), carry);
    ValPush(combined, carry);
    r := combined + [carry];
  }

  lemma NoFinalCarry(a: seq<U32>, b: seq<U32>, low: nat, carry: nat)
    requires low + carry * Pow(BASE, |a| + |b|) == Val(a) * Val(b)
    ensures carry == 0
  {
    var p, q := Pow(BASE, |a|), Pow(BASE, |b|);
    ValBound(a);
    ValBound(b);
    PowAdd(BASE, |a|, |b|);
    MulMono(Val(a), p - 1, Val(b));
    MulMono(Val(b), q - 1, p - 1);
    MulDistrib(p, -1, q - 1);
    MulDistrib(q, -1, p);
    if carry >= 1 { MulMono(1, carry, p * q); }
  }

  // ------------------------------------------------ comparison and selection

  /** `connect_biguint`: limbs equal pairwise, the longer list's extra limbs zero. */
  method ConnectBiguint(lhs: seq<U32>, rhs: seq<U32>) returns (accepted: bool)
    ensures accepted <==> Val(lhs) == Val(rhs)
  {
    var minLimbs := if |lhs| < |rhs| then |lhs| else |rhs|;
    accepted := true;
    for i := 0 to minLimbs
      invariant accepted <==> forall k | 0 <= k < i :: lhs[k] == rhs[k]
    {
      accepted := accepted && lhs[i] == rhs[i];
    }
    for i := minLimbs to |lhs|
      invariant accepted <==> forall k | 0 <= k < i :: lhs[k] == At(rhs, k)
    {
      accepted := accepted && lhs[i] == 0;
    }
    for i := minLimbs to |rhs|
      invariant accepted <==> (forall k | 0 <= k < |lhs| :: lhs[k] == At(rhs, k)) &&
                              (forall k | minLimbs <= k < i :: rhs[k] == At(lhs, k))
    {
      accepted := accepted && rhs[i] == 0;
    }
    SameValueSameLimbs(lhs, rhs);
  }

  lemma SameValueSameLimbs(a: seq<U32>, b: seq<U32>)
    ensures Val(a) == Val(b) <==>
            (forall k | 0 <= k < |a| :: a[k] == At(b, k)) && (forall k | 0 <= k < |b| :: b[k] == At(a, k))
  {
    var n := MaxLen(a, b);
    var a', b' := seq(n, (i: nat) => At(a, i)), seq(n, (i: nat) => At(b, i));
    PaddedValue(a, a', n);
    PaddedValue(b, b', n);
    if Val(a) == Val(b) {
      ValInjective(a', b');
      assert forall k | 0 <= k < |a| :: a'[k] == a[k];
      assert forall k | 0 <= k < |b| :: b'[k] == b[k];
    }
    if (forall k | 0 <= k < |a| :: a[k] == At(b, k)) && (forall k | 0 <= k < |b| :: b[k] == At(a, k)) {
      assert a' == b';
    }
  }

  lemma {:induction false} PaddedValue(l: seq<U32>, l': seq<U32>, n: nat)
    requires n >= |l| && |l'| == n && forall k | 0 <= k < n :: l'[k] == At(l, k)
    ensures Val(l') == Val(l)
  {
    ValToIsVal(l, n);
    ValToIsVal(l', n);
    SameValTo(l, l', n);
  }

  lemma {:induction false} SameValTo(l: seq<U32>, l': seq<U32>, n: nat)
    requires forall k: nat | k < n :: At(l', k) == At(l, k)
    ensures ValTo(l', n) == ValTo(l, n)
  {
    if n > 0 { SameValTo(l, l', n - 1); }
  }

  /** `cmp_biguint` over the primitive comparison of padded lists. */
  predicate CmpBiguint(a: seq<U32>, b: seq<U32>) { Val(a) <= Val(b) }

  /** `biguint_is_equal`: a conjunction accumulated limb by limb. */
  method BiguintIsEqual(a: seq<U32>, b: seq<U32>) returns (equal: bool)
    requires |a| == |b|
    ensures equal <==> Val(a) == Val(b)
  {
    var allEqual := [true];
    for i := 0 to |a|
      invariant |allEqual| == i + 1
      invariant allEqual[i] <==> forall k | 0 <= k < i :: a[k] == b[k]
    {
      allEqual := allEqual + [allEqual[i] && a[i] == b[i]];
    }
    equal := allEqual[|a|];
    if equal { assert a == b; } else if Val(a) == Val(b) { ValInjective(a, b); }
  }

  function MulByBool(a: seq<U32>, b: bool): (r: seq<U32>)
    ensures |r| == |a|
  {
    seq(|a|, (i: nat) requires i < |a| => if b then a[i] else 0)
  }

  lemma {:induction false} MulByBoolValue(a: seq<U32>, b: bool)
    ensures Val(MulByBool(a, b)) == if b then Val(a) else 0
  {
    if b {
      assert MulByBool(a, b) == a;
    } else if a != [] {
      var n := |a| - 1;
      MulByBoolValue(a[..n], b);
      assert MulByBool(a, b)[..n] == MulByBool(a[..n], b);
    }
  }

  /** `if_biguint`: both branches masked, added, the carry limb trimmed. */
  method IfBiguint(b: bool, x: seq<U32>, y: seq<U32>) returns (r: seq<U32>)
    ensures |r| == MaxLen(x, y) && Val(r) == if b then Val(x) else Val(y)
  {
    MulByBoolValue(x, b);
    MulByBoolValue(y, !b);
    r := AddBiguint(MulByBool(y, !b), MulByBool(x, b));
    var v := if b then Val(x) else Val(y);
    DropTopLimb(r, v);
    ValBound(x);
    ValBound(y);
    PowMonoBase(|x|, |r| - 1);
    PowMonoBase(|y|, |r| - 1);
    DivModUnique(v, Pow(BASE, |r| - 1), 0, v);
    r := r[..|r| - 1];
  }

  lemma {:induction false} PowMonoBase(m: nat, n: nat)
    requires m <= n
    ensures Pow(BASE, m) <= Pow(BASE, n)
    decreases n
  {
    if m < n { PowMonoBase(m, n - 1); }
  }

  // ------------------------------------------------ division with remainder

  /** The constraints of `div_rem_biguint` on a candidate quotient and remainder. */
  method DivRemAccepts(a: seq<U32>, b: seq<U32>, div: seq<U32>, rem: seq<U32>) returns (accepted: bool)
    ensures accepted <==> Val(a) == Val(div) * Val(b) + Val(rem) && Val(rem) <= Val(b)
  {
    var divB := MulBiguint(div, b);
    var divBPlusRem := AddBiguint(divB, rem);
    var connected := ConnectBiguint(a, divBPlusRem);
    accepted := connected && CmpBiguint(rem, b);
  }

  /** Accepted values are the true quotient and remainder, or one less with the remainder equal to the divisor. */
  lemma AcceptedQuotient(a: nat, b: nat, div: nat, rem: nat)
    requires b > 0
    ensures a == div * b + rem && rem <= b <==>
            (div == a / b && rem == a % b) || (rem == b && div + 1 == a / b && a % b == 0)
  {
    DivModParts(a, b);
    MulDistrib(div, 1, b);
    if a == div * b + rem && rem <= b {
      if rem < b { DivModUnique(a, b, div, rem); } else { DivModUnique(a, b, div + 1, 0); }
    }
  }

  /** What the generator fills in: the quotient and remainder, when they fit in their limbs. */
  function GeneratedLimbs(v: nat, n: nat): (r: seq<U32>)
    requires v < Pow(BASE, n)
    ensures |r| == n && Val(r) == v
  {
    ToLimbsValue(v, n);
    ToLimbs(v, n)
  }

  /** Quotient and remainder fit when the divisor has a nonzero top limb and is no longer than a. */
  lemma QuotientFits(a: seq<U32>, b: seq<U32>)
    requires 1 <= |b| <= |a| && b[|b| - 1] != 0
    ensures Val(b) > 0
    ensures Val(a) / Val(b) < Pow(BASE, |a| - |b| + 1) && Val(a) % Val(b) < Pow(BASE, |b|)
  {
    var n, m := |a|, |b|;
    ValBound(a);
    ValBound(b);
    MulMono(1, b[m - 1], Pow(BASE, m - 1));
    PowAdd(BASE, n - m + 1, m - 1);
    DivModParts(Val(a), Val(b));
    QuotientBound(Val(a), Val(b), Pow(BASE, m - 1), Pow(BASE, n - m + 1));
  }

  /** The limbs the generator writes for them meet the constraints, with a remainder below the divisor. */
  lemma GeneratorFits(a: seq<U32>, b: seq<U32>) returns (div: seq<U32>, rem: seq<U32>)
    requires 1 <= |b| <= |a| && b[|b| - 1] != 0
    ensures Val(b) > 0
    ensures Val(a) / Val(b) < Pow(BASE, |a| - |b| + 1) && div == GeneratedLimbs(Val(a) / Val(b), |a| - |b| + 1)
    ensures Val(a) % Val(b) < Pow(BASE, |b|) && rem == GeneratedLimbs(Val(a) % Val(b), |b|)
    ensures Val(a) == Val(div) * Val(b) + Val(rem) && Val(rem) < Val(b)
  {
    QuotientFits(a, b);
    DivModParts(Val(a), Val(b));
    DivBound(Val(a), Val(b));
    div := GeneratedLimbs(Val(a) / Val(b), |a| - |b| + 1);
    rem := GeneratedLimbs(Val(a) % Val(b), |b|);
  }

  lemma QuotientBound(v: nat, b: nat, p: nat, w: nat)
    requires 1 <= p <= b && v < w * p
    ensures v / b < w
  {
    DivModParts(v, b);
    DivBound(v, b);
    if v / b >= w {
      MulMono(w, v / b, p);
      MulMono(p, b, v / b);
    }
  }
}
