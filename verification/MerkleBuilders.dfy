/** The loops that build Merkle roots and check branches, each tied to the reference tree of `Merkle`. */
module MerkleBuilders {
  import opened Powers
  import opened Merkle
  import opened Bits

  // ------------------------------------------------ flat list of hashers (circuits)

  /** What hasher `i` of the flat list outputs for `n` leaves. */
  function FlatHasher<D>(h: (D, D) -> D, leaves: seq<D>, i: nat): D
    requires |leaves| % 2 == 0 && i + 1 < |leaves|
    decreases i
  {
    var half := |leaves| / 2;
    if i < half then h(leaves[2 * i], leaves[2 * i + 1])
    else h(FlatHasher(h, leaves, 2 * (i - half)), FlatHasher(h, leaves, 2 * (i - half) + 1))
  }

  /** Hasher `i` is there and outputs `x`. */
  ghost predicate Outputs<D>(h: (D, D) -> D, leaves: seq<D>, i: nat, x: D) {
    |leaves| % 2 == 0 && i + 1 < |leaves| && FlatHasher(h, leaves, i) == x
  }

  lemma BottomHasher<D>(h: (D, D) -> D, zero: D, leaves: seq<D>, q: nat)
    requires |leaves| % 2 == 0 && q < |leaves| / 2
    ensures Outputs(h, leaves, q, Node(h, PadAt(zero, leaves), 1, q))
  {
    var f := PadAt(zero, leaves);
    assert Node(h, f, 0, 2 * q) == leaves[2 * q] && Node(h, f, 0, 2 * q + 1) == leaves[2 * q + 1];
  }

  /** The hasher `q` of a level of `p` hashes the pair `q` of the level below, which has twice as many. */
  lemma HasherOfPair<D>(h: (D, D) -> D, leaves: seq<D>, p: nat, below: nat, q: nat, a: D, b: D)
    requires |leaves| % 2 == 0 && below == 2 * p && 2 * below <= |leaves| && q < p
    requires Outputs(h, leaves, |leaves| - 2 * below + 2 * q, a)
    requires Outputs(h, leaves, |leaves| - 2 * below + (2 * q + 1), b)
    ensures Outputs(h, leaves, |leaves| - 2 * p + q, h(a, b))
  {
    var half, i := |leaves| / 2, |leaves| - 2 * p + q;
    assert i >= half && 2 * (i - half) == |leaves| - 4 * p + 2 * q;
  }

  lemma LevelsFit(n: nat, k: nat, d: nat)
    requires 1 <= d <= k && n == Pow2(k)
    ensures n % 2 == 0 && 2 * Pow2(k - d) <= n
    ensures if d == 1 then 2 * Pow2(k - d) == n
            else Pow2(k - (d - 1)) == 2 * Pow2(k - d) && 4 * Pow2(k - d) <= n
  {
    assert n == 2 * Pow2(k - 1);
    Pow2Mono(k - d, k - 1);
    if d > 1 { Pow2Mono(k - (d - 1), k - 1); }
  }

  /** Height `d` of the tree starts at hasher n - 2^(k-d+1). */
  lemma {:induction false} FlatHasherIsNode<D>(h: (D, D) -> D, zero: D, leaves: seq<D>, k: nat, d: nat, q: nat)
    requires 1 <= d <= k && |leaves| == Pow2(k) && q < Pow2(k - d)
    ensures 2 * Pow2(k - d) <= |leaves|
    ensures Outputs(h, leaves, |leaves| - 2 * Pow2(k - d) + q, Node(h, PadAt(zero, leaves), d, q))
    decreases d
  {
    LevelsFit(|leaves|, k, d);
    if d == 1 {
      BottomHasher(h, zero, leaves, q);
    } else {
      FlatHasherIsNode(h, zero, leaves, k, d - 1, 2 * q);
      FlatHasherIsNode(h, zero, leaves, k, d - 1, 2 * q + 1);
      var f := PadAt(zero, leaves);
      HasherOfPair(h, leaves, Pow2(k - d), Pow2(k - (d - 1)), q,
                   Node(h, f, d - 1, 2 * q), Node(h, f, d - 1, 2 * q + 1));
    }
  }

  ghost predicate AreHashers<D>(h: (D, D) -> D, leaves: seq<D>, hashers: seq<D>)
    requires |leaves| % 2 == 0 && |hashers| < |leaves|
  {
    forall t | 0 <= t < |hashers| :: hashers[t] == FlatHasher(h, leaves, t)
  }

  /** Two loops grow one list; the last hasher is the root. Used with SHA-256 and with Poseidon. */
  method FlatHashTreeRoot<D>(h: (D, D) -> D, zero: D, leaves: seq<D>, ghost k: nat) returns (root: D)
    requires k >= 1 && |leaves| == Pow2(k)
    ensures root == PaddedRoot(h, zero, leaves, k)
  {
    var n := |leaves|;
    assert n == 2 * Pow2(k - 1) && n % 2 == 0;
    var hashers: seq<D> := [];
    for i := 0 to n / 2
      invariant |hashers| == i && AreHashers(h, leaves, hashers)
    {
      hashers := hashers + [h(leaves[i * 2], leaves[i * 2 + 1])];
    }
    var j := 0;
    for i := n / 2 to n - 1
      invariant j == i - n / 2 && |hashers| == i && AreHashers(h, leaves, hashers)
    {
      hashers := hashers + [h(hashers[j * 2], hashers[j * 2 + 1])];
      j := j + 1;
    }
    root := hashers[n - 2];
    FlatHasherIsNode(h, zero, leaves, k, k, 0);
  }

  // ------------------------------------------------ in-place builder with zero subtrees

  /** The exponent of the least power of two that is at least `n`. */
  function CeilLog2(n: nat): (e: nat)
    requires n >= 1
    ensures n <= Pow2(e) && (e > 0 ==> Pow2(e - 1) < n)
    decreases n
  {
    if n == 1 then 0 else 1 + CeilLog2((n + 1) / 2)
  }

  lemma {:induction false} ZeroRootIsNode<D>(h: (D, D) -> D, zero: D, d: nat, q: nat)
    ensures Node(h, PadAt(zero, []), d, q) == ZeroRoot(h, zero, d)
  {
    if d > 0 {
      ZeroRootIsNode(h, zero, d - 1, 2 * q);
      ZeroRootIsNode(h, zero, d - 1, 2 * q + 1);
    }
  }

  /** One more level over a list that fits in 2^d positions: its sibling is a zero subtree. */
  lemma ExtendByZeroSubtree<D>(h: (D, D) -> D, zero: D, leaves: seq<D>, d: nat)
    requires |leaves| <= Pow2(d)
    ensures PaddedRoot(h, zero, leaves, d + 1) == h(PaddedRoot(h, zero, leaves, d), ZeroRoot(h, zero, d))
  {
    AllZeroNode(h, PadAt(zero, leaves), zero, d, 1);
  }

  method ZeroHashes<D>(h: (D, D) -> D, zero: D, treeDepth: nat) returns (zeroHashes: seq<D>)
    ensures |zeroHashes| == if treeDepth == 0 then 1 else treeDepth
    ensures forall i | 0 <= i < |zeroHashes| :: zeroHashes[i] == ZeroRoot(h, zero, i)
  {
    zeroHashes := [zero];
    var height := 0;
    while height < treeDepth - 1
      invariant 0 <= height && |zeroHashes| == height + 1 && (height == 0 || height < treeDepth)
      invariant forall i | 0 <= i < |zeroHashes| :: zeroHashes[i] == ZeroRoot(h, zero, i)
    {
      zeroHashes := zeroHashes + [h(zeroHashes[height], zeroHashes[height])];
      height := height + 1;
    }
  }

  /** Overwrites the front half of the live prefix with parents: level `d` becomes level `d + 1`. */
  method HashLevelInPlace<D>(h: (D, D) -> D, a: array<D>, width: nat, ghost f: nat -> D, ghost d: nat)
    requires 2 * width <= a.Length
    requires forall i: nat | i < 2 * width :: a[i] == Node(h, f, d, i)
    modifies a
    ensures forall i: nat | i < width :: a[i] == Node(h, f, d + 1, i)
  {
    for i := 0 to width
      invariant forall j: nat | j < i :: a[j] == Node(h, f, d + 1, j)
      invariant forall j: nat | i <= j && 2 * i <= j < 2 * width :: a[j] == Node(h, f, d, j)
    {
      a[i] := h(a[2 * i], a[2 * i + 1]);
    }
  }

  lemma LevelWidth(e: nat, d: nat, n: nat)
    requires d <= e && n == 2 * Pow2(d) && n <= Pow2(e)
    ensures d < e && Pow2(e - d) == 2 * Pow2(e - d - 1) <= Pow2(e)
    ensures n > 0 && Pow2(e) / n == Pow2(e - d - 1)
  {
    if d == e { assert false; }
    Pow2Add(e - d - 1, d + 1);
    MulDivExact(Pow2(e - d - 1), n);
    Pow2Mono(e - d, e);
  }

  /** `hashTreeRoot`: pads to a power of two, folds in place, then climbs with precomputed zero subtrees. */
  method HashTreeRoot<D>(h: (D, D) -> D, zero: D, input: seq<D>, treeDepth: nat) returns (root: D)
    requires |input| >= 1
    ensures var e := CeilLog2(|input|);
      root == PaddedRoot(h, zero, input, if e <= treeDepth then treeDepth else e)
  {
    var zeroHashes := ZeroHashes(h, zero, treeDepth);
    var e := CeilLog2(|input|);
    var treeLeaves := Pow2(e);
    var leaves := new D[treeLeaves]((i: nat) => if i < |input| then input[i] else zero);
    ghost var f := PadAt(zero, input);
    var n := 2;
    ghost var d := 0;
    assert treeLeaves / 1 == treeLeaves;
    while n <= treeLeaves
      invariant d <= e && n == 2 * Pow2(d)
      invariant forall i: nat | i < Pow2(e - d) :: i < leaves.Length && leaves[i] == Node(h, f, d, i)
      decreases e - d
    {
      LevelWidth(e, d, n);
      HashLevelInPlace(h, leaves, treeLeaves / n, f, d);
      n := n * 2;
      d := d + 1;
    }
    if d < e { Pow2Mono(d + 1, e); assert false; }
    root := ClimbZeros(h, zero, input, treeDepth, zeroHashes, e, leaves[0]);
  }

  /** The climb through the precomputed zero subtrees. */
  method ClimbZeros<D>(h: (D, D) -> D, ghost zero: D, ghost input: seq<D>, treeDepth: nat, zeroHashes: seq<D>,
                       e: nat, folded: D) returns (root: D)
    requires |input| <= Pow2(e) && folded == PaddedRoot(h, zero, input, e)
    requires |zeroHashes| >= treeDepth && forall i | 0 <= i < treeDepth :: zeroHashes[i] == ZeroRoot(h, zero, i)
    ensures root == PaddedRoot(h, zero, input, if e <= treeDepth then treeDepth else e)
  {
    root := folded;
    var i := e;
    while i < treeDepth
      invariant i == e || e <= i <= treeDepth
      invariant root == PaddedRoot(h, zero, input, i)
    {
      Pow2Mono(e, i);
      ExtendByZeroSubtree(h, zero, input, i);
      root := h(root, zeroHashes[i]);
      i := i + 1;
    }
  }

  // ------------------------------------------------ branch checks

  /** `verifyMerkleProof`. */
  method VerifyMerkleProof<D(==)>(h: (D, D) -> D, branch: seq<D>, root: D, leaf: D, index0: nat) returns (ok: bool)
    ensures ok == (BranchRoot(h, leaf, branch, index0) == root)
  {
    var hash, index := leaf, index0;
    for i := 0 to |branch|
      invariant BranchRoot(h, leaf, branch, index0) == BranchRoot(h, hash, branch[i..], index)
    {
      assert branch[i..][1..] == branch[i + 1..];
      hash := if index % 2 == 0 then h(hash, branch[i]) else h(branch[i], hash);
      index := index / 2;
    }
    ok := hash == root;
  }

  lemma {:induction false} SplitLeBit(index: nat, bits: nat, i: nat)
    requires i < bits
    ensures SplitLe(index, bits)[i] == (Up(index, i) % 2 == 1)
  {
    if i > 0 { SplitLeBit(index / 2, bits - 1, i - 1); }
  }

  lemma {:induction false} UpOnce(index: nat, i: nat)
    ensures Up(index, i + 1) == Up(index, i) / 2
  {
    if i > 0 { UpOnce(index / 2, i - 1); }
  }

  /** `is_valid_merkle_branch` as evaluation: the index is range-checked to depth + 1 bits, its top bit unused. */
  method CircuitMerkleBranch<D(==)>(h: (D, D) -> D, leaf: D, branch: seq<D>, index: nat, root: D) returns (ok: bool)
    requires |branch| >= 1
    ensures ok == (index < Pow2(|branch| + 1) && BranchRoot(h, leaf, branch, index) == root)
  {
    var depth := |branch|;
    if index >= Pow2(depth + 1) { return false; }
    var indexes := SplitLe(index, depth + 1);
    var hashers: seq<D> := [];
    for i := 0 to depth
      invariant |hashers| == i
      invariant BranchRoot(h, leaf, branch, index) ==
                BranchRoot(h, if i == 0 then leaf else hashers[i - 1], branch[i..], Up(index, i))
    {
      var current := if i == 0 then leaf else hashers[i - 1];
      SplitLeBit(index, depth + 1, i);
      UpOnce(index, i);
      assert branch[i..][1..] == branch[i + 1..];
      var el1 := if indexes[i] then branch[i] else current;
      var el2 := if indexes[i] then current else branch[i];
      hashers := hashers + [h(el1, el2)];
    }
    ok := hashers[depth - 1] == root;
  }
}
