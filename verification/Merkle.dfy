/**
 Merkle trees over an arbitrary pair hash. `Node` is the reference definition: every builder, branch check,
 circuit and cached store of this project is compared with it.
 */
module Merkle {
  import opened Powers

  /** The digest of node `q` at height `d`, over the leaves `f(0), f(1), ...`. */
  function Node<D>(h: (D, D) -> D, f: nat -> D, d: nat, q: nat): D {
    if d == 0 then f(q) else h(Node(h, f, d - 1, 2 * q), Node(h, f, d - 1, 2 * q + 1))
  }

  lemma NodeOfPair<D>(h: (D, D) -> D, f: nat -> D, d: nat, q: nat)
    requires d > 0
    ensures Node(h, f, d, q) == h(Node(h, f, d - 1, 2 * q), Node(h, f, d - 1, 2 * q + 1))
  {}

  /** A list of leaves continued with `zero` for ever. */
  function PadAt<D>(zero: D, leaves: seq<D>): nat -> D {
    (i: nat) => if i < |leaves| then leaves[i] else zero
  }

  /** The root of the list padded with zero leaves to 2^d positions. */
  function PaddedRoot<D>(h: (D, D) -> D, zero: D, leaves: seq<D>, d: nat): D {
    Node(h, PadAt(zero, leaves), d, 0)
  }

  function ZeroRoot<D>(h: (D, D) -> D, zero: D, d: nat): D {
    if d == 0 then zero else h(ZeroRoot(h, zero, d - 1), ZeroRoot(h, zero, d - 1))
  }

  ghost predicate NoCollision<D>(h: (D, D) -> D, a: D, b: D, c: D, d: D) {
    h(a, b) == h(c, d) ==> a == c && b == d
  }

  ghost predicate Injective<D(!new)>(h: (D, D) -> D) {
    forall a, b, c, d :: NoCollision(h, a, b, c, d)
  }

  /** Leaf functions that agree on the block under node `q`. */
  ghost predicate AgreeOn<D>(f: nat -> D, g: nat -> D, lo: nat, hi: nat) {
    forall i: nat | lo <= i < hi :: f(i) == g(i)
  }

  lemma {:induction false} NodeDependsOnBlock<D>(h: (D, D) -> D, f: nat -> D, g: nat -> D, d: nat, q: nat)
    requires AgreeOn(f, g, q * Pow2(d), (q + 1) * Pow2(d))
    ensures Node(h, f, d, q) == Node(h, g, d, q)
  {
    if d == 0 {
      assert f(q) == g(q);
    } else {
      ChildBlocks(d, q);
      NodeDependsOnBlock(h, f, g, d - 1, 2 * q);
      NodeDependsOnBlock(h, f, g, d - 1, 2 * q + 1);
    }
  }

  lemma ChildBlocks(d: nat, q: nat)
    requires d > 0
    ensures 2 * q * Pow2(d - 1) == q * Pow2(d)
    ensures (2 * q + 1) * Pow2(d - 1) == q * Pow2(d) + Pow2(d - 1)
    ensures (2 * q + 1 + 1) * Pow2(d - 1) == (q + 1) * Pow2(d) == q * Pow2(d) + Pow2(d)
  {
    var p := Pow2(d - 1);
    assert Pow2(d) == 2 * p;
    MulAssoc(q, 2, p);
    MulDistrib(2 * q, 1, p);
    MulDistrib(2 * q + 1, 1, p);
    MulDistrib(q, 1, 2 * p);
  }

  /** With an injective pair hash a root of known height determines every leaf below it. */
  lemma {:induction false} RootDeterminesLeaves<D(!new)>(
      h: (D, D) -> D, f: nat -> D, g: nat -> D, d: nat, q: nat, q': nat, k: nat)
    requires Injective(h) && Node(h, f, d, q) == Node(h, g, d, q') && k < Pow2(d)
    ensures f(q * Pow2(d) + k) == g(q' * Pow2(d) + k)
  {
    if d > 0 {
      ChildBlocks(d, q);
      ChildBlocks(d, q');
      assert NoCollision(h, Node(h, f, d - 1, 2 * q), Node(h, f, d - 1, 2 * q + 1),
                         Node(h, g, d - 1, 2 * q'), Node(h, g, d - 1, 2 * q' + 1));
      if k < Pow2(d - 1) {
        RootDeterminesLeaves(h, f, g, d - 1, 2 * q, 2 * q', k);
      } else {
        RootDeterminesLeaves(h, f, g, d - 1, 2 * q + 1, 2 * q' + 1, k - Pow2(d - 1));
      }
    }
  }

  /** A tree of trees is one tree: grafting subtree roots of height `a` as leaves. */
  lemma {:induction false} GraftedTree<D>(h: (D, D) -> D, f: nat -> D, g: nat -> D, a: nat, b: nat, q: nat)
    requires forall i: nat | q * Pow2(b) <= i < (q + 1) * Pow2(b) :: g(i) == Node(h, f, a, i)
    ensures Node(h, g, b, q) == Node(h, f, a + b, q)
  {
    if b == 0 {
      assert g(q) == Node(h, f, a, q);
    } else {
      ChildBlocks(b, q);
      GraftedTree(h, f, g, a, b - 1, 2 * q);
      GraftedTree(h, f, g, a, b - 1, 2 * q + 1);
    }
  }

  lemma {:induction false} AllZeroNode<D>(h: (D, D) -> D, f: nat -> D, zero: D, d: nat, q: nat)
    requires forall i: nat | q * Pow2(d) <= i < (q + 1) * Pow2(d) :: f(i) == zero
    ensures Node(h, f, d, q) == ZeroRoot(h, zero, d)
  {
    if d == 0 {
      assert f(q) == zero;
    } else {
      ChildBlocks(d, q);
      AllZeroNode(h, f, zero, d - 1, 2 * q);
      AllZeroNode(h, f, zero, d - 1, 2 * q + 1);
    }
  }

  /** Position by position, for lists continued with zero leaves. */
  lemma PaddedRootDeterminesLeaf<D(!new)>(h: (D, D) -> D, zero: D, s: seq<D>, t: seq<D>, d: nat, i: nat)
    requires Injective(h) && PaddedRoot(h, zero, s, d) == PaddedRoot(h, zero, t, d) && i < Pow2(d)
    ensures (if i < |s| then s[i] else zero) == (if i < |t| then t[i] else zero)
  {
    var f, g := PadAt(zero, s), PadAt(zero, t);
    RootDeterminesLeaves(h, f, g, d, 0, 0, i);
    assert f(i) == g(i);
  }

  /** Two padded roots of equal height agree exactly when the padded lists agree. */
  lemma PaddedRootDeterminesList<D(!new)>(h: (D, D) -> D, zero: D, s: seq<D>, t: seq<D>, d: nat)
    requires Injective(h) && |s| <= Pow2(d) && |t| <= Pow2(d)
    ensures PaddedRoot(h, zero, s, d) == PaddedRoot(h, zero, t, d) <==>
            forall i: nat :: PadAt(zero, s)(i) == PadAt(zero, t)(i)
  {
    var f, g := PadAt(zero, s), PadAt(zero, t);
    if PaddedRoot(h, zero, s, d) == PaddedRoot(h, zero, t, d) {
      forall i: nat ensures f(i) == g(i) {
        if i < Pow2(d) { RootDeterminesLeaves(h, f, g, d, 0, 0, i); }
      }
    } else {
      if forall i: nat :: f(i) == g(i) {
        NodeDependsOnBlock(h, f, g, d, 0);
        assert false;
      }
    }
  }

  // ---------------------------------------------------------------- branches

  /** Climbs from `node` along `branch`; bit i of `index` says on which side sibling i stands. */
  function BranchRoot<D>(h: (D, D) -> D, node: D, branch: seq<D>, index: nat): D
    decreases |branch|
  {
    if branch == [] then node
    else
      BranchRoot(h, if index % 2 == 0 then h(node, branch[0]) else h(branch[0], node), branch[1..], index / 2)
  }

  function SiblingOf(q: nat): nat { if q % 2 == 0 then q + 1 else q - 1 }

  /** The siblings met on the way up from node `q` at height `d`. */
  function Path<D>(h: (D, D) -> D, f: nat -> D, d: nat, q: nat, len: nat): (p: seq<D>)
    ensures |p| == len
    decreases len
  {
    if len == 0 then [] else [Node(h, f, d, SiblingOf(q))] + Path(h, f, d + 1, q / 2, len - 1)
  }

  lemma ParentOf<D>(h: (D, D) -> D, f: nat -> D, d: nat, q: nat)
    ensures Node(h, f, d + 1, q / 2) ==
            if q % 2 == 0 then h(Node(h, f, d, q), Node(h, f, d, SiblingOf(q)))
            else h(Node(h, f, d, SiblingOf(q)), Node(h, f, d, q))
  {
    assert q == 2 * (q / 2) + q % 2;
  }

  /** The ancestor of position `q`, `len` levels up. */
  function Up(q: nat, len: nat): nat
    decreases len
  {
    if len == 0 then q else Up(q / 2, len - 1)
  }

  ghost predicate SameLowBits(a: nat, b: nat, len: nat)
    decreases len
  {
    len == 0 || (a % 2 == b % 2 && SameLowBits(a / 2, b / 2, len - 1))
  }

  lemma {:induction false} UpIsQuotient(q: nat, len: nat)
    ensures Up(q, len) == q / Pow2(len)
    decreases len
  {
    if len > 0 {
      UpIsQuotient(q / 2, len - 1);
      DivDiv(q, 2, Pow2(len - 1));
    }
  }

  /** Adding a multiple of 2^len leaves the low bits alone. */
  lemma {:induction false} LowBitsOfSum(q: nat, k: nat, len: nat)
    ensures SameLowBits(k * Pow2(len) + q, q, len)
    decreases len
  {
    if len > 0 {
      var p := Pow2(len - 1);
      assert k * (2 * p) == 2 * (k * p);
      assert (2 * (k * p) + q) / 2 == k * p + q / 2;
      LowBitsOfSum(q / 2, k, len - 1);
    }
  }

  /** Every sibling path climbs to the ancestor, for any index that agrees with the position in its low bits. */
  lemma {:induction false} PathClimbs<D>(h: (D, D) -> D, f: nat -> D, d: nat, q: nat, len: nat, index: nat)
    requires SameLowBits(index, q, len)
    ensures BranchRoot(h, Node(h, f, d, q), Path(h, f, d, q, len), index) == Node(h, f, d + len, Up(q, len))
    decreases len
  {
    if len > 0 {
      ParentOf(h, f, d, q);
      assert Path(h, f, d, q, len)[1..] == Path(h, f, d + 1, q / 2, len - 1);
      PathClimbs(h, f, d + 1, q / 2, len - 1, index / 2);
    }
  }

  /** With an injective hash, whatever climbs to a node of the tree was on the path of that tree. */
  lemma {:induction false} ClimbingIsOnPath<D(!new)>(
      h: (D, D) -> D, f: nat -> D, d: nat, q: nat, x: D, branch: seq<D>, index: nat)
    requires Injective(h) && SameLowBits(index, q, |branch|)
    requires BranchRoot(h, x, branch, index) == Node(h, f, d + |branch|, Up(q, |branch|))
    ensures x == Node(h, f, d, q) && branch == Path(h, f, d, q, |branch|)
    decreases |branch|
  {
    if |branch| > 0 {
      ParentOf(h, f, d, q);
      var up := if index % 2 == 0 then h(x, branch[0]) else h(branch[0], x);
      ClimbingIsOnPath(h, f, d + 1, q / 2, up, branch[1..], index / 2);
      var node, sibling := Node(h, f, d, q), Node(h, f, d, SiblingOf(q));
      assert NoCollision(h, x, branch[0], node, sibling) && NoCollision(h, branch[0], x, sibling, node);
      assert branch == [branch[0]] + branch[1..];
    }
  }

  /** Completeness and soundness of branches of full height, for a leaf position or its generalized index. */
  lemma BranchVerifiesExactly<D(!new)>(
      h: (D, D) -> D, f: nat -> D, d: nat, position: nat, index: nat, x: D, branch: seq<D>)
    requires Injective(h) && position < Pow2(d) && |branch| == d
    requires index == position || index == Pow2(d) + position
    ensures BranchRoot(h, x, branch, index) == Node(h, f, d, 0) <==>
            x == f(position) && branch == Path(h, f, 0, position, d)
  {
    UpIsQuotient(position, d);
    DivModUnique(position, Pow2(d), 0, position);
    LowBitsOfSum(position, 0, d);
    LowBitsOfSum(position, 1, d);
    PathClimbs(h, f, 0, position, d, index);
    if BranchRoot(h, x, branch, index) == Node(h, f, d, 0) {
      ClimbingIsOnPath(h, f, 0, position, x, branch, index);
    }
  }
}
