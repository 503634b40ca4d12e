/**
 The pipeline with the mapper's own circuits as its hashes: what it stores at the top is the output of a full tree of
 mapper proofs, and the final circuit takes that output exactly when the number of validators is even.
 */
module CommitmentJoin {
  import opened Powers
  import opened Merkle
  import opened Limbs
  import opened BalanceTree
  import opened FinalCircuit
  import Producer = CommitmentProducer
  import Pipeline = CommitmentPipeline
  import Proof = CommitmentProof
  import Batches = CommitmentBatches

  /** How a validator is turned into the targets of its circuit. */
  type Targets = Producer.Validator -> ValidatorTargets

  /** The pipeline over the two roots of the mapper's circuits. */
  function MapperScheme(hs: Hashes, shaRoot: ValidatorTargets -> Digest, targets: Targets, levels: nat)
      : Pipeline.Scheme<Roots>
  {
    Pipeline.Scheme((v: Producer.Validator) => Roots(hs.commit(targets(v)), shaRoot(targets(v))),
                    (l: Roots, r: Roots) => Combine(hs, false, l, r), Roots(ZeroHash(), ZeroChunk()), levels)
  }

  /** Its SHA-256 side alone. */
  function ShaScheme(hs: Hashes, shaRoot: ValidatorTargets -> Digest, targets: Targets, levels: nat)
      : Pipeline.Scheme<Digest>
  {
    Pipeline.Scheme((v: Producer.Validator) => shaRoot(targets(v)), hs.sha, ZeroChunk(), levels)
  }

  /** The mapper proofs under node `q` of height `d`: pairs beyond the list are blanked out. */
  function TreeOf(targets: Targets, cur: seq<Producer.Validator>, d: nat, q: nat): MapperTree {
    if d == 0 then First(targets(if q < |cur| then cur[q] else Producer.ZeroValidator()))
    else if d == 1 && 2 * q >= |cur| then
      Next(true, First(targets(Producer.ZeroValidator())), First(targets(Producer.ZeroValidator())))
    else Next(false, TreeOf(targets, cur, d - 1, 2 * q), TreeOf(targets, cur, d - 1, 2 * q + 1))
  }

  lemma {:induction false} TreeIsFull(targets: Targets, cur: seq<Producer.Validator>, d: nat, q: nat)
    ensures FullMapper(TreeOf(targets, cur, d, q), d) && ZeroAtBottom(TreeOf(targets, cur, d, q))
  {
    if d > 0 {
      TreeIsFull(targets, cur, d - 1, 2 * q);
      TreeIsFull(targets, cur, d - 1, 2 * q + 1);
    }
  }

  /** A pair hash that is the mapper's inner circuit without the flag. */
  ghost predicate IsCombine(hs: Hashes, pair: (Roots, Roots) -> Roots) {
    forall a, b :: pair(a, b) == Combine(hs, false, a, b)
  }

  /** The two roots of position `i`: a validator's, the zero validator's beside an odd last one, or nothing. */
  function LeafRoots(hs: Hashes, shaRoot: ValidatorTargets -> Digest, targets: Targets, cur: seq<Producer.Validator>,
                     i: nat): Roots
  {
    if i < |cur| || (i == |cur| && i % 2 == 1) then MapperRoots(hs, shaRoot, TreeOf(targets, cur, 0, i))
    else Roots(ZeroHash(), ZeroChunk())
  }

  ghost predicate AreLeafRoots(hs: Hashes, shaRoot: ValidatorTargets -> Digest, targets: Targets,
                               cur: seq<Producer.Validator>, f: nat -> Roots) {
    forall i: nat :: f(i) == LeafRoots(hs, shaRoot, targets, cur, i)
  }

  lemma SchemeIsMapper(hs: Hashes, shaRoot: ValidatorTargets -> Digest, targets: Targets, levels: nat,
                       cur: seq<Producer.Validator>)
    ensures var sc := MapperScheme(hs, shaRoot, targets, levels);
      IsCombine(hs, sc.pair) && AreLeafRoots(hs, shaRoot, targets, cur, Proof.EffLeaf(sc, cur))
  {}

  /** A pair of validators, or a blanked pair. */
  lemma PairOfLeaves(hs: Hashes, shaRoot: ValidatorTargets -> Digest, targets: Targets, cur: seq<Producer.Validator>,
                     q: nat)
    ensures MapperRoots(hs, shaRoot, TreeOf(targets, cur, 1, q)) ==
      Combine(hs, false, LeafRoots(hs, shaRoot, targets, cur, 2 * q), LeafRoots(hs, shaRoot, targets, cur, 2 * q + 1))
  {
    if 2 * q < |cur| {
      assert TreeOf(targets, cur, 1, q) ==
        Next(false, TreeOf(targets, cur, 0, 2 * q), TreeOf(targets, cur, 0, 2 * q + 1));
    }
  }

  lemma InnerTree(targets: Targets, cur: seq<Producer.Validator>, d: nat, q: nat)
    requires d >= 2
    ensures TreeOf(targets, cur, d, q) ==
            Next(false, TreeOf(targets, cur, d - 1, 2 * q), TreeOf(targets, cur, d - 1, 2 * q + 1))
  {}

  lemma RootsOfInner(hs: Hashes, shaRoot: ValidatorTargets -> Digest, pair: (Roots, Roots) -> Roots,
                     l: MapperTree, r: MapperTree, a: Roots, b: Roots)
    requires IsCombine(hs, pair) && MapperRoots(hs, shaRoot, l) == a && MapperRoots(hs, shaRoot, r) == b
    ensures MapperRoots(hs, shaRoot, Next(false, l, r)) == pair(a, b)
  {}

  ghost predicate PairsAreNodes(hs: Hashes, shaRoot: ValidatorTargets -> Digest, targets: Targets,
                                cur: seq<Producer.Validator>, pair: (Roots, Roots) -> Roots, f: nat -> Roots) {
    forall q: nat :: MapperRoots(hs, shaRoot, TreeOf(targets, cur, 1, q)) == Node(pair, f, 1, q)
  }

  lemma {:induction false} UpperTreeIsNode(
      hs: Hashes, shaRoot: ValidatorTargets -> Digest, targets: Targets, cur: seq<Producer.Validator>,
      pair: (Roots, Roots) -> Roots, f: nat -> Roots, d: nat, q: nat)
    requires d >= 1 && IsCombine(hs, pair) && PairsAreNodes(hs, shaRoot, targets, cur, pair, f)
    ensures MapperRoots(hs, shaRoot, TreeOf(targets, cur, d, q)) == Node(pair, f, d, q)
  {
    if d > 1 {
      UpperTreeIsNode(hs, shaRoot, targets, cur, pair, f, d - 1, 2 * q);
      UpperTreeIsNode(hs, shaRoot, targets, cur, pair, f, d - 1, 2 * q + 1);
      InnerTree(targets, cur, d, q);
      NodeOfPair(pair, f, d, q);
      RootsOfInner(hs, shaRoot, pair, TreeOf(targets, cur, d - 1, 2 * q), TreeOf(targets, cur, d - 1, 2 * q + 1),
                   Node(pair, f, d - 1, 2 * q), Node(pair, f, d - 1, 2 * q + 1));
    }
  }

  /** Any tree over these leaves with this pair hash is made of the outputs of mapper proofs. */
  lemma TreeIsNode(
      hs: Hashes, shaRoot: ValidatorTargets -> Digest, targets: Targets, cur: seq<Producer.Validator>,
      pair: (Roots, Roots) -> Roots, f: nat -> Roots, d: nat, q: nat)
    requires d >= 1 && IsCombine(hs, pair) && AreLeafRoots(hs, shaRoot, targets, cur, f)
    ensures MapperRoots(hs, shaRoot, TreeOf(targets, cur, d, q)) == Node(pair, f, d, q)
  {
    forall p: nat ensures MapperRoots(hs, shaRoot, TreeOf(targets, cur, 1, p)) == Node(pair, f, 1, p) {
      PairOfLeaves(hs, shaRoot, targets, cur, p);
      assert Node(pair, f, 1, p) == pair(f(2 * p), f(2 * p + 1));
    }
    UpperTreeIsNode(hs, shaRoot, targets, cur, pair, f, d, q);
  }

  /** The blocks the pipeline computes are the outputs of these proofs. */
  lemma TopOfTree(hs: Hashes, shaRoot: ValidatorTargets -> Digest, targets: Targets, levels: nat,
                  cur: seq<Producer.Validator>)
    requires levels >= 1
    ensures MapperRoots(hs, shaRoot, TreeOf(targets, cur, levels, 0)) ==
            Proof.BlockDigest(MapperScheme(hs, shaRoot, targets, levels), cur, levels, 0)
  {
    var sc := MapperScheme(hs, shaRoot, targets, levels);
    SchemeIsMapper(hs, shaRoot, targets, levels, cur);
    TreeIsNode(hs, shaRoot, targets, cur, sc.pair, Proof.EffLeaf(sc, cur), levels, 0);
    DivModUnique(0, Pow2(levels), 0, 0);
  }

  lemma {:induction false} ShaOfNode(hs: Hashes, shaRoot: ValidatorTargets -> Digest, targets: Targets, levels: nat,
                                     cur: seq<Producer.Validator>, d: nat, q: nat)
    ensures var sc := MapperScheme(hs, shaRoot, targets, levels);
      Node(sc.pair, Proof.EffLeaf(sc, cur), d, q).sha ==
      Node(hs.sha, Proof.EffLeaf(ShaScheme(hs, shaRoot, targets, levels), cur), d, q)
  {
    if d > 0 {
      ShaOfNode(hs, shaRoot, targets, levels, cur, d - 1, 2 * q);
      ShaOfNode(hs, shaRoot, targets, levels, cur, d - 1, 2 * q + 1);
    }
  }

  /** A state whose validators are those of the list. */
  ghost predicate StateOf(targets: Targets, cur: seq<Producer.Validator>, s: BeaconState) {
    |s.validators| == |cur| && forall i | 0 <= i < |cur| :: s.validators[i] == targets(cur[i])
  }

  lemma ShaOfTree(hs: Hashes, shaRoot: ValidatorTargets -> Digest, targets: Targets, levels: nat,
                  cur: seq<Producer.Validator>)
    requires levels >= 1
    ensures MapperRoots(hs, shaRoot, TreeOf(targets, cur, levels, 0)).sha ==
            Proof.BlockDigest(ShaScheme(hs, shaRoot, targets, levels), cur, levels, 0)
  {
    TopOfTree(hs, shaRoot, targets, levels, cur);
    ShaOfNode(hs, shaRoot, targets, levels, cur, levels, 0);
    DivModUnique(0, Pow2(levels), 0, 0);
  }

  lemma ListRootIsStateRoot(hs: Hashes, shaRoot: ValidatorTargets -> Digest, targets: Targets, levels: nat,
                            cur: seq<Producer.Validator>, s: BeaconState)
    requires StateOf(targets, cur, s)
    ensures Batches.ListRoot(ShaScheme(hs, shaRoot, targets, levels), cur) ==
            PaddedRoot(hs.sha, ZeroChunk(), StateValidatorLeaves(shaRoot, s), levels)
  {
    Batches.ListRootOf(ShaScheme(hs, shaRoot, targets, levels), cur, StateValidatorLeaves(shaRoot, s));
  }

  /** The proofs expose the state's own validators root exactly for an even number of validators. */
  lemma MapperRootExact(hs: Hashes, shaRoot: ValidatorTargets -> Digest, targets: Targets, levels: nat,
                        cur: seq<Producer.Validator>, s: BeaconState)
    requires Injective(hs.sha) && SoundLeaves(hs, shaRoot) && levels >= 1 && |cur| <= Pow2(levels)
    requires StateOf(targets, cur, s)
    ensures (MapperRoots(hs, shaRoot, TreeOf(targets, cur, levels, 0)).sha ==
             PaddedRoot(hs.sha, ZeroChunk(), StateValidatorLeaves(shaRoot, s), levels)) <==> |cur| % 2 == 0
  {
    var sc, z := ShaScheme(hs, shaRoot, targets, levels), targets(Producer.ZeroValidator());
    ShaOfTree(hs, shaRoot, targets, levels, cur);
    ListRootIsStateRoot(hs, shaRoot, targets, levels, cur, s);
    assert SoundPair(hs, shaRoot, z, z);
    Batches.RootIsListRootIffEven(sc, cur);
  }

  /** What stands at the top of the store after a history is the output of a full tree of mapper proofs. */
  lemma StoredRootIsMapperTree(
      hs: Hashes, shaRoot: ValidatorTargets -> Digest, targets: Targets, levels: nat,
      s: Pipeline.State<Roots>, rounds: seq<Pipeline.Round<Roots>>)
    requires levels >= 1 && rounds != [] && Pipeline.FinalList([], rounds) != []
    requires Pipeline.Initial(s)
    requires Pipeline.ValidHistory(MapperScheme(hs, shaRoot, targets, levels), s, [], rounds)
    ensures var r, t := rounds[|rounds| - 1], TreeOf(targets, Pipeline.FinalList([], rounds), levels, 0);
      && FullMapper(t, levels) && ZeroAtBottom(t) && |r.states| == |r.moves| + 1
      && var store := r.states[|r.moves|].store;
         (levels, 0) in store && store[(levels, 0)] == Pipeline.Fresh(MapperRoots(hs, shaRoot, t))
  {
    var sc, cur := MapperScheme(hs, shaRoot, targets, levels), Pipeline.FinalList([], rounds);
    Batches.RootAfterHistory(sc, s, rounds);
    TreeIsFull(targets, cur, levels, 0);
    TopOfTree(hs, shaRoot, targets, levels, cur);
  }

  ghost predicate Acceptable(
      hs: Hashes, r: Range, m: Roots, stateRoot: Digest, size: Digest, slot: seq<U32>, slotChunk: Chunk)
  {
    exists div, rem, b: Branches :: |b.validators| == |b.balances| == |b.slot| == 5 &&
                                    FinalAccepts(hs, r, m, stateRoot, size, slot, slotChunk, div, rem, b)
  }

  /**
   The whole path from the pipeline to the final circuit: against the root of the state that holds the list, and with
   a balance proof over the same commitment, there is a final proof exactly for an even number of validators.
   */
  lemma MapperTreeIsAcceptedIffEven(
      hs: Hashes, shaRoot: ValidatorTargets -> Digest, targets: Targets, levels: nat, cur: seq<Producer.Validator>,
      s: BeaconState, r: Range, fields: nat -> Digest, stateRoot: Digest, slot: seq<U32>)
    requires Injective(hs.sha) && SoundLeaves(hs, shaRoot) && levels >= 2 && |cur| <= Pow2(levels)
    requires StateOf(targets, cur, s) && IsStateRoot(hs, shaRoot, s, levels, fields, stateRoot) && |s.slot| == 256
    requires r.balancesRoot == PaddedRoot(hs.sha, ZeroChunk(), s.balances, levels - 2)
    requires r.commitment == MapperRoots(hs, shaRoot, TreeOf(targets, cur, levels, 0)).poseidon
    requires Val(r.epoch) == Val(slot) / 32
    ensures var m := MapperRoots(hs, shaRoot, TreeOf(targets, cur, levels, 0));
      Acceptable(hs, r, m, stateRoot, s.size, slot, s.slot) <==> |cur| % 2 == 0
  {
    var m := MapperRoots(hs, shaRoot, TreeOf(targets, cur, levels, 0));
    MapperRootExact(hs, shaRoot, targets, levels, cur, s);
    if |cur| % 2 == 0 {
      var div, rem, b := HonestProofIsAccepted(hs, shaRoot, r, m, s, levels, fields, stateRoot, slot, s.slot);
    }
    if Acceptable(hs, r, m, stateRoot, s.size, slot, s.slot) {
      var div, rem, b: Branches :| |b.validators| == |b.balances| == |b.slot| == 5 &&
                                   FinalAccepts(hs, r, m, stateRoot, s.size, slot, s.slot, div, rem, b);
      AcceptedRootsAreState(hs, shaRoot, r, m, s, levels, fields, stateRoot, s.size, slot, s.slot, div, rem, b);
    }
  }
}
