/**
 The commitment mapper's inner circuit and the final circuit, which joins the tree of validators with the sum of
 their balances and with the beacon state. The main theorem: whatever the final circuit accepts is the sum of the
 state's own balances over the state's own validators.
 */
module FinalCircuit {
  import opened Powers
  import opened Goldilocks
  import opened Merkle
  import opened MerkleBuilders
  import opened Limbs
  import opened SszBits
  import opened BalanceTree

  // ------------------------------------------------ the commitment mapper's tree

  /** The two roots a mapper proof exposes. */
  datatype Roots = Roots(poseidon: HashOut, sha: Digest)

  /** Elements of the field in their canonical form. */
  predicate Canonical(x: HashOut) { forall i | 0 <= i < 4 :: x[i] < P }

  /** Every element times the flag. */
  method MulElements(x: HashOut, isOne: nat) returns (r: HashOut)
    requires isOne <= 1 && Canonical(x)
    ensures r == if isOne == 1 then x else ZeroHash()
  {
    var elements: seq<nat> := [0, 0, 0, 0];
    for i := 0 to 4
      invariant |elements| == 4 && forall j | 0 <= j < i :: elements[j] == if isOne == 1 then x[j] else 0
    {
      TimesFlag(x[i], isOne);
      elements := elements[i := FMul(x[i], isOne)];
    }
    r := elements;
  }

  /** Every bit times the flag, connected to a bit of the hasher's message. */
  method MulBits(x: Digest, isOne: nat) returns (r: Digest)
    requires isOne <= 1 && |x| == 256
    ensures r == if isOne == 1 then x else ZeroChunk()
  {
    var bits: seq<bool> := [];
    for i := 0 to 256
      invariant |bits| == i && forall j | 0 <= j < i :: bits[j] == (isOne == 1 && x[j])
    {
      TimesFlag(Bit(x[i]), isOne);
      bits := bits + [FMul(Bit(x[i]), isOne) == 1];
    }
    assert bits == if isOne == 1 then x else ZeroChunk();
    r := bits;
  }

  lemma TimesFlag(x: nat, flag: nat)
    requires x < P && flag <= 1
    ensures FMul(x, flag) == if flag == 1 then x else 0
  {
    assert x * flag == if flag == 1 then x else 0;
  }

  function Mask(isZero: bool, r: Roots): Roots { if isZero then Roots(ZeroHash(), ZeroChunk()) else r }

  function Combine(hs: Hashes, isZero: bool, l: Roots, r: Roots): Roots {
    var a, b := Mask(isZero, l), Mask(isZero, r);
    Roots(hs.poseidon(a.poseidon, b.poseidon), hs.sha(a.sha, b.sha))
  }

  /** `build_commitment_mapper_inner_circuit`: both hashes in step over the masked children. */
  method MapperInner(hs: Hashes, pt1: Roots, pt2: Roots, isZero: bool) returns (r: Roots)
    requires Canonical(pt1.poseidon) && Canonical(pt2.poseidon) && |pt1.sha| == |pt2.sha| == 256
    ensures r == Combine(hs, isZero, pt1, pt2)
    ensures !isZero ==> r == Roots(hs.poseidon(pt1.poseidon, pt2.poseidon), hs.sha(pt1.sha, pt2.sha))
    ensures isZero ==>
      r.poseidon == hs.poseidon([0, 0, 0, 0], [0, 0, 0, 0]) && r.sha == hs.sha(ZeroChunk(), ZeroChunk())
  {
    var isOne := 1 - Bit(isZero);
    var poseidon1 := MulElements(pt1.poseidon, isOne);
    var sha1 := MulBits(pt1.sha, isOne);
    var poseidon2 := MulElements(pt2.poseidon, isOne);
    var sha2 := MulBits(pt2.sha, isOne);
    r := Roots(hs.poseidon(poseidon1, poseidon2), hs.sha(sha1, sha2));
  }

  datatype MapperTree = First(validator: ValidatorTargets) | Next(isZero: bool, left: MapperTree, right: MapperTree)

  ghost predicate FullMapper(t: MapperTree, height: nat) {
    match t
    case First(_) => height == 0
    case Next(_, l, r) => height > 0 && FullMapper(l, height - 1) && FullMapper(r, height - 1)
  }

  /** Only pairs of validators are blanked out: the flag is set at the lowest inner level alone. */
  ghost predicate ZeroAtBottom(t: MapperTree) {
    match t
    case First(_) => true
    case Next(isZero, l, r) => (isZero ==> l.First? && r.First?) && ZeroAtBottom(l) && ZeroAtBottom(r)
  }

  /** The roots of the proof at the top of the tree; the first level hashes the same validator both ways. */
  function MapperRoots(hs: Hashes, shaRoot: ValidatorTargets -> Digest, t: MapperTree): Roots {
    match t
    case First(v) => Roots(hs.commit(v), shaRoot(v))
    case Next(isZero, l, r) => Combine(hs, isZero, MapperRoots(hs, shaRoot, l), MapperRoots(hs, shaRoot, r))
  }

  datatype Slot = Empty | Holds(validator: ValidatorTargets)

  /** What the tree holds, position by position. */
  function Slots(t: MapperTree): seq<Slot> {
    match t
    case First(v) => [Holds(v)]
    case Next(isZero, l, r) => if isZero then [Empty, Empty] else Slots(l) + Slots(r)
  }

  function PoseidonLeaf(hs: Hashes, s: Slot): HashOut {
    if s.Empty? then ZeroHash() else hs.commit(s.validator)
  }

  function ShaLeaf(shaRoot: ValidatorTargets -> Digest, s: Slot): Digest {
    if s.Empty? then ZeroChunk() else shaRoot(s.validator)
  }

  function PoseidonLeaves(hs: Hashes, s: seq<Slot>): (r: seq<HashOut>)
    ensures |r| == |s|
  {
    seq(|s|, (i: nat) requires i < |s| => PoseidonLeaf(hs, s[i]))
  }

  function ShaLeaves(shaRoot: ValidatorTargets -> Digest, s: seq<Slot>): (r: seq<Digest>)
    ensures |r| == |s|
  {
    seq(|s|, (i: nat) requires i < |s| => ShaLeaf(shaRoot, s[i]))
  }

  lemma RootOfOne<D>(h: (D, D) -> D, zero: D, x: D)
    ensures PaddedRoot(h, zero, [x], 0) == x
  {}

  lemma RootOfTwo<D>(h: (D, D) -> D, zero: D, x: D, y: D)
    ensures PaddedRoot(h, zero, [x, y], 1) == h(x, y)
  {
    assert Pow2(0) == 1 && [x] + [y] == [x, y];
    RootOfConcat(h, zero, [x], [y], 0);
    RootOfOne(h, zero, x);
    RootOfOne(h, zero, y);
  }

  /** Both roots are Merkle roots over the same slots. */
  lemma {:induction false} MapperRootsAreRoots(
      hs: Hashes, shaRoot: ValidatorTargets -> Digest, t: MapperTree, height: nat)
    requires FullMapper(t, height) && ZeroAtBottom(t)
    ensures |Slots(t)| == Pow2(height)
    ensures MapperRoots(hs, shaRoot, t).poseidon ==
            PaddedRoot(hs.poseidon, ZeroHash(), PoseidonLeaves(hs, Slots(t)), height)
    ensures MapperRoots(hs, shaRoot, t).sha == PaddedRoot(hs.sha, ZeroChunk(), ShaLeaves(shaRoot, Slots(t)), height)
    decreases t
  {
    match t
    case First(v) =>
      assert PoseidonLeaves(hs, Slots(t)) == [hs.commit(v)] && ShaLeaves(shaRoot, Slots(t)) == [shaRoot(v)];
    case Next(isZero, l, r) =>
      if isZero {
        assert PoseidonLeaves(hs, Slots(t)) == [ZeroHash(), ZeroHash()];
        assert ShaLeaves(shaRoot, Slots(t)) == [ZeroChunk(), ZeroChunk()];
        assert height == 1 && Pow2(1) == 2;
        RootOfTwo(hs.poseidon, ZeroHash(), ZeroHash(), ZeroHash());
        RootOfTwo(hs.sha, ZeroChunk(), ZeroChunk(), ZeroChunk());
      } else {
        MapperRootsAreRoots(hs, shaRoot, l, height - 1);
        MapperRootsAreRoots(hs, shaRoot, r, height - 1);
        JoinedSlots(hs, shaRoot, Slots(l), Slots(r), height - 1);
      }
  }

  lemma JoinedSlots(hs: Hashes, shaRoot: ValidatorTargets -> Digest, a: seq<Slot>, b: seq<Slot>, d: nat)
    requires |a| == |b| == Pow2(d)
    ensures PaddedRoot(hs.poseidon, ZeroHash(), PoseidonLeaves(hs, a + b), d + 1) ==
            hs.poseidon(PaddedRoot(hs.poseidon, ZeroHash(), PoseidonLeaves(hs, a), d),
                        PaddedRoot(hs.poseidon, ZeroHash(), PoseidonLeaves(hs, b), d))
    ensures PaddedRoot(hs.sha, ZeroChunk(), ShaLeaves(shaRoot, a + b), d + 1) ==
            hs.sha(PaddedRoot(hs.sha, ZeroChunk(), ShaLeaves(shaRoot, a), d),
                   PaddedRoot(hs.sha, ZeroChunk(), ShaLeaves(shaRoot, b), d))
  {
    assert PoseidonLeaves(hs, a + b) == PoseidonLeaves(hs, a) + PoseidonLeaves(hs, b);
    assert ShaLeaves(shaRoot, a + b) == ShaLeaves(shaRoot, a) + ShaLeaves(shaRoot, b);
    RootOfConcat(hs.poseidon, ZeroHash(), PoseidonLeaves(hs, a), PoseidonLeaves(hs, b), d);
    RootOfConcat(hs.sha, ZeroChunk(), ShaLeaves(shaRoot, a), ShaLeaves(shaRoot, b), d);
  }

  // ------------------------------------------------ the slot check

  /** `verify_slot_is_in_range`, for the quotient and remainder a prover supplies. */
  method VerifySlotIsInRange(slot: seq<U32>, currentEpoch: seq<U32>, div: seq<U32>, rem: seq<U32>) returns (ok: bool)
    ensures ok <==> Divides(Val(slot), Val(div), Val(rem)) && Val(div) == Val(currentEpoch)
  {
    var slotsPerEpoch: seq<U32> := [32];
    ValFirst(slotsPerEpoch);
    assert slotsPerEpoch[1..] == [] && Val([]) == 0;
    var accepted := DivRemAccepts(slot, slotsPerEpoch, div, rem);
    var connected := ConnectBiguint(div, currentEpoch);
    ok := accepted && connected;
  }

  /** What the slot check leaves open to a prover that picks quotient and remainder. */
  ghost predicate Divides(slot: nat, div: nat, rem: nat) { slot == div * 32 + rem && rem <= 32 }

  /**
   Some quotient and remainder pass exactly for the slot's own epoch and, at the first slot of an epoch, for the
   epoch before: the remainder may equal the divisor.
   */
  lemma SlotEpochExact(slot: nat, epoch: nat)
    ensures (exists rem: nat :: Divides(slot, epoch, rem)) <==>
            epoch == slot / 32 || (slot % 32 == 0 && slot > 0 && epoch == slot / 32 - 1)
  {
    if epoch == slot / 32 { assert Divides(slot, epoch, slot % 32); }
    if slot % 32 == 0 && slot > 0 && epoch == slot / 32 - 1 { assert Divides(slot, epoch, 32); }
  }

  // ------------------------------------------------ the final circuit

  datatype Branches = Branches(validators: seq<Digest>, balances: seq<Digest>, slot: seq<Digest>)

  /** The chunk that holds a 64-bit slot number. */
  ghost predicate IsSlotChunk(c: Chunk, slot: nat) {
    SszValue(c[..64]) == slot && forall i | 64 <= i < 256 :: !c[i]
  }

  ghost predicate FinalAccepts(
      hs: Hashes, balance: Range, mapper: Roots, stateRoot: Digest, size: Digest, slot: seq<U32>, slotChunk: Chunk,
      div: seq<U32>, rem: seq<U32>, b: Branches)
  {
    && mapper.poseidon == balance.commitment
    && BranchRoot(hs.sha, hs.sha(mapper.sha, size), b.validators, 43) == stateRoot
    && BranchRoot(hs.sha, hs.sha(balance.balancesRoot, size), b.balances, 44) == stateRoot
    && Divides(Val(slot), Val(div), Val(rem)) && Val(div) == Val(balance.epoch)
    && BranchRoot(hs.sha, slotChunk, b.slot, 34) == stateRoot
  }

  /** `create_and_connect_merkle_branch`. */
  method ConnectedBranch(hs: Hashes, index: nat, leaf: Digest, branch: seq<Digest>, root: Digest) returns (ok: bool)
    requires |branch| == 5 && index < 64
    ensures ok <==> BranchRoot(hs.sha, leaf, branch, index) == root
  {
    Pow2Small();
    ok := CircuitMerkleBranch(hs.sha, leaf, branch, index, root);
  }

  /** `build_final_circuit`: are all its constraints met? */
  method FinalCircuit(
      hs: Hashes, balance: Range, mapper: Roots, stateRoot: Digest, size: Digest, slot: seq<U32>,
      div: seq<U32>, rem: seq<U32>, b: Branches) returns (accepted: bool, slotChunk: Chunk)
    requires |b.validators| == |b.balances| == |b.slot| == 5 && |slot| == 2
    ensures IsSlotChunk(slotChunk, Val(slot))
    ensures accepted <==> FinalAccepts(hs, balance, mapper, stateRoot, size, slot, slotChunk, div, rem, b)
  {
    var joined := mapper.poseidon == balance.commitment;
    var validatorsOk := ConnectedBranch(hs, 43, hs.sha(mapper.sha, size), b.validators, stateRoot);
    var balancesOk := ConnectedBranch(hs, 44, hs.sha(balance.balancesRoot, size), b.balances, stateRoot);
    var slotInRange := VerifySlotIsInRange(slot, balance.epoch, div, rem);
    var bits := SszNumToBits(slot, 64);
    slotChunk := bits;
    var slotOk := ConnectedBranch(hs, 34, slotChunk, b.slot, stateRoot);
    accepted := joined && validatorsOk && balancesOk && slotInRange && slotOk;
  }

  // ------------------------------------------------ what acceptance means

  /** Nothing hashes to zero and no two validators hash alike, in either way. */
  ghost predicate SoundLeaves(hs: Hashes, shaRoot: ValidatorTargets -> Digest) {
    NeverZero(hs) && forall v, w :: SoundPair(hs, shaRoot, v, w)
  }

  ghost predicate SoundPair(hs: Hashes, shaRoot: ValidatorTargets -> Digest, v: ValidatorTargets, w: ValidatorTargets) {
    && hs.commit(v) != ZeroHash() && shaRoot(v) != ZeroChunk()
    && (hs.commit(v) == hs.commit(w) ==> v == w)
    && (shaRoot(v) == shaRoot(w) ==> v == w)
  }

  /** No pair hash is the zero leaf. */
  ghost predicate NeverZero(hs: Hashes) {
    (forall a, b :: hs.sha(a, b) != ZeroChunk()) && (forall a, b :: hs.poseidon(a, b) != ZeroHash())
  }

  /**
   The flag is a free input of every mapper circuit, but a mapper root that is the root of any tree of the same height
   proves that it was set at the lowest inner level alone: a blanked node above it would be the hash of two zeros.
   */
  lemma {:induction false} ShaFlagsAtBottom(
      hs: Hashes, shaRoot: ValidatorTargets -> Digest, t: MapperTree, height: nat, f: nat -> Digest, q: nat)
    requires Injective(hs.sha) && NeverZero(hs) && FullMapper(t, height)
    requires MapperRoots(hs, shaRoot, t).sha == Node(hs.sha, f, height, q)
    ensures ZeroAtBottom(t)
    decreases t
  {
    match t
    case First(_) =>
    case Next(isZero, l, r) =>
      var a := Mask(isZero, MapperRoots(hs, shaRoot, l)).sha;
      var b := Mask(isZero, MapperRoots(hs, shaRoot, r)).sha;
      assert NoCollision(hs.sha, a, b, Node(hs.sha, f, height - 1, 2 * q), Node(hs.sha, f, height - 1, 2 * q + 1));
      NoZeroAbove(hs.sha, f, ZeroChunk(), height - 1, 2 * q);
      if isZero {
        PairsAreAtBottom(l, r, height);
      } else {
        ShaFlagsAtBottom(hs, shaRoot, l, height - 1, f, 2 * q);
        ShaFlagsAtBottom(hs, shaRoot, r, height - 1, f, 2 * q + 1);
      }
  }

  /** The same from the Poseidon root. */
  lemma {:induction false} PoseidonFlagsAtBottom(
      hs: Hashes, shaRoot: ValidatorTargets -> Digest, t: MapperTree, height: nat, f: nat -> HashOut, q: nat)
    requires Injective(hs.poseidon) && NeverZero(hs) && FullMapper(t, height)
    requires MapperRoots(hs, shaRoot, t).poseidon == Node(hs.poseidon, f, height, q)
    ensures ZeroAtBottom(t)
    decreases t
  {
    match t
    case First(_) =>
    case Next(isZero, l, r) =>
      var a := Mask(isZero, MapperRoots(hs, shaRoot, l)).poseidon;
      var b := Mask(isZero, MapperRoots(hs, shaRoot, r)).poseidon;
      assert NoCollision(hs.poseidon, a, b,
                         Node(hs.poseidon, f, height - 1, 2 * q), Node(hs.poseidon, f, height - 1, 2 * q + 1));
      NoZeroAbove(hs.poseidon, f, ZeroHash(), height - 1, 2 * q);
      if isZero {
        PairsAreAtBottom(l, r, height);
      } else {
        PoseidonFlagsAtBottom(hs, shaRoot, l, height - 1, f, 2 * q);
        PoseidonFlagsAtBottom(hs, shaRoot, r, height - 1, f, 2 * q + 1);
      }
  }

  lemma NoZeroAbove<D(!new)>(h: (D, D) -> D, f: nat -> D, zero: D, d: nat, q: nat)
    requires forall a, b :: h(a, b) != zero
    ensures d > 0 ==> Node(h, f, d, q) != zero
  {}

  lemma PairsAreAtBottom(l: MapperTree, r: MapperTree, height: nat)
    requires height == 1 && FullMapper(l, 0) && FullMapper(r, 0)
    ensures ZeroAtBottom(Next(true, l, r))
  {}

  lemma PoseidonSlotLeaf(
      hs: Hashes, shaRoot: ValidatorTargets -> Digest, t: MapperTree, leaves: seq<HashOut>, height: nat, i: nat)
    requires Injective(hs.poseidon) && NeverZero(hs) && FullMapper(t, height) && i < Pow2(height)
    requires MapperRoots(hs, shaRoot, t).poseidon == PaddedRoot(hs.poseidon, ZeroHash(), leaves, height)
    ensures |Slots(t)| == Pow2(height)
    ensures PoseidonLeaf(hs, Slots(t)[i]) == if i < |leaves| then leaves[i] else ZeroHash()
  {
    PoseidonFlagsAtBottom(hs, shaRoot, t, height, PadAt(ZeroHash(), leaves), 0);
    MapperRootsAreRoots(hs, shaRoot, t, height);
    PaddedRootDeterminesLeaf(hs.poseidon, ZeroHash(), PoseidonLeaves(hs, Slots(t)), leaves, height, i);
  }

  /** Equal Poseidon roots: both trees hold the same leaf digests, position by position. */
  lemma JoinForcesLeaves(
      hs: Hashes, shaRoot: ValidatorTargets -> Digest, vs: seq<ValidatorTargets>, isZero: seq<bool>, t: MapperTree,
      height: nat, i: nat)
    requires Injective(hs.poseidon) && NeverZero(hs) && FullMapper(t, height) && i < Pow2(height)
    requires |vs| == |isZero| == Pow2(height)
    requires MapperRoots(hs, shaRoot, t).poseidon ==
             PaddedRoot(hs.poseidon, ZeroHash(), CommittedLeaves(hs, vs, isZero), height)
    ensures |Slots(t)| == Pow2(height) && PoseidonLeaf(hs, Slots(t)[i]) == CommittedLeaf(hs, vs, isZero, i)
  {
    PoseidonSlotLeaf(hs, shaRoot, t, CommittedLeaves(hs, vs, isZero), height, i);
  }

  /** The state's own validators and packed balances, as its root commits to them. */
  datatype BeaconState = BeaconState(
    validators: seq<ValidatorTargets>, balances: seq<Chunk>, size: Digest, slot: Digest)

  ghost predicate WellFormedState(s: BeaconState, height: nat) {
    && height >= 3 && |s.validators| <= Pow2(height) && |s.balances| <= Pow2(height - 2)
    && |s.validators| <= 4 * |s.balances|
    && forall i | |s.validators| <= i < 4 * |s.balances| :: Balance(s.balances, i) == 0
  }

  function StateValidatorLeaves(shaRoot: ValidatorTargets -> Digest, s: BeaconState): (r: seq<Digest>)
    ensures |r| == |s.validators|
  {
    seq(|s.validators|, (i: nat) requires i < |s.validators| => shaRoot(s.validators[i]))
  }

  const FIELD_DEPTH: nat := 5

  /** `fields` are the state's field roots: 2 is the slot, 11 the validators, 12 the balances. */
  ghost predicate IsStateRoot(
      hs: Hashes, shaRoot: ValidatorTargets -> Digest, s: BeaconState, height: nat, fields: nat -> Digest, root: Digest)
    requires height >= 2
  {
    && root == Node(hs.sha, fields, FIELD_DEPTH, 0)
    && fields(2) == s.slot
    && fields(11) == hs.sha(PaddedRoot(hs.sha, ZeroChunk(), StateValidatorLeaves(shaRoot, s), height), s.size)
    && fields(12) == hs.sha(PaddedRoot(hs.sha, ZeroChunk(), s.balances, height - 2), s.size)
  }

  /** The state's field roots are 32 leaves, named by generalized indexes from 32 on. */
  lemma AcceptedBranch(hs: Hashes, fields: nat -> Digest, d: nat, position: nat, leaf: Digest, branch: seq<Digest>)
    requires Injective(hs.sha) && d == 5 && position < 32 && |branch| == 5
    requires BranchRoot(hs.sha, leaf, branch, 32 + position) == Node(hs.sha, fields, d, 0)
    ensures leaf == fields(position)
  {
    Pow2Small();
    BranchVerifiesExactly(hs.sha, fields, d, position, 32 + position, leaf, branch);
  }

  /** The sibling path of a position verifies under its generalized index. */
  lemma FieldPathVerifies(hs: Hashes, fields: nat -> Digest, d: nat, position: nat)
    requires position < Pow2(d)
    ensures BranchRoot(hs.sha, fields(position), Path(hs.sha, fields, 0, position, d), Pow2(d) + position) ==
            Node(hs.sha, fields, d, 0)
  {
    LowBitsOfSum(position, 1, d);
    PathClimbs(hs.sha, fields, 0, position, d, Pow2(d) + position);
    UpIsQuotient(position, d);
    DivModUnique(position, Pow2(d), 0, position);
  }

  /** Completeness: proofs of the state's roots, for the slot's epoch, are accepted with the state's own branches. */
  lemma HonestProofIsAccepted(
      hs: Hashes, shaRoot: ValidatorTargets -> Digest, r: Range, m: Roots, s: BeaconState, height: nat,
      fields: nat -> Digest, stateRoot: Digest, slot: seq<U32>, slotChunk: Chunk)
      returns (div: seq<U32>, rem: seq<U32>, b: Branches)
    requires height >= 2 && IsStateRoot(hs, shaRoot, s, height, fields, stateRoot) && s.slot == slotChunk
    requires m.sha == PaddedRoot(hs.sha, ZeroChunk(), StateValidatorLeaves(shaRoot, s), height)
    requires r.balancesRoot == PaddedRoot(hs.sha, ZeroChunk(), s.balances, height - 2)
    requires m.poseidon == r.commitment && Val(r.epoch) == Val(slot) / 32
    ensures |b.validators| == |b.balances| == |b.slot| == 5
    ensures FinalAccepts(hs, r, m, stateRoot, s.size, slot, slotChunk, div, rem, b)
  {
    Pow2Small();
    FieldPathVerifies(hs, fields, FIELD_DEPTH, 11);
    FieldPathVerifies(hs, fields, FIELD_DEPTH, 12);
    FieldPathVerifies(hs, fields, FIELD_DEPTH, 2);
    b := Branches(Path(hs.sha, fields, 0, 11, FIELD_DEPTH), Path(hs.sha, fields, 0, 12, FIELD_DEPTH),
                  Path(hs.sha, fields, 0, 2, FIELD_DEPTH));
    div, rem := r.epoch, [Val(slot) % 32];
    ValFirst(rem);
    assert rem[1..] == [] && Val([]) == 0;
    assert Divides(Val(slot), Val(slot) / 32, Val(slot) % 32);
  }

  lemma SlotLeaf(
      hs: Hashes, shaRoot: ValidatorTargets -> Digest, t: MapperTree, leaves: seq<Digest>, height: nat, i: nat)
    requires Injective(hs.sha) && NeverZero(hs) && FullMapper(t, height) && i < Pow2(height)
    requires MapperRoots(hs, shaRoot, t).sha == PaddedRoot(hs.sha, ZeroChunk(), leaves, height)
    ensures |Slots(t)| == Pow2(height)
    ensures ShaLeaf(shaRoot, Slots(t)[i]) == if i < |leaves| then leaves[i] else ZeroChunk()
  {
    ShaFlagsAtBottom(hs, shaRoot, t, height, PadAt<Digest>(ZeroChunk(), leaves), 0);
    MapperRootsAreRoots(hs, shaRoot, t, height);
    PaddedRootDeterminesLeaf(hs.sha, ZeroChunk(), ShaLeaves(shaRoot, Slots(t)), leaves, height, i);
  }

  /** The mapper's slots are the state's validators, then nothing. */
  lemma SlotsAreState(
      hs: Hashes, shaRoot: ValidatorTargets -> Digest, t: MapperTree, s: BeaconState, height: nat, i: nat)
    requires Injective(hs.sha) && SoundLeaves(hs, shaRoot) && FullMapper(t, height)
    requires |s.validators| <= Pow2(height) && i < Pow2(height)
    requires MapperRoots(hs, shaRoot, t).sha ==
             PaddedRoot(hs.sha, ZeroChunk(), StateValidatorLeaves(shaRoot, s), height)
    ensures |Slots(t)| == Pow2(height)
    ensures Slots(t)[i] == if i < |s.validators| then Holds(s.validators[i]) else Empty
  {
    SlotLeaf(hs, shaRoot, t, StateValidatorLeaves(shaRoot, s), height, i);
    var slot := Slots(t)[i];
    var v := if slot.Holds? then slot.validator else ZeroValidator();
    var w := if i < |s.validators| then s.validators[i] else ZeroValidator();
    assert SoundPair(hs, shaRoot, v, w) && SoundPair(hs, shaRoot, w, v);
  }

  /** The balances are the state's, zero beyond its list. */
  lemma BalancesAreState(hs: Hashes, chunks: seq<Chunk>, s: BeaconState, height: nat, i: nat)
    requires Injective(hs.sha) && WellFormedState(s, height) && |chunks| == Pow2(height - 2) && i < 4 * |chunks|
    requires PaddedRoot(hs.sha, ZeroChunk(), chunks, height - 2) ==
             PaddedRoot(hs.sha, ZeroChunk(), s.balances, height - 2)
    ensures i < |s.validators| ==> Balance(chunks, i) == Balance(s.balances, i)
    ensures i >= |s.validators| ==> Balance(chunks, i) == 0
  {
    PaddedRootDeterminesLeaf<Digest>(hs.sha, ZeroChunk(), chunks, s.balances, height - 2, i / 4);
    var chunk := chunks[i / 4];
    if i / 4 >= |s.balances| {
      ZeroBitsValue(chunk[64 * (i % 4)..64 * (i % 4) + 64]);
    } else {
      assert Balance(chunks, i) == Balance(s.balances, i);
    }
  }

  /** The summed validators are the state's. */
  lemma SummedAreState(
      hs: Hashes, shaRoot: ValidatorTargets -> Digest, vs: seq<ValidatorTargets>, isZero: seq<bool>,
      t: MapperTree, s: BeaconState, height: nat, i: nat)
    requires Injective(hs.sha) && Injective(hs.poseidon) && SoundLeaves(hs, shaRoot)
    requires FullMapper(t, height) && i < |s.validators| <= Pow2(height)
    requires |vs| == |isZero| == Pow2(height)
    requires MapperRoots(hs, shaRoot, t).poseidon ==
             PaddedRoot(hs.poseidon, ZeroHash(), CommittedLeaves(hs, vs, isZero), height)
    requires MapperRoots(hs, shaRoot, t).sha ==
             PaddedRoot(hs.sha, ZeroChunk(), StateValidatorLeaves(shaRoot, s), height)
    ensures vs[i] == s.validators[i]
  {
    SlotsAreState(hs, shaRoot, t, s, height, i);
    JoinForcesLeaves(hs, shaRoot, vs, isZero, t, height, i);
    assert SoundPair(hs, shaRoot, s.validators[i], vs[i]);
  }

  lemma {:induction false} SameTotal(
      vs: seq<ValidatorTargets>, chunks: seq<Chunk>, ws: seq<ValidatorTargets>, others: seq<Chunk>,
      c: nat, e: nat, n: nat)
    requires n <= |vs| && n <= 4 * |chunks| && n <= |ws| && n <= 4 * |others|
    requires forall i | 0 <= i < n :: vs[i] == ws[i] && Balance(chunks, i) == Balance(others, i)
    ensures Total(vs, chunks, c, e, n) == Total(ws, others, c, e, n)
  {
    if n > 0 { SameTotal(vs, chunks, ws, others, c, e, n - 1); }
  }

  /** The total over the whole tree of positions is the total over the state's list. */
  lemma TotalIsStateTotal(
      hs: Hashes, shaRoot: ValidatorTargets -> Digest, vs: seq<ValidatorTargets>, isZero: seq<bool>,
      chunks: seq<Chunk>, t: MapperTree, s: BeaconState, height: nat, c: nat, e: nat)
    requires Injective(hs.sha) && Injective(hs.poseidon) && SoundLeaves(hs, shaRoot)
    requires FullMapper(t, height) && WellFormedState(s, height)
    requires Inputs(vs, isZero, chunks, height)
    requires MapperRoots(hs, shaRoot, t).poseidon ==
             PaddedRoot(hs.poseidon, ZeroHash(), CommittedLeaves(hs, vs, isZero), height)
    requires MapperRoots(hs, shaRoot, t).sha ==
             PaddedRoot(hs.sha, ZeroChunk(), StateValidatorLeaves(shaRoot, s), height)
    requires PaddedRoot(hs.sha, ZeroChunk(), chunks, height - 2) ==
             PaddedRoot(hs.sha, ZeroChunk(), s.balances, height - 2)
    ensures Total(vs, chunks, c, e, |vs|) == Total(s.validators, s.balances, c, e, |s.validators|)
  {
    var n := |s.validators|;
    QuarterLength(|vs|, height);
    forall i: nat | i < |vs|
      ensures i < n ==> vs[i] == s.validators[i] && Balance(chunks, i) == Balance(s.balances, i)
      ensures i >= n ==> Balance(chunks, i) == 0
    {
      BalancesAreState(hs, chunks, s, height, i);
      if i < n { SummedAreState(hs, shaRoot, vs, isZero, t, s, height, i); }
    }
    PaddingAddsNothing(vs, chunks, c, e, n, |vs|);
    SameTotal(vs, chunks, s.validators, s.balances, c, e, n);
  }

  /** The branches pin down what the two proofs are about. */
  lemma AcceptedRootsAreState(
      hs: Hashes, shaRoot: ValidatorTargets -> Digest, r: Range, m: Roots, s: BeaconState, height: nat,
      fields: nat -> Digest, stateRoot: Digest, size: Digest, slot: seq<U32>, slotChunk: Chunk,
      div: seq<U32>, rem: seq<U32>, b: Branches)
    requires Injective(hs.sha) && height >= 2 && IsStateRoot(hs, shaRoot, s, height, fields, stateRoot)
    requires |b.validators| == |b.balances| == |b.slot| == 5
    requires FinalAccepts(hs, r, m, stateRoot, size, slot, slotChunk, div, rem, b)
    ensures m.sha == PaddedRoot(hs.sha, ZeroChunk(), StateValidatorLeaves(shaRoot, s), height)
    ensures r.balancesRoot == PaddedRoot(hs.sha, ZeroChunk(), s.balances, height - 2)
    ensures s.slot == slotChunk && size == s.size && m.poseidon == r.commitment
  {
    AcceptedBranch(hs, fields, FIELD_DEPTH, 11, hs.sha(m.sha, size), b.validators);
    AcceptedBranch(hs, fields, FIELD_DEPTH, 12, hs.sha(r.balancesRoot, size), b.balances);
    AcceptedBranch(hs, fields, FIELD_DEPTH, 2, slotChunk, b.slot);
    assert NoCollision(hs.sha, m.sha, size,
                       PaddedRoot(hs.sha, ZeroChunk(), StateValidatorLeaves(shaRoot, s), height), s.size);
    assert NoCollision(hs.sha, r.balancesRoot, size, PaddedRoot(hs.sha, ZeroChunk(), s.balances, height - 2), s.size);
  }

  lemma TotalOfDirect(
      hs: Hashes, shaRoot: ValidatorTargets -> Digest, r: Range, vs: seq<ValidatorTargets>, isZero: seq<bool>,
      chunks: seq<Chunk>, t: MapperTree, m: Roots, s: BeaconState, height: nat)
    requires Injective(hs.sha) && Injective(hs.poseidon) && SoundLeaves(hs, shaRoot)
    requires FullMapper(t, height) && WellFormedState(s, height)
    requires Direct(hs, r, vs, isZero, chunks, height)
    requires m == MapperRoots(hs, shaRoot, t) && m.poseidon == r.commitment
    requires m.sha == PaddedRoot(hs.sha, ZeroChunk(), StateValidatorLeaves(shaRoot, s), height)
    requires r.balancesRoot == PaddedRoot(hs.sha, ZeroChunk(), s.balances, height - 2)
    ensures Val(r.total) ==
      Total(s.validators, s.balances, Val(r.credentials), Val(r.epoch), |s.validators|) % Pow(BASE, 2)
  {
    TotalIsStateTotal(hs, shaRoot, vs, isZero, chunks, t, s, height, Val(r.credentials), Val(r.epoch));
  }

  lemma SomeDirect(hs: Hashes, balanceTree: Tree, k: nat, j: nat, r: Range)
      returns (vs: seq<ValidatorTargets>, isZero: seq<bool>, chunks: seq<Chunk>)
    requires Full(balanceTree, k, j) && Proves(hs, balanceTree, k, r)
    ensures Direct(hs, r, vs, isZero, chunks, k + j)
  {
    FoldIsDirect(hs, balanceTree, k, j, r);
    vs, isZero, chunks := AllValidators(balanceTree), AllFlags(balanceTree), AllChunks(balanceTree);
  }

  /**
   The main theorem. For any full balance tree and mapper tree whose proofs the final circuit accepts against a state
   root: the exposed sum is the sum, modulo 2^64, of the state's balances over the state's validators with these
   credentials that are active in the proved epoch, and that epoch is the state slot's, or the one before when the
   slot opens an epoch.
   */
  lemma AcceptedSumIsStateSum(
      hs: Hashes, shaRoot: ValidatorTargets -> Digest, balanceTree: Tree, k: nat, j: nat, r: Range,
      t: MapperTree, m: Roots, s: BeaconState, fields: nat -> Digest, stateRoot: Digest, size: Digest,
      slot: seq<U32>, slotChunk: Chunk, div: seq<U32>, rem: seq<U32>, b: Branches)
    requires Injective(hs.sha) && Injective(hs.poseidon) && SoundLeaves(hs, shaRoot)
    requires Full(balanceTree, k, j) && Proves(hs, balanceTree, k, r)
    requires FullMapper(t, k + j) && m == MapperRoots(hs, shaRoot, t)
    requires WellFormedState(s, k + j) && IsStateRoot(hs, shaRoot, s, k + j, fields, stateRoot)
    requires |b.validators| == |b.balances| == |b.slot| == 5 && IsSlotChunk(slotChunk, Val(slot))
    requires FinalAccepts(hs, r, m, stateRoot, size, slot, slotChunk, div, rem, b)
    ensures Val(r.total) ==
      Total(s.validators, s.balances, Val(r.credentials), Val(r.epoch), |s.validators|) % Pow(BASE, 2)
    ensures s.slot == slotChunk && size == s.size
    ensures Val(r.epoch) == Val(slot) / 32 ||
            (Val(slot) % 32 == 0 && Val(slot) > 0 && Val(r.epoch) == Val(slot) / 32 - 1)
  {
    AcceptedRootsAreState(hs, shaRoot, r, m, s, k + j, fields, stateRoot, size, slot, slotChunk, div, rem, b);
    var vs, isZero, chunks := SomeDirect(hs, balanceTree, k, j, r);
    TotalOfDirect(hs, shaRoot, r, vs, isZero, chunks, t, m, s, k + j);
    SlotEpochExact(Val(slot), Val(r.epoch));
  }
}
