/**
 The recursive proofs that sum active balances: the circuit for one range of validators, the circuit that combines
 two ranges, and what a full tree of them proves about all validators together. A circuit is evaluated on the
 values of its targets, a `connect` is a required equality.
 */
module BalanceTree {
  import opened Powers
  import opened Wrappers
  import opened Merkle
  import opened MerkleBuilders
  import opened Limbs
  import opened SszBits

  /** The output of Poseidon, four elements, and of SHA-256. */
  type HashOut = s: seq<nat> | |s| == 4 witness [0, 0, 0, 0]

  type Digest = seq<bool>

  /** An SSZ chunk. */
  type Chunk = s: Digest | |s| == 256 witness seq(256, (i: nat) => false)

  function ZeroHash(): HashOut { [0, 0, 0, 0] }

  function ZeroChunk(): Chunk { seq(256, (i: nat) => false) }

  datatype ValidatorFields = ValidatorFields(
    pubkey: seq<U32>, withdrawalCredentials: seq<U32>, effectiveBalance: seq<U32>, slashed: bool,
    activationEligibilityEpoch: seq<U32>, activationEpoch: seq<U32>, exitEpoch: seq<U32>, withdrawableEpoch: seq<U32>)

  /** The numbers of limbs the targets are created with. */
  predicate Shaped(v: ValidatorFields) {
    && |v.pubkey| == 12 && |v.withdrawalCredentials| == 8 && |v.effectiveBalance| == 2
    && |v.activationEligibilityEpoch| == 2 && |v.activationEpoch| == 2
    && |v.exitEpoch| == 2 && |v.withdrawableEpoch| == 2
  }

  type ValidatorTargets = v: ValidatorFields | Shaped(v) witness ZeroValidator()

  function ZeroValidator(): ValidatorFields {
    ValidatorFields([0, 0, 0, 0, 0, 0, 0, 0, 0, 0, 0, 0], [0, 0, 0, 0, 0, 0, 0, 0], [0, 0], false,
                    [0, 0], [0, 0], [0, 0], [0, 0])
  }

  /** The hashes as parameters: SHA-256 of two chunks, Poseidon of two outputs, and the validator's Poseidon root. */
  datatype Hashes = Hashes(
    sha: (Digest, Digest) -> Digest, poseidon: (HashOut, HashOut) -> HashOut, commit: ValidatorTargets -> HashOut)

  /** The public inputs of a range proof. */
  datatype Range = Range(
    total: seq<U32>, balancesRoot: Digest, commitment: HashOut, credentials: seq<U32>, epoch: seq<U32>)

  // ------------------------------------------------ the reference

  predicate Counts(v: ValidatorTargets, credentials: nat, epoch: nat) {
    Val(v.withdrawalCredentials) == credentials && Val(v.activationEpoch) <= epoch < Val(v.exitEpoch)
  }

  /** Balance `i` of a list packed four to a chunk, least significant byte first. */
  function Balance(chunks: seq<Chunk>, i: nat): nat
    requires i / 4 < |chunks|
  {
    SszValue(chunks[i / 4][64 * (i % 4)..64 * (i % 4) + 64])
  }

  /** Four balances to a chunk, each of 64 bits, the first one lowest. */
  lemma PackedBalances(chunks: seq<Chunk>, q: nat)
    requires q < |chunks|
    ensures var word := 0x1_0000_0000_0000_0000;
      SszValue(chunks[q]) ==
      Balance(chunks, 4 * q) + word * (Balance(chunks, 4 * q + 1) + word * (
        Balance(chunks, 4 * q + 2) + word * Balance(chunks, 4 * q + 3)))
  {
    var c := chunks[q];
    Quarter(chunks, q, 0);
    Quarter(chunks, q, 1);
    Quarter(chunks, q, 2);
    Quarter(chunks, q, 3);
    WordFirst(c, c[0..64], c[64..]);
    WordFirst(c[64..], c[64..128], c[128..]);
    WordFirst(c[128..], c[128..192], c[192..256]);
  }

  lemma Quarter(chunks: seq<Chunk>, q: nat, j: nat)
    requires q < |chunks| && j < 4
    ensures Balance(chunks, 4 * q + j) == SszValue(chunks[q][64 * j..64 * (j + 1)])
  {
    assert (4 * q + j) / 4 == q && (4 * q + j) % 4 == j;
  }

  lemma WordFirst(all: seq<bool>, a: seq<bool>, b: seq<bool>)
    requires |a| == 64 && all == a + b
    ensures SszValue(all) == SszValue(a) + 0x1_0000_0000_0000_0000 * SszValue(b)
  {
    SszConcat(a, b);
    WordPower(|a|);
    Swapped(SszValue(b), Pow2(|a|));
  }

  lemma Swapped(x: nat, y: nat)
    ensures x * y == y * x
  {}

  lemma WordPower(n: nat)
    requires n == 64
    ensures Pow2(n) == 0x1_0000_0000_0000_0000
  {
    Pow2Add(32, 32);
    WordBound();
  }

  /** Nobody counts outside the time from activation to exit, or with other credentials; everybody else does. */
  lemma CountsBetweenActivationAndExit(v: ValidatorTargets, credentials: nat, epoch: nat)
    ensures Val(v.withdrawalCredentials) != credentials ==> !Counts(v, credentials, epoch)
    ensures epoch < Val(v.activationEpoch) ==> !Counts(v, credentials, epoch)
    ensures Val(v.exitEpoch) <= epoch ==> !Counts(v, credentials, epoch)
    ensures Val(v.withdrawalCredentials) == credentials && Val(v.activationEpoch) <= epoch < Val(v.exitEpoch) ==>
            Counts(v, credentials, epoch)
  {}

  /** The balances of the first `n` validators that count. */
  function Total(vs: seq<ValidatorTargets>, chunks: seq<Chunk>, credentials: nat, epoch: nat, n: nat): nat
    requires n <= |vs| && n <= 4 * |chunks|
  {
    if n == 0 then 0
    else
      Total(vs, chunks, credentials, epoch, n - 1) +
      (if Counts(vs[n - 1], credentials, epoch) then Balance(chunks, n - 1) else 0)
  }

  /** The partial sums behind a total: each validator adds its balance exactly while it is active for the pool. */
  lemma {:induction false} TotalIsSum(
      vs: seq<ValidatorTargets>, chunks: seq<Chunk>, credentials: nat, epoch: nat, n: nat) returns (sums: seq<nat>)
    requires n <= |vs| && n <= 4 * |chunks|
    ensures |sums| == n + 1 && sums[0] == 0 && sums[n] == Total(vs, chunks, credentials, epoch, n)
    ensures forall i: nat | i < n ::
      sums[i + 1] == sums[i] +
        if Val(vs[i].withdrawalCredentials) == credentials &&
           Val(vs[i].activationEpoch) <= epoch < Val(vs[i].exitEpoch)
        then SszValue(chunks[i / 4][64 * (i % 4)..64 * (i % 4) + 64]) else 0
  {
    if n == 0 {
      sums := [0];
    } else {
      sums := TotalIsSum(vs, chunks, credentials, epoch, n - 1);
      sums := sums + [Total(vs, chunks, credentials, epoch, n)];
    }
  }

  /** The leaf the commitment holds for validator `i`. */
  function CommittedLeaf(hs: Hashes, vs: seq<ValidatorTargets>, isZero: seq<bool>, i: nat): HashOut
    requires i < |vs| == |isZero|
  {
    if isZero[i] then ZeroHash() else hs.commit(vs[i])
  }

  function CommittedLeaves(hs: Hashes, vs: seq<ValidatorTargets>, isZero: seq<bool>): (r: seq<HashOut>)
    requires |vs| == |isZero|
    ensures |r| == |vs|
  {
    seq(|vs|, (i: nat) requires i < |vs| => CommittedLeaf(hs, vs, isZero, i))
  }

  /** A flagged position commits to nothing, every other one to its validator. */
  lemma FlagBlanksLeaf(hs: Hashes, vs: seq<ValidatorTargets>, isZero: seq<bool>, i: nat)
    requires i < |vs| == |isZero|
    ensures isZero[i] ==> CommittedLeaves(hs, vs, isZero)[i] == [0, 0, 0, 0]
    ensures !isZero[i] ==> CommittedLeaves(hs, vs, isZero)[i] == hs.commit(vs[i])
  {}

  /** What the targets of 2^k validators are: one flag each, a quarter of a chunk each. */
  ghost predicate Inputs(vs: seq<ValidatorTargets>, isZero: seq<bool>, chunks: seq<Chunk>, k: nat) {
    k >= 3 && |vs| == |isZero| == Pow2(k) && 4 * |chunks| == |vs|
  }

  /** The public inputs are those of the direct computation on these validators. */
  ghost predicate Direct(hs: Hashes, r: Range, vs: seq<ValidatorTargets>, isZero: seq<bool>, chunks: seq<Chunk>, k: nat)
  {
    && Inputs(vs, isZero, chunks, k) && |r.total| == 2 && |r.credentials| == 8 && |r.epoch| == 2
    && RightTotal(r, vs, chunks) && RightRoots(hs, r, vs, isZero, chunks, k)
  }

  ghost predicate RightTotal(r: Range, vs: seq<ValidatorTargets>, chunks: seq<Chunk>)
    requires |vs| == 4 * |chunks|
  {
    Val(r.total) == Total(vs, chunks, Val(r.credentials), Val(r.epoch), |vs|) % Pow(BASE, 2)
  }

  ghost predicate RightRoots(
      hs: Hashes, r: Range, vs: seq<ValidatorTargets>, isZero: seq<bool>, chunks: seq<Chunk>, k: nat)
    requires k >= 3 && |vs| == |isZero|
  {
    && r.balancesRoot == PaddedRoot(hs.sha, ZeroChunk(), chunks, k - 2)
    && r.commitment == PaddedRoot(hs.poseidon, ZeroHash(), CommittedLeaves(hs, vs, isZero), k)
  }

  // ------------------------------------------------ one range

  /** `is_active_validator`. */
  method IsActiveValidator(activationEpoch: seq<U32>, currentEpoch: seq<U32>, exitEpoch: seq<U32>)
      returns (active: bool)
    requires |currentEpoch| == |exitEpoch|
    ensures active <==> Val(activationEpoch) <= Val(currentEpoch) < Val(exitEpoch)
  {
    var activationLeCurrent := CmpBiguint(activationEpoch, currentEpoch);
    var currentLeExit := CmpBiguint(currentEpoch, exitEpoch);
    var isEqual := BiguintIsEqual(currentEpoch, exitEpoch);
    var currentLtExit := currentLeExit && !isEqual;
    active := activationLeCurrent && currentLtExit;
  }

  /** `_if` on each of the four elements. */
  method IfHash(b: bool, x: HashOut, y: HashOut) returns (r: HashOut)
    ensures r == if b then x else y
  {
    var elements: seq<nat> := [0, 0, 0, 0];
    for j := 0 to 4
      invariant |elements| == 4 && forall i | 0 <= i < j :: elements[i] == (if b then x else y)[i]
    {
      elements := elements[j := if b then x[j] else y[j]];
    }
    r := elements;
  }

  lemma QuarterLength(n: nat, k: nat)
    requires k >= 3 && n == Pow2(k)
    ensures n % 4 == 0 && n / 4 == Pow2(k - 2)
  {
    assert Pow2(k) == 2 * Pow2(k - 1) && Pow2(k - 1) == 2 * Pow2(k - 2);
  }

  /** Adding and popping the carry limb keeps the sum modulo 2^64. */
  method AddAndPop(a: seq<U32>, b: seq<U32>, ghost sum: nat) returns (r: seq<U32>)
    requires MaxLen(a, b) == 2 && Val(a) == sum % Pow(BASE, 2)
    ensures |r| == 2 && Val(r) == (sum + Val(b)) % Pow(BASE, 2)
  {
    var tmp := AddBiguint(a, b);
    DropTopLimb(tmp, Val(a) + Val(b));
    ModOfSum(sum, Val(b), Pow(BASE, 2));
    r := tmp[..|tmp| - 1];
  }

  lemma ModOfSum(x: nat, y: nat, m: nat)
    requires m > 0
    ensures (x % m + y) % m == (x + y) % m
  {
    DivModParts(x, m);
    DivBound(x, m);
    AddMultiple(x % m + y, x / m, m);
  }

  /** What one validator adds. */
  method Contribution(v: ValidatorTargets, bits: seq<bool>, credentials: seq<U32>, epoch: seq<U32>)
      returns (current: seq<U32>)
    requires |bits| == 64 && |credentials| == 8 && |epoch| == 2
    ensures |current| == 2
    ensures Val(current) ==
      if Val(v.withdrawalCredentials) == Val(credentials) &&
         Val(v.activationEpoch) <= Val(epoch) < Val(v.exitEpoch)
      then SszValue(bits) else 0
  {
    var isEqual := BiguintIsEqual(v.withdrawalCredentials, credentials);
    var balance := SszNumFromBits(bits);
    var isValidValidator := IsActiveValidator(v.activationEpoch, epoch, v.exitEpoch);
    var willBeCounted := isEqual && isValidValidator;
    current := IfBiguint(willBeCounted, balance, []);
  }

  method AddValidator(sum: seq<U32>, v: ValidatorTargets, bits: seq<bool>, credentials: seq<U32>, epoch: seq<U32>,
                      ghost before: nat) returns (tmpSum: seq<U32>)
    requires |bits| == 64 && |credentials| == 8 && |epoch| == 2
    requires |sum| <= 2 && Val(sum) == before % Pow(BASE, 2)
    ensures |tmpSum| == 2
    ensures Val(tmpSum) ==
            (before + if Counts(v, Val(credentials), Val(epoch)) then SszValue(bits) else 0) % Pow(BASE, 2)
  {
    var current := Contribution(v, bits, credentials, epoch);
    tmpSum := AddAndPop(sum, current, before);
  }

  /** The running sums over one range. */
  method RunningSums(vs: seq<ValidatorTargets>, chunks: seq<Chunk>, credentials: seq<U32>, epoch: seq<U32>)
      returns (total: seq<U32>)
    requires 1 <= |vs| == 4 * |chunks| && |credentials| == 8 && |epoch| == 2
    ensures |total| == 2
    ensures Val(total) == Total(vs, chunks, Val(credentials), Val(epoch), |vs|) % Pow(BASE, 2)
  {
    ghost var c, e := Val(credentials), Val(epoch);
    var sums: seq<seq<U32>> := [[]];
    NothingYet();
    for i := 0 to |vs|
      invariant |sums| == i + 1 && |sums[i]| <= 2 && (i > 0 ==> |sums[i]| == 2)
      invariant Val(sums[i]) == Total(vs, chunks, c, e, i) % Pow(BASE, 2)
    {
      var bits := chunks[i / 4][64 * (i % 4)..64 * (i % 4) + 64];
      assert SszValue(bits) == Balance(chunks, i);
      var tmpSum := AddValidator(sums[i], vs[i], bits, credentials, epoch, Total(vs, chunks, c, e, i));
      sums := sums + [tmpSum];
    }
    total := sums[|vs|];
  }

  /** The sum of one range, and what it is the sum of. */
  method SumBalances(vs: seq<ValidatorTargets>, chunks: seq<Chunk>, credentials: seq<U32>, epoch: seq<U32>)
      returns (total: seq<U32>)
    requires 1 <= |vs| == 4 * |chunks| && |credentials| == 8 && |epoch| == 2
    ensures |total| == 2
    ensures Val(total) == Total(vs, chunks, Val(credentials), Val(epoch), |vs|) % Pow(BASE, 2)
    ensures exists sums: seq<nat> ::
      && |sums| == |vs| + 1 && sums[0] == 0 && Val(total) == sums[|vs|] % Pow(BASE, 2)
      && forall i: nat | i < |vs| ::
        sums[i + 1] == sums[i] +
          if Val(vs[i].withdrawalCredentials) == Val(credentials) &&
             Val(vs[i].activationEpoch) <= Val(epoch) < Val(vs[i].exitEpoch)
          then SszValue(chunks[i / 4][64 * (i % 4)..64 * (i % 4) + 64]) else 0
  {
    total := RunningSums(vs, chunks, credentials, epoch);
    ghost var partial := TotalIsSum(vs, chunks, Val(credentials), Val(epoch), |vs|);
  }

  lemma NothingYet()
    ensures Val([]) == 0 % Pow(BASE, 2)
  {
    DivModUnique(0, Pow(BASE, 2), 0, 0);
  }

  /** `validator_balance_verification`. */
  method ValidatorBalanceVerification(
      hs: Hashes, vs: seq<ValidatorTargets>, isZero: seq<bool>, chunks: seq<Chunk>,
      credentials: seq<U32>, epoch: seq<U32>, ghost k: nat) returns (r: Range)
    requires Inputs(vs, isZero, chunks, k) && |credentials| == 8 && |epoch| == 2
    ensures Direct(hs, r, vs, isZero, chunks, k) && r.credentials == credentials && r.epoch == epoch
  {
    QuarterLength(|vs|, k);
    var balancesRoot := FlatHashTreeRoot(hs.sha, ZeroChunk(), chunks, k - 2);
    var leaves: seq<HashOut> := [];
    for i := 0 to |vs|
      invariant |leaves| == i && forall j | 0 <= j < i :: leaves[j] == CommittedLeaf(hs, vs, isZero, j)
    {
      var leaf := IfHash(isZero[i], ZeroHash(), hs.commit(vs[i]));
      leaves := leaves + [leaf];
    }
    assert leaves == CommittedLeaves(hs, vs, isZero);
    var commitment := FlatHashTreeRoot(hs.poseidon, ZeroHash(), leaves, k);
    var total := SumBalances(vs, chunks, credentials, epoch);
    r := Range(total, balancesRoot, commitment, credentials, epoch);
  }

  // ------------------------------------------------ two ranges

  /** The equalities and values of the inner circuit. */
  ghost predicate Combined(hs: Hashes, r1: Range, r2: Range, r: Range) {
    && Val(r1.credentials) == Val(r2.credentials) && Val(r1.epoch) == Val(r2.epoch)
    && r.credentials == r1.credentials && r.epoch == r1.epoch
    && |r.total| == 2 && Val(r.total) == (Val(r1.total) + Val(r2.total)) % Pow(BASE, 2)
    && r.balancesRoot == hs.sha(r1.balancesRoot, r2.balancesRoot)
    && r.commitment == hs.poseidon(r1.commitment, r2.commitment)
  }

  /** `build_inner_level_circuit`: unsatisfiable exactly when the two ranges are about different things. */
  method InnerLevel(hs: Hashes, pt1: Range, pt2: Range) returns (r: Option<Range>)
    requires |pt1.total| == 2 && |pt2.total| == 2
    ensures r.Some? <==> Val(pt1.credentials) == Val(pt2.credentials) && Val(pt1.epoch) == Val(pt2.epoch)
    ensures r.Some? ==> Combined(hs, pt1, pt2, r.value)
  {
    var sum := AddBiguint(pt1.total, pt2.total);
    DropTopLimb(sum, Val(pt1.total) + Val(pt2.total));
    sum := sum[..|sum| - 1];
    var sameCredentials := ConnectBiguint(pt1.credentials, pt2.credentials);
    var sameEpoch := ConnectBiguint(pt1.epoch, pt2.epoch);
    if !sameCredentials || !sameEpoch { return None; }
    r := Some(Range(sum, hs.sha(pt1.balancesRoot, pt2.balancesRoot), hs.poseidon(pt1.commitment, pt2.commitment),
                    pt1.credentials, pt1.epoch));
  }

  /** From `a` on, `f` is `g` from `b` on, for `n` positions. */
  ghost predicate Shifted<D>(f: nat -> D, g: nat -> D, a: nat, b: nat, n: nat) {
    forall i: nat | a <= i < a + n :: f(i) == g(b + (i - a))
  }

  lemma {:induction false} ShiftedNode<D>(h: (D, D) -> D, f: nat -> D, g: nat -> D, d: nat, q: nat, q': nat)
    requires Shifted(f, g, q * Pow2(d), q' * Pow2(d), Pow2(d))
    ensures Node(h, f, d, q) == Node(h, g, d, q')
  {
    if d == 0 {
      assert f(q) == g(q' + (q - q));
    } else {
      ChildBlocks(d, q);
      ChildBlocks(d, q');
      SplitShift(f, g, q * Pow2(d), q' * Pow2(d), Pow2(d - 1));
      ShiftedNode(h, f, g, d - 1, 2 * q, 2 * q');
      ShiftedNode(h, f, g, d - 1, 2 * q + 1, 2 * q' + 1);
    }
  }

  lemma SplitShift<D>(f: nat -> D, g: nat -> D, a: nat, b: nat, p: nat)
    requires Shifted(f, g, a, b, 2 * p)
    ensures Shifted(f, g, a, b, p) && Shifted(f, g, a + p, b + p, p)
  {
    forall i: nat | a + p <= i < a + p + p ensures f(i) == g(b + p + (i - (a + p))) {
      assert f(i) == g(b + (i - a));
      assert b + p + (i - (a + p)) == b + (i - a);
    }
  }

  /** The root of a list of twice the length is the pair hash of the roots of its halves. */
  lemma RootOfConcat<D>(h: (D, D) -> D, zero: D, a: seq<D>, b: seq<D>, d: nat)
    requires |a| == |b| == Pow2(d)
    ensures PaddedRoot(h, zero, a + b, d + 1) == h(PaddedRoot(h, zero, a, d), PaddedRoot(h, zero, b, d))
  {
    var f := PadAt(zero, a + b);
    ShiftedNode(h, f, PadAt(zero, a), d, 0, 0);
    ShiftedNode(h, f, PadAt(zero, b), d, 1, 0);
  }

  lemma {:induction false} TotalOfFront(
      a: seq<ValidatorTargets>, b: seq<ValidatorTargets>, x: seq<Chunk>, y: seq<Chunk>, c: nat, e: nat, n: nat)
    requires |a| == 4 * |x| && n <= |a|
    ensures Total(a + b, x + y, c, e, n) == Total(a, x, c, e, n)
  {
    if n > 0 { TotalOfFront(a, b, x, y, c, e, n - 1); }
  }

  lemma {:induction false} TotalOfConcat(
      a: seq<ValidatorTargets>, b: seq<ValidatorTargets>, x: seq<Chunk>, y: seq<Chunk>, c: nat, e: nat, n: nat)
    requires |a| == 4 * |x| && |b| == 4 * |y| && n <= |b|
    ensures Total(a + b, x + y, c, e, |a| + n) == Total(a, x, c, e, |a|) + Total(b, y, c, e, n)
  {
    if n == 0 {
      TotalOfFront(a, b, x, y, c, e, |a|);
    } else {
      TotalOfConcat(a, b, x, y, c, e, n - 1);
      var i := |a| + n - 1;
      assert i / 4 == |x| + (n - 1) / 4 && i % 4 == (n - 1) % 4;
      assert (x + y)[i / 4] == y[(n - 1) / 4] && (a + b)[i] == b[n - 1];
    }
  }

  lemma ModOfTwo(x: nat, y: nat, m: nat)
    requires m > 0
    ensures (x % m + y % m) % m == (x + y) % m
  {
    ModOfSum(x, y % m, m);
    ModOfSum(y, x, m);
  }

  lemma LeavesOfConcat(hs: Hashes, a: seq<ValidatorTargets>, b: seq<ValidatorTargets>, za: seq<bool>, zb: seq<bool>)
    requires |a| == |za| && |b| == |zb|
    ensures CommittedLeaves(hs, a + b, za + zb) == CommittedLeaves(hs, a, za) + CommittedLeaves(hs, b, zb)
  {}

  lemma CombinedTotal(t1: nat, t2: nat, t: nat, vs1: seq<ValidatorTargets>, vs2: seq<ValidatorTargets>,
                      x1: seq<Chunk>, x2: seq<Chunk>, c: nat, e: nat, m: nat)
    requires |vs1| == 4 * |x1| && |vs2| == 4 * |x2| && m > 0
    requires t1 == Total(vs1, x1, c, e, |vs1|) % m && t2 == Total(vs2, x2, c, e, |vs2|) % m && t == (t1 + t2) % m
    ensures t == Total(vs1 + vs2, x1 + x2, c, e, |vs1 + vs2|) % m
  {
    TotalOfConcat(vs1, vs2, x1, x2, c, e, |vs2|);
    ModOfTwo(Total(vs1, x1, c, e, |vs1|), Total(vs2, x2, c, e, |vs2|), m);
  }

  // ------------------------------------------------ full trees of proofs

  datatype Tree =
    | Leaf(vs: seq<ValidatorTargets>, isZero: seq<bool>, chunks: seq<Chunk>, credentials: seq<U32>, epoch: seq<U32>)
    | Inner(left: Tree, right: Tree)

  /** A full tree of height `j` over ranges of 2^k validators. */
  ghost predicate Full(t: Tree, k: nat, j: nat)
    decreases t
  {
    match t
    case Leaf(vs, isZero, chunks, credentials, epoch) =>
      j == 0 && Inputs(vs, isZero, chunks, k) && |credentials| == 8 && |epoch| == 2
    case Inner(l, r) => j > 0 && Full(l, k, j - 1) && Full(r, k, j - 1)
  }

  function AllValidators(t: Tree): seq<ValidatorTargets> {
    match t case Leaf(vs, _, _, _, _) => vs case Inner(l, r) => AllValidators(l) + AllValidators(r)
  }

  function AllFlags(t: Tree): seq<bool> {
    match t case Leaf(_, z, _, _, _) => z case Inner(l, r) => AllFlags(l) + AllFlags(r)
  }

  function AllChunks(t: Tree): seq<Chunk> {
    match t case Leaf(_, _, x, _, _) => x case Inner(l, r) => AllChunks(l) + AllChunks(r)
  }

  /** The circuits of the tree are satisfied and the top one exposes `r`. */
  ghost predicate Proves(hs: Hashes, t: Tree, k: nat, r: Range)
    decreases t
  {
    match t
    case Leaf(vs, isZero, chunks, credentials, epoch) =>
      Direct(hs, r, vs, isZero, chunks, k) && r.credentials == credentials && r.epoch == epoch
    case Inner(left, right) =>
      exists r1, r2 :: Proves(hs, left, k, r1) && Proves(hs, right, k, r2) && Combined(hs, r1, r2, r)
  }

  /** Every range is about these credentials and this epoch. */
  ghost predicate About(t: Tree, credentials: nat, epoch: nat) {
    match t
    case Leaf(_, _, _, c, e) => Val(c) == credentials && Val(e) == epoch
    case Inner(l, r) => About(l, credentials, epoch) && About(r, credentials, epoch)
  }

  lemma Halves(hs: Hashes, t: Tree, k: nat, r: Range) returns (r1: Range, r2: Range)
    requires t.Inner? && Proves(hs, t, k, r)
    ensures Proves(hs, t.left, k, r1) && Proves(hs, t.right, k, r2) && Combined(hs, r1, r2, r)
  {
    r1, r2 :| Proves(hs, t.left, k, r1) && Proves(hs, t.right, k, r2) && Combined(hs, r1, r2, r);
  }

  lemma {:induction false} FoldShape(hs: Hashes, t: Tree, k: nat, j: nat, r: Range)
    requires Full(t, k, j) && Proves(hs, t, k, r)
    ensures k >= 3 && |r.total| == 2 && |r.credentials| == 8 && |r.epoch| == 2
    decreases t
  {
    if t.Inner? {
      var r1, r2 := Halves(hs, t, k, r);
      FoldShape(hs, t.left, k, j - 1, r1);
    }
  }

  lemma {:induction false} FoldTotal(hs: Hashes, t: Tree, k: nat, j: nat, r: Range)
    requires Full(t, k, j) && Proves(hs, t, k, r)
    ensures |AllValidators(t)| == 4 * |AllChunks(t)| && RightTotal(r, AllValidators(t), AllChunks(t))
    decreases t
  {
    if t.Inner? {
      var r1, r2 := Halves(hs, t, k, r);
      FoldTotal(hs, t.left, k, j - 1, r1);
      FoldTotal(hs, t.right, k, j - 1, r2);
      CombinedTotal(Val(r1.total), Val(r2.total), Val(r.total), AllValidators(t.left), AllValidators(t.right),
                    AllChunks(t.left), AllChunks(t.right), Val(r.credentials), Val(r.epoch), Pow(BASE, 2));
    }
  }

  /** `root` is the root of the balances under a full tree. */
  ghost predicate BalancesUnder(hs: Hashes, t: Tree, d: nat, root: Digest) {
    |AllChunks(t)| == Pow2(d) && root == PaddedRoot(hs.sha, ZeroChunk(), AllChunks(t), d)
  }

  /** `root` is the root of the committed validators under a full tree. */
  ghost predicate ValidatorsUnder(hs: Hashes, t: Tree, d: nat, root: HashOut) {
    && |AllValidators(t)| == |AllFlags(t)| == Pow2(d)
    && root == PaddedRoot(hs.poseidon, ZeroHash(), CommittedLeaves(hs, AllValidators(t), AllFlags(t)), d)
  }

  lemma JoinBalances(hs: Hashes, t: Tree, d: nat, x: Digest, y: Digest, r: Digest)
    requires t.Inner? && d > 0 && BalancesUnder(hs, t.left, d - 1, x) && BalancesUnder(hs, t.right, d - 1, y)
    requires r == hs.sha(x, y)
    ensures BalancesUnder(hs, t, d, r)
  {
    RootOfConcat(hs.sha, ZeroChunk(), AllChunks(t.left), AllChunks(t.right), d - 1);
  }

  lemma JoinValidators(hs: Hashes, t: Tree, d: nat, x: HashOut, y: HashOut, r: HashOut)
    requires t.Inner? && d > 0 && ValidatorsUnder(hs, t.left, d - 1, x) && ValidatorsUnder(hs, t.right, d - 1, y)
    requires r == hs.poseidon(x, y)
    ensures ValidatorsUnder(hs, t, d, r)
  {
    var a, b, za, zb := AllValidators(t.left), AllValidators(t.right), AllFlags(t.left), AllFlags(t.right);
    LeavesOfConcat(hs, a, b, za, zb);
    RootOfConcat(hs.poseidon, ZeroHash(), CommittedLeaves(hs, a, za), CommittedLeaves(hs, b, zb), d - 1);
  }

  ghost predicate Folded(hs: Hashes, t: Tree, k: nat, j: nat, r: Range) { Full(t, k, j) && Proves(hs, t, k, r) }

  /** The two halves of a full tree, and how their roots make the roots of the whole. */
  lemma RootsOfHalves(hs: Hashes, t: Tree, k: nat, j: nat, r: Range) returns (r1: Range, r2: Range)
    requires t.Inner? && Full(t, k, j) && Proves(hs, t, k, r)
    ensures j > 0 && Folded(hs, t.left, k, j - 1, r1) && Folded(hs, t.right, k, j - 1, r2)
    ensures r.balancesRoot == hs.sha(r1.balancesRoot, r2.balancesRoot)
    ensures r.commitment == hs.poseidon(r1.commitment, r2.commitment)
  {
    r1, r2 := Halves(hs, t, k, r);
  }

  lemma {:induction false} FoldBalancesRoot(hs: Hashes, t: Tree, k: nat, j: nat, r: Range, d: nat)
    requires Folded(hs, t, k, j, r) && k >= 3 && d == k - 2 + j
    ensures BalancesUnder(hs, t, d, r.balancesRoot)
    decreases t
  {
    if t.Inner? {
      var r1, r2 := RootsOfHalves(hs, t, k, j, r);
      FoldBalancesRoot(hs, t.left, k, j - 1, r1, d - 1);
      FoldBalancesRoot(hs, t.right, k, j - 1, r2, d - 1);
      JoinBalances(hs, t, d, r1.balancesRoot, r2.balancesRoot, r.balancesRoot);
    } else {
      QuarterLength(|t.vs|, k);
    }
  }

  lemma {:induction false} FoldCommitment(hs: Hashes, t: Tree, k: nat, j: nat, r: Range, d: nat)
    requires Folded(hs, t, k, j, r) && d == k + j
    ensures ValidatorsUnder(hs, t, d, r.commitment)
    decreases t
  {
    if t.Inner? {
      var r1, r2 := RootsOfHalves(hs, t, k, j, r);
      FoldCommitment(hs, t.left, k, j - 1, r1, d - 1);
      FoldCommitment(hs, t.right, k, j - 1, r2, d - 1);
      JoinValidators(hs, t, d, r1.commitment, r2.commitment, r.commitment);
    }
  }

  /** Whatever full tree of ranges was folded, the result is the direct computation on all validators. */
  lemma FoldIsDirect(hs: Hashes, t: Tree, k: nat, j: nat, r: Range)
    requires Full(t, k, j) && Proves(hs, t, k, r)
    ensures Direct(hs, r, AllValidators(t), AllFlags(t), AllChunks(t), k + j)
  {
    FoldShape(hs, t, k, j, r);
    FoldTotal(hs, t, k, j, r);
    FoldBalancesRoot(hs, t, k, j, r, k + j - 2);
    FoldCommitment(hs, t, k, j, r, k + j);
  }

  lemma {:induction false} FoldIsAbout(hs: Hashes, t: Tree, k: nat, r: Range)
    requires Proves(hs, t, k, r)
    ensures About(t, Val(r.credentials), Val(r.epoch))
    decreases t
  {
    match t
    case Leaf(_, _, _, _, _) =>
    case Inner(left, right) =>
      var r1, r2 :| Proves(hs, left, k, r1) && Proves(hs, right, k, r2) && Combined(hs, r1, r2, r);
      FoldIsAbout(hs, left, k, r1);
      FoldIsAbout(hs, right, k, r2);
  }

  ghost predicate Coherent(t: Tree) { exists c, e :: About(t, c, e) }

  lemma CoherentParts(t: Tree, l: Tree, r: Tree)
    requires t == Inner(l, r) && Coherent(t)
    ensures Coherent(l) && Coherent(r)
  {
    var c, e :| About(t, c, e);
    assert About(l, c, e) && About(r, c, e);
  }

  /** Two proved halves fit together exactly when the whole is coherent. */
  lemma CoherentWhole(hs: Hashes, t: Tree, l: Tree, r: Tree, k: nat, r1: Range, r2: Range)
    requires t == Inner(l, r) && Proves(hs, l, k, r1) && Proves(hs, r, k, r2)
    ensures Coherent(t) <==> Val(r1.credentials) == Val(r2.credentials) && Val(r1.epoch) == Val(r2.epoch)
  {
    var c1, e1, c2, e2 := Val(r1.credentials), Val(r1.epoch), Val(r2.credentials), Val(r2.epoch);
    FoldIsAbout(hs, l, k, r1);
    FoldIsAbout(hs, r, k, r2);
    AboutIsUnique(l, c1, e1);
    AboutIsUnique(r, c2, e2);
    if Coherent(t) {
      var c, e :| About(t, c, e);
      assert About(l, c, e) && About(r, c, e);
    }
    if c1 == c2 && e1 == e2 { assert About(t, c1, e1); }
  }

  /** And the fold can be carried out exactly when all ranges are about the same credentials and epoch. */
  method ProveTree(hs: Hashes, t: Tree, ghost k: nat, ghost j: nat) returns (r: Option<Range>)
    requires Full(t, k, j)
    ensures r.Some? ==> Proves(hs, t, k, r.value)
    ensures r.Some? <==> Coherent(t)
    decreases t
  {
    match t
    case Leaf(vs, isZero, chunks, credentials, epoch) =>
      var range := ValidatorBalanceVerification(hs, vs, isZero, chunks, credentials, epoch, k);
      assert About(t, Val(credentials), Val(epoch));
      r := Some(range);
    case Inner(left, right) =>
      if Coherent(t) { CoherentParts(t, left, right); }
      var r1 := ProveTree(hs, left, k, j - 1);
      var r2 := ProveTree(hs, right, k, j - 1);
      if r1.None? || r2.None? {
        return None;
      }
      CoherentWhole(hs, t, left, right, k, r1.value, r2.value);
      r := CombineProved(hs, left, right, k, j - 1, r1.value, r2.value);
  }

  method CombineProved(
      hs: Hashes, ghost left: Tree, ghost right: Tree, ghost k: nat, ghost j: nat, r1: Range, r2: Range)
      returns (r: Option<Range>)
    requires Full(left, k, j) && Full(right, k, j) && Proves(hs, left, k, r1) && Proves(hs, right, k, r2)
    ensures r.Some? <==> Val(r1.credentials) == Val(r2.credentials) && Val(r1.epoch) == Val(r2.epoch)
    ensures r.Some? ==> Combined(hs, r1, r2, r.value)
  {
    FoldIsDirect(hs, left, k, j, r1);
    FoldIsDirect(hs, right, k, j, r2);
    r := InnerLevel(hs, r1, r2);
  }

  lemma {:induction false} AboutIsUnique(t: Tree, c: nat, e: nat)
    requires About(t, c, e)
    ensures forall c': nat, e': nat | About(t, c', e') :: c' == c && e' == e
    decreases t
  {
    match t
    case Leaf(_, _, _, _, _) =>
    case Inner(l, r) => AboutIsUnique(l, c, e);
  }

  // ------------------------------------------------ padding

  /** The validator that fills up a range: its exit epoch is zero. */
  lemma ZeroValidatorNeverCounts(credentials: nat, epoch: nat)
    ensures !Counts(ZeroValidator(), credentials, epoch)
  {
    ValFirst([0, 0]);
    ValFirst([0]);
    assert [0, 0][1..] == [0] && [0][1..] == [];
  }

  lemma {:induction false} ZeroBitsValue(bits: seq<bool>)
    requires forall i | 0 <= i < |bits| :: !bits[i]
    ensures SszValue(bits) == 0
    decreases |bits|
  {
    if |bits| >= 8 {
      ZeroBitsValue(bits[8..]);
      ZeroByte(bits[..8]);
    }
  }

  lemma {:induction false} ZeroByte(bits: seq<bool>)
    requires forall i | 0 <= i < |bits| :: !bits[i]
    ensures Bits.BitsValue(bits) == 0
  {
    if bits != [] { ZeroByte(bits[..|bits| - 1]); }
  }

  /** The padding adds nothing to the total exactly when nobody in it counts with a nonzero balance. */
  lemma {:induction false} PaddingAddsNothing(
      vs: seq<ValidatorTargets>, chunks: seq<Chunk>, credentials: nat, epoch: nat, n: nat, m: nat)
    requires n <= m <= |vs| <= 4 * |chunks|
    ensures Total(vs, chunks, credentials, epoch, m) >= Total(vs, chunks, credentials, epoch, n)
    ensures Total(vs, chunks, credentials, epoch, m) == Total(vs, chunks, credentials, epoch, n) <==>
            forall i | n <= i < m :: Counts(vs[i], credentials, epoch) ==> Balance(chunks, i) == 0
    decreases m
  {
    if n < m { PaddingAddsNothing(vs, chunks, credentials, epoch, n, m - 1); }
  }
}
