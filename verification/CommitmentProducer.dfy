/**
 The producer of the validator-commitment pipeline: which validators changed, which jobs are enqueued for them
 and which cached nodes are marked stale, as an ordered log of the calls it makes to the store and the queue.
 `levels` is 40 in the deployed system.
 */
module CommitmentProducer {
  import opened Powers

  datatype Validator = Validator(
    pubkey: seq<int>, withdrawalCredentials: seq<int>, effectiveBalance: int, slashed: bool,
    activationEligibilityEpoch: int, activationEpoch: int, exitEpoch: int, withdrawableEpoch: int)

  function Zeros(n: nat): (r: seq<int>)
    ensures |r| == n
  {
    if n == 0 then [] else [0] + Zeros(n - 1)
  }

  /** The all-zero validator stored under the registry limit. */
  function ZeroValidator(): Validator {
    Validator(Zeros(48), Zeros(32), 0, false, 0, 0, 0, 0)
  }

  /** Nothing is set in it. */
  lemma {:induction false} ZerosAreZero(n: nat)
    ensures forall i | 0 <= i < n :: Zeros(n)[i] == 0
  {
    if n > 0 { ZerosAreZero(n - 1); }
  }

  lemma ZeroValidatorIsZero()
    ensures var v := ZeroValidator();
      && |v.pubkey| == 48 && (forall i | 0 <= i < 48 :: v.pubkey[i] == 0)
      && |v.withdrawalCredentials| == 32 && (forall i | 0 <= i < 32 :: v.withdrawalCredentials[i] == 0)
      && v.effectiveBalance == 0 && !v.slashed && v.activationEligibilityEpoch == 0 && v.activationEpoch == 0
      && v.exitEpoch == 0 && v.withdrawableEpoch == 0
  {
    ZerosAreZero(48);
    ZerosAreZero(32);
  }

  datatype Job = LeafJob(index: nat) | InnerJob(level: nat, first: nat, second: nat)

  datatype Action =
    | SaveValidators(chunk: map<nat, Validator>)
    | MarkStale(depth: nat, index: nat)
    | AddItem(job: Job)

  // ------------------------------------------------ blocks and ancestors

  /** The start of the 2^d-aligned block that holds index `v`. */
  function Anc(v: nat, d: nat): nat {
    if d == 0 then v else 2 * Anc(v / 2, d - 1)
  }

  lemma TwiceFloor(q: nat, h: nat)
    ensures 2 * (q * h) == q * (2 * h)
  {}

  lemma {:induction false} AncIsFloor(v: nat, d: nat)
    ensures Anc(v, d) == v / Pow2(d) * Pow2(d)
  {
    if d > 0 {
      var h := Pow2(d - 1);
      AncIsFloor(v / 2, d - 1);
      DivDiv(v, 2, h);
      TwiceFloor(v / 2 / h, h);
    }
  }

  /** Block starts at height `d`. */
  ghost predicate Aligned(d: nat, x: nat) { x == Anc(x, d) }

  lemma AlignedIsMod(d: nat, x: nat)
    ensures Aligned(d, x) <==> x % Pow2(d) == 0
  {
    AncIsFloor(x, d);
    DivModParts(x, Pow2(d));
  }

  lemma AncBlock(v: nat, d: nat)
    ensures Aligned(d, Anc(v, d)) && Anc(v, d) <= v < Anc(v, d) + Pow2(d)
    ensures Anc(v, d) / Pow2(d) == v / Pow2(d)
  {
    AncIsFloor(v, d);
    FloorMultiple(v, Pow2(d));
    AncIsFloor(Anc(v, d), d);
  }

  lemma {:induction false} AncBelow(v: nat, d: nat)
    ensures Anc(v, d) <= v
  {
    if d > 0 { AncBelow(v / 2, d - 1); }
  }

  /** A block is named by its start: an aligned start whose block holds `v` is v's ancestor. */
  lemma AncUnique(x: nat, v: nat, d: nat)
    requires Aligned(d, x) && x <= v < x + Pow2(d)
    ensures x == Anc(v, d)
  {
    AncIsFloor(x, d);
    AncIsFloor(v, d);
    DivModUnique(v, Pow2(d), x / Pow2(d), v - x);
  }

  lemma AncStep(v: nat, d: nat)
    ensures Anc(v, d) == Anc(v, d + 1) + (if v / Pow2(d) % 2 == 0 then 0 else Pow2(d))
  {
    var p := Pow2(d);
    AncIsFloor(v, d);
    AncIsFloor(v, d + 1);
    DivModDouble(v, p);
    DivModParts(v, p);
    DivModParts(v, 2 * p);
    assert v / p % 2 == 0 || v / p % 2 == 1;
  }

  lemma ChildrenAligned(d: nat, x: nat)
    requires Aligned(d + 1, x)
    ensures Aligned(d, x) && Aligned(d, x + Pow2(d))
    ensures x / Pow2(d) == 2 * (x / Pow2(d + 1)) && (x + Pow2(d)) / Pow2(d) == 2 * (x / Pow2(d + 1)) + 1
  {
    var p := Pow2(d);
    var k := x / (2 * p);
    AncIsFloor(x, d + 1);
    AncIsFloor(x, d);
    AncIsFloor(x + p, d);
    assert x == k * (2 * p);
    MulAssoc(k, 2, p);
    assert x == 2 * k * p;
    MulDivExact(2 * k, p);
    MulDistrib(2 * k, 1, p);
    MulDivExact(2 * k + 1, p);
  }

  lemma AncMonotone(u: nat, v: nat, d: nat)
    requires u <= v
    ensures Anc(u, d) <= Anc(v, d)
  {
    AncBlock(u, d);
    AncBlock(v, d);
    if Anc(v, d) < Anc(u, d) {
      AncUnique(Anc(v, d), u, d);
      assert false;
    }
  }

  /** Two indexes share a block exactly when their quotients are equal. */
  lemma SameBlock(prev: nat, v: nat, d: nat)
    requires Aligned(d, prev)
    ensures v / Pow2(d) == prev / Pow2(d) <==> prev == Anc(v, d)
  {
    AncIsFloor(prev, d);
    AncIsFloor(v, d);
    AncBlock(v, d);
  }

  /** The producer's duplicate test: does `v` lie under the parent enqueued last? */
  method SharesParent(prevIndex: nat, v: nat, d: nat) returns (same: bool)
    requires Aligned(d, prevIndex)
    ensures same <==> prevIndex == Anc(v, d)
  {
    SameBlock(prevIndex, v, d);
    same := v / Pow2(d) == prevIndex / Pow2(d);
  }

  /** `calculateIndexes`: the two children of the ancestor one level above `depth`. */
  method CalculateIndexes(validatorIndex: nat, depth: nat) returns (first: nat, second: nat)
    ensures first == Anc(validatorIndex, depth + 1) && Aligned(depth + 1, first)
    ensures second == first + Pow2(depth)
  {
    assert Pow2(1) == 2 && Pow2(0) == 1;
    if validatorIndex % 2 == 0 {
      first := validatorIndex;
      second := validatorIndex + 1;
    } else {
      first := validatorIndex - 1;
      second := validatorIndex;
    }
    for k := 1 to depth + 1
      invariant first == Anc(validatorIndex, k) && second == first + Pow2(k - 1)
    {
      AncStep(validatorIndex, k);
      AncBlock(validatorIndex, k);
      AncBlock(validatorIndex, k + 1);
      AlignedIsMod(k + 1, first);
      if first % Pow2(k + 1) == 0 {
        AncUnique(first, validatorIndex, k + 1);
        second := first + Pow2(k);
      } else {
        second := first;
        first := first - Pow2(k);
      }
    }
    AncBlock(validatorIndex, depth + 1);
  }

  // ------------------------------------------------ the changed validators

  predicate HasValidatorChanged(prev: seq<Validator>, validator: Validator, index: nat)
    requires index < |prev| ==> |prev[index].pubkey| == |validator.pubkey| &&
                                |prev[index].withdrawalCredentials| == |validator.withdrawalCredentials|
  {
    || index >= |prev|
    || (exists i :: 0 <= i < |validator.pubkey| && validator.pubkey[i] != prev[index].pubkey[i])
    || (exists i :: 0 <= i < |validator.withdrawalCredentials| &&
                    validator.withdrawalCredentials[i] != prev[index].withdrawalCredentials[i])
    || validator.effectiveBalance != prev[index].effectiveBalance
    || validator.slashed != prev[index].slashed
    || validator.activationEligibilityEpoch != prev[index].activationEligibilityEpoch
    || validator.activationEpoch != prev[index].activationEpoch
    || validator.exitEpoch != prev[index].exitEpoch
    || validator.withdrawableEpoch != prev[index].withdrawableEpoch
  }

  /** Keys and credentials have the fixed SSZ lengths. */
  ghost predicate WellFormed(vs: seq<Validator>) {
    forall i | 0 <= i < |vs| :: |vs[i].pubkey| == 48 && |vs[i].withdrawalCredentials| == 32
  }

  lemma UnchangedMeansEqual(prev: seq<Validator>, cur: seq<Validator>, i: nat)
    requires WellFormed(prev) && WellFormed(cur) && i < |cur|
    ensures HasValidatorChanged(prev, cur[i], i) <==> !(i < |prev| && prev[i] == cur[i])
  {
    if i < |prev| && !HasValidatorChanged(prev, cur[i], i) {
      assert prev[i].pubkey == cur[i].pubkey;
      assert prev[i].withdrawalCredentials == cur[i].withdrawalCredentials;
    }
  }

  /** The changed indexes below `n`, ascending. */
  function Changed(prev: seq<Validator>, cur: seq<Validator>, n: nat): (r: seq<nat>)
    requires WellFormed(prev) && WellFormed(cur) && n <= |cur|
    ensures forall i: nat :: i in r <==> i < n && !(i < |prev| && prev[i] == cur[i])
    ensures Ascending(r)
  {
    if n == 0 then []
    else
      var rest := Changed(prev, cur, n - 1);
      UnchangedMeansEqual(prev, cur, n - 1);
      assert forall i | 0 <= i < |rest| :: rest[i] in rest;
      if HasValidatorChanged(prev, cur[n - 1], n - 1) then rest + [n - 1] else rest
  }

  ghost predicate Ascending(v: seq<nat>) {
    forall i, j | 0 <= i < j < |v| :: v[i] < v[j]
  }

  // ------------------------------------------------ the script of one batch

  /** The distinct ancestors at height `d` of the listed indexes. */
  function Parents(v: seq<nat>, d: nat): (r: seq<nat>)
  {
    if v == [] then []
    else
      var rest := Parents(v[..|v| - 1], d);
      var x := Anc(v[|v| - 1], d);
      if x in rest then rest else rest + [x]
  }

  ghost predicate IsParent(v: seq<nat>, d: nat, x: nat) {
    exists i :: 0 <= i < |v| && Anc(v[i], d) == x
  }

  lemma ParentsOfLonger(u: seq<nat>, last: nat, d: nat, y: nat)
    ensures IsParent(u + [last], d, y) <==> IsParent(u, d, y) || y == Anc(last, d)
  {
    var v := u + [last];
    if IsParent(u, d, y) {
      var i :| 0 <= i < |u| && Anc(u[i], d) == y;
      assert v[i] == u[i];
    }
    assert v[|u|] == last;
  }

  lemma {:induction false} ParentsAreAncestors(v: seq<nat>, d: nat, x: nat)
    ensures x in Parents(v, d) <==> IsParent(v, d, x)
  {
    if v != [] {
      var u, last := v[..|v| - 1], v[|v| - 1];
      assert v == u + [last];
      ParentsAreAncestors(u, d, x);
      ParentsOfOneMore(u, last, d);
      ParentsOfLonger(u, last, d, x);
    }
  }

  lemma {:induction false} ParentsAscend(v: seq<nat>, d: nat)
    requires Ascending(v)
    ensures Ascending(Parents(v, d))
    ensures v != [] ==> Parents(v, d) != [] && Parents(v, d)[|Parents(v, d)| - 1] == Anc(v[|v| - 1], d)
  {
    if v != [] {
      var u, last := v[..|v| - 1], v[|v| - 1];
      assert v == u + [last];
      ParentsAscend(u, d);
      ParentsOfOneMore(u, last, d);
      if u != [] { AncMonotone(u[|u| - 1], last, d); }
      AppendLargest(Parents(u, d), Anc(last, d), Parents(v, d));
    }
  }

  /** Exactly the ancestors, each once, in ascending order. */
  lemma ParentsExact(v: seq<nat>, d: nat)
    requires Ascending(v)
    ensures forall x: nat :: x in Parents(v, d) <==> IsParent(v, d, x)
    ensures Ascending(Parents(v, d))
    ensures v != [] ==> Parents(v, d) != [] && Parents(v, d)[|Parents(v, d)| - 1] == Anc(v[|v| - 1], d)
  {
    forall x: nat ensures x in Parents(v, d) <==> IsParent(v, d, x) { ParentsAreAncestors(v, d, x); }
    ParentsAscend(v, d);
  }

  lemma AppendLargest(r: seq<nat>, x: nat, s: seq<nat>)
    requires Ascending(r) && (r != [] ==> r[|r| - 1] <= x) && s == if x in r then r else r + [x]
    ensures Ascending(s) && s != [] && s[|s| - 1] == x
  {
    if r != [] { LastIsLargest(r, x); }
  }

  lemma LastIsLargest(r: seq<nat>, x: nat)
    requires Ascending(r) && r != [] && r[|r| - 1] <= x
    ensures x in r <==> x == r[|r| - 1]
    ensures x !in r ==> Ascending(r + [x])
  {
    assert forall i | 0 <= i < |r| - 1 :: r[i] < r[|r| - 1];
  }

  function LevelScript(level: nat, parents: seq<nat>): seq<Action> {
    if parents == [] then []
    else
      var p := parents[|parents| - 1];
      LevelScript(level, parents[..|parents| - 1]) +
      [MarkStale(level + 1, p), AddItem(InnerJob(level, p, p + Pow2(level)))]
  }

  /** Levels 0 to n-1, lowest first. */
  function InnerScript(v: seq<nat>, n: nat): seq<Action> {
    if n == 0 then [] else InnerScript(v, n - 1) + LevelScript(n - 1, Parents(v, n))
  }

  function ChunkMap(cur: seq<Validator>, v: seq<nat>): map<nat, Validator>
    requires forall i | i in v :: i < |cur|
  {
    map i | i in v :: cur[i]
  }

  function LeafItems(v: seq<nat>): seq<Action> {
    if v == [] then [] else LeafItems(v[..|v| - 1]) + [AddItem(LeafJob(v[|v| - 1]))]
  }

  lemma SubListsBelow(v: seq<nat>, k: nat, n: nat)
    requires k <= |v| && forall i | i in v :: i < n
    ensures forall i | i in v[..k] :: i < n
    ensures forall i | i in v[k..] :: i < n
  {
    assert forall i | i in v[..k] :: i in v;
    assert forall i | i in v[k..] :: i in v;
  }

  function Min(a: nat, b: nat): nat { if a < b then a else b }

  /** Chunks of validators, each saved before its leaf jobs are enqueued. */
  function LeafScript(cur: seq<Validator>, v: seq<nat>, batchSize: nat): seq<Action>
    requires batchSize >= 1 && forall i | i in v :: i < |cur|
    decreases |v|
  {
    if v == [] then []
    else
      var k := Min(batchSize, |v|);
      SubListsBelow(v, k, |cur|);
      [SaveValidators(ChunkMap(cur, v[..k]))] + LeafItems(v[..k]) + LeafScript(cur, v[k..], batchSize)
  }

  /** The number of writes of validators among these calls. */
  function Writes(script: seq<Action>): nat {
    if script == [] then 0 else Writes(script[..|script| - 1]) + if script[|script| - 1].SaveValidators? then 1 else 0
  }

  lemma {:induction false} WritesConcat(a: seq<Action>, b: seq<Action>)
    ensures Writes(a + b) == Writes(a) + Writes(b)
  {
    if b == [] {
      assert a + b == a;
    } else {
      WritesConcat(a, b[..|b| - 1]);
      assert (a + b)[..|a + b| - 1] == a + b[..|b| - 1];
    }
  }

  lemma {:induction false} LeafItemsWriteNothing(v: seq<nat>)
    ensures Writes(LeafItems(v)) == 0
  {
    if v != [] {
      LeafItemsWriteNothing(v[..|v| - 1]);
      assert LeafItems(v)[..|v| - 1] == LeafItems(v[..|v| - 1]) by { LeafItemsLength(v[..|v| - 1]); }
    }
  }

  lemma {:induction false} LeafItemsLength(v: seq<nat>)
    ensures |LeafItems(v)| == |v|
  {
    if v != [] { LeafItemsLength(v[..|v| - 1]); }
  }

  lemma CeilStep(n: nat, size: nat)
    requires size >= 1 && n > size
    ensures (n + size - 1) / size == 1 + (n - size + size - 1) / size
  {
    DivModUnique(n + size - 1, size, 1 + (n - 1) / size, (n - 1) % size);
  }

  lemma OneWrite(chunk: map<nat, Validator>, items: seq<Action>, rest: seq<Action>)
    requires Writes(items) == 0
    ensures Writes([SaveValidators(chunk)] + items + rest) == 1 + Writes(rest)
  {
    var save := [SaveValidators(chunk)];
    WritesConcat(save, items);
    WritesConcat(save + items, rest);
    assert save[..0] == [] && Writes(save) == 1;
  }

  /** As many writes as there are full chunks, one more for the rest. */
  lemma {:induction false} WritesAreChunks(cur: seq<Validator>, v: seq<nat>, size: nat)
    requires size >= 1 && forall i | i in v :: i < |cur|
    ensures Writes(LeafScript(cur, v, size)) == (|v| + size - 1) / size
    decreases |v|
  {
    if v == [] {
      DivModUnique(size - 1, size, 0, size - 1);
    } else {
      var k := Min(size, |v|);
      SubListsBelow(v, k, |cur|);
      WritesAreChunks(cur, v[k..], size);
      LeafItemsWriteNothing(v[..k]);
      OneWrite(ChunkMap(cur, v[..k]), LeafItems(v[..k]), LeafScript(cur, v[k..], size));
      if |v| > size { CeilStep(|v|, size); } else { DivModUnique(|v| + size - 1, size, 1, |v| - 1); }
    }
  }

  function BatchScript(cur: seq<Validator>, v: seq<nat>, levels: nat): seq<Action>
    requires forall i | i in v :: i < |cur|
  {
    LeafScript(cur, v, 200) + InnerScript(v, levels)
  }

  lemma {:induction false} LevelWritesNothing(level: nat, parents: seq<nat>)
    ensures Writes(LevelScript(level, parents)) == 0
    decreases |parents|
  {
    if parents != [] {
      var p := parents[|parents| - 1];
      var mark, job := MarkStale(level + 1, p), AddItem(InnerJob(level, p, p + Pow2(level)));
      LevelWritesNothing(level, parents[..|parents| - 1]);
      WritesConcat(LevelScript(level, parents[..|parents| - 1]), [mark, job]);
      assert [mark, job][..1] == [mark] && [mark][..0] == [] && Writes([mark]) == 0;
    }
  }

  lemma NothingTwice(a: seq<Action>, b: seq<Action>, both: seq<Action>)
    requires both == a + b && Writes(a) == Writes(b) == 0
    ensures Writes(both) == 0
  {
    WritesConcat(a, b);
  }

  lemma {:induction false} InnerWritesNothing(v: seq<nat>, n: nat)
    ensures Writes(InnerScript(v, n)) == 0
  {
    if n > 0 {
      InnerWritesNothing(v, n - 1);
      LevelWritesNothing(n - 1, Parents(v, n));
      NothingTwice(InnerScript(v, n - 1), LevelScript(n - 1, Parents(v, n)), InnerScript(v, n));
    }
  }

  /** A batch is written two hundred validators at a time. */
  lemma BatchWrites(cur: seq<Validator>, v: seq<nat>, levels: nat)
    requires forall i | i in v :: i < |cur|
    ensures Writes(BatchScript(cur, v, levels)) == (|v| + 199) / 200
  {
    WritesAreChunks(cur, v, 200);
    InnerWritesNothing(v, levels);
    WritesConcat(LeafScript(cur, v, 200), InnerScript(v, levels));
  }

  function ZeroItems(limit: nat, n: nat): seq<Action> {
    if n == 0 then [] else ZeroItems(limit, n - 1) + [AddItem(InnerJob(n - 1, limit, limit))]
  }

  function ZeroScript(levels: nat): seq<Action> {
    [SaveValidators(map[Pow2(levels) := ZeroValidator()]), AddItem(LeafJob(Pow2(levels)))] +
    ZeroItems(Pow2(levels), levels)
  }

  class Producer {
    var log: seq<Action>
    const levels: nat

    constructor (levels: nat)
      ensures this.levels == levels && log == []
    {
      this.levels := levels;
      log := [];
    }

    method Record(a: Action)
      modifies this
      ensures log == old(log) + [a]
    {
      log := log + [a];
    }

    method AddZeroTasks()
      modifies this
      ensures log == old(log) + ZeroScript(levels)
    {
      Record(SaveValidators(map[Pow2(levels) := ZeroValidator()]));
      Record(AddItem(LeafJob(Pow2(levels))));
      var limit := Pow2(levels);
      ghost var start := log;
      AddZeroItems(limit);
      assert start == old(log) + [SaveValidators(map[limit := ZeroValidator()]), AddItem(LeafJob(limit))];
    }

    method AddZeroItems(limit: nat)
      modifies this
      ensures log == old(log) + ZeroItems(limit, levels)
    {
      for i := 0 to levels
        invariant log == old(log) + ZeroItems(limit, i)
      {
        Record(AddItem(InnerJob(i, limit, limit)));
      }
    }

    /** One chunk: the validators in one write, then a leaf job for each. */
    method SaveChunk(cur: seq<Validator>, batch: seq<nat>)
      requires forall i | i in batch :: i < |cur|
      modifies this
      ensures log == old(log) + ([SaveValidators(ChunkMap(cur, batch))] + LeafItems(batch))
    {
      Record(SaveValidators(ChunkMap(cur, batch)));
      for i := 0 to |batch|
        invariant log == old(log) + ([SaveValidators(ChunkMap(cur, batch))] + LeafItems(batch[..i]))
      {
        assert batch[..i + 1][..i] == batch[..i];
        Record(AddItem(LeafJob(batch[i])));
      }
      assert batch[..|batch|] == batch;
    }

    /** `saveValidatorsInBatches`. */
    method SaveValidatorsInBatches(cur: seq<Validator>, changed: seq<nat>, batchSize: nat)
      requires batchSize >= 1 && forall i | i in changed :: i < |cur|
      requires |cur| <= Pow2(levels) && Ascending(changed)
      modifies this
      ensures log == old(log) + LeafScript(cur, changed, batchSize) + InnerScript(changed, levels)
    {
      ghost var start := log;
      ghost var written: seq<Action> := [];
      var rest: seq<nat> := changed;
      while rest != []
        invariant forall i | i in rest :: i < |cur|
        invariant log == start + written
        invariant written + LeafScript(cur, rest, batchSize) == LeafScript(cur, changed, batchSize)
        decreases |rest|
      {
        var k := Min(batchSize, |rest|);
        SubListsBelow(rest, k, |cur|);
        ghost var part := [SaveValidators(ChunkMap(cur, rest[..k]))] + LeafItems(rest[..k]);
        SaveChunk(cur, rest[..k]);
        assert written + (part + LeafScript(cur, rest[k..], batchSize)) ==
               written + part + LeafScript(cur, rest[k..], batchSize);
        written := written + part;
        rest := rest[k..];
      }
      if |changed| > 0 {
        AddInnerLevelProofs(changed, |cur|);
      } else {
        NoInnerWork(levels);
      }
    }

    method MarkAndAdd(j: nat, first: nat, second: nat)
      modifies this
      ensures log == old(log) + [MarkStale(j + 1, first), AddItem(InnerJob(j, first, second))]
    {
      Record(MarkStale(j + 1, first));
      Record(AddItem(InnerJob(j, first, second)));
    }

    /** One changed index at level `j`: its parent is marked and enqueued unless it was the last one. */
    method AddParent(v: nat, prevIndex: nat, j: nat) returns (next: nat)
      requires Aligned(j + 1, prevIndex)
      modifies this
      ensures next == Anc(v, j + 1) && Aligned(j + 1, next)
      ensures log == old(log) +
        if prevIndex == next then [] else [MarkStale(j + 1, next), AddItem(InnerJob(j, next, next + Pow2(j)))]
    {
      AncBlock(v, j + 1);
      var same := SharesParent(prevIndex, v, j + 1);
      if same {
        return prevIndex;
      }
      var first, second := CalculateIndexes(v, j);
      MarkAndAdd(j, first, second);
      next := first;
    }

    /** One level: `prevIndex` starts beyond every block, so the first index is never skipped. */
    method AddLevel(changed: seq<nat>, ghost n: nat, j: nat)
      requires Ascending(changed) && n <= Pow2(levels) && j < levels && forall i | i in changed :: i < n
      modifies this
      ensures log == old(log) + LevelScript(j, Parents(changed, j + 1))
    {
      var prevIndex: nat := 2 * Pow2(levels);
      SentinelAligned(levels, j + 1);
      for i := 0 to |changed|
        invariant log == old(log) + LevelScript(j, Parents(changed[..i], j + 1))
        invariant Aligned(j + 1, prevIndex)
        invariant prevIndex == if i == 0 then 2 * Pow2(levels) else Anc(changed[i - 1], j + 1)
      {
        assert changed[i] in changed;
        NextInLevel(changed, i, prevIndex, levels, j);
        prevIndex := AddParent(changed[i], prevIndex, j);
      }
      assert changed[..|changed|] == changed;
    }

    /** `addInnerLevelProofs`. */
    method AddInnerLevelProofs(changed: seq<nat>, ghost n: nat)
      requires Ascending(changed) && n <= Pow2(levels) && forall i | i in changed :: i < n
      modifies this
      ensures log == old(log) + InnerScript(changed, levels)
    {
      ghost var script: seq<Action> := [];
      for j := 0 to levels
        invariant log == old(log) + script && script == InnerScript(changed, j)
      {
        AddLevel(changed, n, j);
        ghost var level := LevelScript(j, Parents(changed, j + 1));
        assert old(log) + script + level == old(log) + (script + level);
        script := script + level;
      }
    }
  }

  /** The turn at position `i` of the changed indexes. */
  lemma NextParents(changed: seq<nat>, i: nat, prevIndex: nat, levels: nat, d: nat)
    requires Ascending(changed) && i < |changed| && changed[i] < 2 * Pow2(levels)
    requires prevIndex == if i == 0 then 2 * Pow2(levels) else Anc(changed[i - 1], d)
    ensures Parents(changed[..i + 1], d) ==
            Parents(changed[..i], d) + if prevIndex == Anc(changed[i], d) then [] else [Anc(changed[i], d)]
  {
    var u, v := changed[..i], changed[i];
    assert changed[..i + 1] == u + [v] && Ascending(u + [v]);
    assert i > 0 ==> u[|u| - 1] == changed[i - 1];
    OneMoreIndex(u, v, prevIndex, levels, d);
  }

  /** What the producer calls for a parent, unless it was the last one. */
  function ParentCalls(level: nat, prevIndex: nat, x: nat): seq<Action> {
    if prevIndex == x then [] else [MarkStale(level + 1, x), AddItem(InnerJob(level, x, x + Pow2(level)))]
  }

  lemma LevelGrows(level: nat, before: seq<nat>, prevIndex: nat, x: nat, after: seq<nat>)
    requires after == before + if prevIndex == x then [] else [x]
    ensures LevelScript(level, after) == LevelScript(level, before) + ParentCalls(level, prevIndex, x)
  {
    if prevIndex == x { assert after == before; } else { LevelScriptOfOneMore(level, before, x, after); }
  }

  /** And what it adds to the script. */
  lemma NextInLevel(changed: seq<nat>, i: nat, prevIndex: nat, levels: nat, j: nat)
    requires Ascending(changed) && i < |changed| && changed[i] < 2 * Pow2(levels)
    requires prevIndex == if i == 0 then 2 * Pow2(levels) else Anc(changed[i - 1], j + 1)
    ensures LevelScript(j, Parents(changed[..i + 1], j + 1)) ==
            LevelScript(j, Parents(changed[..i], j + 1)) + ParentCalls(j, prevIndex, Anc(changed[i], j + 1))
  {
    NextParents(changed, i, prevIndex, levels, j + 1);
    var before, after := Parents(changed[..i], j + 1), Parents(changed[..i + 1], j + 1);
    LevelGrows(j, before, prevIndex, Anc(changed[i], j + 1), after);
  }

  /** What one turn of the producer's loop does to the parents of the level. */
  lemma OneMoreIndex(u: seq<nat>, v: nat, prevIndex: nat, levels: nat, d: nat)
    requires Ascending(u + [v]) && v < 2 * Pow2(levels)
    requires prevIndex == if u == [] then 2 * Pow2(levels) else Anc(u[|u| - 1], d)
    ensures Parents(u + [v], d) == Parents(u, d) + if prevIndex == Anc(v, d) then [] else [Anc(v, d)]
  {
    AncBelow(v, d);
    AdjacentTestIsMembership(u, v, d);
    ParentsOfOneMore(u, v, d);
  }

  lemma ParentsOfOneMore(u: seq<nat>, v: nat, d: nat)
    ensures Parents(u + [v], d) ==
            if Anc(v, d) in Parents(u, d) then Parents(u, d) else Parents(u, d) + [Anc(v, d)]
  {
    assert (u + [v])[..|u|] == u;
  }

  lemma LevelScriptOfOneMore(level: nat, parents: seq<nat>, x: nat, more: seq<nat>)
    requires more == parents + [x]
    ensures LevelScript(level, more) ==
            LevelScript(level, parents) + [MarkStale(level + 1, x), AddItem(InnerJob(level, x, x + Pow2(level)))]
  {
    assert more[..|parents|] == parents;
  }

  lemma {:induction false} NoInnerWork(n: nat)
    ensures InnerScript([], n) == []
  {
    if n > 0 { NoInnerWork(n - 1); }
  }

  lemma SentinelAligned(levels: nat, d: nat)
    requires d <= levels + 1
    ensures Aligned(d, 2 * Pow2(levels))
  {
    Pow2Add(levels + 1 - d, d);
    assert Pow2(levels + 1) == 2 * Pow2(levels);
    MulDivExact(Pow2(levels + 1 - d), Pow2(d));
    AncIsFloor(2 * Pow2(levels), d);
    assert 2 * Pow2(levels) == Pow2(levels + 1 - d) * Pow2(d);
  }

  /** For ascending indexes, comparing with the previous ancestor finds every duplicate. */
  lemma AdjacentTestIsMembership(u: seq<nat>, v: nat, d: nat)
    requires Ascending(u + [v])
    ensures Anc(v, d) in Parents(u, d) <==> u != [] && Anc(v, d) == Anc(u[|u| - 1], d)
  {
    assert forall i | 0 <= i < |u| :: (u + [v])[i] == u[i];
    ParentsExact(u, d);
    if u != [] {
      assert (u + [v])[|u| - 1] < (u + [v])[|u|];
      AncMonotone(u[|u| - 1], v, d);
      LastIsLargest(Parents(u, d), Anc(v, d));
    }
  }
}
