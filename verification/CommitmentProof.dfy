/** The invariant of the commitment pipeline and its consequences over every disciplined run. */
module CommitmentProof {
  import opened Powers
  import opened Merkle
  import opened CommitmentProducer
  import opened CommitmentPipeline

  // ------------------------------------------------ what the nodes should hold

  /**
   The leaves the pipeline works with: the list, then zero chunks; but the missing sibling of an odd last
   validator is read from the depth-0 fallback, the hash of the zero validator.
   */
  function EffLeaf<D>(sc: Scheme<D>, cur: seq<Validator>): nat -> D {
    (i: nat) => if i < |cur| then sc.leaf(cur[i])
                else if i == |cur| && i % 2 == 1 then sc.leaf(ZeroValidator())
                else sc.zeroChunk
  }

  function BlockDigest<D>(sc: Scheme<D>, cur: seq<Validator>, d: nat, x: nat): D {
    Node(sc.pair, EffLeaf(sc, cur), d, x / Pow2(d))
  }

  function ZeroDigest<D>(sc: Scheme<D>, d: nat): D {
    if d == 0 then sc.leaf(ZeroValidator()) else ZeroRoot(sc.pair, sc.zeroChunk, d)
  }

  ghost predicate InRange<D>(sc: Scheme<D>, d: nat, x: nat) {
    1 <= d <= sc.levels && Aligned(d, x) && x < Limit(sc)
  }

  lemma BlockOfChildren<D>(sc: Scheme<D>, cur: seq<Validator>, l: nat, x: nat)
    requires Aligned(l + 1, x)
    ensures Aligned(l, x) && Aligned(l, x + Pow2(l))
    ensures BlockDigest(sc, cur, l + 1, x) ==
            sc.pair(BlockDigest(sc, cur, l, x), BlockDigest(sc, cur, l, x + Pow2(l)))
  {
    ChildrenAligned(l, x);
  }

  lemma LimitAligned<D>(sc: Scheme<D>, d: nat)
    requires d <= sc.levels
    ensures Aligned(d, Limit(sc))
  {
    Pow2Add(sc.levels - d, d);
    MulDivExact(Pow2(sc.levels - d), Pow2(d));
    AncIsFloor(Limit(sc), d);
  }

  /** Blocks do not straddle the registry limit. */
  lemma BlockBelowLimit<D>(sc: Scheme<D>, d: nat, x: nat)
    requires d <= sc.levels && Aligned(d, x) && x < Limit(sc)
    ensures x + Pow2(d) <= Limit(sc)
  {
    LimitAligned(sc, d);
    if x + Pow2(d) > Limit(sc) { AncUnique(x, Limit(sc), d); assert false; }
  }

  lemma BlockBounds(d: nat, x: nat)
    requires Aligned(d, x)
    ensures x / Pow2(d) * Pow2(d) == x && (x / Pow2(d) + 1) * Pow2(d) == x + Pow2(d)
  {
    AncIsFloor(x, d);
    MulDistrib(x / Pow2(d), 1, Pow2(d));
  }

  lemma {:induction false} BlockStartsEven(d: nat, x: nat)
    requires d >= 1 && Aligned(d, x)
    ensures x % 2 == 0
  {
    if d == 1 {
      assert Pow2(1) == 2;
      AlignedIsMod(1, x);
    } else {
      ChildrenAligned(d - 1, x);
      BlockStartsEven(d - 1, x);
    }
  }

  /** Blocks beyond the list are zero subtrees. */
  lemma EmptyBlock<D>(sc: Scheme<D>, cur: seq<Validator>, d: nat, x: nat)
    requires d >= 1 && Aligned(d, x) && x >= |cur|
    ensures BlockDigest(sc, cur, d, x) == ZeroDigest(sc, d)
  {
    BlockBounds(d, x);
    BlockStartsEven(d, x);
    AllZeroNode(sc.pair, EffLeaf(sc, cur), sc.zeroChunk, d, x / Pow2(d));
  }

  /** Entry `i` of the longer list, if any, was already there. */
  ghost predicate Kept(prev: seq<Validator>, cur: seq<Validator>, i: nat) {
    i < |cur| ==> i < |prev| && prev[i] == cur[i]
  }

  /** A block without changed validators keeps its digest when the list grows. */
  lemma UnchangedBlock<D>(sc: Scheme<D>, prev: seq<Validator>, cur: seq<Validator>, d: nat, x: nat)
    requires d >= 1 && Aligned(d, x) && |prev| <= |cur|
    requires forall i: nat | x <= i < x + Pow2(d) :: Kept(prev, cur, i)
    ensures BlockDigest(sc, prev, d, x) == BlockDigest(sc, cur, d, x)
  {
    BlockBounds(d, x);
    BlockStartsEven(d, x);
    var f, g := EffLeaf(sc, prev), EffLeaf(sc, cur);
    forall i: nat | x <= i < x + Pow2(d) ensures f(i) == g(i) {
      assert Kept(prev, cur, i);
      if i % 2 == 1 { assert x <= i - 1 && Kept(prev, cur, i - 1); }
    }
    NodeDependsOnBlock(sc.pair, f, g, d, x / Pow2(d));
  }

  // ------------------------------------------------ the invariant

  ghost predicate ValueOk<D>(sc: Scheme<D>, cur: seq<Validator>, i: nat, v: Validator) {
    if i == Limit(sc) then v == ZeroValidator() else i < |cur| && v == cur[i]
  }

  /** Nothing still to be sent disturbs a job at `level` whose parent is `first`. */
  ghost predicate Past<D>(sc: Scheme<D>, a: Action, level: nat, first: nat) {
    match a
    case SaveValidators(_) => true
    case MarkStale(d, x) => d > level && (d, x) != (level + 1, first)
    case AddItem(LeafJob(i)) => i == Limit(sc)
    case AddItem(_) => true
  }

  ghost predicate InnerOk<D>(sc: Scheme<D>, cur: seq<Validator>, script: seq<Action>,
                             level: nat, first: nat, second: nat)
  {
    && level < sc.levels
    && if first == Limit(sc) then second == Limit(sc)
       else && first < |cur| && Aligned(level + 1, first) && second == first + Pow2(level)
            && forall a | a in script :: Past(sc, a, level, first)
  }

  ghost predicate ScriptOk<D>(sc: Scheme<D>, cur: seq<Validator>, vs: map<nat, Validator>, script: seq<Action>)
    decreases |script|
  {
    script == [] ||
    var rest := script[1..];
    match script[0]
    case SaveValidators(chunk) =>
      (forall i | i in chunk :: ValueOk(sc, cur, i, chunk[i])) && ScriptOk(sc, cur, vs + chunk, rest)
    case MarkStale(d, x) =>
      InRange(sc, d, x) && AddItem(InnerJob(d - 1, x, x + Pow2(d - 1))) in rest && ScriptOk(sc, cur, vs, rest)
    case AddItem(LeafJob(i)) =>
      i in vs && ValueOk(sc, cur, i, vs[i]) && ScriptOk(sc, cur, vs, rest)
    case AddItem(InnerJob(level, first, second)) =>
      InnerOk(sc, cur, rest, level, first, second) && ScriptOk(sc, cur, vs, rest)
  }

  ghost predicate WorkFor<D>(s: State<D>, job: Job) { Outstanding(s, job) || AddItem(job) in s.script }

  /** A node above the leaves is correct, or stale with work on the way, or empty; or its mark is still to come. */
  ghost predicate NodeOk<D>(sc: Scheme<D>, cur: seq<Validator>, s: State<D>, d: nat, x: nat)
    requires d >= 1
  {
    MarkStale(d, x) in s.script ||
    if (d, x) !in s.store then x >= |cur|
    else match s.store[(d, x)]
      case Fresh(digest) => digest == BlockDigest(sc, cur, d, x)
      case Stale => WorkFor(s, InnerJob(d - 1, x, x + Pow2(d - 1)))
  }

  ghost predicate LeafIsFresh<D>(sc: Scheme<D>, cur: seq<Validator>, s: State<D>, i: nat)
    requires i < |cur|
  {
    (0, i) in s.store && s.store[(0, i)] == Fresh(sc.leaf(cur[i]))
  }

  ghost predicate LeafOk<D>(sc: Scheme<D>, cur: seq<Validator>, s: State<D>, i: nat) {
    && ((0, i) in s.store ==> s.store[(0, i)].Fresh?)
    && if i < |cur| then LeafIsFresh(sc, cur, s, i) || WorkFor(s, LeafJob(i)) else (0, i) !in s.store
  }

  function ZeroJob<D>(sc: Scheme<D>, d: nat): Job {
    if d == 0 then LeafJob(Limit(sc)) else InnerJob(d - 1, Limit(sc), Limit(sc))
  }

  ghost predicate ZeroOk<D>(sc: Scheme<D>, s: State<D>, d: nat) {
    if (d, Limit(sc)) in s.store then s.store[(d, Limit(sc))] == Fresh(ZeroDigest(sc, d))
    else WorkFor(s, ZeroJob(sc, d))
  }

  ghost predicate JobOk<D>(sc: Scheme<D>, cur: seq<Validator>, s: State<D>, job: Job) {
    match job
    case LeafJob(i) => i in s.validators && ValueOk(sc, cur, i, s.validators[i])
    case InnerJob(level, first, second) => InnerOk(sc, cur, s.script, level, first, second)
  }

  /** A digest a worker holds for child `x` at `level`. */
  ghost predicate HeldOk<D>(sc: Scheme<D>, cur: seq<Validator>, level: nat, first: nat, x: nat, digest: D) {
    if first == Limit(sc) then level == 0 || digest == ZeroDigest(sc, level)
    else digest == BlockDigest(sc, cur, level, x)
  }

  ghost predicate ReaderOk<D>(sc: Scheme<D>, cur: seq<Validator>, s: State<D>, level: nat, first: nat, second: nat) {
    && InnerOk(sc, cur, s.script, level, first, second)
    && (level == 0 && first != Limit(sc) ==> LeavesDone(sc, s))
  }

  /** The node a finished job was for is usable. */
  ghost predicate DoneOk<D>(sc: Scheme<D>, cur: seq<Validator>, s: State<D>, job: Job) {
    match job
    case LeafJob(i) => (0, i) in s.store && (i < |cur| ==> LeafIsFresh(sc, cur, s, i))
    case InnerJob(level, first, second) => (level + 1, first) in s.store && s.store[(level + 1, first)].Fresh?
  }

  ghost predicate WorkerOk<D>(sc: Scheme<D>, cur: seq<Validator>, s: State<D>, wk: Worker<D>) {
    match wk
    case Idle => true
    case HasLeaf(i) => JobOk(sc, cur, s, LeafJob(i))
    case HasValidator(i, v) => ValueOk(sc, cur, i, v)
    case Reading(l, f, g, _) => ReaderOk(sc, cur, s, l, f, g)
    case ReadingRight(l, f, g, left, _) => ReaderOk(sc, cur, s, l, f, g) && HeldOk(sc, cur, l, f, f, left)
    case HasBoth(l, f, g, left, right) =>
      ReaderOk(sc, cur, s, l, f, g) && HeldOk(sc, cur, l, f, f, left) && HeldOk(sc, cur, l, f, g, right)
    case Saved(job) =>
      DoneOk(sc, cur, s, job) && (job.InnerJob? ==> InnerOk(sc, cur, s.script, job.level, job.first, job.second))
  }

  /** The zero validator is stored, or storing it is the very next call. */
  ghost predicate ZeroSaved<D>(sc: Scheme<D>, s: State<D>) {
    Limit(sc) in s.validators || (s.script != [] && s.script[0] == SaveValidators(map[Limit(sc) := ZeroValidator()]))
  }

  ghost predicate Inv<D>(sc: Scheme<D>, cur: seq<Validator>, s: State<D>) {
    && sc.levels >= 1 && |cur| <= Limit(sc)
    && ZeroSaved(sc, s)
    && ScriptOk(sc, cur, s.validators, s.script)
    && (forall d: nat, x: nat | InRange(sc, d, x) :: NodeOk(sc, cur, s, d, x))
    && (forall i: nat | i < Limit(sc) :: LeafOk(sc, cur, s, i))
    && (forall d: nat | d <= sc.levels :: ZeroOk(sc, s, d))
    && (forall job | Outstanding(s, job) :: JobOk(sc, cur, s, job))
    && (forall w | w in s.workers :: WorkerOk(sc, cur, s, s.workers[w]))
  }

  // ------------------------------------------------ every step keeps it

  /** Outstanding work and stored entries untouched, the side conditions carry over. */
  lemma SameStoreKeeps<D>(sc: Scheme<D>, cur: seq<Validator>, s: State<D>, s': State<D>)
    requires s'.store == s.store
    requires forall job | WorkFor(s, job) :: WorkFor(s', job)
    ensures forall i: nat | LeafOk(sc, cur, s, i) :: LeafOk(sc, cur, s', i)
    ensures forall d: nat | ZeroOk(sc, s, d) :: ZeroOk(sc, s', d)
  {
    forall i: nat | LeafOk(sc, cur, s, i) ensures LeafOk(sc, cur, s', i) {
      assert WorkFor(s, LeafJob(i)) ==> WorkFor(s', LeafJob(i));
    }
    forall d: nat | ZeroOk(sc, s, d) ensures ZeroOk(sc, s', d) {
      assert WorkFor(s, ZeroJob(sc, d)) ==> WorkFor(s', ZeroJob(sc, d));
    }
  }

  /** Jobs and workers only profit from a shorter script, as long as usable nodes stay usable. */
  lemma ShorterScriptKeeps<D>(sc: Scheme<D>, cur: seq<Validator>, s: State<D>, s': State<D>)
    requires Inv(sc, cur, s)
    requires s.script != [] && s'.script == s.script[1..] && s'.workers == s.workers
    requires forall i | i in s.validators ::
               i in s'.validators && (ValueOk(sc, cur, i, s.validators[i]) ==> ValueOk(sc, cur, i, s'.validators[i]))
    requires forall i: nat | (0, i) in s.store :: (0, i) in s'.store && s'.store[(0, i)] == s.store[(0, i)]
    requires forall k | k in s.store && s.store[k].Fresh? && MarkStale(k.0, k.1) != s.script[0] ::
               k in s'.store && s'.store[k].Fresh?
    requires forall i: nat | i != Limit(sc) && LeavesDone(sc, s) && s.script[0] != AddItem(LeafJob(i)) ::
               !Outstanding(s', LeafJob(i))
    ensures forall j | JobOk(sc, cur, s, j) :: JobOk(sc, cur, s', j)
    ensures forall w | w in s'.workers :: WorkerOk(sc, cur, s', s'.workers[w])
  {
    assert forall a | a in s'.script :: a in s.script;
    assert s.script[0] in s.script;
    forall j | JobOk(sc, cur, s, j) ensures JobOk(sc, cur, s', j) {}
    forall w | w in s'.workers ensures WorkerOk(sc, cur, s', s'.workers[w]) {
      var wk := s.workers[w];
      assert WorkerOk(sc, cur, s, wk);
      if wk.Reading? || wk.ReadingRight? || wk.HasBoth? {
        if wk.level == 0 && wk.first != Limit(sc) {
          assert Past(sc, s.script[0], wk.level, wk.first);
        }
      }
      if wk.Saved? && wk.job.InnerJob? && wk.job.first != Limit(sc) {
        assert Past(sc, s.script[0], wk.job.level, wk.job.first);
      }
    }
  }

  lemma ProduceKeepsEntries<D>(sc: Scheme<D>, cur: seq<Validator>, s: State<D>)
    requires Inv(sc, cur, s) && s.script != []
    ensures var s' := Step(sc, s, Produce);
      && (forall d: nat, x: nat | InRange(sc, d, x) :: NodeOk(sc, cur, s', d, x))
      && (forall i: nat | i < Limit(sc) :: LeafOk(sc, cur, s', i))
      && (forall d: nat | d <= sc.levels :: ZeroOk(sc, s', d))
  {
    var a, rest := s.script[0], s.script[1..];
    var s' := Step(sc, s, Produce);
    assert s.script == [a] + rest;
    assert forall b :: b in s.script <==> b == a || b in rest;
    assert forall job | WorkFor(s, job) :: WorkFor(s', job);
    assert a.MarkStale? ==> a.depth >= 1 && a.index != Limit(sc);
    var t := s'.(store := s.store);
    assert forall job :: WorkFor(t, job) <==> WorkFor(s', job);
    SameStoreKeeps(sc, cur, s, t);
    forall i: nat | i < Limit(sc) ensures LeafOk(sc, cur, s', i) {
      assert LeafOk(sc, cur, s, i) && LeafOk(sc, cur, t, i);
    }
    forall d: nat | d <= sc.levels ensures ZeroOk(sc, s', d) { assert ZeroOk(sc, s, d) && ZeroOk(sc, t, d); }
    forall d: nat, x: nat | InRange(sc, d, x) ensures NodeOk(sc, cur, s', d, x) { ProduceKeepsNode(sc, cur, s, d, x); }
  }

  lemma ProduceKeepsNode<D>(sc: Scheme<D>, cur: seq<Validator>, s: State<D>, d: nat, x: nat)
    requires Inv(sc, cur, s) && s.script != [] && InRange(sc, d, x)
    ensures NodeOk(sc, cur, Step(sc, s, Produce), d, x)
  {
    var a, rest := s.script[0], s.script[1..];
    assert s.script == [a] + rest;
    assert forall job | WorkFor(s, job) :: WorkFor(Step(sc, s, Produce), job);
    assert NodeOk(sc, cur, s, d, x);
  }

  lemma ProduceKeepsJobs<D>(sc: Scheme<D>, cur: seq<Validator>, s: State<D>)
    requires Inv(sc, cur, s) && s.script != []
    ensures var s' := Step(sc, s, Produce);
      && (forall job | Outstanding(s', job) :: JobOk(sc, cur, s', job))
      && (forall w | w in s'.workers :: WorkerOk(sc, cur, s', s'.workers[w]))
  {
    var s' := Step(sc, s, Produce);
    ShorterScriptKeeps(sc, cur, s, s');
    forall j | Outstanding(s', j) ensures JobOk(sc, cur, s', j) {
      if Outstanding(s, j) { assert JobOk(sc, cur, s, j); } else { assert s.script[0] == AddItem(j); }
    }
  }

  lemma ProduceKeeps<D>(sc: Scheme<D>, cur: seq<Validator>, s: State<D>)
    requires Inv(sc, cur, s) && s.script != []
    ensures Inv(sc, cur, Step(sc, s, Produce))
  {
    ProduceKeepsEntries(sc, cur, s);
    ProduceKeepsJobs(sc, cur, s);
  }

  /** A state with the same store, script and outstanding jobs, and workers that are right about it. */
  lemma SameJobsKeep<D>(sc: Scheme<D>, cur: seq<Validator>, s: State<D>, s': State<D>)
    requires Inv(sc, cur, s)
    requires s'.store == s.store && s'.script == s.script && s'.validators == s.validators
    requires forall job :: Outstanding(s', job) <==> Outstanding(s, job)
    requires forall w | w in s'.workers :: WorkerOk(sc, cur, s, s'.workers[w])
    ensures Inv(sc, cur, s')
  {
    assert forall job :: WorkFor(s', job) <==> WorkFor(s, job);
    SameStoreKeeps(sc, cur, s, s');
    assert LeavesDone(sc, s) <==> LeavesDone(sc, s');
    forall d: nat, x: nat | InRange(sc, d, x) ensures NodeOk(sc, cur, s', d, x) { assert NodeOk(sc, cur, s, d, x); }
    forall job | Outstanding(s', job) ensures JobOk(sc, cur, s', job) { assert JobOk(sc, cur, s, job); }
    forall w | w in s'.workers ensures WorkerOk(sc, cur, s', s'.workers[w]) {
      assert WorkerOk(sc, cur, s, s'.workers[w]);
    }
  }

  /** Leasing, expiry and crashes move jobs between the two lists only. */
  lemma QueueMoveSameJobs<D>(sc: Scheme<D>, s: State<D>, m: Move)
    requires Enabled(s, m) && (m.Lease? || m.Expire? || m.Fail?)
    ensures var s' := Step(sc, s, m);
      && s'.store == s.store && s'.script == s.script && s'.validators == s.validators
      && s'.workers.Keys == s.workers.Keys
      && forall job :: Outstanding(s', job) <==> Outstanding(s, job)
  {
    if m.Lease? {} else if m.Expire? {} else {}
  }

  lemma QueueMoveKeeps<D>(sc: Scheme<D>, cur: seq<Validator>, s: State<D>, m: Move)
    requires Inv(sc, cur, s) && Enabled(s, m) && LeavesFirst(sc, s, m)
    requires m.Lease? || m.Expire? || m.Fail?
    ensures Inv(sc, cur, Step(sc, s, m))
  {
    var s' := Step(sc, s, m);
    QueueMoveSameJobs(sc, s, m);
    forall w | w in s'.workers ensures WorkerOk(sc, cur, s, s'.workers[w]) {
      assert w in s.workers && WorkerOk(sc, cur, s, s.workers[w]);
      if m.Lease? { assert JobOk(sc, cur, s, m.job); }
    }
    SameJobsKeep(sc, cur, s, s');
  }

  /** A child of an inner job: an aligned block at the job's own level. */
  lemma ChildInRange<D>(sc: Scheme<D>, cur: seq<Validator>, script: seq<Action>, l: nat, f: nat, g: nat)
    requires InnerOk(sc, cur, script, l, f, g) && f != Limit(sc) && |cur| <= Limit(sc)
    ensures Aligned(l, f) && Aligned(l, g) && f < g < Limit(sc)
    ensures l >= 1 ==> InRange(sc, l, f) && InRange(sc, l, g)
    ensures l >= 1 ==> MarkStale(l, f) !in script && MarkStale(l, g) !in script
    ensures InRange(sc, l + 1, f) && MarkStale(l + 1, f) !in script
  {
    ChildrenAligned(l, f);
    BlockBelowLimit(sc, l + 1, f);
    assert MarkStale(l, f) in script ==> Past(sc, MarkStale(l, f), l, f);
    assert MarkStale(l, g) in script ==> Past(sc, MarkStale(l, g), l, f);
    assert MarkStale(l + 1, f) in script ==> Past(sc, MarkStale(l + 1, f), l, f);
  }

  lemma BlockAtLeaves<D>(sc: Scheme<D>, cur: seq<Validator>, x: nat)
    ensures BlockDigest(sc, cur, 0, x) == EffLeaf(sc, cur)(x)
  {
    assert Pow2(0) == 1 && x / 1 == x;
  }

  /** Whatever a reader gets for a child is that child's digest in the current list. */
  lemma ReadIsCorrect<D>(sc: Scheme<D>, cur: seq<Validator>, s: State<D>, l: nat, f: nat, g: nat, x: nat)
    requires Inv(sc, cur, s) && ReaderOk(sc, cur, s, l, f, g) && (x == f || x == g)
    requires LookUp(sc, s, l, x).Found? && LookUp(sc, s, l, x).entry.Fresh?
    ensures HeldOk(sc, cur, l, f, x, LookUp(sc, s, l, x).entry.digest)
  {
    assert ZeroOk(sc, s, l);
    if f != Limit(sc) {
      ChildInRange(sc, cur, s.script, l, f, g);
      if l >= 1 {
        assert NodeOk(sc, cur, s, l, x);
        if (l, x) !in s.store { EmptyBlock(sc, cur, l, x); }
      } else {
        BlockAtLeaves(sc, cur, x);
        assert LeafOk(sc, cur, s, x);
        BlockStartsEven(1, f);
        assert !Outstanding(s, LeafJob(x));
        assert AddItem(LeafJob(x)) in s.script ==> Past(sc, AddItem(LeafJob(x)), l, f);
      }
    }
  }

  lemma OnlyWorkerChanged<D>(sc: Scheme<D>, cur: seq<Validator>, s: State<D>, w: nat, to: Worker<D>)
    requires Inv(sc, cur, s) && w in s.workers && WorkerOk(sc, cur, s, to)
    ensures Inv(sc, cur, SetWorker(s, w, to))
  {
    var s' := SetWorker(s, w, to);
    forall v | v in s'.workers ensures WorkerOk(sc, cur, s, s'.workers[v]) {
      assert v != w ==> WorkerOk(sc, cur, s, s.workers[v]);
    }
    SameJobsKeep(sc, cur, s, s');
  }

  /** Saving a correct leaf or a correct node. */
  lemma SaveKeeps<D>(sc: Scheme<D>, cur: seq<Validator>, s: State<D>, w: nat, key: (nat, nat), digest: D, job: Job)
    requires Inv(sc, cur, s) && w in s.workers
    requires key.0 == 0 ==> job == LeafJob(key.1) && (key.1 == Limit(sc) || key.1 < |cur|)
    requires key.0 == 0 && key.1 != Limit(sc) ==> digest == sc.leaf(cur[key.1])
    requires key.0 != 0 ==> job.InnerJob? && key == (job.level + 1, job.first) &&
                            InnerOk(sc, cur, s.script, job.level, job.first, job.second)
    requires key.0 != 0 && key.1 != Limit(sc) ==> digest == BlockDigest(sc, cur, key.0, key.1)
    requires key.1 == Limit(sc) ==> digest == ZeroDigest(sc, key.0)
    ensures Inv(sc, cur, SetWorker(s.(store := s.store[key := Fresh(digest)]), w, Saved(job)))
  {
    var s' := SetWorker(s.(store := s.store[key := Fresh(digest)]), w, Saved(job));
    assert forall j :: Outstanding(s', j) <==> Outstanding(s, j);
    assert forall j :: WorkFor(s', j) <==> WorkFor(s, j);
    forall d: nat, x: nat | InRange(sc, d, x) ensures NodeOk(sc, cur, s', d, x) {
      assert NodeOk(sc, cur, s, d, x);
    }
    forall i: nat | i < Limit(sc) ensures LeafOk(sc, cur, s', i) { assert LeafOk(sc, cur, s, i); }
    forall d: nat | d <= sc.levels ensures ZeroOk(sc, s', d) { assert ZeroOk(sc, s, d); }
    forall v | v in s'.workers ensures WorkerOk(sc, cur, s', s'.workers[v]) {
      if v != w { assert WorkerOk(sc, cur, s, s.workers[v]); }
    }
  }

  lemma CompleteKeeps<D>(sc: Scheme<D>, cur: seq<Validator>, s: State<D>, w: nat)
    requires Inv(sc, cur, s) && w in s.workers && s.workers[w].Saved?
    ensures Inv(sc, cur, Step(sc, s, Work(w)))
  {
    var job := s.workers[w].job;
    var s' := Step(sc, s, Work(w));
    assert WorkerOk(sc, cur, s, s.workers[w]);
    assert forall j | Outstanding(s', j) :: Outstanding(s, j);
    assert forall j | WorkFor(s, j) && j != job :: WorkFor(s', j);
    forall d: nat, x: nat | InRange(sc, d, x) ensures NodeOk(sc, cur, s', d, x) {
      assert NodeOk(sc, cur, s, d, x);
    }
    forall i: nat | i < Limit(sc) ensures LeafOk(sc, cur, s', i) { assert LeafOk(sc, cur, s, i); }
    forall d: nat | d <= sc.levels ensures ZeroOk(sc, s', d) { assert ZeroOk(sc, s, d); }
    forall v | v in s'.workers ensures WorkerOk(sc, cur, s', s'.workers[v]) {
      if v != w { assert WorkerOk(sc, cur, s, s.workers[v]); }
    }
  }

  /** A marked child is asked for again, six times in all, then the worker gives up; each child is counted anew. */
  lemma MarkedChildIsRetried<D>(
      sc: Scheme<D>, s: State<D>, w: nat, level: nat, first: nat, second: nat, left: D, n: nat)
    requires w in s.workers && n <= 6
    ensures s.workers[w] == Reading(level, first, second, n) && n < 6 ==>
      LookUp(sc, s, level, first) == Found(Fresh(left)) ==>
        WorkStep(sc, s, w).workers[w] == ReadingRight(level, first, second, left, 0)
    ensures s.workers[w] == Reading(level, first, second, n) ==>
      LookUp(sc, s, level, first) == Found(Stale) ==>
        WorkStep(sc, s, w).workers[w] == if n < 6 then Reading(level, first, second, n + 1) else Idle
    ensures s.workers[w] == ReadingRight(level, first, second, left, n) ==>
      LookUp(sc, s, level, second) == Found(Stale) ==>
        WorkStep(sc, s, w).workers[w] == if n < 6 then ReadingRight(level, first, second, left, n + 1) else Idle
  {}

  /** Reading a child changes nothing but the reader's own state. */
  lemma ReadKeeps<D>(sc: Scheme<D>, cur: seq<Validator>, s: State<D>, w: nat)
    requires Inv(sc, cur, s) && w in s.workers && (s.workers[w].Reading? || s.workers[w].ReadingRight?)
    ensures Inv(sc, cur, WorkStep(sc, s, w))
  {
    var wk := s.workers[w];
    assert WorkerOk(sc, cur, s, wk);
    var to := WorkStep(sc, s, w).workers[w];
    if (wk.Reading? && to.ReadingRight?) || to.HasBoth? {
      ReadIsCorrect(sc, cur, s, wk.level, wk.first, wk.second, if wk.Reading? then wk.first else wk.second);
    }
    OnlyWorkerChanged(sc, cur, s, w, to);
    assert SetWorker(s, w, to) == WorkStep(sc, s, w);
  }

  lemma InnerSaveKeeps<D>(sc: Scheme<D>, cur: seq<Validator>, s: State<D>, w: nat)
    requires Inv(sc, cur, s) && w in s.workers && s.workers[w].HasBoth?
    ensures Inv(sc, cur, WorkStep(sc, s, w))
  {
    var wk := s.workers[w];
    var l, f, g := wk.level, wk.first, wk.second;
    assert WorkerOk(sc, cur, s, wk);
    if f != Limit(sc) {
      ChildInRange(sc, cur, s.script, l, f, g);
      BlockOfChildren(sc, cur, l, f);
    }
    SaveKeeps(sc, cur, s, w, (l + 1, f), Combine(sc, l, g, wk.left, wk.right), InnerJob(l, f, g));
  }

  lemma WorkKeeps<D>(sc: Scheme<D>, cur: seq<Validator>, s: State<D>, w: nat)
    requires Inv(sc, cur, s) && Enabled(s, Work(w))
    ensures Inv(sc, cur, Step(sc, s, Work(w)))
  {
    var wk := s.workers[w];
    assert WorkerOk(sc, cur, s, wk);
    match wk {
      case HasLeaf(i) =>
        OnlyWorkerChanged(sc, cur, s, w, if i in s.validators then HasValidator(i, s.validators[i]) else Idle);
      case HasValidator(i, v) =>
        SaveKeeps(sc, cur, s, w, (0, i), sc.leaf(v), LeafJob(i));
      case Reading(l, f, g, retries) =>
        ReadKeeps(sc, cur, s, w);
      case ReadingRight(l, f, g, left, retries) =>
        ReadKeeps(sc, cur, s, w);
      case HasBoth(l, f, g, left, right) =>
        InnerSaveKeeps(sc, cur, s, w);
      case Saved(job) =>
        CompleteKeeps(sc, cur, s, w);
    }
  }

  /** One step of anyone, in any order, with leaf jobs first. */
  lemma StepKeeps<D>(sc: Scheme<D>, cur: seq<Validator>, s: State<D>, m: Move)
    requires Inv(sc, cur, s) && Enabled(s, m) && LeavesFirst(sc, s, m)
    ensures Inv(sc, cur, Step(sc, s, m))
  {
    match m
    case Produce => ProduceKeeps(sc, cur, s);
    case Work(w) => WorkKeeps(sc, cur, s, w);
    case _ => QueueMoveKeeps(sc, cur, s, m);
  }

  lemma {:induction false} TraceKeeps<D>(
      sc: Scheme<D>, cur: seq<Validator>, states: seq<State<D>>, moves: seq<Move>, n: nat)
    requires OrderedTrace(sc, states, moves) && Inv(sc, cur, states[0]) && n <= |moves|
    ensures Inv(sc, cur, states[n])
  {
    if n > 0 {
      TraceKeeps(sc, cur, states, moves, n - 1);
      StepKeeps(sc, cur, states[n - 1], moves[n - 1]);
      assert states[n - 1 + 1] == Step(sc, states[n - 1], moves[n - 1]);
    }
  }
}
