/** The pipeline cannot wedge, and what happens when its ordering assumptions are dropped. */
module CommitmentProgress {
  import opened Powers
  import opened Merkle
  import opened CommitmentProducer
  import opened CommitmentPipeline
  import opened CommitmentProof
  import opened CommitmentBatches

  // ------------------------------------------------ a drained state is always within reach

  /** An ordered trace from `s` to `t`. */
  ghost predicate Leads<D>(sc: Scheme<D>, s: State<D>, states: seq<State<D>>, moves: seq<Move>, t: State<D>) {
    OrderedTrace(sc, states, moves) && states[0] == s && states[|moves|] == t
  }

  lemma OneMove<D>(sc: Scheme<D>, s: State<D>, m: Move)
    requires Enabled(s, m) && LeavesFirst(sc, s, m)
    ensures Leads(sc, s, [s, Step(sc, s, m)], [m], Step(sc, s, m))
  {}

  lemma Join<D>(sc: Scheme<D>, s1: seq<State<D>>, m1: seq<Move>, s2: seq<State<D>>, m2: seq<Move>)
      returns (states: seq<State<D>>, moves: seq<Move>)
    requires Trace(sc, s1, m1) && Trace(sc, s2, m2) && s1[|m1|] == s2[0]
    ensures states == s1 + s2[1..] && moves == m1 + m2
    ensures Trace(sc, states, moves) && states[0] == s1[0] && states[|moves|] == s2[|m2|]
    ensures forall i | 0 <= i < |m1| :: states[i] == s1[i] && moves[i] == m1[i]
    ensures forall i | 0 <= i < |m2| :: states[|m1| + i] == s2[i]
  {
    states, moves := s1 + s2[1..], m1 + m2;
    forall i | 0 <= i < |moves|
      ensures Enabled(states[i], moves[i]) && states[i + 1] == Step(sc, states[i], moves[i])
    {
      if i < |m1| {
        assert states[i] == s1[i] && states[i + 1] == s1[i + 1] && moves[i] == m1[i];
      } else {
        var k := i - |m1|;
        assert moves[i] == m2[k] && states[i] == s2[k] && states[i + 1] == s2[k + 1];
      }
    }
    assert states[|m1| + |m2|] == s2[|m2|];
  }

  lemma Concat<D>(sc: Scheme<D>, s: State<D>, s1: seq<State<D>>, m1: seq<Move>, t: State<D>,
                  s2: seq<State<D>>, m2: seq<Move>, u: State<D>)
    requires Leads(sc, s, s1, m1, t) && Leads(sc, t, s2, m2, u)
    ensures Leads(sc, s, s1 + s2[1..], m1 + m2, u)
  {
    var states, moves := Join(sc, s1, m1, s2, m2);
    forall i | 0 <= i < |moves| ensures LeavesFirst(sc, states[i], moves[i]) {
      if i >= |m1| { assert moves[i] == m2[i - |m1|] && states[|m1| + (i - |m1|)] == s2[i - |m1|]; }
    }
  }

  /** Leaf jobs first, then inner jobs by level. */
  function Rank(job: Job): nat { if job.LeafJob? then 0 else job.level + 1 }

  lemma {:induction false} LowestJob(m: multiset<Job>) returns (job: Job)
    requires m != multiset{}
    ensures job in m && forall j | j in m :: Rank(job) <= Rank(j)
    decreases |m|
  {
    job :| job in m;
    var rest := m - multiset{job};
    assert forall j | j in m :: j == job || j in rest;
    if rest != multiset{} {
      var other := LowestJob(rest);
      if Rank(other) < Rank(job) { job := other; }
    }
  }

  /** All work is pending, none is of a lower level, and worker `w` is free. */
  ghost predicate ReadyFor<D>(sc: Scheme<D>, cur: seq<Validator>, s: State<D>, w: nat, job: Job) {
    && Inv(sc, cur, s) && s.script == [] && s.leased == multiset{} && job in s.pending
    && w in s.workers && s.workers[w].Idle? && forall j | j in s.pending :: Rank(job) <= Rank(j)
  }

  /** The children of a lowest pending inner job are there and usable. */
  lemma ChildIsReadable<D>(sc: Scheme<D>, cur: seq<Validator>, s: State<D>, w: nat, job: Job, x: nat)
    requires ReadyFor(sc, cur, s, w, job) && job.InnerJob? && (x == job.first || x == job.second)
    ensures LookUp(sc, s, job.level, x).Found? && LookUp(sc, s, job.level, x).entry.Fresh?
  {
    var l, f, g := job.level, job.first, job.second;
    assert JobOk(sc, cur, s, job);
    assert ZeroOk(sc, s, l);
    if f != Limit(sc) {
      ChildInRange(sc, cur, s.script, l, f, g);
      if l >= 1 {
        assert NodeOk(sc, cur, s, l, x);
      } else {
        assert LeafOk(sc, cur, s, x);
      }
    }
  }

  ghost predicate DoneAlone<D>(s: State<D>, t: State<D>, w: nat, job: Job) {
    && t.script == [] && t.leased == multiset{} && t.pending == s.pending - multiset{job}
    && t.workers == s.workers
  }

  /** A free worker leases a lowest job. */
  lemma LeaseAlone<D>(sc: Scheme<D>, cur: seq<Validator>, s: State<D>, w: nat, job: Job) returns (t: State<D>)
    requires ReadyFor(sc, cur, s, w, job)
    ensures Leads(sc, s, [s, t], [Lease(w, job)], t)
    ensures t == State(s.validators, s.store, s.pending - multiset{job}, multiset{job},
                       s.workers[w := Take(job)], s.script)
  {
    assert LeavesFirst(sc, s, Lease(w, job));
    t := Step(sc, s, Lease(w, job));
    OneMove(sc, s, Lease(w, job));
    assert multiset{} + multiset{job} == multiset{job};
  }

  /** A trace goes on with a worker's own step. */
  lemma WorkOn<D>(sc: Scheme<D>, s: State<D>, states: seq<State<D>>, moves: seq<Move>, t: State<D>, w: nat, u: State<D>)
      returns (states': seq<State<D>>, moves': seq<Move>)
    requires Leads(sc, s, states, moves, t) && w in t.workers && !t.workers[w].Idle? && WorkStep(sc, t, w) == u
    ensures Leads(sc, s, states', moves', u)
  {
    OneMove(sc, t, Work(w));
    Concat(sc, s, states, moves, t, [t, u], [Work(w)], u);
    states', moves' := states + [t, u][1..], moves + [Work(w)];
  }

  lemma ProcessLeafAlone<D>(sc: Scheme<D>, cur: seq<Validator>, s: State<D>, w: nat, job: Job)
      returns (states: seq<State<D>>, moves: seq<Move>, t: State<D>)
    requires ReadyFor(sc, cur, s, w, job) && job.LeafJob?
    ensures Leads(sc, s, states, moves, t) && DoneAlone(s, t, w, job)
  {
    assert JobOk(sc, cur, s, job);
    var i := job.index;
    var s1 := LeaseAlone(sc, cur, s, w, job);
    var s2 := SetWorker(s1, w, HasValidator(i, s.validators[i]));
    var s3 := SetWorker(s2.(store := s.store[(0, i) := Fresh(sc.leaf(s.validators[i]))]), w, Saved(job));
    states, moves := [s, s1], [Lease(w, job)];
    states, moves := WorkOn(sc, s, states, moves, s1, w, s2);
    states, moves := WorkOn(sc, s, states, moves, s2, w, s3);
    t := SetWorker(s3.(leased := s3.leased - multiset{job}), w, Idle);
    states, moves := WorkOn(sc, s, states, moves, s3, w, t);
    assert t.workers == s.workers;
  }

  lemma ProcessInnerAlone<D>(sc: Scheme<D>, cur: seq<Validator>, s: State<D>, w: nat, job: Job)
      returns (states: seq<State<D>>, moves: seq<Move>, t: State<D>)
    requires ReadyFor(sc, cur, s, w, job) && job.InnerJob?
    ensures Leads(sc, s, states, moves, t) && DoneAlone(s, t, w, job)
  {
    ChildIsReadable(sc, cur, s, w, job, job.first);
    ChildIsReadable(sc, cur, s, w, job, job.second);
    var s1 := LeaseAlone(sc, cur, s, w, job);
    var states', moves', t' := FinishInner(sc, s1, w, job);
    Concat(sc, s, [s, s1], [Lease(w, job)], s1, states', moves', t');
    states, moves, t := [s, s1] + states'[1..], [Lease(w, job)] + moves', t';
    StillIdle(s.workers, w);
    assert t.workers == s.workers;
  }

  /** From the lease on: both reads, the save, the completion. */
  lemma FinishInner<D>(sc: Scheme<D>, s1: State<D>, w: nat, job: Job)
      returns (states: seq<State<D>>, moves: seq<Move>, t: State<D>)
    requires job.InnerJob? && w in s1.workers && s1.workers[w] == Take(job) && s1.leased == multiset{job}
    requires LookUp(sc, s1, job.level, job.first).Found? && LookUp(sc, s1, job.level, job.first).entry.Fresh?
    requires LookUp(sc, s1, job.level, job.second).Found? && LookUp(sc, s1, job.level, job.second).entry.Fresh?
    ensures Leads(sc, s1, states, moves, t)
    ensures t.script == s1.script && t.leased == multiset{} && t.pending == s1.pending
    ensures t.workers == s1.workers[w := Idle]
  {
    var l, f, g := job.level, job.first, job.second;
    var left, right := LookUp(sc, s1, l, f).entry.digest, LookUp(sc, s1, l, g).entry.digest;
    var s2 := SetWorker(s1, w, ReadingRight(l, f, g, left, 0));
    var s3 := SetWorker(s2, w, HasBoth(l, f, g, left, right));
    var s4 := SetWorker(s3.(store := s1.store[(l + 1, f) := Fresh(Combine(sc, l, g, left, right))]), w, Saved(job));
    states, moves := WorkOn(sc, s1, [s1], [], s1, w, s2);
    states, moves := WorkOn(sc, s1, states, moves, s2, w, s3);
    states, moves := WorkOn(sc, s1, states, moves, s3, w, s4);
    t := SetWorker(s4.(leased := s4.leased - multiset{job}), w, Idle);
    states, moves := WorkOn(sc, s1, states, moves, s4, w, t);
    assert t.workers == s1.workers[w := Idle];
  }

  lemma {:induction false} DrainPending<D>(sc: Scheme<D>, cur: seq<Validator>, s: State<D>, w: nat)
      returns (states: seq<State<D>>, moves: seq<Move>, t: State<D>)
    requires Inv(sc, cur, s) && s.script == [] && s.leased == multiset{} && w in s.workers && s.workers[w].Idle?
    ensures Leads(sc, s, states, moves, t) && Drained(t) && t.workers == s.workers
    decreases |s.pending|
  {
    if s.pending == multiset{} { return [s], [], s; }
    var job := LowestJob(s.pending);
    var u;
    if job.LeafJob? {
      states, moves, u := ProcessLeafAlone(sc, cur, s, w, job);
    } else {
      states, moves, u := ProcessInnerAlone(sc, cur, s, w, job);
    }
    TraceKeeps(sc, cur, states, moves, |moves|);
    var s2, m2, t2 := DrainPending(sc, cur, u, w);
    Concat(sc, s, states, moves, u, s2, m2, t2);
    states, moves, t := states + s2[1..], moves + m2, t2;
  }

  lemma {:induction false} ExpireAll<D>(sc: Scheme<D>, cur: seq<Validator>, s: State<D>, w: nat)
      returns (states: seq<State<D>>, moves: seq<Move>, t: State<D>)
    requires Inv(sc, cur, s) && s.script == [] && w in s.workers && s.workers[w].Idle?
    ensures Leads(sc, s, states, moves, t) && Drained(t) && t.workers == s.workers
    decreases |s.leased|
  {
    if s.leased == multiset{} {
      states, moves, t := DrainPending(sc, cur, s, w);
    } else {
      var job :| job in s.leased;
      var u := Step(sc, s, Expire(job));
      OneMove(sc, s, Expire(job));
      StepKeeps(sc, cur, s, Expire(job));
      var s2, m2, t2 := ExpireAll(sc, cur, u, w);
      Concat(sc, s, [s, u], [Expire(job)], u, s2, m2, t2);
      states, moves, t := [s, u] + s2[1..], [Expire(job)] + m2, t2;
    }
  }

  /** A producer sends the rest of its script; then one worker can finish every job, whatever happened before. */
  lemma {:induction false} CanAlwaysDrain<D>(sc: Scheme<D>, cur: seq<Validator>, s: State<D>, w: nat)
      returns (states: seq<State<D>>, moves: seq<Move>, t: State<D>)
    requires Inv(sc, cur, s) && w in s.workers
    ensures Leads(sc, s, states, moves, t) && Drained(t) && t.workers == s.workers[w := Idle]
    decreases |s.script|
  {
    var m := if s.script != [] then Produce else Fail(w);
    var u := Step(sc, s, m);
    OneMove(sc, s, m);
    StepKeeps(sc, cur, s, m);
    var s2, m2, t2;
    if s.script != [] {
      s2, m2, t2 := CanAlwaysDrain(sc, cur, u, w);
    } else {
      s2, m2, t2 := ExpireAll(sc, cur, u, w);
    }
    Concat(sc, s, [s, u], [m], u, s2, m2, t2);
    states, moves, t := [s, u] + s2[1..], [m] + m2, t2;
  }

  /** Every next list can be processed: there is a run of its batch that drains and leaves all workers free. */
  lemma EveryBatchCanFinish<D>(sc: Scheme<D>, s: State<D>, prev: seq<Validator>, cur: seq<Validator>, w: nat)
      returns (r: Round<D>)
    requires Settled(sc, prev, s) && WellFormed(cur) && |cur| <= Limit(sc)
    requires s.pending == multiset{} && s.leased == multiset{} && forall v | v in s.workers :: s.workers[v].Idle?
    requires w in s.workers
    ensures r.list == cur && ValidHistory(sc, s, prev, [r])
    ensures r.states[|r.moves|].workers == s.workers
  {
    var t;
    r, t := BatchDrains(sc, s, prev, cur, w);
    OneRound(sc, s, prev, r, t);
  }

  lemma BatchDrains<D>(sc: Scheme<D>, s: State<D>, prev: seq<Validator>, cur: seq<Validator>, w: nat)
      returns (r: Round<D>, t: State<D>)
    requires Settled(sc, prev, s) && WellFormed(cur) && |cur| <= Limit(sc)
    requires s.pending == multiset{} && s.leased == multiset{} && forall v | v in s.workers :: s.workers[v].Idle?
    requires w in s.workers
    ensures r.list == cur && Leads(sc, BeginBatch(sc, s, prev, cur), r.states, r.moves, t)
    ensures Drained(t) && t.workers == s.workers
  {
    var s0 := BeginBatch(sc, s, prev, cur);
    BatchStarts(sc, s, prev, cur);
    var states, moves;
    states, moves, t := CanAlwaysDrain(sc, Merged(prev, cur), s0, w);
    r := Round(cur, states, moves);
    StillIdle(s.workers, w);
  }

  lemma StillIdle<D>(workers: map<nat, Worker<D>>, w: nat)
    requires w in workers && workers[w].Idle?
    ensures workers[w := Idle] == workers
  {}

  lemma OneRound<D>(sc: Scheme<D>, s: State<D>, prev: seq<Validator>, r: Round<D>, t: State<D>)
    requires WellFormed(prev) && WellFormed(r.list) && |r.list| <= Limit(sc)
    requires Leads(sc, BeginBatch(sc, s, prev, r.list), r.states, r.moves, t)
    requires Drained(t) && forall v | v in t.workers :: t.workers[v].Idle?
    ensures ValidHistory(sc, s, prev, [r])
  {
    assert [r][1..] == [];
  }

  // ------------------------------------------------ the ordering assumptions are needed

  /**
   A worker that reads a lowest inner job's two children, whatever the store or the fallback answers for them, and
   saves leaves a correct node behind exactly when both answers are the children of the current list.
   */
  lemma EarlyReadExact<D(!new)>(sc: Scheme<D>, cur: seq<Validator>, s: State<D>, w: nat, f: nat)
    requires Injective(sc.pair) && sc.levels >= 1 && f % 2 == 0 && f < |cur| <= Limit(sc)
    requires w in s.workers && s.workers[w] == Reading(0, f, f + 1, 0)
    requires LookUp(sc, s, 0, f).Found? && LookUp(sc, s, 0, f).entry.Fresh?
    requires LookUp(sc, s, 0, f + 1).Found? && LookUp(sc, s, 0, f + 1).entry.Fresh?
    ensures var s1 := WorkStep(sc, s, w);
      s1.workers[w].ReadingRight? &&
      var s2 := WorkStep(sc, s1, w);
      s2.workers[w].HasBoth? &&
      var s3 := WorkStep(sc, s2, w);
      (1, f) in s3.store &&
      (s3.store[(1, f)] == Fresh(BlockDigest(sc, cur, 1, f)) <==>
       LookUp(sc, s, 0, f).entry.digest == EffLeaf(sc, cur)(f) &&
       LookUp(sc, s, 0, f + 1).entry.digest == EffLeaf(sc, cur)(f + 1))
  {
    assert Pow2(1) == 2 && Pow2(0) == 1 && Limit(sc) == 2 * Pow2(sc.levels - 1);
    AlignedIsMod(1, f);
    BlockOfChildren(sc, cur, 0, f);
    BlockAtLeaves(sc, cur, f);
    BlockAtLeaves(sc, cur, f + 1);
    var x, y := LookUp(sc, s, 0, f).entry.digest, LookUp(sc, s, 0, f + 1).entry.digest;
    var s1 := SetWorker(s, w, ReadingRight(0, f, f + 1, x, 0));
    assert WorkStep(sc, s, w) == s1;
    var s2 := SetWorker(s1, w, HasBoth(0, f, f + 1, x, y));
    assert LookUp(sc, s1, 0, f + 1) == LookUp(sc, s, 0, f + 1);
    assert WorkStep(sc, s1, w) == s2;
    assert NoCollision(sc.pair, x, y, EffLeaf(sc, cur)(f), EffLeaf(sc, cur)(f + 1));
  }

  /**
   A worker that still holds the children of an older list when the next batch has settled overwrites the node;
   it stays correct exactly when the held digests are the current ones.
   */
  lemma LateSaveExact<D(!new)>(
      sc: Scheme<D>, cur: seq<Validator>, s: State<D>, w: nat, l: nat, f: nat, left: D, right: D)
    requires Injective(sc.pair) && Settled(sc, cur, s) && l < sc.levels && Aligned(l + 1, f) && f < Limit(sc)
    requires w in s.workers && s.workers[w] == HasBoth(l, f, f + Pow2(l), left, right)
    ensures var s' := WorkStep(sc, s, w);
      s'.store[(l + 1, f)] == Fresh(BlockDigest(sc, cur, l + 1, f)) <==>
      left == BlockDigest(sc, cur, l, f) && right == BlockDigest(sc, cur, l, f + Pow2(l))
  {
    BlockOfChildren(sc, cur, l, f);
    BlockBelowLimit(sc, l + 1, f);
    assert Limit(sc) != f + Pow2(l);
    assert NoCollision(sc.pair, left, right, BlockDigest(sc, cur, l, f), BlockDigest(sc, cur, l, f + Pow2(l)));
  }

  lemma OvertakingChanged(a: Validator, a': Validator, b: Validator)
    requires WellFormed([a, b]) && WellFormed([a', b]) && a != a'
    ensures Changed([a, b], [a', b], 2) == [0]
  {
    UnchangedMeansEqual([a, b], [a', b], 0);
    UnchangedMeansEqual([a, b], [a', b], 1);
    assert Changed([a, b], [a', b], 0) == [];
    assert Changed([a, b], [a', b], 1) == [0];
  }

  lemma OvertakingScript(a: Validator, a': Validator, b: Validator)
    requires WellFormed([a, b]) && WellFormed([a', b]) && a != a'
    ensures Changed([a, b], [a', b], 2) == [0]
    ensures BatchScript([a', b], [0], 1) ==
      [SaveValidators(map[0 := a']), AddItem(LeafJob(0)), MarkStale(1, 0), AddItem(InnerJob(0, 0, 1))]
  {
    OvertakingChanged(a, a', b);
    var v: seq<nat> := [0];
    assert v[..1] == v && v[1..] == [] && v[..0] == [];
    assert Parents(v, 1) == [0] by { assert Parents([], 1) == [] && Anc(0, 1) == 0; }
    assert InnerScript(v, 1) == [MarkStale(1, 0), AddItem(InnerJob(0, 0, 1))] by {
      assert InnerScript(v, 0) == [];
      assert v[..0] == [];
      assert Pow2(0) == 1;
    }
    assert ChunkMap([a', b], v) == map[0 := a'];
    assert LeafItems(v) == [AddItem(LeafJob(0))];
    assert LeafScript([a', b], [], 200) == [];
  }

  lemma SendTwo<D>(sc: Scheme<D>, s: State<D>, a: Action, b: Action, rest: seq<Action>)
      returns (states: seq<State<D>>, moves: seq<Move>)
    requires s.script == [a, b] + rest
    ensures Trace(sc, states, moves) && states[0] == s
    ensures states[|moves|] == Execute(Execute(s, a), b).(script := rest) && moves == [Produce, Produce]
  {
    assert s.script == [a] + ([b] + rest);
    assert s.script[1..] == [b] + rest;
    var p1 := Execute(s, a).(script := [b] + rest);
    assert p1.script[1..] == rest;
    states, moves := [s, p1, Execute(p1, b).(script := rest)], [Produce, Produce];
  }

  /** The producer sends its four calls. */
  lemma OvertakingSends<D>(sc: Scheme<D>, s: State<D>, a': Validator)
      returns (states: seq<State<D>>, moves: seq<Move>)
    requires s.script ==
      [SaveValidators(map[0 := a']), AddItem(LeafJob(0)), MarkStale(1, 0), AddItem(InnerJob(0, 0, 1))]
    requires s.pending == multiset{} && s.leased == multiset{}
    ensures Trace(sc, states, moves) && states[0] == s && forall m | m in moves :: m.Produce?
    ensures var t := states[|moves|];
      t.validators == s.validators + map[0 := a'] && t.store == s.store[(1, 0) := Stale] &&
      t.workers == s.workers && t.leased == multiset{} &&
      t.pending == multiset{LeafJob(0), InnerJob(0, 0, 1)} && t.script == []
  {
    var a1, a2 := SaveValidators(map[0 := a']), AddItem(LeafJob(0));
    var a3, a4 := MarkStale(1, 0), AddItem(InnerJob(0, 0, 1));
    var s1, m1 := SendTwo(sc, s, a1, a2, [a3, a4]);
    var p := Execute(Execute(s, a1), a2).(script := [a3, a4]);
    var s2, m2 := SendTwo(sc, p, a3, a4, []);
    states, moves := Join(sc, s1, m1, s2, m2);
  }

  /** Both jobs are leased at the same time. */
  lemma OvertakingLeases<D>(sc: Scheme<D>, s: State<D>) returns (states: seq<State<D>>, moves: seq<Move>)
    requires s.pending == multiset{LeafJob(0), InnerJob(0, 0, 1)} && s.leased == multiset{}
    requires 0 in s.workers && 1 in s.workers && s.workers[0].Idle? && s.workers[1].Idle?
    ensures Trace(sc, states, moves) && states[0] == s
    ensures states[|moves|] == State(s.validators, s.store, multiset{}, multiset{LeafJob(0), InnerJob(0, 0, 1)},
                                     s.workers[0 := HasLeaf(0)][1 := Reading(0, 0, 1, 0)], s.script)
  {
    var a, b := LeafJob(0), InnerJob(0, 0, 1);
    assert multiset{a, b} - multiset{a} == multiset{b} && multiset{} + multiset{a} == multiset{a};
    assert multiset{b} - multiset{b} == multiset{} && multiset{a} + multiset{b} == multiset{a, b};
    var p1 := State(s.validators, s.store, multiset{b}, multiset{a}, s.workers[0 := HasLeaf(0)], s.script);
    assert Step(sc, s, Lease(0, a)) == p1;
    var p2 := State(s.validators, s.store, multiset{}, multiset{a, b},
                    s.workers[0 := HasLeaf(0)][1 := Reading(0, 0, 1, 0)], s.script);
    assert Step(sc, p1, Lease(1, b)) == p2;
    states, moves := [s, p1, p2], [Lease(0, a), Lease(1, b)];
  }

  /** A worker reads both stored leaves. */
  lemma BothRead<D>(sc: Scheme<D>, s: State<D>, w: nat, x: D, y: D)
      returns (states: seq<State<D>>, moves: seq<Move>)
    requires w in s.workers && s.workers[w] == Reading(0, 0, 1, 0)
    requires (0, 0) in s.store && s.store[(0, 0)] == Fresh(x) && (0, 1) in s.store && s.store[(0, 1)] == Fresh(y)
    ensures Trace(sc, states, moves) && states[0] == s && forall m | m in moves :: m.Work?
    ensures states[|moves|] == SetWorker(s, w, HasBoth(0, 0, 1, x, y))
  {
    var p1 := SetWorker(s, w, ReadingRight(0, 0, 1, x, 0));
    assert Step(sc, s, Work(w)) == p1;
    var p2 := SetWorker(p1, w, HasBoth(0, 0, 1, x, y));
    assert Step(sc, p1, Work(w)) == p2;
    assert p2.workers == s.workers[w := HasBoth(0, 0, 1, x, y)];
    states, moves := [s, p1, p2], [Work(w), Work(w)];
  }

  /** It saves the hash of what it read, and completes its job. */
  lemma ParentSaved<D>(sc: Scheme<D>, s: State<D>, w: nat, x: D, y: D)
      returns (states: seq<State<D>>, moves: seq<Move>)
    requires Limit(sc) == 2 && w in s.workers && s.workers[w] == HasBoth(0, 0, 1, x, y)
    ensures Trace(sc, states, moves) && states[0] == s && forall m | m in moves :: m.Work?
    ensures states[|moves|] == State(s.validators, s.store[(1, 0) := Fresh(sc.pair(x, y))], s.pending,
                                     s.leased - multiset{InnerJob(0, 0, 1)}, s.workers[w := Idle], s.script)
  {
    var job := InnerJob(0, 0, 1);
    var store := s.store[(1, 0) := Fresh(sc.pair(x, y))];
    var q1 := State(s.validators, store, s.pending, s.leased, s.workers[w := Saved(job)], s.script);
    assert Step(sc, s, Work(w)) == q1;
    assert q1.workers[w := Idle] == s.workers[w := Idle];
    var q2 := State(s.validators, store, s.pending, s.leased - multiset{job}, s.workers[w := Idle], s.script);
    assert Step(sc, q1, Work(w)) == q2;
    states, moves := [s, q1, q2], [Work(w), Work(w)];
  }

  lemma OvertakingLeafSaved<D>(sc: Scheme<D>, s: State<D>) returns (states: seq<State<D>>, moves: seq<Move>)
    requires 0 in s.validators && s.leased == multiset{LeafJob(0)} && 0 in s.workers && s.workers[0] == HasLeaf(0)
    ensures Trace(sc, states, moves) && states[0] == s && forall m | m in moves :: m.Work?
    ensures states[|moves|] == State(s.validators, s.store[(0, 0) := Fresh(sc.leaf(s.validators[0]))], s.pending,
                                     multiset{}, s.workers[0 := Idle], s.script)
  {
    var v := s.validators[0];
    var q1 := SetWorker(s, 0, HasValidator(0, v));
    assert Step(sc, s, Work(0)) == q1;
    var store := s.store[(0, 0) := Fresh(sc.leaf(v))];
    var q2 := State(s.validators, store, s.pending, s.leased, q1.workers[0 := Saved(LeafJob(0))], s.script);
    assert Step(sc, q1, Work(0)) == q2;
    assert multiset{LeafJob(0)} - multiset{LeafJob(0)} == multiset{};
    assert q2.workers[0 := Idle] == s.workers[0 := Idle];
    var q3 := State(s.validators, store, s.pending, multiset{}, s.workers[0 := Idle], s.script);
    assert Step(sc, q2, Work(0)) == q3;
    states, moves := [s, q1, q2, q3], [Work(0), Work(0), Work(0)];
  }

  lemma OldPairIsWrong<D(!new)>(sc: Scheme<D>, a: Validator, a': Validator, b: Validator)
    requires sc.levels == 1
    ensures ListRoot(sc, [a', b]) == sc.pair(sc.leaf(a'), sc.leaf(b))
    ensures Injective(sc.pair) && sc.leaf(a) != sc.leaf(a') ==> sc.pair(sc.leaf(a), sc.leaf(b)) != ListRoot(sc, [a', b])
  {
    var cur := [a', b];
    var leaves := seq(|cur|, (i: nat) requires i < |cur| => sc.leaf(cur[i]));
    assert PadAt(sc.zeroChunk, leaves)(0) == sc.leaf(a') && PadAt(sc.zeroChunk, leaves)(1) == sc.leaf(b);
    if Injective(sc.pair) { assert NoCollision(sc.pair, sc.leaf(a), sc.leaf(b), sc.leaf(a'), sc.leaf(b)); }
  }

  /** Worker 1 saves and completes, then worker 0 saves the new leaf and completes. */
  lemma OvertakingSaves<D>(sc: Scheme<D>, s: State<D>, x: D, y: D)
      returns (states: seq<State<D>>, moves: seq<Move>)
    requires sc.levels == 1 && 0 in s.validators && s.script == []
    requires s.pending == multiset{} && s.leased == multiset{LeafJob(0), InnerJob(0, 0, 1)}
    requires 0 in s.workers && s.workers[0] == HasLeaf(0) && 1 in s.workers && s.workers[1] == HasBoth(0, 0, 1, x, y)
    ensures Trace(sc, states, moves) && states[0] == s
    ensures var t := states[|moves|];
      Drained(t) && (1, 0) in t.store && t.store[(1, 0)] == Fresh(sc.pair(x, y))
  {
    assert Limit(sc) == 2 by { assert Pow2(1) == 2; }
    var s1, m1 := ParentSaved(sc, s, 1, x, y);
    assert multiset{LeafJob(0), InnerJob(0, 0, 1)} - multiset{InnerJob(0, 0, 1)} == multiset{LeafJob(0)};
    var s2, m2 := OvertakingLeafSaved(sc, s1[|m1|]);
    states, moves := Join(sc, s1, m1, s2, m2);
  }

  /**
   Without leaf jobs first, a drained queue can leave a wrong root behind, marked usable: the first of two
   validators changed, and a second worker takes the inner job while the leaf job is under way.
   */
  lemma OvertakenLeafLosesUpdate<D(!new)>(sc: Scheme<D>, s: State<D>, a: Validator, a': Validator, b: Validator)
      returns (states: seq<State<D>>, moves: seq<Move>)
    requires sc.levels == 1 && Settled(sc, [a, b], s) && WellFormed([a', b]) && a != a'
    requires Limit(sc) in s.validators && s.pending == multiset{} && s.leased == multiset{}
    requires 0 in s.workers && 1 in s.workers && s.workers[0].Idle? && s.workers[1].Idle?
    ensures Trace(sc, states, moves) && states[0] == BeginBatch(sc, s, [a, b], [a', b])
    ensures var t := states[|moves|];
      && Drained(t) && (1, 0) in t.store && t.store[(1, 0)] == Fresh(sc.pair(sc.leaf(a), sc.leaf(b)))
      && (Injective(sc.pair) && sc.leaf(a) != sc.leaf(a') ==> t.store[(1, 0)] != Fresh(ListRoot(sc, [a', b])))
  {
    OldPairIsWrong(sc, a, a', b);
    OvertakingScript(a, a', b);
    assert LeafIsFresh(sc, [a, b], s, 0) && LeafIsFresh(sc, [a, b], s, 1) by { assert Pow2(1) == 2; }
    var s0 := BeginBatch(sc, s, [a, b], [a', b]);
    assert [] + BatchScript([a', b], [0], 1) == BatchScript([a', b], [0], 1);
    var s1, m1 := OvertakingSends(sc, s0, a');
    var s2, m2 := OvertakingLeases(sc, s1[|m1|]);
    var s3, m3 := BothRead(sc, s2[|m2|], 1, sc.leaf(a), sc.leaf(b));
    var s4, m4 := OvertakingSaves(sc, s3[|m3|], sc.leaf(a), sc.leaf(b));
    states, moves := Join(sc, s1, m1, s2, m2);
    states, moves := Join(sc, states, moves, s3, m3);
    states, moves := Join(sc, states, moves, s4, m4);
  }

  // ------------------------------------------------ a worker left over from the batch before

  /** Traces without leases of inner jobs are ordered. */
  lemma Harmless<D>(sc: Scheme<D>, states: seq<State<D>>, moves: seq<Move>)
    requires Trace(sc, states, moves) && forall m | m in moves :: m.Produce? || m.Work?
    ensures Leads(sc, states[0], states, moves, states[|moves|])
  {
    forall i | 0 <= i < |moves| ensures LeavesFirst(sc, states[i], moves[i]) { assert moves[i] in moves; }
  }

  /** One leaf job and one inner job are there; worker 0 takes the leaf job and completes it. */
  lemma LeafDone<D>(sc: Scheme<D>, s: State<D>) returns (states: seq<State<D>>, moves: seq<Move>, t: State<D>)
    requires s.pending == multiset{LeafJob(0), InnerJob(0, 0, 1)} && s.leased == multiset{}
    requires 0 in s.workers && s.workers[0].Idle? && 0 in s.validators
    ensures Leads(sc, s, states, moves, t)
    ensures t == State(s.validators, s.store[(0, 0) := Fresh(sc.leaf(s.validators[0]))],
                       multiset{InnerJob(0, 0, 1)}, multiset{}, s.workers, s.script)
  {
    var leaf, inner := LeafJob(0), InnerJob(0, 0, 1);
    assert multiset{leaf, inner} - multiset{leaf} == multiset{inner} && multiset{} + multiset{leaf} == multiset{leaf};
    var p := State(s.validators, s.store, multiset{inner}, multiset{leaf}, s.workers[0 := HasLeaf(0)], s.script);
    assert Step(sc, s, Lease(0, leaf)) == p;
    OneMove(sc, s, Lease(0, leaf));
    var s2, m2 := OvertakingLeafSaved(sc, p);
    Harmless(sc, s2, m2);
    t := s2[|m2|];
    Concat(sc, s, [s, p], [Lease(0, leaf)], p, s2, m2, t);
    states, moves := [s, p] + s2[1..], [Lease(0, leaf)] + m2;
    assert t.workers == s.workers by { assert t.workers == s.workers[0 := HasLeaf(0)][0 := Idle]; }
  }

  /** A worker takes the inner job and reads both children. */
  lemma InnerRead<D>(sc: Scheme<D>, s: State<D>, w: nat, x: D, y: D)
      returns (states: seq<State<D>>, moves: seq<Move>, t: State<D>)
    requires s.pending == multiset{InnerJob(0, 0, 1)} && s.leased == multiset{}
    requires w in s.workers && s.workers[w].Idle?
    requires (0, 0) in s.store && s.store[(0, 0)] == Fresh(x) && (0, 1) in s.store && s.store[(0, 1)] == Fresh(y)
    ensures Leads(sc, s, states, moves, t)
    ensures t == State(s.validators, s.store, multiset{}, multiset{InnerJob(0, 0, 1)},
                       s.workers[w := HasBoth(0, 0, 1, x, y)], s.script)
  {
    var inner := InnerJob(0, 0, 1);
    assert multiset{inner} - multiset{inner} == multiset{} && multiset{} + multiset{inner} == multiset{inner};
    var p := State(s.validators, s.store, multiset{}, multiset{inner}, s.workers[w := Reading(0, 0, 1, 0)], s.script);
    assert LeavesFirst(sc, s, Lease(w, inner));
    assert Step(sc, s, Lease(w, inner)) == p;
    OneMove(sc, s, Lease(w, inner));
    var s2, m2 := BothRead(sc, p, w, x, y);
    Harmless(sc, s2, m2);
    t := s2[|m2|];
    Concat(sc, s, [s, p], [Lease(w, inner)], p, s2, m2, t);
    states, moves := [s, p] + s2[1..], [Lease(w, inner)] + m2;
    assert p.workers[w := HasBoth(0, 0, 1, x, y)] == s.workers[w := HasBoth(0, 0, 1, x, y)];
  }

  /** Worker 0 takes the inner job and completes it. */
  lemma InnerDone<D>(sc: Scheme<D>, s: State<D>, x: D, y: D)
      returns (states: seq<State<D>>, moves: seq<Move>, t: State<D>)
    requires Limit(sc) == 2 && s.pending == multiset{InnerJob(0, 0, 1)} && s.leased == multiset{} && s.script == []
    requires 0 in s.workers && s.workers[0].Idle?
    requires (0, 0) in s.store && s.store[(0, 0)] == Fresh(x) && (0, 1) in s.store && s.store[(0, 1)] == Fresh(y)
    ensures Leads(sc, s, states, moves, t) && Drained(t) && t.workers == s.workers
  {
    var s1, m1, p := InnerRead(sc, s, 0, x, y);
    var s2, m2 := ParentSaved(sc, p, 0, x, y);
    Harmless(sc, s2, m2);
    t := s2[|m2|];
    Concat(sc, s, s1, m1, p, s2, m2, t);
    states, moves := s1 + s2[1..], m1 + m2;
    assert multiset{InnerJob(0, 0, 1)} - multiset{InnerJob(0, 0, 1)} == multiset{};
    assert t.workers == s.workers by { assert t.workers == s.workers[0 := p.workers[0]][0 := Idle]; }
  }

  /** The producer sends a batch in which the first of two validators changed, and worker 0 does the leaf job. */
  lemma BatchUpToLeaf<D>(sc: Scheme<D>, s: State<D>, a: Validator, a': Validator, b: Validator)
      returns (states: seq<State<D>>, moves: seq<Move>, t: State<D>)
    requires sc.levels == 1 && Settled(sc, [a, b], s) && WellFormed([a', b]) && a != a'
    requires Limit(sc) in s.validators && s.pending == multiset{} && s.leased == multiset{}
    requires 0 in s.workers && s.workers[0].Idle?
    ensures Leads(sc, BeginBatch(sc, s, [a, b], [a', b]), states, moves, t)
    ensures t.pending == multiset{InnerJob(0, 0, 1)} && t.leased == multiset{} && t.workers == s.workers
    ensures t.script == [] && (0, 0) in t.store && t.store[(0, 0)] == Fresh(sc.leaf(a'))
    ensures (0, 1) in t.store && t.store[(0, 1)] == Fresh(sc.leaf(b))
  {
    OvertakingScript(a, a', b);
    assert LeafIsFresh(sc, [a, b], s, 1) by { assert Pow2(1) == 2; }
    var s0 := BeginBatch(sc, s, [a, b], [a', b]);
    assert [] + BatchScript([a', b], [0], 1) == BatchScript([a', b], [0], 1);
    var s1, m1 := OvertakingSends(sc, s0, a');
    Harmless(sc, s1, m1);
    var s2, m2, p := LeafDone(sc, s1[|m1|]);
    Concat(sc, s0, s1, m1, s1[|m1|], s2, m2, p);
    states, moves, t := s1 + s2[1..], m1 + m2, p;
  }

  /** Worker 1 has read both children when its lease runs out; worker 0 takes the job and completes it. */
  lemma LeaseRunsOut<D>(sc: Scheme<D>, s: State<D>, x: D, y: D)
      returns (states: seq<State<D>>, moves: seq<Move>, t: State<D>)
    requires Limit(sc) == 2 && s.pending == multiset{InnerJob(0, 0, 1)} && s.leased == multiset{} && s.script == []
    requires 0 in s.workers && s.workers[0].Idle? && 1 in s.workers && s.workers[1].Idle?
    requires (0, 0) in s.store && s.store[(0, 0)] == Fresh(x) && (0, 1) in s.store && s.store[(0, 1)] == Fresh(y)
    ensures Leads(sc, s, states, moves, t) && Drained(t)
    ensures t.workers == s.workers[1 := HasBoth(0, 0, 1, x, y)]
  {
    var inner := InnerJob(0, 0, 1);
    var s1, m1, p := InnerRead(sc, s, 1, x, y);
    var q := Step(sc, p, Expire(inner));
    OneMove(sc, p, Expire(inner));
    assert multiset{inner} - multiset{inner} == multiset{} && multiset{} + multiset{inner} == multiset{inner};
    Concat(sc, s, s1, m1, p, [p, q], [Expire(inner)], q);
    var s2, m2, r := InnerDone(sc, q, x, y);
    Concat(sc, s, s1 + [p, q][1..], m1 + [Expire(inner)], q, s2, m2, r);
    states, moves, t := s1 + [p, q][1..] + s2[1..], m1 + [Expire(inner)] + m2, r;
  }

  /** In the first of two batches worker 1 loses its lease after reading; the batch is finished all the same. */
  lemma FirstBatch<D>(sc: Scheme<D>, s: State<D>, a0: Validator, a: Validator, b: Validator)
      returns (states: seq<State<D>>, moves: seq<Move>, t: State<D>)
    requires sc.levels == 1 && Settled(sc, [a0, b], s) && WellFormed([a, b]) && a0 != a
    requires Limit(sc) in s.validators && s.pending == multiset{} && s.leased == multiset{}
    requires 0 in s.workers && 1 in s.workers && forall w | w in s.workers :: s.workers[w].Idle?
    ensures Leads(sc, BeginBatch(sc, s, [a0, b], [a, b]), states, moves, t)
    ensures Drained(t) && Settled(sc, [a, b], t) && Limit(sc) in t.validators
    ensures t.workers == s.workers[1 := HasBoth(0, 0, 1, sc.leaf(a), sc.leaf(b))]
  {
    assert Limit(sc) == 2 by { assert Pow2(1) == 2; }
    var s0 := BeginBatch(sc, s, [a0, b], [a, b]);
    var s1, m1, p := BatchUpToLeaf(sc, s, a0, a, b);
    var s2, m2, q := LeaseRunsOut(sc, p, sc.leaf(a), sc.leaf(b));
    Concat(sc, s0, s1, m1, p, s2, m2, q);
    states, moves, t := s1 + s2[1..], m1 + m2, q;
    BatchStarts(sc, s, [a0, b], [a, b]);
    TraceKeeps(sc, [a, b], states, moves, |moves|);
    DrainedIsSettled(sc, [a, b], t);
  }

  /** In the second one worker 1 saves once the queue is drained. */
  lemma SecondBatch<D>(sc: Scheme<D>, s: State<D>, a: Validator, a': Validator, b: Validator, x: D, y: D)
      returns (states: seq<State<D>>, moves: seq<Move>, t: State<D>)
    requires sc.levels == 1 && Settled(sc, [a, b], s) && WellFormed([a', b]) && a != a'
    requires Limit(sc) in s.validators && s.pending == multiset{} && s.leased == multiset{}
    requires 0 in s.workers && s.workers[0].Idle? && 1 in s.workers && s.workers[1] == HasBoth(0, 0, 1, x, y)
    ensures Leads(sc, BeginBatch(sc, s, [a, b], [a', b]), states, moves, t)
    ensures Drained(t) && (1, 0) in t.store && t.store[(1, 0)] == Fresh(sc.pair(x, y))
  {
    assert Limit(sc) == 2 by { assert Pow2(1) == 2; }
    var s0 := BeginBatch(sc, s, [a, b], [a', b]);
    var s1, m1, p := BatchUpToLeaf(sc, s, a, a', b);
    var s2, m2, q := InnerDone(sc, p, sc.leaf(a'), sc.leaf(b));
    Concat(sc, s0, s1, m1, p, s2, m2, q);
    var s3, m3 := ParentSaved(sc, q, 1, x, y);
    Harmless(sc, s3, m3);
    t := s3[|m3|];
    Concat(sc, s0, s1 + s2[1..], m1 + m2, q, s3, m3, t);
    states, moves := s1 + s2[1..] + s3[1..], m1 + m2 + m3;
    assert multiset{} - multiset{InnerJob(0, 0, 1)} == multiset{};
  }

  /**
   Without free workers between batches an update can be lost although both batches keep the order: a worker that
   read its children in the first batch saves them after the second one has drained.
   */
  lemma LateSaverLosesUpdate<D(!new)>(
      sc: Scheme<D>, s: State<D>, a0: Validator, a: Validator, a': Validator, b: Validator)
      returns (states1: seq<State<D>>, moves1: seq<Move>, states2: seq<State<D>>, moves2: seq<Move>)
    requires sc.levels == 1 && Settled(sc, [a0, b], s) && WellFormed([a, b]) && WellFormed([a', b])
    requires a0 != a && a != a'
    requires Limit(sc) in s.validators && s.pending == multiset{} && s.leased == multiset{}
    requires 0 in s.workers && 1 in s.workers && forall w | w in s.workers :: s.workers[w].Idle?
    ensures OrderedTrace(sc, states1, moves1) && states1[0] == BeginBatch(sc, s, [a0, b], [a, b])
    ensures var t1 := states1[|moves1|];
      && Drained(t1) && Settled(sc, [a, b], t1)
      && OrderedTrace(sc, states2, moves2) && states2[0] == BeginBatch(sc, t1, [a, b], [a', b])
    ensures var t2 := states2[|moves2|];
      && Drained(t2) && (1, 0) in t2.store && t2.store[(1, 0)] == Fresh(sc.pair(sc.leaf(a), sc.leaf(b)))
      && (Injective(sc.pair) && sc.leaf(a) != sc.leaf(a') ==> t2.store[(1, 0)] != Fresh(ListRoot(sc, [a', b])))
  {
    var t1, t2;
    states1, moves1, t1 := FirstBatch(sc, s, a0, a, b);
    states2, moves2, t2 := SecondBatch(sc, t1, a, a', b, sc.leaf(a), sc.leaf(b));
    OldPairIsWrong(sc, a, a', b);
  }
}
