/**
 The distributed commitment mapper as a state machine: a store of cached nodes, a queue with leases, any number
 of workers, and a producer that executes its script one call at a time between the workers' steps.
 */
module CommitmentPipeline {
  import opened Powers
  import opened CommitmentProducer

  /** The hashes of the two trees built in step, taken together as one digest type. */
  datatype Scheme<!D> = Scheme(leaf: Validator -> D, pair: (D, D) -> D, zeroChunk: D, levels: nat)

  /** A cached proof: marked `needsChange`, or usable. */
  datatype Entry<D> = Stale | Fresh(digest: D)

  datatype Lookup<D> = Missing | Found(entry: Entry<D>)

  datatype Worker<D> =
    | Idle
    | HasLeaf(index: nat)
    | HasValidator(index: nat, validator: Validator)
    | Reading(level: nat, first: nat, second: nat, retries: nat)
    | ReadingRight(level: nat, first: nat, second: nat, left: D, retries: nat)
    | HasBoth(level: nat, first: nat, second: nat, left: D, right: D)
    | Saved(job: Job)

  datatype State<D> = State(
    validators: map<nat, Validator>, store: map<(nat, nat), Entry<D>>,
    pending: multiset<Job>, leased: multiset<Job>, workers: map<nat, Worker<D>>, script: seq<Action>)

  /** `Work` is a worker's next own step; `Fail` an error or a crash; `Expire` a lease running out. */
  datatype Move = Produce | Lease(worker: nat, job: Job) | Work(w: nat) | Fail(failed: nat) | Expire(late: Job)

  function Limit<D>(sc: Scheme<D>): nat { Pow2(sc.levels) }

  predicate Enabled<D>(s: State<D>, m: Move) {
    match m
    case Produce => s.script != []
    case Lease(w, job) => w in s.workers && s.workers[w].Idle? && job in s.pending
    case Work(w) => w in s.workers && !s.workers[w].Idle?
    case Fail(w) => w in s.workers
    case Expire(job) => job in s.leased
  }

  /** `fetch_proof` reads the node, or the zero node of that depth when the key is missing. */
  function LookUp<D>(sc: Scheme<D>, s: State<D>, depth: nat, index: nat): Lookup<D> {
    if (depth, index) in s.store then Found(s.store[(depth, index)])
    else if (depth, Limit(sc)) in s.store then Found(s.store[(depth, Limit(sc))])
    else Missing
  }

  /** The inner circuit: only the zero job of the lowest level replaces both children by zero chunks. */
  function Combine<D>(sc: Scheme<D>, level: nat, second: nat, left: D, right: D): D {
    if second == Limit(sc) && level == 0 then sc.pair(sc.zeroChunk, sc.zeroChunk) else sc.pair(left, right)
  }

  function Execute<D>(s: State<D>, a: Action): State<D> {
    match a
    case SaveValidators(chunk) => s.(validators := s.validators + chunk)
    case MarkStale(d, x) => s.(store := s.store[(d, x) := Stale])
    case AddItem(job) => s.(pending := s.pending + multiset{job})
  }

  function Take<D>(job: Job): Worker<D> {
    match job
    case LeafJob(i) => HasLeaf(i)
    case InnerJob(level, first, second) => Reading(level, first, second, 0)
  }

  function SetWorker<D>(s: State<D>, w: nat, to: Worker<D>): State<D> { s.(workers := s.workers[w := to]) }

  function WorkStep<D>(sc: Scheme<D>, s: State<D>, w: nat): State<D>
    requires w in s.workers && !s.workers[w].Idle?
  {
    match s.workers[w]
    case HasLeaf(i) =>
      SetWorker(s, w, if i in s.validators then HasValidator(i, s.validators[i]) else Idle)
    case HasValidator(i, v) =>
      SetWorker(s.(store := s.store[(0, i) := Fresh(sc.leaf(v))]), w, Saved(LeafJob(i)))
    case Reading(level, first, second, retries) =>
      SetWorker(s, w,
        if retries > 5 then Idle
        else match LookUp(sc, s, level, first)
          case Missing => Idle
          case Found(Stale) => Reading(level, first, second, retries + 1)
          case Found(Fresh(digest)) => ReadingRight(level, first, second, digest, 0))
    case ReadingRight(level, first, second, left, retries) =>
      SetWorker(s, w,
        if retries > 5 then Idle
        else match LookUp(sc, s, level, second)
          case Missing => Idle
          case Found(Stale) => ReadingRight(level, first, second, left, retries + 1)
          case Found(Fresh(digest)) => HasBoth(level, first, second, left, digest))
    case HasBoth(level, first, second, left, right) =>
      SetWorker(
        s.(store := s.store[(level + 1, first) := Fresh(Combine(sc, level, second, left, right))]),
        w, Saved(InnerJob(level, first, second)))
    case Saved(job) =>
      SetWorker(s.(leased := s.leased - multiset{job}), w, Idle)
  }

  function Step<D>(sc: Scheme<D>, s: State<D>, m: Move): State<D>
    requires Enabled(s, m)
  {
    match m
    case Produce => Execute(s, s.script[0]).(script := s.script[1..])
    case Lease(w, job) =>
      SetWorker(s.(pending := s.pending - multiset{job}, leased := s.leased + multiset{job}), w, Take(job))
    case Work(w) => WorkStep(sc, s, w)
    case Fail(w) => SetWorker(s, w, Idle)
    case Expire(job) => s.(leased := s.leased - multiset{job}, pending := s.pending + multiset{job})
  }

  predicate Outstanding<D>(s: State<D>, job: Job) { job in s.pending || job in s.leased }

  /** No leaf job of a validator waits or is being worked on. */
  ghost predicate LeavesDone<D>(sc: Scheme<D>, s: State<D>) {
    forall i: nat | i != Limit(sc) :: !Outstanding(s, LeafJob(i))
  }

  /** The order the pipeline depends on: lowest inner jobs are handed out once the batch's leaf jobs are complete. */
  ghost predicate LeavesFirst<D>(sc: Scheme<D>, s: State<D>, m: Move) {
    m.Lease? && m.job.InnerJob? && m.job.level == 0 && m.job.first != Limit(sc) ==> LeavesDone(sc, s)
  }

  /** The states met when moves are executed one after another. */
  ghost predicate Trace<D>(sc: Scheme<D>, states: seq<State<D>>, moves: seq<Move>) {
    |states| == |moves| + 1 &&
    forall i | 0 <= i < |moves| :: Enabled(states[i], moves[i]) && states[i + 1] == Step(sc, states[i], moves[i])
  }

  ghost predicate OrderedTrace<D>(sc: Scheme<D>, states: seq<State<D>>, moves: seq<Move>) {
    Trace(sc, states, moves) && forall i | 0 <= i < |moves| :: LeavesFirst(sc, states[i], moves[i])
  }

  /** Redis before the first start: nothing stored, nothing queued, workers waiting. */
  ghost predicate Initial<D>(s: State<D>) {
    && s.validators == map[] && s.store == map[] && s.script == []
    && s.pending == multiset{} && s.leased == multiset{}
    && forall w | w in s.workers :: s.workers[w].Idle?
  }

  /** The producer fetched `cur` after having processed `prev`. */
  ghost function BeginBatch<D>(sc: Scheme<D>, s: State<D>, prev: seq<Validator>, cur: seq<Validator>): State<D>
    requires WellFormed(prev) && WellFormed(cur)
  {
    s.(script := (if Limit(sc) in s.validators then [] else ZeroScript(sc.levels)) +
                 BatchScript(cur, Changed(prev, cur, |cur|), sc.levels))
  }

  /**
   What the store is about after the batch for `cur`: the producer never touches validators beyond a list that is
   shorter than the one before, as a lower limit on the number of validators makes it at a restart.
   */
  function Merged(prev: seq<Validator>, cur: seq<Validator>): seq<Validator> {
    if |prev| <= |cur| then cur else cur + prev[|cur|..]
  }

  /** The batch is over: nothing left to send, nothing queued or leased. */
  ghost predicate Drained<D>(s: State<D>) {
    s.script == [] && s.pending == multiset{} && s.leased == multiset{}
  }

  datatype Round<D> = Round(list: seq<Validator>, states: seq<State<D>>, moves: seq<Move>)

  /**
   Successive batches: every batch runs with its leaf jobs first, and the next one starts when the queue is drained
   and no worker still holds a job. The next list is compared with everything stored so far.
   */
  ghost predicate ValidHistory<D>(sc: Scheme<D>, s: State<D>, prev: seq<Validator>, rounds: seq<Round<D>>)
    decreases |rounds|
  {
    rounds == [] ||
    var r := rounds[0];
    && WellFormed(prev) && WellFormed(r.list) && |r.list| <= Limit(sc)
    && OrderedTrace(sc, r.states, r.moves) && r.states[0] == BeginBatch(sc, s, prev, r.list)
    && var s' := r.states[|r.moves|];
       Drained(s') && (forall w | w in s'.workers :: s'.workers[w].Idle?) &&
       ValidHistory(sc, s', Merged(prev, r.list), rounds[1..])
  }

  /** What the store is about after a history. */
  function FinalList<D>(prev: seq<Validator>, rounds: seq<Round<D>>): seq<Validator>
    decreases |rounds|
  {
    if rounds == [] then prev else FinalList(Merged(prev, rounds[0].list), rounds[1..])
  }
}
