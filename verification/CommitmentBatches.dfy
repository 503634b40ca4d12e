/** From one batch to the next: the producer's script starts the invariant, a drained queue ends it. */
module CommitmentBatches {
  import opened Powers
  import opened Merkle
  import opened CommitmentProducer
  import opened CommitmentPipeline
  import opened CommitmentProof

  // ------------------------------------------------ the script is well ordered

  /** Fit to follow level `l` of the inner script. */
  ghost predicate Above(a: Action, l: nat) {
    match a
    case SaveValidators(_) => false
    case MarkStale(d, _) => d > l
    case AddItem(job) => job.InnerJob?
  }

  ghost predicate AllAbove(script: seq<Action>, l: nat) { forall a | a in script :: Above(a, l) }

  ghost predicate OkAfterAnything<D>(sc: Scheme<D>, cur: seq<Validator>, script: seq<Action>) {
    forall vs :: ScriptOk(sc, cur, vs, script)
  }

  lemma PushScript<D>(sc: Scheme<D>, cur: seq<Validator>, a: Action, rest: seq<Action>)
    requires OkAfterAnything(sc, cur, rest)
    requires a.MarkStale? ==> InRange(sc, a.depth, a.index) &&
                              AddItem(InnerJob(a.depth - 1, a.index, a.index + Pow2(a.depth - 1))) in rest
    requires a.AddItem? ==> a.job.InnerJob? && InnerOk(sc, cur, rest, a.job.level, a.job.first, a.job.second)
    requires a.SaveValidators? ==> forall i | i in a.chunk :: ValueOk(sc, cur, i, a.chunk[i])
    ensures OkAfterAnything(sc, cur, [a] + rest)
  {
    assert ([a] + rest)[1..] == rest;
  }

  ghost predicate ParentsOk<D>(sc: Scheme<D>, cur: seq<Validator>, d: nat, ps: seq<nat>) {
    Ascending(ps) && forall p | p in ps :: Aligned(d, p) && p < |cur|
  }

  /** The two calls for one parent. */
  function MarkAndJob(l: nat, p: nat): seq<Action> { [MarkStale(l + 1, p), AddItem(InnerJob(l, p, p + Pow2(l)))] }

  lemma PushParent<D>(sc: Scheme<D>, cur: seq<Validator>, l: nat, p: nat, rest: seq<Action>)
    requires l < sc.levels && Aligned(l + 1, p) && p < |cur| <= Limit(sc)
    requires OkAfterAnything(sc, cur, rest) && forall a | a in rest :: Past(sc, a, l, p)
    ensures OkAfterAnything(sc, cur, MarkAndJob(l, p) + rest)
  {
    var job := AddItem(InnerJob(l, p, p + Pow2(l)));
    PushScript(sc, cur, job, rest);
    PushScript(sc, cur, MarkStale(l + 1, p), [job] + rest);
    assert [MarkStale(l + 1, p)] + ([job] + rest) == MarkAndJob(l, p) + rest;
  }

  lemma Assoc(a: seq<Action>, b: seq<Action>, c: seq<Action>)
    ensures a + b + c == a + (b + c)
  {}

  /** What may follow the calls for these parents. */
  ghost predicate Follows(script: seq<Action>, l: nat, ps: seq<nat>) {
    forall a | a in script :: Above(a, l) && (a.MarkStale? && a.depth == l + 1 ==> a.index !in ps)
  }

  lemma FollowsLast<D>(sc: Scheme<D>, rest: seq<Action>, l: nat, front: seq<nat>, p: nat)
    requires Follows(rest, l, front + [p]) && p !in front
    ensures Follows(MarkAndJob(l, p) + rest, l, front)
    ensures forall a | a in rest :: Past(sc, a, l, p)
  {}

  lemma {:induction false} LevelScriptOk<D>(
      sc: Scheme<D>, cur: seq<Validator>, l: nat, ps: seq<nat>, rest: seq<Action>)
    requires l < sc.levels && |cur| <= Limit(sc) && ParentsOk(sc, cur, l + 1, ps)
    requires OkAfterAnything(sc, cur, rest) && Follows(rest, l, ps)
    ensures OkAfterAnything(sc, cur, LevelScript(l, ps) + rest)
    decreases |ps|
  {
    if ps == [] {
      assert LevelScript(l, ps) + rest == rest;
    } else {
      var front, p := ps[..|ps| - 1], ps[|ps| - 1];
      assert ps == front + [p] && p !in front;
      FollowsLast(sc, rest, l, front, p);
      PushParent(sc, cur, l, p, rest);
      LevelScriptOk(sc, cur, l, front, MarkAndJob(l, p) + rest);
      Assoc(LevelScript(l, front), MarkAndJob(l, p), rest);
    }
  }

  lemma {:induction false} LevelScriptAbove(l: nat, ps: seq<nat>)
    ensures AllAbove(LevelScript(l, ps), l)
    decreases |ps|
  {
    if ps != [] {
      LevelScriptAbove(l, ps[..|ps| - 1]);
    }
  }

  lemma ParentsAreOk<D>(sc: Scheme<D>, cur: seq<Validator>, v: seq<nat>, d: nat)
    requires Ascending(v) && forall i | i in v :: i < |cur|
    ensures ParentsOk(sc, cur, d, Parents(v, d))
  {
    ParentsExact(v, d);
    forall p | p in Parents(v, d) ensures Aligned(d, p) && p < |cur| {
      assert IsParent(v, d, p);
      var i :| 0 <= i < |v| && Anc(v[i], d) == p;
      AncBlock(v[i], d);
      assert v[i] in v;
    }
  }

  lemma OneLevelOk<D>(sc: Scheme<D>, cur: seq<Validator>, ps: seq<nat>, l: nat, rest: seq<Action>)
    requires l < sc.levels && |cur| <= Limit(sc) && ParentsOk(sc, cur, l + 1, ps)
    requires OkAfterAnything(sc, cur, rest) && AllAbove(rest, l + 1)
    ensures OkAfterAnything(sc, cur, LevelScript(l, ps) + rest) && AllAbove(LevelScript(l, ps) + rest, l)
  {
    assert forall a | a in rest :: Above(a, l + 1);
    LevelScriptOk(sc, cur, l, ps, rest);
    LevelScriptAbove(l, ps);
  }

  lemma {:induction false} InnerScriptOk<D>(
      sc: Scheme<D>, cur: seq<Validator>, v: seq<nat>, n: nat, rest: seq<Action>)
    requires n <= sc.levels && |cur| <= Limit(sc)
    requires forall d: nat | 1 <= d <= n :: ParentsOk(sc, cur, d, Parents(v, d))
    requires OkAfterAnything(sc, cur, rest) && AllAbove(rest, n)
    ensures OkAfterAnything(sc, cur, InnerScript(v, n) + rest)
  {
    if n == 0 {
      assert InnerScript(v, n) + rest == rest;
    } else {
      OneLevelOk(sc, cur, Parents(v, n), n - 1, rest);
      InnerScriptOk(sc, cur, v, n - 1, LevelScript(n - 1, Parents(v, n)) + rest);
      Assoc(InnerScript(v, n - 1), LevelScript(n - 1, Parents(v, n)), rest);
    }
  }

  lemma {:induction false} LeafItemsOk<D>(
      sc: Scheme<D>, cur: seq<Validator>, vs: map<nat, Validator>, v: seq<nat>, rest: seq<Action>)
    requires ScriptOk(sc, cur, vs, rest)
    requires forall i | i in v :: i in vs && ValueOk(sc, cur, i, vs[i])
    ensures ScriptOk(sc, cur, vs, LeafItems(v) + rest)
    decreases |v|
  {
    if v == [] {
      assert LeafItems(v) + rest == rest;
    } else {
      var front, last := v[..|v| - 1], v[|v| - 1];
      assert last in v && forall i | i in front :: i in v;
      var rest' := [AddItem(LeafJob(last))] + rest;
      assert rest'[1..] == rest;
      LeafItemsOk(sc, cur, vs, front, rest');
      Assoc(LeafItems(front), [AddItem(LeafJob(last))], rest);
    }
  }

  lemma SaveFirst<D>(
      sc: Scheme<D>, cur: seq<Validator>, vs: map<nat, Validator>, chunk: map<nat, Validator>, rest: seq<Action>)
    requires (forall i | i in chunk :: ValueOk(sc, cur, i, chunk[i])) && ScriptOk(sc, cur, vs + chunk, rest)
    ensures ScriptOk(sc, cur, vs, [SaveValidators(chunk)] + rest)
  {
    assert ([SaveValidators(chunk)] + rest)[1..] == rest;
  }

  lemma {:induction false} LeafScriptOk<D>(
      sc: Scheme<D>, cur: seq<Validator>, v: seq<nat>, size: nat, rest: seq<Action>)
    requires size >= 1 && |cur| <= Limit(sc) && forall i | i in v :: i < |cur|
    requires OkAfterAnything(sc, cur, rest)
    ensures OkAfterAnything(sc, cur, LeafScript(cur, v, size) + rest)
    decreases |v|
  {
    if v == [] {
      assert LeafScript(cur, v, size) + rest == rest;
    } else {
      var k := Min(size, |v|);
      SubListsBelow(v, k, |cur|);
      var chunk := ChunkMap(cur, v[..k]);
      LeafScriptOk(sc, cur, v[k..], size, rest);
      var rest1 := LeafScript(cur, v[k..], size) + rest;
      var rest2 := LeafItems(v[..k]) + rest1;
      forall vs ensures ScriptOk(sc, cur, vs, [SaveValidators(chunk)] + rest2) {
        LeafItemsOk(sc, cur, vs + chunk, v[..k], rest1);
        SaveFirst(sc, cur, vs, chunk, rest2);
      }
      Assoc([SaveValidators(chunk)] + LeafItems(v[..k]), LeafScript(cur, v[k..], size), rest);
      Assoc([SaveValidators(chunk)], LeafItems(v[..k]), rest1);
    }
  }

  lemma {:induction false} ZeroItemsOk<D>(sc: Scheme<D>, cur: seq<Validator>, n: nat, rest: seq<Action>)
    requires n <= sc.levels && OkAfterAnything(sc, cur, rest)
    ensures OkAfterAnything(sc, cur, ZeroItems(Limit(sc), n) + rest)
  {
    if n == 0 {
      assert ZeroItems(Limit(sc), n) + rest == rest;
    } else {
      var job := AddItem(InnerJob(n - 1, Limit(sc), Limit(sc)));
      PushScript(sc, cur, job, rest);
      ZeroItemsOk(sc, cur, n - 1, [job] + rest);
      Assoc(ZeroItems(Limit(sc), n - 1), [job], rest);
    }
  }

  /** Saving the zero validator, then its leaf job. */
  lemma ZeroStartOk<D>(sc: Scheme<D>, cur: seq<Validator>, vs: map<nat, Validator>, rest: seq<Action>)
    requires OkAfterAnything(sc, cur, rest)
    ensures var limit := Limit(sc);
      ScriptOk(sc, cur, vs, [SaveValidators(map[limit := ZeroValidator()])] + ([AddItem(LeafJob(limit))] + rest))
  {
    var limit := Limit(sc);
    var chunk := map[limit := ZeroValidator()];
    var rest1, rest2 := [AddItem(LeafJob(limit))] + rest, [SaveValidators(chunk)] + ([AddItem(LeafJob(limit))] + rest);
    assert rest1[1..] == rest && rest2[1..] == rest1;
    assert ScriptOk(sc, cur, vs + chunk, rest);
    assert ScriptOk(sc, cur, vs + chunk, rest1);
  }

  lemma ZeroScriptOk<D>(sc: Scheme<D>, cur: seq<Validator>, rest: seq<Action>)
    requires OkAfterAnything(sc, cur, rest)
    ensures OkAfterAnything(sc, cur, ZeroScript(sc.levels) + rest)
  {
    var limit, levels := Limit(sc), sc.levels;
    ZeroItemsOk(sc, cur, levels, rest);
    var rest1 := ZeroItems(limit, levels) + rest;
    var rest2 := [AddItem(LeafJob(limit))] + rest1;
    var save := SaveValidators(map[limit := ZeroValidator()]);
    forall vs ensures ScriptOk(sc, cur, vs, [save] + rest2) {
      ZeroStartOk(sc, cur, vs, rest1);
    }
    assert ZeroScript(levels) + rest == [save] + rest2;
  }

  // ------------------------------------------------ what the script contains

  lemma {:induction false} LevelScriptMarks(l: nat, ps: seq<nat>, d: nat, x: nat)
    ensures MarkStale(d, x) in LevelScript(l, ps) <==> d == l + 1 && x in ps
    decreases |ps|
  {
    if ps != [] {
      var front := ps[..|ps| - 1];
      assert ps == front + [ps[|ps| - 1]];
      LevelScriptMarks(l, front, d, x);
    }
  }

  lemma InTopOrBelow(below: seq<Action>, l: nat, ps: seq<nat>, d: nat, x: nat)
    ensures MarkStale(d, x) in below + LevelScript(l, ps) <==> MarkStale(d, x) in below || (d == l + 1 && x in ps)
  {
    LevelScriptMarks(l, ps, d, x);
  }

  lemma {:induction false} InnerScriptMarks(v: seq<nat>, n: nat, d: nat, x: nat)
    ensures MarkStale(d, x) in InnerScript(v, n) <==> 1 <= d <= n && x in Parents(v, d)
  {
    if n > 0 {
      InnerScriptMarks(v, n - 1, d, x);
      var below, ps := InnerScript(v, n - 1), Parents(v, n);
      InTopOrBelow(below, n - 1, ps, d, x);
      assert InnerScript(v, n) == below + LevelScript(n - 1, ps);
      if d == n { assert x in Parents(v, d) <==> x in ps; }
    }
  }

  lemma {:induction false} LeafItemsContain(v: seq<nat>, i: nat)
    requires i in v
    ensures AddItem(LeafJob(i)) in LeafItems(v)
    decreases |v|
  {
    if v[|v| - 1] != i {
      assert v == v[..|v| - 1] + [v[|v| - 1]];
      LeafItemsContain(v[..|v| - 1], i);
    }
  }

  lemma {:induction false} LeafScriptContains(cur: seq<Validator>, v: seq<nat>, size: nat, i: nat)
    requires size >= 1 && (forall j | j in v :: j < |cur|) && i in v
    ensures AddItem(LeafJob(i)) in LeafScript(cur, v, size)
    decreases |v|
  {
    var k := Min(size, |v|);
    SubListsBelow(v, k, |cur|);
    assert v == v[..k] + v[k..];
    if i in v[..k] { LeafItemsContain(v[..k], i); } else { LeafScriptContains(cur, v[k..], size, i); }
  }

  lemma {:induction false} ZeroItemsContain(limit: nat, n: nat, l: nat)
    requires l < n
    ensures AddItem(InnerJob(l, limit, limit)) in ZeroItems(limit, n)
  {
    if l < n - 1 { ZeroItemsContain(limit, n - 1, l); }
  }

  // ------------------------------------------------ between batches

  /** Everything cached is right for `cur`; the zero chain is complete or the store is still empty of it. */
  ghost predicate Settled<D>(sc: Scheme<D>, cur: seq<Validator>, s: State<D>) {
    && sc.levels >= 1 && |cur| <= Limit(sc) && WellFormed(cur)
    && (forall d: nat, x: nat | InRange(sc, d, x) ::
          if (d, x) in s.store then s.store[(d, x)] == Fresh(BlockDigest(sc, cur, d, x)) else x >= |cur|)
    && (forall i: nat | i < Limit(sc) ::
          if i < |cur| then LeafIsFresh(sc, cur, s, i) else (0, i) !in s.store)
    && (forall d: nat | d <= sc.levels ::
          if Limit(sc) in s.validators
          then (d, Limit(sc)) in s.store && s.store[(d, Limit(sc))] == Fresh(ZeroDigest(sc, d))
          else (d, Limit(sc)) !in s.store)
  }

  lemma InitialIsSettled<D>(sc: Scheme<D>, s: State<D>)
    requires sc.levels >= 1 && Initial(s)
    ensures Settled(sc, [], s)
  {}

  /** The script of a batch marks exactly the ancestors of changed validators. */
  lemma BatchMarks<D>(sc: Scheme<D>, s: State<D>, prev: seq<Validator>, cur: seq<Validator>, d: nat, x: nat)
    requires Settled(sc, prev, s) && WellFormed(cur) && |prev| <= |cur| <= Limit(sc) && InRange(sc, d, x)
    ensures
      (forall i: nat | x <= i < x + Pow2(d) :: Kept(prev, cur, i)) ||
      MarkStale(d, x) in BeginBatch(sc, s, prev, cur).script
  {
    if i: nat :| x <= i < x + Pow2(d) && !Kept(prev, cur, i) {
      ChangedBlockIsMarked(prev, cur, sc.levels, i, d, x);
    }
  }

  lemma ChangedBlockIsMarked(prev: seq<Validator>, cur: seq<Validator>, levels: nat, i: nat, d: nat, x: nat)
    requires WellFormed(prev) && WellFormed(cur) && !Kept(prev, cur, i)
    requires 1 <= d <= levels && Aligned(d, x) && x <= i < x + Pow2(d)
    ensures MarkStale(d, x) in InnerScript(Changed(prev, cur, |cur|), levels)
  {
    var v := Changed(prev, cur, |cur|);
    assert i in v;
    var k :| 0 <= k < |v| && v[k] == i;
    AncUnique(x, v[k], d);
    ParentsExact(v, d);
    assert IsParent(v, d, x);
    InnerScriptMarks(v, levels, d, x);
  }

  lemma BeginBatchScriptOk<D>(sc: Scheme<D>, s: State<D>, prev: seq<Validator>, cur: seq<Validator>)
    requires WellFormed(prev) && WellFormed(cur) && |cur| <= Limit(sc)
    ensures OkAfterAnything(sc, cur, BeginBatch(sc, s, prev, cur).script)
  {
    var v := Changed(prev, cur, |cur|);
    forall d: nat | 1 <= d <= sc.levels ensures ParentsOk(sc, cur, d, Parents(v, d)) { ParentsAreOk(sc, cur, v, d); }
    InnerScriptOk(sc, cur, v, sc.levels, []);
    assert InnerScript(v, sc.levels) + [] == InnerScript(v, sc.levels);
    LeafScriptOk(sc, cur, v, 200, InnerScript(v, sc.levels));
    if Limit(sc) in s.validators {
      assert [] + BatchScript(cur, v, sc.levels) == BatchScript(cur, v, sc.levels);
    } else {
      ZeroScriptOk(sc, cur, BatchScript(cur, v, sc.levels));
    }
  }

  lemma BeginBatchZeroWork<D>(sc: Scheme<D>, s: State<D>, prev: seq<Validator>, cur: seq<Validator>, d: nat)
    requires WellFormed(prev) && WellFormed(cur) && Limit(sc) !in s.validators && d <= sc.levels
    ensures AddItem(ZeroJob(sc, d)) in BeginBatch(sc, s, prev, cur).script
    ensures BeginBatch(sc, s, prev, cur).script[0] == SaveValidators(map[Limit(sc) := ZeroValidator()])
  {
    var z := ZeroScript(sc.levels);
    if d >= 1 { ZeroItemsContain(Limit(sc), sc.levels, d - 1); } else { assert z[1] == AddItem(LeafJob(Limit(sc))); }
    assert AddItem(ZeroJob(sc, d)) in z;
  }

  lemma GrownBatchStarts<D>(sc: Scheme<D>, s: State<D>, prev: seq<Validator>, cur: seq<Validator>)
    requires Settled(sc, prev, s) && WellFormed(cur) && |prev| <= |cur| <= Limit(sc)
    requires s.pending == multiset{} && s.leased == multiset{} && forall w | w in s.workers :: s.workers[w].Idle?
    ensures Inv(sc, cur, BeginBatch(sc, s, prev, cur))
  {
    var script := BeginBatch(sc, s, prev, cur).script;
    BeginBatchScriptOk(sc, s, prev, cur);
    if Limit(sc) !in s.validators { BeginBatchZeroWork(sc, s, prev, cur, 0); }
    forall d: nat, x: nat | InRange(sc, d, x) ensures NodeOk(sc, cur, s.(script := script), d, x) {
      BatchMarks(sc, s, prev, cur, d, x);
      NodeAtStart(sc, s, prev, cur, script, d, x);
    }
    forall i: nat | i < Limit(sc) ensures LeafOk(sc, cur, s.(script := script), i) {
      if !Kept(prev, cur, i) { ChangedLeafIsSent(sc, s, prev, cur, i); }
      LeafAtStart(sc, s, prev, cur, script, i);
    }
    forall d: nat | d <= sc.levels ensures ZeroOk(sc, s.(script := script), d) {
      if Limit(sc) !in s.validators { BeginBatchZeroWork(sc, s, prev, cur, d); }
      ZeroAtStart(sc, s, prev, script, d);
    }
    StartIsInv(sc, cur, s.(script := script));
  }

  /** The script for a shorter list is the script for that list continued with the old one. */
  lemma {:induction false} ChangedBelow(prev: seq<Validator>, cur: seq<Validator>, n: nat)
    requires WellFormed(prev) && WellFormed(cur) && |cur| < |prev| && n <= |cur|
    ensures WellFormed(Merged(prev, cur)) && Changed(prev, Merged(prev, cur), n) == Changed(prev, cur, n)
  {
    if n > 0 { ChangedBelow(prev, cur, n - 1); }
  }

  lemma {:induction false} NothingChangedAbove(prev: seq<Validator>, cur: seq<Validator>, n: nat)
    requires WellFormed(prev) && WellFormed(cur) && |cur| < |prev| && |cur| <= n <= |prev|
    ensures WellFormed(Merged(prev, cur)) && Changed(prev, Merged(prev, cur), n) == Changed(prev, cur, |cur|)
  {
    if n == |cur| {
      ChangedBelow(prev, cur, n);
    } else {
      NothingChangedAbove(prev, cur, n - 1);
      var m := Merged(prev, cur);
      assert m[n - 1] == prev[n - 1];
      UnchangedMeansEqual(prev, m, n - 1);
    }
  }

  lemma {:induction false} SameLeafScript(cur: seq<Validator>, longer: seq<Validator>, v: seq<nat>, size: nat)
    requires size >= 1 && (forall i | i in v :: i < |cur|) && cur <= longer
    ensures LeafScript(longer, v, size) == LeafScript(cur, v, size)
    decreases |v|
  {
    if v != [] {
      var k := Min(size, |v|);
      SubListsBelow(v, k, |cur|);
      assert ChunkMap(longer, v[..k]) == ChunkMap(cur, v[..k]);
      SameLeafScript(cur, longer, v[k..], size);
    }
  }

  lemma BatchOfMerged<D>(sc: Scheme<D>, s: State<D>, prev: seq<Validator>, cur: seq<Validator>)
    requires WellFormed(prev) && WellFormed(cur)
    ensures WellFormed(Merged(prev, cur))
    ensures BeginBatch(sc, s, prev, cur) == BeginBatch(sc, s, prev, Merged(prev, cur))
  {
    if |cur| < |prev| {
      NothingChangedAbove(prev, cur, |prev|);
      SameBatchScript(cur, Merged(prev, cur), Changed(prev, cur, |cur|), sc.levels);
      SameStart(sc, s, prev, cur, Merged(prev, cur));
    }
  }

  lemma SameStart<D>(sc: Scheme<D>, s: State<D>, prev: seq<Validator>, cur: seq<Validator>, longer: seq<Validator>)
    requires WellFormed(prev) && WellFormed(cur) && WellFormed(longer)
    requires Changed(prev, cur, |cur|) == Changed(prev, longer, |longer|)
    requires BatchScript(cur, Changed(prev, cur, |cur|), sc.levels) ==
             BatchScript(longer, Changed(prev, longer, |longer|), sc.levels)
    ensures BeginBatch(sc, s, prev, cur) == BeginBatch(sc, s, prev, longer)
  {}

  lemma SameBatchScript(cur: seq<Validator>, longer: seq<Validator>, v: seq<nat>, levels: nat)
    requires cur <= longer && forall i | i in v :: i < |cur|
    ensures BatchScript(cur, v, levels) == BatchScript(longer, v, levels)
  {
    SameLeafScript(cur, longer, v, 200);
  }

  /** A settled store and the producer's script for the next list meet the invariant for the merged list. */
  lemma BatchStarts<D>(sc: Scheme<D>, s: State<D>, prev: seq<Validator>, cur: seq<Validator>)
    requires Settled(sc, prev, s) && WellFormed(cur) && |cur| <= Limit(sc)
    requires s.pending == multiset{} && s.leased == multiset{} && forall w | w in s.workers :: s.workers[w].Idle?
    ensures WellFormed(Merged(prev, cur)) && Inv(sc, Merged(prev, cur), BeginBatch(sc, s, prev, cur))
  {
    BatchOfMerged(sc, s, prev, cur);
    GrownBatchStarts(sc, s, prev, Merged(prev, cur));
  }

  lemma NodeAtStart<D>(sc: Scheme<D>, s: State<D>, prev: seq<Validator>, cur: seq<Validator>,
                       script: seq<Action>, d: nat, x: nat)
    requires Settled(sc, prev, s) && |prev| <= |cur| <= Limit(sc) && InRange(sc, d, x)
    requires (forall i: nat | x <= i < x + Pow2(d) :: Kept(prev, cur, i)) || MarkStale(d, x) in script
    ensures NodeOk(sc, cur, s.(script := script), d, x)
  {
    if MarkStale(d, x) !in script {
      assert Kept(prev, cur, x);
      UnchangedBlock(sc, prev, cur, d, x);
    }
  }

  lemma ChangedLeafIsSent<D>(sc: Scheme<D>, s: State<D>, prev: seq<Validator>, cur: seq<Validator>, i: nat)
    requires WellFormed(prev) && WellFormed(cur) && !Kept(prev, cur, i)
    ensures AddItem(LeafJob(i)) in BeginBatch(sc, s, prev, cur).script
  {
    var v := Changed(prev, cur, |cur|);
    assert i in v;
    LeafScriptContains(cur, v, 200, i);
  }

  lemma LeafAtStart<D>(sc: Scheme<D>, s: State<D>, prev: seq<Validator>, cur: seq<Validator>,
                       script: seq<Action>, i: nat)
    requires Settled(sc, prev, s) && |prev| <= |cur| <= Limit(sc) && i < Limit(sc)
    requires Kept(prev, cur, i) || AddItem(LeafJob(i)) in script
    ensures LeafOk(sc, cur, s.(script := script), i)
  {}

  lemma ZeroAtStart<D>(sc: Scheme<D>, s: State<D>, prev: seq<Validator>, script: seq<Action>, d: nat)
    requires Settled(sc, prev, s) && d <= sc.levels
    requires Limit(sc) in s.validators || AddItem(ZeroJob(sc, d)) in script
    ensures ZeroOk(sc, s.(script := script), d)
  {}

  lemma StartIsInv<D>(sc: Scheme<D>, cur: seq<Validator>, s: State<D>)
    requires sc.levels >= 1 && |cur| <= Limit(sc) && ZeroSaved(sc, s) && OkAfterAnything(sc, cur, s.script)
    requires forall d: nat, x: nat | InRange(sc, d, x) :: NodeOk(sc, cur, s, d, x)
    requires forall i: nat | i < Limit(sc) :: LeafOk(sc, cur, s, i)
    requires forall d: nat | d <= sc.levels :: ZeroOk(sc, s, d)
    requires s.pending == multiset{} && s.leased == multiset{} && forall w | w in s.workers :: s.workers[w].Idle?
    ensures Inv(sc, cur, s)
  {}

  /** With nothing left to do the store is settled for the current list. */
  lemma DrainedIsSettled<D>(sc: Scheme<D>, cur: seq<Validator>, s: State<D>)
    requires Inv(sc, cur, s) && Drained(s) && WellFormed(cur)
    ensures Settled(sc, cur, s) && Limit(sc) in s.validators
  {
    assert forall job :: !WorkFor(s, job);
    forall d: nat, x: nat | InRange(sc, d, x)
      ensures if (d, x) in s.store then s.store[(d, x)] == Fresh(BlockDigest(sc, cur, d, x)) else x >= |cur|
    {
      assert NodeOk(sc, cur, s, d, x);
    }
    forall i: nat | i < Limit(sc)
      ensures if i < |cur| then LeafIsFresh(sc, cur, s, i) else (0, i) !in s.store
    {
      assert LeafOk(sc, cur, s, i);
    }
    forall d: nat | d <= sc.levels
      ensures (d, Limit(sc)) in s.store && s.store[(d, Limit(sc))] == Fresh(ZeroDigest(sc, d))
    {
      assert ZeroOk(sc, s, d);
    }
  }

  // ------------------------------------------------ main results

  /** The commitment the pipeline is for: the root of the list padded with zero chunks. */
  function ListRoot<D>(sc: Scheme<D>, cur: seq<Validator>): D {
    PaddedRoot(sc.pair, sc.zeroChunk, seq(|cur|, (i: nat) requires i < |cur| => sc.leaf(cur[i])), sc.levels)
  }

  lemma ListRootOf<D>(sc: Scheme<D>, cur: seq<Validator>, leaves: seq<D>)
    requires |leaves| == |cur| && forall i | 0 <= i < |cur| :: leaves[i] == sc.leaf(cur[i])
    ensures ListRoot(sc, cur) == PaddedRoot(sc.pair, sc.zeroChunk, leaves, sc.levels)
  {
    assert seq(|cur|, (i: nat) requires i < |cur| => sc.leaf(cur[i])) == leaves;
  }

  /** The root the pipeline computes is that commitment exactly for an even number of validators. */
  lemma RootIsListRootIffEven<D(!new)>(sc: Scheme<D>, cur: seq<Validator>)
    requires Injective(sc.pair) && sc.leaf(ZeroValidator()) != sc.zeroChunk && sc.levels >= 1 && |cur| <= Limit(sc)
    ensures BlockDigest(sc, cur, sc.levels, 0) == ListRoot(sc, cur) <==> |cur| % 2 == 0
  {
    var leaves := seq(|cur|, (i: nat) requires i < |cur| => sc.leaf(cur[i]));
    var f, g := EffLeaf(sc, cur), PadAt(sc.zeroChunk, leaves);
    assert 0 / Pow2(sc.levels) == 0 by { DivModUnique(0, Pow2(sc.levels), 0, 0); }
    if |cur| % 2 == 0 {
      NodeDependsOnBlock(sc.pair, f, g, sc.levels, 0);
    } else {
      assert Limit(sc) == 2 * Pow2(sc.levels - 1);
      if BlockDigest(sc, cur, sc.levels, 0) == ListRoot(sc, cur) {
        RootDeterminesLeaves(sc.pair, f, g, sc.levels, 0, 0, |cur|);
        assert false;
      }
    }
  }

  /** Injectivity is not needed for the good case. */
  lemma EvenRoot<D>(sc: Scheme<D>, cur: seq<Validator>)
    requires |cur| % 2 == 0
    ensures BlockDigest(sc, cur, sc.levels, 0) == ListRoot(sc, cur)
  {
    var leaves := seq(|cur|, (i: nat) requires i < |cur| => sc.leaf(cur[i]));
    DivModUnique(0, Pow2(sc.levels), 0, 0);
    NodeDependsOnBlock(sc.pair, EffLeaf(sc, cur), PadAt(sc.zeroChunk, leaves), sc.levels, 0);
  }

  /**
   After a batch for `cur` the store's root is the commitment to `cur` exactly when the list did not get shorter and
   has an even number of validators.
   */
  lemma MergedRootExact<D(!new)>(sc: Scheme<D>, prev: seq<Validator>, cur: seq<Validator>)
    requires Injective(sc.pair) && sc.levels >= 1 && |cur| <= Limit(sc) && |prev| <= Limit(sc)
    requires forall v :: sc.leaf(v) != sc.zeroChunk
    ensures BlockDigest(sc, Merged(prev, cur), sc.levels, 0) == ListRoot(sc, cur) <==>
            |prev| <= |cur| && |cur| % 2 == 0
  {
    if |prev| <= |cur| {
      RootIsListRootIffEven(sc, cur);
    } else {
      var m := Merged(prev, cur);
      var leaves := seq(|cur|, (i: nat) requires i < |cur| => sc.leaf(cur[i]));
      var f, g := EffLeaf(sc, m), PadAt(sc.zeroChunk, leaves);
      DivModUnique(0, Pow2(sc.levels), 0, 0);
      assert f(|cur|) == sc.leaf(m[|cur|]) && g(|cur|) == sc.zeroChunk;
      if Node(sc.pair, f, sc.levels, 0) == Node(sc.pair, g, sc.levels, 0) {
        RootDeterminesLeaves(sc.pair, f, g, sc.levels, 0, 0, |cur|);
        assert false;
      }
    }
  }

  /**
   Safety inside a batch, for any number of workers and any interleaving of leases, reads, saves, completions,
   failures and expiries: a node the producer has nothing left to mark is either stale or the root of its block.
   */
  lemma CachedNodesAreCorrect<D>(
      sc: Scheme<D>, s: State<D>, prev: seq<Validator>, cur: seq<Validator>,
      states: seq<State<D>>, moves: seq<Move>, n: nat, d: nat, x: nat)
    requires Settled(sc, prev, s) && WellFormed(cur) && |cur| <= Limit(sc)
    requires s.pending == multiset{} && s.leased == multiset{} && forall w | w in s.workers :: s.workers[w].Idle?
    requires OrderedTrace(sc, states, moves) && states[0] == BeginBatch(sc, s, prev, cur)
    requires n <= |moves| && InRange(sc, d, x)
    ensures var s' := states[n];
      MarkStale(d, x) !in s'.script && (d, x) in s'.store && s'.store[(d, x)].Fresh? ==>
        s'.store[(d, x)].digest == BlockDigest(sc, Merged(prev, cur), d, x)
  {
    BatchStarts(sc, s, prev, cur);
    TraceKeeps(sc, Merged(prev, cur), states, moves, n);
    assert NodeOk(sc, Merged(prev, cur), states[n], d, x);
  }

  lemma RoundSettles<D>(sc: Scheme<D>, s: State<D>, prev: seq<Validator>, r: Round<D>)
    requires Settled(sc, prev, s) && WellFormed(r.list) && |r.list| <= Limit(sc)
    requires s.pending == multiset{} && s.leased == multiset{} && forall w | w in s.workers :: s.workers[w].Idle?
    requires OrderedTrace(sc, r.states, r.moves) && r.states[0] == BeginBatch(sc, s, prev, r.list)
    requires Drained(r.states[|r.moves|])
    ensures Settled(sc, Merged(prev, r.list), r.states[|r.moves|])
  {
    BatchStarts(sc, s, prev, r.list);
    TraceKeeps(sc, Merged(prev, r.list), r.states, r.moves, |r.moves|);
    DrainedIsSettled(sc, Merged(prev, r.list), r.states[|r.moves|]);
  }

  /** After any history of batches the store is settled for what the lists merge to. */
  lemma {:induction false} HistorySettles<D>(
      sc: Scheme<D>, s: State<D>, prev: seq<Validator>, rounds: seq<Round<D>>)
    requires Settled(sc, prev, s) && ValidHistory(sc, s, prev, rounds) && rounds != []
    requires s.pending == multiset{} && s.leased == multiset{} && forall w | w in s.workers :: s.workers[w].Idle?
    ensures var r := rounds[|rounds| - 1];
      |r.states| == |r.moves| + 1 && Settled(sc, FinalList(prev, rounds), r.states[|r.moves|])
    decreases |rounds|
  {
    var r := rounds[0];
    var s' := r.states[|r.moves|];
    RoundSettles(sc, s, prev, r);
    if |rounds| > 1 {
      assert rounds[1..][|rounds| - 2] == rounds[|rounds| - 1];
      HistorySettles(sc, s', Merged(prev, r.list), rounds[1..]);
    } else {
      assert rounds[1..] == [];
    }
  }

  /** No list of the history is shorter than the one before it. */
  ghost predicate Growing<D>(prev: seq<Validator>, rounds: seq<Round<D>>)
    decreases |rounds|
  {
    rounds == [] || (|prev| <= |rounds[0].list| && Growing(rounds[0].list, rounds[1..]))
  }

  lemma {:induction false} GrowingEndsWithLast<D>(prev: seq<Validator>, rounds: seq<Round<D>>)
    requires Growing(prev, rounds) && rounds != []
    ensures FinalList(prev, rounds) == rounds[|rounds| - 1].list
    decreases |rounds|
  {
    if |rounds| > 1 {
      GrowingEndsWithLast(rounds[0].list, rounds[1..]);
    } else {
      assert rounds[1..] == [];
    }
  }

  /**
   The main theorem: from an empty store, after every drained batch, the top node is the root of what the lists merge
   to, which is the last list when none got shorter, and the commitment to it when its length is even.
   */
  lemma RootAfterHistory<D>(sc: Scheme<D>, s: State<D>, rounds: seq<Round<D>>)
    requires sc.levels >= 1 && Initial(s) && ValidHistory(sc, s, [], rounds) && rounds != []
    ensures Growing([], rounds) ==> FinalList([], rounds) == rounds[|rounds| - 1].list
    ensures var r, cur := rounds[|rounds| - 1], FinalList([], rounds);
      |r.states| == |r.moves| + 1 &&
      var s' := r.states[|r.moves|];
      && (cur != [] ==> (sc.levels, 0) in s'.store &&
                        s'.store[(sc.levels, 0)] == Fresh(BlockDigest(sc, cur, sc.levels, 0)))
      && (cur != [] && |cur| % 2 == 0 ==> s'.store[(sc.levels, 0)] == Fresh(ListRoot(sc, cur)))
  {
    InitialIsSettled(sc, s);
    HistorySettles(sc, s, [], rounds);
    if Growing([], rounds) { GrowingEndsWithLast([], rounds); }
    var cur := FinalList([], rounds);
    AncBlock(0, sc.levels);
    assert InRange(sc, sc.levels, 0);
    if |cur| % 2 == 0 { EvenRoot(sc, cur); }
  }
}
