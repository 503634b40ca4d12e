/**
 The relay's update planner: it follows the queued intervals from the on-chain slot, searches forward over missing
 blocks for one whose successor carries a supermajority, and queues the interval that leads there.
 */
module Planner {
  import opened Powers
  import opened Wrappers

  /** The beacon chain up to the head: which slots have a block, and how many signers each block's aggregate has. */
  datatype Chain = Chain(hasBlock: nat -> bool, signers: nat -> nat)

  // ------------------------------------------------ the search for a block

  /** The first slot with a block, from `slot` on. */
  ghost predicate FirstBlock(c: Chain, slot: nat, s: nat) {
    slot <= s && c.hasBlock(s) && forall t | slot <= t < s :: !c.hasBlock(t)
  }

  ghost predicate NoBlock(c: Chain, slot: nat, limit: nat) {
    forall t | slot <= t <= limit :: !c.hasBlock(t)
  }

  /** `getBlockHeaderOrClosestExisting`; the sync aggregate's twin walks the same way. */
  method ClosestExisting(c: Chain, slot0: nat, limitSlot: nat) returns (r: Option<nat>)
    ensures r.Some? ==> FirstBlock(c, slot0, r.value) && r.value <= limitSlot
    ensures r.None? ==> NoBlock(c, slot0, limitSlot)
  {
    var slot := slot0;
    while slot <= limitSlot
      invariant slot0 <= slot && forall t | slot0 <= t < slot :: !c.hasBlock(t)
      decreases limitSlot + 1 - slot
    {
      if c.hasBlock(slot) { return Some(slot); }
      slot := slot + 1;
    }
    r := None;
  }

  predicate EnoughSigners(c: Chain, slot: nat) { c.signers(slot) * 3 > 1024 }

  /** Block `s` is signed by a supermajority in the next existing block `sig`. */
  ghost predicate SignedBy(c: Chain, s: nat, sig: nat) {
    c.hasBlock(s) && FirstBlock(c, s + 1, sig) && EnoughSigners(c, sig)
  }

  datatype Found = Found(signatureSlot: nat, slot: nat)

  /** The first signed block from `to` on, with its signature no later than the head. */
  ghost predicate FirstSigned(c: Chain, to: nat, head: nat, f: Found) {
    && to <= f.slot < f.signatureSlot <= head && SignedBy(c, f.slot, f.signatureSlot)
    && forall s: nat, sig: nat | to <= s < f.slot :: !SignedBy(c, s, sig)
  }

  ghost predicate NothingSigned(c: Chain, to: nat, head: nat) {
    forall s: nat, sig: nat | to <= s && sig <= head :: !SignedBy(c, s, sig)
  }

  lemma NextIsUnique(c: Chain, slot: nat, a: nat, b: nat)
    requires FirstBlock(c, slot, a) && FirstBlock(c, slot, b)
    ensures a == b
  {
    assert a < b ==> !c.hasBlock(a);
  }

  /** One unsuccessful turn: no block before the one just refused is signed. */
  lemma Refused(c: Chain, from: nat, h: nat, sig: nat)
    requires FirstBlock(c, from, h) && FirstBlock(c, h + 1, sig) && !EnoughSigners(c, sig)
    ensures forall s: nat, g: nat | from <= s < sig :: !SignedBy(c, s, g)
  {
    forall s: nat, g: nat | from <= s < sig ensures !SignedBy(c, s, g) {
      assert SignedBy(c, s, g) ==> s == h;
      if FirstBlock(c, h + 1, g) { NextIsUnique(c, h + 1, sig, g); }
    }
  }

  /** When the search runs past the head, nothing from `from` on is signed by a block up to the head. */
  lemma RanOut(c: Chain, from: nat, head: nat)
    requires NoBlock(c, from, head) || exists h: nat :: FirstBlock(c, from, h) && NoBlock(c, h + 1, head)
    ensures NothingSigned(c, from, head)
  {
    forall s: nat, sig: nat | from <= s && sig <= head ensures !SignedBy(c, s, sig) {
      if h: nat :| FirstBlock(c, from, h) && NoBlock(c, h + 1, head) {
        assert c.hasBlock(s) ==> s >= h;
      }
    }
  }

  /** What the first signed block is, in numbers: three times its signers exceed twice the committee of 512. */
  lemma FirstWithEnough(c: Chain, to: nat, head: nat, f: Found)
    requires FirstSigned(c, to, head, f)
    ensures 3 * c.signers(f.signatureSlot) > 2 * 512
    ensures forall s: nat, sig: nat | to <= s < f.slot && c.hasBlock(s) && FirstBlock(c, s + 1, sig) ::
      3 * c.signers(sig) <= 2 * 512
  {
    forall s: nat, sig: nat | to <= s < f.slot && c.hasBlock(s) && FirstBlock(c, s + 1, sig)
      ensures 3 * c.signers(sig) <= 2 * 512
    {
      assert !SignedBy(c, s, sig);
    }
  }

  lemma TooFew(c: Chain, to: nat, head: nat)
    requires NothingSigned(c, to, head)
    ensures forall s: nat, sig: nat | to <= s && sig <= head && c.hasBlock(s) && FirstBlock(c, s + 1, sig) ::
      3 * c.signers(sig) <= 2 * 512
  {
    forall s: nat, sig: nat | to <= s && sig <= head && c.hasBlock(s) && FirstBlock(c, s + 1, sig)
      ensures 3 * c.signers(sig) <= 2 * 512
    {
      assert !SignedBy(c, s, sig);
    }
  }

  /** `findClosestValidBlock`: `None` is the error that the closest block is beyond the limit. */
  method FindClosestValidBlock(c: Chain, to: nat, headSlot: nat) returns (r: Option<Found>)
    ensures r.Some? ==> FirstSigned(c, to, headSlot, r.value)
    ensures r.None? ==> NothingSigned(c, to, headSlot)
    ensures r.Some? ==>
      && to <= r.value.slot < r.value.signatureSlot <= headSlot && c.hasBlock(r.value.slot)
      && FirstBlock(c, r.value.slot + 1, r.value.signatureSlot)
      && 3 * c.signers(r.value.signatureSlot) > 2 * 512
      && forall s: nat, sig: nat | to <= s < r.value.slot && c.hasBlock(s) && FirstBlock(c, s + 1, sig) ::
        3 * c.signers(sig) <= 2 * 512
    ensures r.None? ==>
      forall s: nat, sig: nat | to <= s && sig <= headSlot && c.hasBlock(s) && FirstBlock(c, s + 1, sig) ::
        3 * c.signers(sig) <= 2 * 512
  {
    var nextHeaderSlotSearchIndex := to;
    while true
      invariant to <= nextHeaderSlotSearchIndex
      invariant forall s: nat, sig: nat | to <= s < nextHeaderSlotSearchIndex :: !SignedBy(c, s, sig)
      decreases headSlot + 1 - nextHeaderSlotSearchIndex
    {
      var nextBlockHeader := ClosestExisting(c, nextHeaderSlotSearchIndex, headSlot);
      if nextBlockHeader.None? {
        RanOut(c, nextHeaderSlotSearchIndex, headSlot);
        assert NothingSigned(c, to, headSlot);
        TooFew(c, to, headSlot);
        return None;
      }
      var syncAggregateResult := ClosestExisting(c, nextBlockHeader.value + 1, headSlot);
      if syncAggregateResult.None? {
        RanOut(c, nextHeaderSlotSearchIndex, headSlot);
        assert NothingSigned(c, to, headSlot);
        TooFew(c, to, headSlot);
        return None;
      }
      var h, sig := nextBlockHeader.value, syncAggregateResult.value;
      if EnoughSigners(c, sig) {
        FirstWithEnough(c, to, headSlot, Found(sig, h));
        return Some(Found(sig, h));
      }
      Refused(c, nextHeaderSlotSearchIndex, h, sig);
      nextHeaderSlotSearchIndex := sig;
    }
  }

  // ------------------------------------------------ the next target

  const SLOTS_PER_PERIOD: nat := 8192

  /** `computeSyncCommitteePeriodAt`. */
  function Period(slot: nat): nat { slot / SLOTS_PER_PERIOD }

  function Target(slot: nat, slotsJump: nat, headSlot: nat): nat
    requires slotsJump > 0
  {
    if Period(slot) + 1 >= Period(headSlot) then headSlot - headSlot % slotsJump
    else (Period(slot) + 1) * SLOTS_PER_PERIOD + (SLOTS_PER_PERIOD - 32)
  }

  lemma PeriodBounds(slot: nat)
    ensures Period(slot) * SLOTS_PER_PERIOD <= slot < (Period(slot) + 1) * SLOTS_PER_PERIOD
  {}

  /**
   The target is never beyond the head. Far behind the head it is the first slot of the last epoch of the next
   period; near the head it is the last multiple of the jump.
   */
  lemma TargetIsBelowHead(slot: nat, slotsJump: nat, headSlot: nat)
    requires slotsJump > 0
    ensures Target(slot, slotsJump, headSlot) <= headSlot
    ensures slot / 8192 + 1 < headSlot / 8192 ==>
      Target(slot, slotsJump, headSlot) == 8192 * (slot / 8192 + 2) - 32
    ensures slot / 8192 + 1 >= headSlot / 8192 ==>
      Target(slot, slotsJump, headSlot) % slotsJump == 0 &&
      headSlot < Target(slot, slotsJump, headSlot) + slotsJump
    ensures Period(slot) + 1 < Period(headSlot) ==>
      slot < Target(slot, slotsJump, headSlot) < headSlot &&
      Period(Target(slot, slotsJump, headSlot)) == Period(slot) + 1 &&
      Period(Target(slot, slotsJump, headSlot) + 31) == Period(slot) + 1 &&
      Period(Target(slot, slotsJump, headSlot) + 32) == Period(slot) + 2
  {
    PeriodBounds(slot);
    PeriodBounds(headSlot);
    PeriodBounds(Target(slot, slotsJump, headSlot));
    PeriodBounds(Target(slot, slotsJump, headSlot) + 31);
    PeriodBounds(Target(slot, slotsJump, headSlot) + 32);
    MultipleBelow(headSlot, slotsJump);
  }

  lemma MultipleBelow(head: nat, jump: nat)
    requires jump > 0
    ensures 0 <= head % jump < jump && head % jump <= head && (head - head % jump) % jump == 0
  {
    DivModParts(head, jump);
    DivBound(head, jump);
    MulDivExact(head / jump, jump);
  }

  /** `getNextSlot`. */
  method GetNextSlot(c: Chain, slot: nat, slotsJump: nat, headSlot: nat) returns (r: Option<nat>)
    requires slotsJump > 0
    ensures r.Some? ==>
      exists sig: nat :: FirstSigned(c, Target(slot, slotsJump, headSlot), headSlot, Found(sig, r.value))
    ensures r.None? ==> NothingSigned(c, Target(slot, slotsJump, headSlot), headSlot)
  {
    var periodAtSlot := Period(slot);
    var periodAtHeadSlot := Period(headSlot);
    var result;
    if periodAtSlot + 1 >= periodAtHeadSlot {
      var potentialNewSlot := headSlot - headSlot % slotsJump;
      MultipleBelow(headSlot, slotsJump);
      result := FindClosestValidBlock(c, potentialNewSlot, headSlot);
    } else {
      var potentialNewSlot := (periodAtSlot + 1) * SLOTS_PER_PERIOD + (SLOTS_PER_PERIOD - 32);
      result := FindClosestValidBlock(c, potentialNewSlot, headSlot);
    }
    if result.None? { return None; }
    assert result.value == Found(result.value.signatureSlot, result.value.slot);
    r := Some(result.value.slot);
  }

  // ------------------------------------------------ following the queue

  datatype Job = Job(from: nat, to: nat, failed: bool)

  /** Keeps the list sorted by `from`, later jobs after earlier ones with the same start. */
  function Insert(s: seq<Job>, x: Job): (r: seq<Job>)
    ensures |r| == |s| + 1
  {
    if s == [] || s[|s| - 1].from <= x.from then s + [x] else Insert(s[..|s| - 1], x) + [s[|s| - 1]]
  }

  /** The jobs sorted by `from`, stably. */
  function SortByFrom(jobs: seq<Job>): (r: seq<Job>)
    ensures |r| == |jobs|
  {
    if jobs == [] then [] else Insert(SortByFrom(jobs[..|jobs| - 1]), jobs[|jobs| - 1])
  }

  ghost predicate Sorted(s: seq<Job>) { forall i, j | 0 <= i < j < |s| :: s[i].from <= s[j].from }

  /** Where `x` goes: after everything that starts no later, before the rest. */
  lemma {:induction false} InsertSplits(s: seq<Job>, x: Job) returns (a: seq<Job>, b: seq<Job>)
    requires Sorted(s)
    ensures s == a + b && Insert(s, x) == a + [x] + b && Sorted(Insert(s, x))
    ensures (forall j | j in a :: j.from <= x.from) && (forall j | j in b :: x.from < j.from)
  {
    if s == [] || s[|s| - 1].from <= x.from {
      a, b := s, [];
    } else {
      var front, last := s[..|s| - 1], s[|s| - 1];
      a, b := InsertSplits(front, x);
      assert s == front + [last];
      assert forall j | j in a + [x] + b :: j in front || j == x;
      assert forall j | j in front :: j.from <= last.from;
      b := b + [last];
    }
  }

  lemma {:induction false} SortIsSorted(jobs: seq<Job>)
    ensures Sorted(SortByFrom(jobs)) && forall j :: j in SortByFrom(jobs) <==> j in jobs
  {
    if jobs != [] {
      var front, last := jobs[..|jobs| - 1], jobs[|jobs| - 1];
      SortIsSorted(front);
      var a, b := InsertSplits(SortByFrom(front), last);
      assert jobs == front + [last];
    }
  }

  function Fires(j: Job, slot: nat): bool { !j.failed && j.from == slot }

  /** The jobs of a list, in order, that continue the chain from `slot`. */
  function Path(s: seq<Job>, slot: nat): seq<Job> {
    if s == [] then []
    else
      var before := Path(s[..|s| - 1], slot);
      if Fires(s[|s| - 1], EndOf(before, slot)) then before + [s[|s| - 1]] else before
  }

  function EndOf(path: seq<Job>, slot: nat): nat { if path == [] then slot else path[|path| - 1].to }

  /** Where one pass over the sorted queue ends. */
  function End(jobs: seq<Job>, slot: nat): nat { EndOf(Path(SortByFrom(jobs), slot), slot) }

  ghost predicate Forward(jobs: seq<Job>) { forall j | j in jobs :: j.from < j.to }

  /** A gap-free, strictly increasing chain of live intervals that starts at `slot`. */
  ghost predicate GapFree(path: seq<Job>, slot: nat) {
    forall i: nat | i < |path| :: Linked(path, slot, i)
  }

  /** Interval `i` is live, not empty, and starts where the one before it ends. */
  ghost predicate Linked(path: seq<Job>, slot: nat, i: nat)
    requires i < |path|
  {
    && !path[i].failed && path[i].from < path[i].to
    && path[i].from == (if i == 0 then slot else path[i - 1].to)
  }

  lemma PathStep(front: seq<Job>, last: Job, slot: nat)
    ensures Path(front + [last], slot) ==
            if Fires(last, EndOf(Path(front, slot), slot)) then Path(front, slot) + [last] else Path(front, slot)
  {
    assert (front + [last])[..|front|] == front;
  }

  lemma GapFreeAppend(path: seq<Job>, slot: nat, j: Job)
    requires GapFree(path, slot) && Fires(j, EndOf(path, slot)) && j.from < j.to && slot <= EndOf(path, slot)
    ensures GapFree(path + [j], slot) && EndOf(path + [j], slot) == j.to && slot <= j.to
  {
    var p := path + [j];
    forall i: nat | i < |p| ensures Linked(p, slot, i) {
      if i < |path| { assert Linked(path, slot, i); }
    }
  }

  lemma {:induction false} PathIsGapFree(s: seq<Job>, slot: nat)
    requires Forward(s)
    ensures GapFree(Path(s, slot), slot) && slot <= EndOf(Path(s, slot), slot)
    ensures forall j | j in Path(s, slot) :: j in s
  {
    if s != [] {
      var front, last := s[..|s| - 1], s[|s| - 1];
      assert s == front + [last] && last in s && forall j | j in front :: j in s;
      PathIsGapFree(front, slot);
      PathStep(front, last, slot);
      var before := Path(front, slot);
      if Fires(last, EndOf(before, slot)) { GapFreeAppend(before, slot, last); }
    }
  }

  /** One pass is enough: where it ends no live job starts. */
  lemma {:induction false} NoJobStartsAtEnd(s: seq<Job>, slot: nat)
    requires Sorted(s) && Forward(s)
    ensures forall j | j in s :: !Fires(j, EndOf(Path(s, slot), slot))
  {
    if s != [] {
      var front, last := s[..|s| - 1], s[|s| - 1];
      assert forall j | j in front :: j in s;
      assert last in s && s == front + [last];
      NoJobStartsAtEnd(front, slot);
      assert forall j | j in front :: j.from <= last.from;
      PathStep(front, last, slot);
      var e := EndOf(Path(front, slot), slot);
      if Fires(last, e) { assert EndOf(Path(front, slot) + [last], slot) == last.to; }
    }
  }

  lemma {:induction false} PathConcat(a: seq<Job>, b: seq<Job>, slot: nat)
    ensures Path(a + b, slot) == Path(a, slot) + Path(b, EndOf(Path(a, slot), slot))
  {
    if b == [] {
      assert a + b == a;
    } else {
      var front, last := b[..|b| - 1], b[|b| - 1];
      assert (a + b)[..|a + b| - 1] == a + front;
      PathConcat(a, front, slot);
    }
  }

  /** Jobs that all start beyond the chain's end never continue it. */
  lemma {:induction false} LaterJobsDoNotFire(b: seq<Job>, slot: nat)
    requires forall j | j in b :: j.from > slot
    ensures Path(b, slot) == []
  {
    if b != [] {
      assert b[|b| - 1] in b && forall j | j in b[..|b| - 1] :: j in b;
      LaterJobsDoNotFire(b[..|b| - 1], slot);
    }
  }

  /** Queueing an interval at the end of the chain prolongs the chain by it. */
  lemma QueueingProlongs(jobs: seq<Job>, slot: nat, x: Job) returns (rest: seq<Job>)
    requires Forward(jobs) && x.from < x.to && !x.failed && x.from == End(jobs, slot)
    ensures Path(SortByFrom(jobs + [x]), slot) == Path(SortByFrom(jobs), slot) + [x] + rest
    ensures Forward(jobs + [x]) && End(jobs + [x], slot) >= x.to
  {
    SortIsSorted(jobs);
    var a, b := InsertSplits(SortByFrom(jobs), x);
    assert (jobs + [x])[..|jobs|] == jobs;
    assert forall j | j in a + b :: j in SortByFrom(jobs);
    rest := Path(b, x.to);
    PathOfInsert(a, b, slot, x);
  }

  lemma PathOfInsert(a: seq<Job>, b: seq<Job>, slot: nat, x: Job)
    requires Forward(a + b) && x.from < x.to && !x.failed && x.from == EndOf(Path(a + b, slot), slot)
    requires forall j | j in b :: x.from < j.from
    ensures Path(a + [x] + b, slot) == Path(a + b, slot) + [x] + Path(b, x.to)
    ensures EndOf(Path(a + [x] + b, slot), slot) >= x.to
  {
    assert forall j | j in b :: j in a + b;
    NothingAfter(a, b, slot, x);
    PathStep(a, x, slot);
    PathConcat(a + [x], b, slot);
    EndAfter(Path(a, slot), x, Path(b, x.to), slot);
    EndGrows(b, x.to);
  }

  /** Where the new interval goes, the chain has ended. */
  lemma NothingAfter(a: seq<Job>, b: seq<Job>, slot: nat, x: Job)
    requires Forward(a + b) && x.from == EndOf(Path(a + b, slot), slot)
    requires forall j | j in b :: x.from < j.from
    ensures Path(a + b, slot) == Path(a, slot) && x.from == EndOf(Path(a, slot), slot)
  {
    assert forall j | j in b :: j in a + b;
    PathConcat(a, b, slot);
    var e := EndOf(Path(a, slot), slot);
    EndGrows(b, e);
    assert EndOf(Path(a, slot) + Path(b, e), slot) == EndOf(Path(b, e), e);
    LaterJobsDoNotFire(b, e);
  }

  lemma EndAfter(p: seq<Job>, x: Job, q: seq<Job>, slot: nat)
    ensures EndOf(p + [x], slot) == x.to && EndOf(p + [x] + q, slot) == EndOf(q, x.to)
  {}

  lemma EndGrows(b: seq<Job>, slot: nat)
    requires Forward(b)
    ensures slot <= EndOf(Path(b, slot), slot)
  {
    PathIsGapFree(b, slot);
  }

  // ------------------------------------------------ queueing updates

  /** `Stopped` is an error thrown by the search; the caller logs it and starts over later. */
  datatype Outcome = Added | NotEnoughNewSlots | Stopped

  class Relay {
    /** The queue, in the order the jobs were added. */
    var jobs: seq<Job>

    constructor ()
      ensures jobs == []
    {
      jobs := [];
    }

    /** `addUpdate`. */
    method AddUpdate(onChainSlot: nat, slotsJump: nat, headSlot: nat, c: Chain) returns (r: Outcome)
      requires slotsJump > 0 && Forward(jobs)
      modifies this
      ensures Forward(jobs)
      ensures r.Added? <==> jobs != old(jobs)
      ensures r.Added? ==> var e := End(old(jobs), onChainSlot);
        exists sig: nat, next: nat :: FirstSigned(c, Target(e, slotsJump, headSlot), headSlot, Found(sig, next)) &&
          e < next < headSlot && jobs == old(jobs) + [Job(e, next, false)]
      ensures r.NotEnoughNewSlots? ==> var e := End(old(jobs), onChainSlot);
        exists sig: nat, next: nat ::
          FirstSigned(c, Target(e, slotsJump, headSlot), headSlot, Found(sig, next)) && next <= e
      ensures r.Stopped? ==>
        NothingSigned(c, Target(End(old(jobs), onChainSlot), slotsJump, headSlot), headSlot)
    {
      var jobsInQueueSortedByFrom := SortByFrom(jobs);
      var optimisticSlot := onChainSlot;
      for i := 0 to |jobsInQueueSortedByFrom|
        invariant optimisticSlot == EndOf(Path(jobsInQueueSortedByFrom[..i], onChainSlot), onChainSlot)
      {
        var job := jobsInQueueSortedByFrom[i];
        assert jobsInQueueSortedByFrom[..i + 1][..i] == jobsInQueueSortedByFrom[..i];
        if job.failed { continue; }
        if job.from == optimisticSlot {
          optimisticSlot := job.to;
        }
      }
      assert jobsInQueueSortedByFrom[..|jobsInQueueSortedByFrom|] == jobsInQueueSortedByFrom;
      var nextSlot := GetNextSlot(c, optimisticSlot, slotsJump, headSlot);
      if nextSlot.None? { return Stopped; }
      if optimisticSlot >= nextSlot.value { return NotEnoughNewSlots; }
      jobs := jobs + [Job(optimisticSlot, nextSlot.value, false)];
      r := Added;
    }

    /**
     The caller's loop: it ends because the head is fixed and the chain's end grows. The chain of live intervals
     from the on-chain slot is prolonged, stays gap-free, and ends where nothing more can be queued.
     */
    method AskForUpdates(onChainSlot: nat, slotsJump: nat, headSlot: nat, c: Chain)
      requires slotsJump > 0 && Forward(jobs)
      modifies this
      ensures Forward(jobs) && old(jobs) <= jobs && forall j | j in jobs[|old(jobs)|..] :: j.to < headSlot
      ensures Path(SortByFrom(old(jobs)), onChainSlot) <= Path(SortByFrom(jobs), onChainSlot)
      ensures GapFree(Path(SortByFrom(jobs), onChainSlot), onChainSlot)
      ensures Below(old(jobs), headSlot) && onChainSlot <= headSlot ==> End(jobs, onChainSlot) <= headSlot
      ensures forall j | j in jobs :: !Fires(j, End(jobs, onChainSlot))
      ensures var e := End(jobs, onChainSlot); var target := Target(e, slotsJump, headSlot);
        || NothingSigned(c, target, headSlot)
        || exists sig: nat, next: nat :: FirstSigned(c, target, headSlot, Found(sig, next)) && next <= e
    {
      var more := true;
      while more
        invariant Forward(jobs) && NewBelow(old(jobs), jobs, headSlot)
        invariant Path(SortByFrom(old(jobs)), onChainSlot) <= Path(SortByFrom(jobs), onChainSlot)
        invariant !more ==> CannotGrow(jobs, onChainSlot, slotsJump, headSlot, c)
        decreases headSlot - End(jobs, onChainSlot), more
      {
        ghost var before := jobs;
        var outcome := AddUpdate(onChainSlot, slotsJump, headSlot, c);
        more := outcome.Added?;
        if more {
          ghost var x := jobs[|before|];
          OneMoreBelow(old(jobs), before, x, headSlot);
          ghost var rest := QueueingProlongs(before, onChainSlot, x);
        }
      }
      if Below(old(jobs), headSlot) && onChainSlot <= headSlot {
        assert forall j | j in jobs :: j in old(jobs) || j in jobs[|old(jobs)|..];
        EndIsBelow(jobs, onChainSlot, headSlot);
      }
      SortIsSorted(jobs);
      PathIsGapFree(SortByFrom(jobs), onChainSlot);
      NoJobStartsAtEnd(SortByFrom(jobs), onChainSlot);
    }
  }

  ghost predicate CannotGrow(jobs: seq<Job>, onChainSlot: nat, slotsJump: nat, headSlot: nat, c: Chain)
    requires slotsJump > 0
  {
    var e := End(jobs, onChainSlot);
    var target := Target(e, slotsJump, headSlot);
    || NothingSigned(c, target, headSlot)
    || exists sig: nat, next: nat :: FirstSigned(c, target, headSlot, Found(sig, next)) && next <= e
  }

  /** Only jobs that end below the head were added. */
  ghost predicate NewBelow(was: seq<Job>, jobs: seq<Job>, headSlot: nat) {
    was <= jobs && forall j | j in jobs[|was|..] :: j.to < headSlot
  }

  lemma OneMoreBelow(was: seq<Job>, jobs: seq<Job>, x: Job, headSlot: nat)
    requires NewBelow(was, jobs, headSlot) && x.to < headSlot
    ensures NewBelow(was, jobs + [x], headSlot)
  {
    assert (jobs + [x])[|was|..] == jobs[|was|..] + [x];
  }

  /** No queued interval reaches beyond the head. */
  ghost predicate Below(jobs: seq<Job>, headSlot: nat) { forall j | j in jobs :: j.to <= headSlot }

  lemma EndIsBelow(jobs: seq<Job>, slot: nat, headSlot: nat)
    requires Forward(jobs) && Below(jobs, headSlot) && slot <= headSlot
    ensures slot <= End(jobs, slot) <= headSlot
  {
    SortIsSorted(jobs);
    var s := SortByFrom(jobs);
    PathIsGapFree(s, slot);
    var p := Path(s, slot);
    if p != [] { assert p[|p| - 1] in p; }
  }
}
