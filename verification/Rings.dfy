/**
 The contracts that keep the last 32 accepted roots, on Cosmos in flat byte arrays indexed from one and on EOS in
 vectors indexed from zero. Both are compared with the unbounded history of accepted updates.
 */
module Rings {
  import opened Wrappers
  import opened Bytes

  type Root = b: seq<Byte> | |b| == 32 witness seq(32, (i: nat) => 0)

  // ------------------------------------------------ a ring of 32 against a history

  /** What slot `p` holds after the entries of the history were written round and round. */
  function LastAt<T>(history: seq<T>, zero: T, p: nat): T {
    if history == [] then zero
    else if (|history| - 1) % 32 == p then history[|history| - 1]
    else LastAt(history[..|history| - 1], zero, p)
  }

  /** The entry `k` before the last one, if there is one. */
  function Recent<T>(history: seq<T>, zero: T, k: nat): T {
    if k < |history| then history[|history| - 1 - k] else zero
  }

  /** Stepping back `k` slots, at most 31, finds that entry. */
  lemma {:induction false} LookBack<T>(history: seq<T>, zero: T, k: nat)
    requires k < 32
    ensures LastAt(history, zero, (|history| - 1 - k) % 32) == Recent(history, zero, k)
    decreases k
  {
    if history != [] && k > 0 {
      var front := history[..|history| - 1];
      LookBack(front, zero, k - 1);
      assert (|history| - 1) % 32 != (|history| - 1 - k) % 32;
      assert |front| - 1 - (k - 1) == |history| - 1 - k;
    }
  }

  lemma LastAtAppend<T>(history: seq<T>, x: T, zero: T, p: nat)
    ensures LastAt(history + [x], zero, p) == if p == |history| % 32 then x else LastAt(history, zero, p)
  {
    assert (history + [x])[..|history|] == history;
  }

  // ------------------------------------------------ accepted updates

  datatype Entry = Entry(optimistic: Root, finalized: Root, execution: Root, slot: int, proof: seq<Byte>)

  /** The pairing check: proof, current root, new roots, slot. Key and domain are fixed at instantiation. */
  type Verifier = (seq<Byte>, Root, Root, Root, Root, int) -> bool

  /** Every entry after the first was verified against the optimistic root accepted just before it. */
  ghost predicate Chained(verify: Verifier, history: seq<Entry>) {
    forall i: nat | 0 < i < |history| :: AcceptedAfter(verify, history, i)
  }

  ghost predicate AcceptedAfter(verify: Verifier, history: seq<Entry>, i: nat)
    requires 0 < i < |history|
  {
    var e := history[i];
    verify(e.proof, history[i - 1].optimistic, e.optimistic, e.finalized, e.execution, e.slot)
  }

  lemma ChainGrows(verify: Verifier, history: seq<Entry>, e: Entry)
    requires Chained(verify, history) && history != []
    requires verify(e.proof, history[|history| - 1].optimistic, e.optimistic, e.finalized, e.execution, e.slot)
    ensures Chained(verify, history + [e])
  {
    var longer := history + [e];
    forall i: nat | 0 < i < |longer| ensures AcceptedAfter(verify, longer, i) {
      if i < |history| { assert AcceptedAfter(verify, history, i); }
    }
  }

  function Optimistic(h: seq<Entry>): (r: seq<Root>)
    ensures |r| == |h|
  {
    seq(|h|, (i: nat) requires i < |h| => h[i].optimistic)
  }

  function Finalized(h: seq<Entry>): (r: seq<Root>)
    ensures |r| == |h|
  {
    seq(|h|, (i: nat) requires i < |h| => h[i].finalized)
  }

  function Execution(h: seq<Entry>): (r: seq<Root>)
    ensures |r| == |h|
  {
    seq(|h|, (i: nat) requires i < |h| => h[i].execution)
  }

  lemma ColumnsGrow(h: seq<Entry>, e: Entry)
    ensures Optimistic(h + [e]) == Optimistic(h) + [e.optimistic]
    ensures Finalized(h + [e]) == Finalized(h) + [e.finalized]
    ensures Execution(h + [e]) == Execution(h) + [e.execution]
  {}

  /** Thirty-two zero bytes. */
  function ZeroRoot(): Root { seq(32, (i: nat) => 0) }

  // ------------------------------------------------ Cosmos: bytes, indexed from one

  /** `on_index`. */
  function OnIndex(arr: seq<Byte>, pos: nat): Root
    requires |arr| == 1024 && 1 <= pos <= 32
  {
    arr[(pos - 1) * 32..pos * 32]
  }

  /** The array is the ring of these roots. */
  ghost predicate IsRing(arr: seq<Byte>, roots: seq<Root>) {
    |arr| == 1024 && forall p: nat | p < 32 :: OnIndex(arr, p + 1) == LastAt(roots, ZeroRoot(), p)
  }

  /** The first `n` bytes of a root were written from `base` on. */
  ghost predicate Written(now: seq<Byte>, was: seq<Byte>, base: nat, root: Root, n: nat)
    requires n <= 32
  {
    |now| == |was| &&
    forall k | 0 <= k < |was| :: now[k] == if base <= k < base + n then root[k - base] else was[k]
  }

  lemma WrittenSlot(now: seq<Byte>, was: seq<Byte>, index: nat, root: Root, pos: nat)
    requires |was| == 1024 && 1 <= index <= 32 && 1 <= pos <= 32 && Written(now, was, (index - 1) * 32, root, 32)
    ensures OnIndex(now, pos) == if pos == index then root else OnIndex(was, pos)
  {
    forall i | 0 <= i < 32 ensures OnIndex(now, pos)[i] == (if pos == index then root else OnIndex(was, pos))[i] {
      assert OnIndex(now, pos)[i] == now[(pos - 1) * 32 + i];
    }
    assert OnIndex(now, pos) == if pos == index then root else OnIndex(was, pos);
  }

  /** Writing the next slot keeps the ring in step with the history. */
  lemma RingGrows(now: seq<Byte>, was: seq<Byte>, roots: seq<Root>, root: Root, index: nat)
    requires IsRing(was, roots) && index == |roots| % 32 + 1 && Written(now, was, (index - 1) * 32, root, 32)
    ensures IsRing(now, roots + [root])
  {
    forall p: nat | p < 32 ensures OnIndex(now, p + 1) == LastAt(roots + [root], ZeroRoot(), p) {
      WrittenSlot(now, was, index, root, p + 1);
      LastAtAppend(roots, root, ZeroRoot(), p);
    }
  }

  lemma StepBack(n: nat, k: nat, index: nat, pos: nat)
    requires n >= 1 && index == (n - 1) % 32 + 1 && 1 <= pos <= 32 && (pos - 1) % 32 == (index - 1 - k) % 32
    ensures (n - 1 - k) % 32 == pos - 1
  {
    var q := (n - 1) / 32;
    assert n - 1 - k == 32 * q + (index - 1 - k);
  }

  /** The slot `k` back from the current one, counting round. */
  lemma SlotBack(arr: seq<Byte>, roots: seq<Root>, index: nat, k: nat, pos: nat)
    requires IsRing(arr, roots) && roots != [] && index == (|roots| - 1) % 32 + 1 && k < 32
    requires 1 <= pos <= 32 && (pos - 1) % 32 == (index - 1 - k) % 32
    ensures OnIndex(arr, pos) == Recent(roots, ZeroRoot(), k)
  {
    StepBack(|roots|, k, index, pos);
    LookBack(roots, ZeroRoot(), k);
  }

  /**
   The foreign call: on success it leaves the new optimistic root in the buffer that held the current one.
   */
  method MakePairsAndVerify(verify: Verifier, proof: seq<Byte>, currentHeaderRoot: array<Byte>,
                            newOptimistic: Root, newFinalized: Root, newExecution: Root, slot: int) returns (ok: bool)
    requires currentHeaderRoot.Length == 32
    modifies currentHeaderRoot
    ensures ok == verify(proof, old(currentHeaderRoot[..]), newOptimistic, newFinalized, newExecution, slot)
    ensures ok ==> currentHeaderRoot[..] == newOptimistic
  {
    ok := verify(proof, currentHeaderRoot[..], newOptimistic, newFinalized, newExecution, slot);
    if ok {
      forall i | 0 <= i < 32 { currentHeaderRoot[i] := newOptimistic[i]; }
    }
  }

  class CosmosVerifier {
    const verify: Verifier
    var optimisticArr: seq<Byte>
    var finalizedArr: seq<Byte>
    var executionStateArr: seq<Byte>
    var currentIndex: nat
    var currentSlot: int

    ghost var history: seq<Entry>

    ghost predicate Valid()
      reads this
    {
      && history != [] && currentIndex == (|history| - 1) % 32 + 1
      && IsRing(optimisticArr, Optimistic(history))
      && IsRing(finalizedArr, Finalized(history))
      && IsRing(executionStateArr, Execution(history))
      && Chained(verify, history) && currentSlot == history[|history| - 1].slot
    }

    /** `instantiate`. */
    constructor (verify: Verifier, currentHeaderHash: Root, currentSlot: int)
      ensures Valid() && this.verify == verify
      ensures history == [Entry(currentHeaderHash, ZeroRoot(), ZeroRoot(), currentSlot, [])]
    {
      this.verify := verify;
      this.currentIndex := 1;
      this.currentSlot := currentSlot;
      var zeros: seq<Byte> := seq(1024, (i: nat) => 0);
      var bytes: seq<Byte> := zeros;
      for i := 0 to 32
        invariant Written(bytes, zeros, 0, currentHeaderHash, i)
      {
        bytes := bytes[i := currentHeaderHash[i]];
      }
      this.optimisticArr := bytes;
      this.finalizedArr := zeros;
      this.executionStateArr := zeros;
      history := [Entry(currentHeaderHash, ZeroRoot(), ZeroRoot(), currentSlot, [])];
      new;
      FirstRing(bytes, zeros, currentHeaderHash);
      FirstRing(zeros, zeros, ZeroRoot());
      assert Optimistic(history) == [currentHeaderHash];
      assert Finalized(history) == [ZeroRoot()] && Execution(history) == [ZeroRoot()];
    }

    /** `execute_update`: false stands for the error of an incorrect update. */
    method ExecuteUpdate(proof: seq<Byte>, newOptimistic: Root, newFinalized: Root, newExecution: Root, newSlot: int)
        returns (ok: bool)
      requires Valid()
      modifies this
      ensures Valid()
      ensures ok == verify(proof, old(history[|history| - 1].optimistic), newOptimistic, newFinalized, newExecution,
                           newSlot)
      ensures history == old(history) +
        (if ok then [Entry(newOptimistic, newFinalized, newExecution, newSlot, proof)] else [])
      ensures ok ==> var i := |old(history)| % 32;
        && currentIndex == i + 1 && currentSlot == newSlot
        && Written(optimisticArr, old(optimisticArr), 32 * i, newOptimistic, 32)
        && Written(finalizedArr, old(finalizedArr), 32 * i, newFinalized, 32)
        && Written(executionStateArr, old(executionStateArr), 32 * i, newExecution, 32)
      ensures !ok ==>
        && optimisticArr == old(optimisticArr) && finalizedArr == old(finalizedArr)
        && executionStateArr == old(executionStateArr) && currentIndex == old(currentIndex)
        && currentSlot == old(currentSlot)
    {
      var storedCurrentHeaderRoot := LoadStoredRoot();
      ok := MakePairsAndVerify(
        verify, proof, storedCurrentHeaderRoot, newOptimistic, newFinalized, newExecution, newSlot);
      if ok {
        if currentIndex == 32 {
          currentIndex := 1;
        } else {
          currentIndex := currentIndex + 1;
        }
        StoreRoots(storedCurrentHeaderRoot[..], newFinalized, newExecution);
        currentSlot := newSlot;
        ghost var e := Entry(newOptimistic, newFinalized, newExecution, newSlot, proof);
        ColumnsGrow(history, e);
        ChainGrows(verify, history, e);
        history := history + [e];
      }
    }

    /** The current root in a buffer of its own. */
    method LoadStoredRoot() returns (root: array<Byte>)
      requires Valid()
      ensures fresh(root) && root.Length == 32 && root[..] == history[|history| - 1].optimistic
    {
      var current := OnIndex(optimisticArr, currentIndex);
      SlotBack(optimisticArr, Optimistic(history), currentIndex, 0, currentIndex);
      root := new Byte[32](i requires 0 <= i < 32 => current[i]);
      assert root[..] == current;
    }

    /** The loop that writes the three roots to the current slot. */
    method StoreRoots(optimistic: Root, finalized: Root, execution: Root)
      requires history != [] && currentIndex == |history| % 32 + 1
      requires IsRing(optimisticArr, Optimistic(history)) && IsRing(finalizedArr, Finalized(history))
      requires IsRing(executionStateArr, Execution(history))
      modifies this`optimisticArr, this`finalizedArr, this`executionStateArr
      ensures IsRing(optimisticArr, Optimistic(history) + [optimistic])
      ensures IsRing(finalizedArr, Finalized(history) + [finalized])
      ensures IsRing(executionStateArr, Execution(history) + [execution])
      ensures var base := (currentIndex - 1) * 32;
        && Written(optimisticArr, old(optimisticArr), base, optimistic, 32)
        && Written(finalizedArr, old(finalizedArr), base, finalized, 32)
        && Written(executionStateArr, old(executionStateArr), base, execution, 32)
    {
      ghost var a, b, c := optimisticArr, finalizedArr, executionStateArr;
      ghost var base := (currentIndex - 1) * 32;
      for i := 0 to 32
        invariant Written(optimisticArr, a, base, optimistic, i)
        invariant Written(finalizedArr, b, base, finalized, i)
        invariant Written(executionStateArr, c, base, execution, i)
      {
        var cur := (currentIndex - 1) * 32 + i;
        optimisticArr := optimisticArr[cur := optimistic[i]];
        finalizedArr := finalizedArr[cur := finalized[i]];
        executionStateArr := executionStateArr[cur := execution[i]];
      }
      RingGrows(optimisticArr, a, Optimistic(history), optimistic, currentIndex);
      RingGrows(finalizedArr, b, Finalized(history), finalized, currentIndex);
      RingGrows(executionStateArr, c, Execution(history), execution, currentIndex);
    }

    /** `get_all_headers_ordered`: the last 32 roots, newest first, zeros where the history is shorter. */
    method AllHeadersOrdered() returns (r: seq<Root>)
      requires Valid()
      ensures |r| == 32 && forall k: nat | k < 32 ::
        r[k] == if k < |history| then history[|history| - 1 - k].optimistic else ZeroRoot()
    {
      r := Ordered(optimisticArr, currentIndex, Optimistic(history));
    }

    method AllFinalizedOrdered() returns (r: seq<Root>)
      requires Valid()
      ensures |r| == 32 && forall k: nat | k < 32 ::
        r[k] == if k < |history| then history[|history| - 1 - k].finalized else ZeroRoot()
    {
      r := Ordered(finalizedArr, currentIndex, Finalized(history));
    }

    method AllExecStateOrdered() returns (r: seq<Root>)
      requires Valid()
      ensures |r| == 32 && forall k: nat | k < 32 ::
        r[k] == if k < |history| then history[|history| - 1 - k].execution else ZeroRoot()
    {
      r := Ordered(executionStateArr, currentIndex, Execution(history));
    }

    /** `get_header_before_n_headers`: `None` where the slice is out of bounds; other numbers count round. */
    method HeaderBefore(minusPos: int) returns (r: Option<Root>)
      requires Valid()
      ensures r.Some? <==> currentIndex - 32 <= minusPos <= currentIndex + 31
      ensures r.Some? ==> var k := minusPos % 32;
        r.value == if k < |history| then history[|history| - 1 - k].optimistic else ZeroRoot()
    {
      var posToGet := currentIndex - minusPos;
      if posToGet <= 0 {
        posToGet := posToGet + 32;
      }
      if !(1 <= posToGet <= 32) { return None; }
      assert (posToGet - 1) % 32 == (currentIndex - 1 - minusPos % 32) % 32;
      SlotBack(optimisticArr, Optimistic(history), currentIndex, minusPos % 32, posToGet);
      r := Some(OnIndex(optimisticArr, posToGet));
    }
  }

  /** The loop shared by the ordered queries. */
  method Ordered(arr: seq<Byte>, index: nat, ghost roots: seq<Root>) returns (r: seq<Root>)
    requires IsRing(arr, roots) && roots != [] && index == (|roots| - 1) % 32 + 1
    ensures |r| == 32 && forall k: nat | k < 32 :: r[k] == Recent(roots, ZeroRoot(), k)
  {
    var currentIndex := index;
    SlotBack(arr, roots, index, 0, index);
    r := [OnIndex(arr, currentIndex)];
    for i := 1 to 32
      invariant |r| == i && 1 <= currentIndex <= 32 && (currentIndex - 1) % 32 == (index - i) % 32
      invariant forall k: nat | k < i :: r[k] == Recent(roots, ZeroRoot(), k)
    {
      currentIndex := currentIndex - 1;
      if currentIndex == 0 {
        currentIndex := 32;
      }
      SlotBack(arr, roots, index, i, currentIndex);
      r := r + [OnIndex(arr, currentIndex)];
    }
  }

  lemma FirstRing(now: seq<Byte>, zeros: seq<Byte>, root: Root)
    requires |zeros| == 1024 && (forall k | 0 <= k < 1024 :: zeros[k] == 0) && Written(now, zeros, 0, root, 32)
    ensures IsRing(now, [root])
  {
    var none: seq<Root> := [];
    forall p: nat | p < 32 ensures OnIndex(zeros, p + 1) == LastAt(none, ZeroRoot(), p) {
      assert OnIndex(zeros, p + 1) == ZeroRoot();
    }
    RingGrows(now, zeros, none, root, 1);
    assert none + [root] == [root];
  }

  // ------------------------------------------------ EOS: vectors, indexed from zero

  ghost predicate IsVector<T>(v: seq<T>, values: seq<T>, zero: T) {
    |v| == 32 && forall p: nat | p < 32 :: v[p] == LastAt(values, zero, p)
  }

  lemma VectorGrows<T>(v: seq<T>, values: seq<T>, zero: T, x: T)
    requires IsVector(v, values, zero)
    ensures IsVector(v[|values| % 32 := x], values + [x], zero)
  {
    forall p: nat | p < 32 ensures v[|values| % 32 := x][p] == LastAt(values + [x], zero, p) {
      LastAtAppend(values, x, zero, p);
    }
  }

  /** Going back `k` slots from the current one, round the vector, finds the entry `k` before the last. */
  lemma VectorBack<T>(v: seq<T>, values: seq<T>, zero: T, index: nat, k: nat)
    requires IsVector(v, values, zero) && values != [] && index == (|values| - 1) % 32 && k < 32
    ensures v[(index - k) % 32] == Recent(values, zero, k)
  {
    StepBack(|values|, k, index + 1, (index - k) % 32 + 1);
    LookBack(values, zero, k);
  }

  lemma FirstVector<T>(v: seq<T>, zero: T, x: T)
    requires |v| == 32 && v[0] == x && forall p | 0 < p < 32 :: v[p] == zero
    ensures IsVector(v, [x], zero)
  {
    assert [x][..0] == [];
    forall p: nat | p < 32 ensures v[p] == LastAt([x], zero, p) { assert LastAt([], zero, p) == zero; }
  }

  /** Roots as the table stores them: the first finalized and execution roots are empty vectors. */
  datatype Row = Row(optimistic: seq<Byte>, finalized: seq<Byte>, execution: seq<Byte>, slot: nat)

  /** The commitment and pairing check on the stored root and the new row. */
  type EosCheck = (seq<Byte>, Row) -> bool

  class EosVerifier {
    const check: EosCheck
    var currentIndex: nat
    var newOptimisticHeaderRoots: seq<seq<Byte>>
    var newFinalizedHeaderRoots: seq<seq<Byte>>
    var newExecutionStateRoots: seq<seq<Byte>>
    var currentSlots: seq<nat>

    ghost var history: seq<Row>

    ghost predicate Valid()
      reads this
    {
      && history != [] && currentIndex == (|history| - 1) % 32
      && Stored(newOptimisticHeaderRoots, newFinalizedHeaderRoots, newExecutionStateRoots, currentSlots, history)
      && AllChecked(check, history)
    }

    /** `instantiate`. */
    constructor (check: EosCheck, currentHeaderHash: seq<Byte>, currentSlot: nat)
      ensures Valid() && this.check == check && history == [Row(currentHeaderHash, [], [], currentSlot)]
    {
      this.check := check;
      this.currentIndex := 0;
      var optimistic, finalized, execution := [currentHeaderHash], [[]], [[]];
      var slots := [currentSlot];
      for i := 1 to 32
        invariant |optimistic| == |finalized| == |execution| == |slots| == i
        invariant optimistic[0] == currentHeaderHash && slots[0] == currentSlot
        invariant finalized[0] == [] && execution[0] == []
        invariant forall p | 0 < p < i ::
          optimistic[p] == [] && finalized[p] == [] && execution[p] == [] && slots[p] == 0
      {
        optimistic, finalized, execution := optimistic + [[]], finalized + [[]], execution + [[]];
        slots := slots + [0];
      }
      this.newOptimisticHeaderRoots := optimistic;
      this.newFinalizedHeaderRoots := finalized;
      this.newExecutionStateRoots := execution;
      this.currentSlots := slots;
      history := [Row(currentHeaderHash, [], [], currentSlot)];
      new;
      FirstVector(optimistic, [], currentHeaderHash);
      FirstVector(finalized, [], []);
      FirstVector(execution, [], []);
      FirstVector(slots, 0, currentSlot);
      assert RowsOptimistic(history) == [currentHeaderHash] && RowsFinalized(history) == [[]];
      assert RowsExecution(history) == [[]] && RowsSlot(history) == [currentSlot];
    }

    /** `update`: a failed check aborts the action. */
    method Update(row: Row) returns (ok: bool)
      requires Valid()
      modifies this
      ensures Valid()
      ensures ok == check(old(history[|history| - 1].optimistic), row)
      ensures history == old(history) + (if ok then [row] else [])
      ensures ok ==> var i := |old(history)| % 32;
        && currentIndex == i
        && newOptimisticHeaderRoots == old(newOptimisticHeaderRoots)[i := row.optimistic]
        && newFinalizedHeaderRoots == old(newFinalizedHeaderRoots)[i := row.finalized]
        && newExecutionStateRoots == old(newExecutionStateRoots)[i := row.execution]
        && currentSlots == old(currentSlots)[i := row.slot]
      ensures !ok ==>
        && newOptimisticHeaderRoots == old(newOptimisticHeaderRoots) && currentSlots == old(currentSlots)
        && newFinalizedHeaderRoots == old(newFinalizedHeaderRoots)
        && newExecutionStateRoots == old(newExecutionStateRoots) && currentIndex == old(currentIndex)
    {
      LookBack(RowsOptimistic(history), [], 0);
      ok := check(newOptimisticHeaderRoots[currentIndex], row);
      if ok {
        RowCheckedNext(check, history, row);
        RowStored(newOptimisticHeaderRoots, newFinalizedHeaderRoots, newExecutionStateRoots, currentSlots,
                  history, row);
        if currentIndex == 31 {
          currentIndex := 0;
        } else {
          currentIndex := currentIndex + 1;
        }
        newOptimisticHeaderRoots := newOptimisticHeaderRoots[currentIndex := row.optimistic];
        newFinalizedHeaderRoots := newFinalizedHeaderRoots[currentIndex := row.finalized];
        newExecutionStateRoots := newExecutionStateRoots[currentIndex := row.execution];
        currentSlots := currentSlots[currentIndex := row.slot];
        history := history + [row];
      }
    }
  }

  /** The four vectors hold the columns of the history. */
  ghost predicate Stored(o: seq<seq<Byte>>, f: seq<seq<Byte>>, e: seq<seq<Byte>>, s: seq<nat>, history: seq<Row>) {
    && IsVector(o, RowsOptimistic(history), []) && IsVector(f, RowsFinalized(history), [])
    && IsVector(e, RowsExecution(history), []) && IsVector(s, RowsSlot(history), 0)
  }

  lemma RowStored(o: seq<seq<Byte>>, f: seq<seq<Byte>>, e: seq<seq<Byte>>, s: seq<nat>, history: seq<Row>, row: Row)
    requires Stored(o, f, e, s, history)
    ensures var i := |history| % 32;
      Stored(o[i := row.optimistic], f[i := row.finalized], e[i := row.execution], s[i := row.slot], history + [row])
  {
    RowsGrow(history, row);
    VectorGrows(o, RowsOptimistic(history), [], row.optimistic);
    VectorGrows(f, RowsFinalized(history), [], row.finalized);
    VectorGrows(e, RowsExecution(history), [], row.execution);
    VectorGrows(s, RowsSlot(history), 0, row.slot);
  }

  ghost predicate CheckedAfter(check: EosCheck, history: seq<Row>, i: nat)
    requires 0 < i < |history|
  {
    check(history[i - 1].optimistic, history[i])
  }

  ghost predicate AllChecked(check: EosCheck, history: seq<Row>) {
    forall i: nat | 0 < i < |history| :: CheckedAfter(check, history, i)
  }

  lemma RowCheckedNext(check: EosCheck, history: seq<Row>, row: Row)
    requires history != [] && check(history[|history| - 1].optimistic, row) && AllChecked(check, history)
    ensures AllChecked(check, history + [row])
  {
    forall i: nat | 0 < i < |history + [row]| ensures CheckedAfter(check, history + [row], i) {
      if i < |history| { assert CheckedAfter(check, history, i); }
    }
  }

  function RowsOptimistic(h: seq<Row>): seq<seq<Byte>> { seq(|h|, (i: nat) requires i < |h| => h[i].optimistic) }
  function RowsFinalized(h: seq<Row>): seq<seq<Byte>> { seq(|h|, (i: nat) requires i < |h| => h[i].finalized) }
  function RowsExecution(h: seq<Row>): seq<seq<Byte>> { seq(|h|, (i: nat) requires i < |h| => h[i].execution) }
  function RowsSlot(h: seq<Row>): seq<nat> { seq(|h|, (i: nat) requires i < |h| => h[i].slot) }

  lemma RowsGrow(h: seq<Row>, row: Row)
    ensures RowsOptimistic(h + [row]) == RowsOptimistic(h) + [row.optimistic]
    ensures RowsFinalized(h + [row]) == RowsFinalized(h) + [row.finalized]
    ensures RowsExecution(h + [row]) == RowsExecution(h) + [row.execution]
    ensures RowsSlot(h + [row]) == RowsSlot(h) + [row.slot]
  {}
}
