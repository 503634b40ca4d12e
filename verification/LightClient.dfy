/**
 The Altair light-client store: validating an update against the snapshot, applying it on a quorum, and falling
 back to the update with most participants after a timeout. A failed check aborts the call and changes nothing.
 */
module LightClient {
  import opened Wrappers
  import opened Powers
  import opened Sequences
  import opened Merkle
  import opened MerkleBuilders

  type Bytes32 = nat

  datatype Header = Header(slot: nat, proposerIndex: nat, parentRoot: Bytes32, stateRoot: Bytes32, bodyRoot: Bytes32)

  datatype SyncCommittee = SyncCommittee(pubkeys: seq<nat>, aggregatePubkey: nat)

  datatype Update = Update(
    attestedHeader: Header, finalizedHeader: Header, finalityBranch: seq<Bytes32>,
    nextSyncCommittee: SyncCommittee, nextSyncCommitteeBranch: seq<Bytes32>,
    syncCommitteeBits: seq<nat>, signature: nat)

  /** Hashing and the aggregate signature check, as parameters. */
  datatype Crypto = Crypto(
    pair: (Bytes32, Bytes32) -> Bytes32, headerRoot: Header -> Bytes32, committeeRoot: SyncCommittee -> Bytes32,
    verify: (seq<nat>, Header, nat) -> bool)

  const SLOTS_PER_EPOCH: nat := 32
  const EPOCHS_PER_SYNC_COMMITTEE_PERIOD: nat := 256
  const SYNC_COMMITTEE_SIZE: nat := 512
  const FINALIZED_ROOT_DEPTH: nat := 6
  const FINALIZED_ROOT_INDEX: nat := 105
  const MIN_SYNC_COMMITTEE_PARTICIPANTS: nat := 1

  function EmptyHeader(): Header { Header(0, 0, 0, 0, 0) }

  function EmptyUpdate(): Update {
    Update(EmptyHeader(), EmptyHeader(), [], SyncCommittee([], 0), [], [], 0)
  }

  function Period(slot: nat): nat { slot / SLOTS_PER_EPOCH / EPOCHS_PER_SYNC_COMMITTEE_PERIOD }

  // ------------------------------------------------ branches and participants

  /** `is_valid_merkle_branch`: the result is read off when `depth` siblings were used; a shorter branch fails. */
  method IsValidMerkleBranch(c: Crypto, leaf: Bytes32, branch: seq<Bytes32>, depth: nat, index: nat, root: Bytes32)
      returns (ok: bool)
    ensures ok <==> 1 <= depth <= |branch| && BranchRoot(c.pair, leaf, branch[..depth], index) == root
  {
    var value := leaf;
    var i := 0;
    while i < |branch|
      invariant 0 <= i <= |branch| && (depth == 0 || i < depth)
      invariant depth >= 1 && depth <= |branch| ==>
        BranchRoot(c.pair, leaf, branch[..depth], index) == BranchRoot(c.pair, value, branch[i..depth], Up(index, i))
    {
      var n := branch[i];
      var bit := BitAt(index, i);
      UpOnce(index, i);
      if i < depth <= |branch| { assert branch[i..depth][1..] == branch[i + 1..depth]; }
      if bit == 1 {
        value := c.pair(n, value);
      } else {
        value := c.pair(value, n);
      }
      i := i + 1;
      if i == depth {
        assert branch[i..depth] == [];
        return value == root;
      }
    }
    ok := false;
  }

  method BitAt(index: nat, i: nat) returns (bit: nat)
    ensures bit == Up(index, i) % 2
  {
    UpIsQuotient(index, i);
    bit := index / Pow2(i) % 2;
  }

  /** How many entries of the bit list are one. */
  function Ones(bits: seq<nat>): nat {
    if bits == [] then 0 else Ones(bits[..|bits| - 1]) + (if bits[|bits| - 1] == 1 then 1 else 0)
  }

  function Participants(u: Update): nat { Ones(u.syncCommitteeBits) }

  /** `getElementInBytesArrayAt`: zero bytes beyond the end. */
  function KeyAt(keys: seq<nat>, i: nat): nat { if i < |keys| then keys[i] else 0 }

  /** The participants' keys in committee order. */
  function SelectedKeys(bits: seq<nat>, keys: seq<nat>): (r: seq<nat>)
    ensures |r| == Ones(bits)
  {
    if bits == [] then []
    else
      var n := |bits| - 1;
      SelectedKeys(bits[..n], keys) + (if bits[n] == 1 then [KeyAt(keys, n)] else [])
  }

  /** It is the number of positions that hold one. */
  lemma {:induction false} OnesIsCount(bits: seq<nat>)
    ensures Ones(bits) == |set i: nat | i < |bits| && bits[i] == 1|
  {
    if bits != [] {
      var n := |bits| - 1;
      var front := bits[..n];
      OnesIsCount(front);
      var before, all := set i: nat | i < n && front[i] == 1, set i: nat | i < |bits| && bits[i] == 1;
      assert all == if bits[n] == 1 then before + {n} else before;
    }
  }

  /** A participant's key stands behind those of the participants before it; nobody else has one. */
  lemma {:induction false} SelectedKeyAt(bits: seq<nat>, keys: seq<nat>, i: nat)
    requires i < |bits| && bits[i] == 1
    ensures Ones(bits[..i]) < |SelectedKeys(bits, keys)|
    ensures SelectedKeys(bits, keys)[Ones(bits[..i])] == if i < |keys| then keys[i] else 0
    decreases |bits|
  {
    var n := |bits| - 1;
    if i < n {
      SelectedKeyAt(bits[..n], keys, i);
      assert bits[..n][..i] == bits[..i];
    }
  }

  /** Collected at the front of a list, which is then reversed. */
  method ParticipantKeys(bits: seq<nat>, keys: seq<nat>) returns (participants: seq<nat>)
    ensures participants == SelectedKeys(bits, keys)
    ensures |participants| == |set i: nat | i < |bits| && bits[i] == 1|
    ensures forall i: nat | i < |bits| && bits[i] == 1 ::
      Ones(bits[..i]) < |participants| && participants[Ones(bits[..i])] == if i < |keys| then keys[i] else 0
  {
    var collected: seq<nat> := [];
    for i := 0 to |bits|
      invariant Reverse(collected) == SelectedKeys(bits[..i], keys)
    {
      assert bits[..i + 1][..i] == bits[..i];
      if bits[i] == 1 {
        ReverseCons(KeyAt(keys, i), collected);
        collected := [KeyAt(keys, i)] + collected;
      }
    }
    assert bits[..|bits|] == bits;
    participants := Reverse(collected);
    OnesIsCount(bits);
    forall i: nat | i < |bits| && bits[i] == 1
      ensures Ones(bits[..i]) < |participants|
      ensures participants[Ones(bits[..i])] == if i < |keys| then keys[i] else 0
    {
      SelectedKeyAt(bits, keys, i);
    }
  }

  method CountParticipants(bits: seq<nat>) returns (n: nat)
    ensures n == Ones(bits)
  {
    n := 0;
    for i := 0 to |bits|
      invariant n == Ones(bits[..i])
    {
      assert bits[..i + 1][..i] == bits[..i];
      if bits[i] == 1 { n := n + 1; }
    }
    assert bits[..|bits|] == bits;
  }

  // ------------------------------------------------ validity

  datatype Error =
    | SlotNotNewer | SkipsPeriod | FinalityBranchNotEmpty | FinalityBranchInvalid
    | CommitteeBranchNotEmpty | CommitteeMalformed | CommitteeBranchInvalid
    | TooFewParticipants | SignatureInvalid

  datatype Snapshot = Snapshot(header: Header, currentSyncCommittee: SyncCommittee, nextSyncCommittee: SyncCommittee)

  ghost predicate BranchOk(c: Crypto, leaf: Bytes32, branch: seq<Bytes32>, root: Bytes32) {
    |branch| >= FINALIZED_ROOT_DEPTH &&
    BranchRoot(c.pair, leaf, branch[..FINALIZED_ROOT_DEPTH], FINALIZED_ROOT_INDEX) == root
  }

  /** Depth 6 and index 105 name position 41 of 64: a branch passes exactly for the leaf there and its siblings. */
  lemma FinalityBranchExact(c: Crypto, fields: nat -> Bytes32, leaf: Bytes32, branch: seq<Bytes32>, depth: nat)
    requires Injective(c.pair) && |branch| >= 6 && depth == 6
    ensures BranchOk(c, leaf, branch, Node(c.pair, fields, depth, 0)) <==>
            leaf == fields(41) && branch[..6] == Path(c.pair, fields, 0, 41, depth)
  {
    Pow2Small();
    BranchVerifiesExactly(c.pair, fields, depth, 41, 105, leaf, branch[..6]);
  }

  predicate HasFinality(c: Crypto, u: Update) { c.headerRoot(u.finalizedHeader) != c.headerRoot(EmptyHeader()) }

  predicate SameOrNextPeriod(snapshot: nat, update: nat) {
    Period(update) == Period(snapshot) || Period(update) == Period(snapshot) + 1
  }

  /** Everything an update must satisfy against a snapshot. */
  ghost predicate IsValid(c: Crypto, s: Snapshot, u: Update) {
    && u.attestedHeader.slot > s.header.slot
    && SameOrNextPeriod(s.header.slot, u.attestedHeader.slot)
    && FinalityOk(c, u) && CommitteeOk(c, s, u)
    && Participants(u) >= MIN_SYNC_COMMITTEE_PARTICIPANTS
    && SignatureOk(c, s, u)
  }

  ghost predicate FinalityOk(c: Crypto, u: Update) {
    if HasFinality(c, u)
    then BranchOk(c, c.headerRoot(u.finalizedHeader), u.finalityBranch, u.attestedHeader.stateRoot)
    else u.finalityBranch == []
  }

  /** A later period's committee comes with a branch, checked at the depth and index of the finalized root. */
  ghost predicate CommitteeOk(c: Crypto, s: Snapshot, u: Update) {
    if Period(u.attestedHeader.slot) == Period(s.header.slot) then u.nextSyncCommitteeBranch == []
    else
      && |u.nextSyncCommittee.pubkeys| == SYNC_COMMITTEE_SIZE
      && BranchOk(c, c.committeeRoot(u.nextSyncCommittee), u.nextSyncCommitteeBranch, u.attestedHeader.stateRoot)
  }

  ghost predicate SignatureOk(c: Crypto, s: Snapshot, u: Update) {
    var committee := if Period(u.attestedHeader.slot) == Period(s.header.slot) then s.currentSyncCommittee
                     else s.nextSyncCommittee;
    c.verify(SelectedKeys(u.syncCommitteeBits, committee.pubkeys),
             if HasFinality(c, u) then u.finalizedHeader else u.attestedHeader, u.signature)
  }

  lemma SomebodyTookPart(bits: seq<nat>)
    ensures Ones(bits) >= 1 <==> exists i: nat :: i < |bits| && bits[i] == 1
  {
    OnesIsCount(bits);
    var ones := set i: nat | i < |bits| && bits[i] == 1;
    if ones != {} {
      var i :| i in ones;
      assert |ones| == |ones - {i}| + 1;
    }
  }

  /**
   A valid update in numbers: a newer slot of the same or the next period of 8192 slots, branches of six siblings at
   index 105 where they are due and none where they are not, a committee of 512 for a later period, a participant, and
   the signature of the right committee on the right header.
   */
  lemma ValidInNumbers(c: Crypto, s: Snapshot, u: Update)
    ensures IsValid(c, s, u) <==>
      var now, then_ := s.header.slot / 8192, u.attestedHeader.slot / 8192;
      var final := c.headerRoot(u.finalizedHeader) != c.headerRoot(Header(0, 0, 0, 0, 0));
      var committee := if now == then_ then s.currentSyncCommittee else s.nextSyncCommittee;
      && s.header.slot < u.attestedHeader.slot && (then_ == now || then_ == now + 1)
      && (if final
          then |u.finalityBranch| >= 6 && BranchRoot(c.pair, c.headerRoot(u.finalizedHeader),
                 u.finalityBranch[..6], 105) == u.attestedHeader.stateRoot
          else |u.finalityBranch| == 0)
      && (if now == then_ then |u.nextSyncCommitteeBranch| == 0
          else |u.nextSyncCommittee.pubkeys| == 512 && |u.nextSyncCommitteeBranch| >= 6 &&
               BranchRoot(c.pair, c.committeeRoot(u.nextSyncCommittee), u.nextSyncCommitteeBranch[..6], 105)
               == u.attestedHeader.stateRoot)
      && (exists i: nat :: i < |u.syncCommitteeBits| && u.syncCommitteeBits[i] == 1)
      && c.verify(SelectedKeys(u.syncCommitteeBits, committee.pubkeys),
                  if final then u.finalizedHeader else u.attestedHeader, u.signature)
  {
    SomebodyTookPart(u.syncCommitteeBits);
  }

  /** `validate_light_client_update`: accepts exactly the valid updates. */
  method Validate(c: Crypto, s: Snapshot, u: Update) returns (error: Option<Error>)
    ensures error.None? <==> IsValid(c, s, u)
  {
    if !(u.attestedHeader.slot > s.header.slot) { return Some(SlotNotNewer); }
    var snapshotPeriod := Period(s.header.slot);
    var updatePeriod := Period(u.attestedHeader.slot);
    if updatePeriod != snapshotPeriod && updatePeriod != snapshotPeriod + 1 { return Some(SkipsPeriod); }

    var signedHeader;
    if c.headerRoot(u.finalizedHeader) == c.headerRoot(EmptyHeader()) {
      signedHeader := u.attestedHeader;
      if |u.finalityBranch| != 0 { return Some(FinalityBranchNotEmpty); }
    } else {
      signedHeader := u.finalizedHeader;
      var ok := IsValidMerkleBranch(c, c.headerRoot(u.finalizedHeader), u.finalityBranch, FINALIZED_ROOT_DEPTH,
                                    FINALIZED_ROOT_INDEX, u.attestedHeader.stateRoot);
      if !ok { return Some(FinalityBranchInvalid); }
    }

    var syncCommittee;
    if updatePeriod == snapshotPeriod {
      syncCommittee := s.currentSyncCommittee;
      if |u.nextSyncCommitteeBranch| != 0 { return Some(CommitteeBranchNotEmpty); }
    } else {
      syncCommittee := s.nextSyncCommittee;
      if |u.nextSyncCommittee.pubkeys| != SYNC_COMMITTEE_SIZE { return Some(CommitteeMalformed); }
      var ok := IsValidMerkleBranch(c, c.committeeRoot(u.nextSyncCommittee), u.nextSyncCommitteeBranch,
                                    FINALIZED_ROOT_DEPTH, FINALIZED_ROOT_INDEX, u.attestedHeader.stateRoot);
      if !ok { return Some(CommitteeBranchInvalid); }
    }

    var participants := ParticipantKeys(u.syncCommitteeBits, syncCommittee.pubkeys);
    if !(|participants| >= MIN_SYNC_COMMITTEE_PARTICIPANTS) { return Some(TooFewParticipants); }
    if !c.verify(participants, signedHeader, u.signature) { return Some(SignatureInvalid); }
    error := None;
  }

  // ------------------------------------------------ the fallback

  /** One with most participants; the placeholder is returned only when nobody takes part anywhere. */
  method SelectBest(pending: set<Update>) returns (best: Update)
    ensures best in pending || (best == EmptyUpdate() && forall u | u in pending :: Participants(u) == 0)
    ensures forall u | u in pending :: Participants(u) <= Participants(best)
  {
    best := EmptyUpdate();
    var mostActive := 0;
    var rest := pending;
    while rest != {}
      invariant rest <= pending && mostActive == Participants(best)
      invariant best in pending || (best == EmptyUpdate() && mostActive == 0)
      invariant forall u | u in pending - rest :: Participants(u) <= mostActive
      decreases |rest|
    {
      var u :| u in rest;
      var active := CountParticipants(u.syncCommitteeBits);
      if active > mostActive {
        mostActive := active;
        best := u;
      }
      rest := rest - {u};
    }
  }

  /** Two thirds of the bits are set, and a finalized header came with the update. */
  predicate Quorum(c: Crypto, u: Update) {
    Participants(u) * 3 >= |u.syncCommitteeBits| * 2 && HasFinality(c, u)
  }

  /** At least twice as many members took part as stayed away. */
  lemma QuorumIsTwoThirds(c: Crypto, u: Update)
    ensures Quorum(c, u) <==>
      var present := |set i: nat | i < |u.syncCommitteeBits| && u.syncCommitteeBits[i] == 1|;
      && present >= 2 * (|u.syncCommitteeBits| - present)
      && c.headerRoot(u.finalizedHeader) != c.headerRoot(Header(0, 0, 0, 0, 0))
  {
    OnesIsCount(u.syncCommitteeBits);
  }

  /** Slots strictly increase, and no step skips a period. */
  ghost predicate Advancing(history: seq<Header>) {
    forall i: nat | i + 1 < |history| ::
      history[i].slot < history[i + 1].slot && SameOrNextPeriod(history[i].slot, history[i + 1].slot)
  }

  datatype Outcome = Rejected(error: Error) | Pending | Applied(update: Update)

  class BeaconLightClient {
    const crypto: Crypto
    var snapshot: Snapshot
    var validUpdates: set<Update>

    /** Every header the store ever held, the present one last. */
    ghost var history: seq<Header>

    /** In every reachable store each pending update is valid against the present snapshot. */
    ghost predicate Valid()
      reads this
    {
      && (forall u | u in validUpdates :: IsValid(crypto, snapshot, u))
      && history != [] && history[|history| - 1] == snapshot.header && Advancing(history)
    }

    constructor (crypto: Crypto, header: Header, current: SyncCommittee, next: SyncCommittee)
      ensures Valid() && this.crypto == crypto && validUpdates == {}
      ensures snapshot == Snapshot(header, current, next) && history == [header]
    {
      this.crypto := crypto;
      snapshot := Snapshot(header, current, next);
      validUpdates := {};
      history := [header];
    }

    /** `apply_light_client_update`; the snapshot's own next committee is not replaced. */
    method Apply(u: Update)
      requires Valid() && IsValid(crypto, snapshot, u)
      modifies this
      ensures snapshot.header == u.attestedHeader && history == old(history) + [u.attestedHeader]
      ensures snapshot.nextSyncCommittee == old(snapshot.nextSyncCommittee) && validUpdates == old(validUpdates)
      ensures snapshot.currentSyncCommittee ==
        if Period(u.attestedHeader.slot) == Period(old(snapshot.header.slot)) + 1
        then u.nextSyncCommittee else old(snapshot.currentSyncCommittee)
      ensures Advancing(history)
    {
      var snapshotPeriod := Period(snapshot.header.slot);
      var updatePeriod := Period(u.attestedHeader.slot);
      if updatePeriod == snapshotPeriod + 1 {
        snapshot := snapshot.(currentSyncCommittee := u.nextSyncCommittee);
      }
      snapshot := snapshot.(header := u.attestedHeader);
      history := history + [u.attestedHeader];
    }

    /** `process_light_client_update`. */
    method Process(u: Update, currentSlot: nat) returns (r: Outcome)
      requires Valid()
      modifies this
      ensures Valid()
      ensures r.Rejected? <==> !IsValid(crypto, old(snapshot), u)
      ensures r.Rejected? ==> snapshot == old(snapshot) && validUpdates == old(validUpdates) && history == old(history)
      ensures r.Pending? ==>
        && snapshot == old(snapshot) && history == old(history) && validUpdates == old(validUpdates) + {u}
        && !Quorum(crypto, u) && currentSlot <= old(snapshot.header.slot) + 8192
      ensures r.Applied? ==>
        && IsValid(crypto, old(snapshot), r.update) && validUpdates == {}
        && snapshot.header == r.update.attestedHeader && history == old(history) + [snapshot.header]
        && snapshot.header.slot > old(snapshot.header.slot)
        && SameOrNextPeriod(old(snapshot.header.slot), snapshot.header.slot)
      ensures r.Applied? && Quorum(crypto, u) ==> r.update == u
      ensures r.Applied? && !Quorum(crypto, u) ==>
        && currentSlot > old(snapshot.header.slot) + 8192
        && r.update in old(validUpdates) + {u}
        && (forall v | v in old(validUpdates) + {u} :: Participants(v) <= Participants(r.update))
    {
      var error := Validate(crypto, snapshot, u);
      if error.Some? { return Rejected(error.value); }
      validUpdates := validUpdates + {u};
      var updateTimeout := SLOTS_PER_EPOCH * EPOCHS_PER_SYNC_COMMITTEE_PERIOD;
      var committeeParticipants := CountParticipants(u.syncCommitteeBits);
      if committeeParticipants * 3 >= |u.syncCommitteeBits| * 2 &&
         crypto.headerRoot(u.finalizedHeader) != crypto.headerRoot(EmptyHeader()) {
        Apply(u);
        validUpdates := {};
        r := Applied(u);
      } else if currentSlot > snapshot.header.slot + updateTimeout {
        var bestValidUpdate := SelectBest(validUpdates);
        assert Participants(u) >= 1;
        Apply(bestValidUpdate);
        validUpdates := {};
        r := Applied(bestValidUpdate);
      } else {
        r := Pending;
      }
    }
  }

  /** Over a whole run the header only moves forward, and by no more periods than updates were applied. */
  lemma {:induction false} HistoryAdvances(history: seq<Header>, i: nat, j: nat)
    requires Advancing(history) && i <= j < |history|
    ensures history[j].slot >= history[i].slot + (j - i)
    ensures Period(history[i].slot) <= Period(history[j].slot) <= Period(history[i].slot) + (j - i)
    decreases j
  {
    if i < j {
      HistoryAdvances(history, i, j - 1);
      var k := j - 1;
      assert history[k].slot < history[k + 1].slot && SameOrNextPeriod(history[k].slot, history[k + 1].slot);
    }
  }
}
