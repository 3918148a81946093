/** The readiness answer over one snapshot of the store (src/api.rs:117-223,
    1977-2025). Times are in seconds; the clock is a parameter. */
module Readiness {
  import opened Wrappers
  import opened Schema
  import opened ParentEvidence
  import opened StoreSemantics
  import opened CanonicalChain
  import opened StoredFacts
  import opened Protocol

  const READY_MAX_AGE := 30
  const PARENT_EVIDENCE_MAX_AGE := 60

  function Max(a: int, b: int): int {
    if a < b then b else a
  }

  // ---- parent evidence ----

  // One row of the evidence query; `None` columns are those of its default value.
  datatype Evidence = Evidence(exactState: Option<WitnessState>, localState: Option<LocalState>,
                               lookupState: Option<ParentLookupState>, agree: Option<bool>,
                               meetsTarget: Option<bool>, verifiedAt: Option<int>,
                               sources: nat, matching: nat, oldest: Option<int>, exempt: bool)

  const NO_EVIDENCE := Evidence(None, None, None, None, None, None, 0, 0, None, false)
  const EXEMPT := NO_EVIDENCE.(exempt := true)

  predicate Fresh(at: Option<int>, now: int, limit: int) {
    at.Some? && Max(now - at.value, 0) <= limit
  }

  predicate IsReady(e: Evidence, now: int) {
    || e.exempt
    || (&& e.exactState == Some(BestChain)
        && e.localState == Some(AuxPowVerified)
        && e.lookupState == Some(Canonical)
        && e.agree == Some(true)
        && e.meetsTarget == Some(true)
        && e.sources >= 2
        && e.matching == e.sources
        && Fresh(e.verifiedAt, now, PARENT_EVIDENCE_MAX_AGE)
        && Fresh(e.oldest, now, PARENT_EVIDENCE_MAX_AGE))
  }

  // The FILTER of the matching count.
  predicate MatchingRow(row: ObservationRow, bits: string) {
    && row.state == Canonical
    && row.headerMatches == Some(true)
    && row.parentHeight.Some?
    && row.parentConfirmations.Some? && row.parentConfirmations.value >= 0
    && row.parentBits == Some(bits)
  }

  // MIN(checked_at)
  ghost function Oldest(rows: map<string, ObservationRow>): (r: Option<int>)
    ensures r.None? <==> rows == map[]
    ensures r.Some? ==> forall k :: k in rows ==> r.value <= rows[k].checkedAt
    ensures r.Some? ==> exists k :: k in rows && r.value == rows[k].checkedAt
    decreases |rows|
  {
    if rows == map[] then None
    else
      var k :| k in rows;
      match Oldest(rows - {k})
      case None =>
        assert forall j :: j in rows ==> j == k || j in rows - {k};
        Some(rows[k].checkedAt)
      case Some(t) =>
        assert forall j :: j in rows ==> j == k || j in rows - {k};
        Some(if rows[k].checkedAt < t then rows[k].checkedAt else t)
  }

  ghost function LoadEvidence(s: Store, height: nat, hash: Hash): Option<Evidence> {
    if height in s.canonical && s.canonical[height].block == hash
       && s.canonical[height] in s.witnesses && s.canonical[height] in s.links then
      var k := s.canonical[height];
      var w, a, rows := s.witnesses[k], s.links[k], ObservationsOf(s, k);
      Some(Evidence(Some(w.exactState), Some(w.localState), Some(a.lookupState),
                    Some(a.sourcesAgree), Some(a.meetsTarget), Some(a.verifiedAt),
                    |rows|, |set o | o in rows && MatchingRow(rows[o], a.parentBits)|,
                    Oldest(rows), false))
    else None
  }

  /** The proof of a selected block meets its target, and at least two sources,
      all of them, found its parent canonical with the bits of the proof, everything
      recently. */
  ghost predicate WellEvidenced(s: Store, height: nat, now: int) {
    && height in s.canonical && s.canonical[height] in s.links
    && var a, rows := s.links[s.canonical[height]], ObservationsOf(s, s.canonical[height]);
       && a.meetsTarget
       && now - a.verifiedAt <= 60
       && |rows| >= 2
       && (forall o :: o in rows ==>
             && rows[o].state == Canonical
             && rows[o].parentBits == Some(a.parentBits)
             && now - rows[o].checkedAt <= 60)
  }

  // A filtered count equals the whole count exactly when the filter drops nothing.
  lemma CountsAll(rows: map<string, ObservationRow>, bits: string)
    ensures |set o | o in rows && MatchingRow(rows[o], bits)| == |rows| <==>
            forall o :: o in rows ==> MatchingRow(rows[o], bits)
  {
    var matching := set o | o in rows && MatchingRow(rows[o], bits);
    assert matching <= rows.Keys;
    if forall o :: o in rows ==> MatchingRow(rows[o], bits) {
      assert matching == rows.Keys;
    } else if |matching| == |rows| {
      SubsetOfSameSize(matching, rows.Keys);
    }
  }

  lemma SubsetOfSameSize<T>(a: set<T>, b: set<T>)
    requires a <= b && |a| == |b|
    ensures a == b
  {
    assert |b - a| == |b| - |a|;
  }

  lemma OldestIsFresh(rows: map<string, ObservationRow>, now: int)
    requires rows != map[]
    ensures Fresh(Oldest(rows), now, PARENT_EVIDENCE_MAX_AGE) <==>
            forall o :: o in rows ==> now - rows[o].checkedAt <= PARENT_EVIDENCE_MAX_AGE
  {
  }

  // In a valid store the aggregate of only canonical answers is that state, agreed on.
  lemma AllCanonical(s: Store, k: WitnessKey)
    requires EvidenceValid(s) && k in s.links && |ObservationsOf(s, k)| >= 2
    requires forall o :: o in ObservationsOf(s, k) ==> ObservationsOf(s, k)[o].state == Canonical
    ensures s.links[k].lookupState == Canonical && s.links[k].sourcesAgree
  {
    assert EvidenceAt(s, k);
    var rows := ObservationsOf(s, k);
    assert rows.Keys != {};
    var o :| o in rows.Keys;
    assert rows[o].state in RowStates(rows);
    assert RowStates(rows) == {Canonical};
  }

  // The gate of a proof whose witness is on the best chain and locally verified.
  lemma ProofGate(s: Store, height: nat, hash: Hash, now: int)
    requires EvidenceValid(s) && height in s.canonical && s.canonical[height].block == hash
    requires s.canonical[height] in s.links && s.canonical[height] in s.witnesses
    requires s.witnesses[s.canonical[height]].exactState == BestChain
    requires s.witnesses[s.canonical[height]].localState == AuxPowVerified
    ensures LoadEvidence(s, height, hash).Some?
    ensures IsReady(LoadEvidence(s, height, hash).value, now) <==> WellEvidenced(s, height, now)
  {
    var k := s.canonical[height];
    var rows, bits := ObservationsOf(s, k), s.links[k].parentBits;
    assert EvidenceAt(s, k);
    CountsAll(rows, bits);
    if |rows| >= 2 {
      OldestIsFresh(rows, now);
      if forall o :: o in rows ==> rows[o].state == Canonical {
        AllCanonical(s, k);
      }
    }
    assert forall o :: o in rows ==> ObservedRow(rows[o]);
  }

  /** Above genesis the evidence gate opens exactly for a well-evidenced block: in
      a valid store the witness columns are always those of a verified proof, the
      stored aggregate adds nothing to its own observations, and the other columns
      of a canonical observation nothing to its state. */
  lemma EvidenceGate(s: Store, height: nat, hash: Hash, now: int)
    requires Valid(s) && height > 0
    requires height in s.canonical && s.canonical[height].block == hash
    ensures LoadEvidence(s, height, hash).Some?
    ensures IsReady(LoadEvidence(s, height, hash).value, now) <==> WellEvidenced(s, height, now)
  {
    SelectedIsProved(s, height);
    ProofGate(s, height, hash, now);
  }

  // ---- the answer ----

  // `nodeHeight - indexedHeight` in 64 bits, saturating.
  function Lag(cs: ChainState): Option<int> {
    if cs.nodeHeight.Some? && cs.indexedHeight.Some? then
      Some(Max(cs.nodeHeight.value - cs.indexedHeight.value, -(I64_MAX as int) - 1))
    else None
  }

  ghost function ParentReadiness(s: Store, required: bool): Evidence {
    var cs := s.chainState;
    if !required then EXEMPT
    else if cs.indexedHeight.Some? && cs.indexedHash.Some? then
      if cs.indexedHeight.value == 0 then EXEMPT
      else
        match LoadEvidence(s, cs.indexedHeight.value, cs.indexedHash.value)
        case Some(e) => e
        case None => NO_EVIDENCE
    else NO_EVIDENCE
  }

  // The handler: every condition it checks, in its order.
  ghost predicate ReadyAnswer(s: Store, required: bool, updatedAt: int, now: int) {
    var cs := s.chainState;
    && cs.status == Ready
    && Lag(cs).Some? && Lag(cs).value <= 1
    && Max(now - updatedAt, 0) <= READY_MAX_AGE
    && cs.indexedHeight.Some? && cs.indexedHash.Some? && cs.nodeHeight.Some? && cs.nodeHash.Some?
    && (cs.indexedHeight == cs.nodeHeight ==> cs.indexedHash == cs.nodeHash)
    && cs.indexedHeight.value in s.canonical
    && s.canonical[cs.indexedHeight.value].block == cs.indexedHash.value
    && IsReady(ParentReadiness(s, required), now)
  }

  /** In every reachable store the answer is ready exactly when the status is, the
      heartbeat is recent, the recorded node tip is the canonical tip, hash
      included, and, where asked for, the tip above genesis is well evidenced. */
  lemma ReadyMeansSameTip(s: Store, required: bool, updatedAt: int, now: int)
    requires Valid(s)
    ensures ReadyAnswer(s, required, updatedAt, now) <==>
            && s.chainState.status == Ready
            && now - updatedAt <= 30
            && s.chainState.nodeHeight.Some? && s.chainState.nodeHash.Some?
            && IsTip(s.canonical, s.chainState.nodeHeight.value, s.chainState.nodeHash.value)
            && (required && s.chainState.nodeHeight.value > 0 ==>
                  WellEvidenced(s, s.chainState.nodeHeight.value, now))
  {
    var cs := s.chainState;
    if cs.indexedHeight.Some? && cs.indexedHash.Some? {
      TipIsRecorded(s, cs.indexedHeight.value, cs.indexedHash.value);
      if cs.indexedHeight.value > 0 {
        EvidenceGate(s, cs.indexedHeight.value, cs.indexedHash.value, now);
      }
    }
    if cs.nodeHeight.Some? && cs.nodeHash.Some? {
      TipIsRecorded(s, cs.nodeHeight.value, cs.nodeHash.value);
    }
  }

  // ---- while a pass is under way ----

  // Only the end of a pass can make an index ready that is not.
  lemma StaysNotReady(s: Store, a: Action, t: Store)
    requires Valid(s) && Enabled(s, a) && Apply(s, a) == Some(t) && !a.Finish?
    ensures s.chainState.status != Ready ==> t.chainState.status != Ready
    ensures !a.Observe? ==>
              t.chainState.nodeHeight == s.chainState.nodeHeight && t.chainState.nodeHash == s.chainState.nodeHash
  {
    match a
    case Commit(b) => InsertBlockGrows(s, b, InsertBlock(s, b).value);
    case Replace(tip, ancestor, branch) =>
      InsertBlocksGrows(s, branch, InsertBlocks(s, branch).value);
    case _ =>
  }

  lemma ObservedElsewhere(s: Store, a: Action, t: Store)
    requires Valid(s) && a.Observe? && Apply(s, a) == Some(t) && !IsTip(s.canonical, a.height, a.hash)
    ensures t.chainState.status != Ready
    ensures t.chainState.nodeHeight == Some(a.height) && t.chainState.nodeHash == Some(a.hash)
  {
    TipIsRecorded(s, a.height, a.hash);
  }

  lemma LastStep(origin: Store, log: seq<Action>, t: Store)
    requires Valid(origin) && log != [] && Execute(origin, log) == Some(t)
    ensures var n := |log| - 1; var m := Execute(origin, log[..n]);
            m.Some? && Valid(m.value) && Enabled(m.value, log[n]) && Apply(m.value, log[n]) == Some(t)
  {
    RunKeepsValid(origin, log[..|log| - 1], Execute(origin, log[..|log| - 1]).value);
  }

  /** From the moment a pass sees the node on another block than the recorded tip
      until some pass ends, no state is ready: not after its commits or its
      replacement, not after a failure, nor in the passes that follow it. The node
      tip it saw stays recorded until the next one is. */
  lemma {:induction false} NotReadyUntilFinished(origin: Store, log: seq<Action>, i: nat, j: nat,
                                                 s: Store, t: Store)
    requires Valid(origin) && i < j <= |log| && log[i].Observe?
    requires Execute(origin, log[..i]) == Some(s) && Execute(origin, log[..j]) == Some(t)
    requires !IsTip(s.canonical, log[i].height, log[i].hash)
    requires forall k :: i < k < j ==> !log[k].Finish?
    ensures t.chainState.status != Ready
    ensures forall required, updatedAt, now :: !ReadyAnswer(t, required, updatedAt, now)
    ensures (forall k :: i < k < j ==> !log[k].Observe?) ==>
              && t.chainState.nodeHeight == Some(log[i].height)
              && t.chainState.nodeHash == Some(log[i].hash)
    decreases j
  {
    hide Valid, Enabled, Apply, Execute, IsTip, IsReady;
    var n := j - 1;
    assert log[..j][..n] == log[..n];
    LastStep(origin, log[..j], t);
    var m := Execute(origin, log[..n]).value;
    if i < n {
      NotReadyUntilFinished(origin, log, i, n, s, m);
      StaysNotReady(m, log[n], t);
    } else {
      ObservedElsewhere(s, log[i], t);
    }
  }

  // ---- the status alone ----

  const A_BLOCK := RpcBlock(Hash(7), 0, None, BlockFacts(Hash(1), None, 0, 1, "", "", None), "", 1, [])
  const A_PROOF := IndexedBlock(A_BLOCK, Hash(8), None, 0)

  // A pass over a node that exchanged its tip after naming it.
  const CHANGED_NODE := [Observe(0, Hash(9)), Commit(A_PROOF), Finish(0, Hash(9), Ready)]

  lemma FirstBlockInserts(s: Store)
    requires s.blocks == map[] && s.positions == map[]
    ensures InsertBlock(s, A_PROOF).Some?
  {
    assert Transactions.Keys(A_BLOCK.txs) == [];
  }

  /** `ready` alone promises equal heights only: a run may end ready on a block
      other than the one recorded for the node, and then the answer is not ready. */
  lemma StatusAloneIsNotEnough()
    ensures Execute(EMPTY_STORE, CHANGED_NODE).Some?
    ensures var s := Execute(EMPTY_STORE, CHANGED_NODE).value;
            && Valid(s) && s.chainState.status == Ready
            && s.chainState.indexedHeight == s.chainState.nodeHeight
            && s.chainState.indexedHash != s.chainState.nodeHash
            && forall required, updatedAt, now :: !ReadyAnswer(s, required, updatedAt, now)
  {
    var s0 := EMPTY_STORE;
    assert CHANGED_NODE[..2] == [CHANGED_NODE[0], CHANGED_NODE[1]];
    assert CHANGED_NODE[..2][..1] == [CHANGED_NODE[0]];
    EmptyIsValid();
    ExecuteNext(s0, [], s0, CHANGED_NODE[0]);
    var s1 := ObserveTip(s0, 0, Hash(9)).value;
    assert [] + [CHANGED_NODE[0]] == [CHANGED_NODE[0]];
    assert Execute(s0, [CHANGED_NODE[0]]) == Some(s1);
    FirstBlockInserts(s1);
    var s2 := CommitBlock(s1, A_PROOF).value;
    ExecuteNext(s0, [CHANGED_NODE[0]], s1, CHANGED_NODE[1]);
    assert [CHANGED_NODE[0]] + [CHANGED_NODE[1]] == CHANGED_NODE[..2];
    ExecuteNext(s0, CHANGED_NODE[..2], s2, CHANGED_NODE[2]);
    assert CHANGED_NODE[..2] + [CHANGED_NODE[2]] == CHANGED_NODE;
    RunKeepsValid(s0, CHANGED_NODE, Execute(s0, CHANGED_NODE).value);
  }
}
