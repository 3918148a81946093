/** The run of one indexer as a machine of database transactions. `Enabled` is
    what a synchronization pass has checked when it starts a transaction; a
    crash is the end of a log, and the next pass goes on from there. */
module Protocol {
  import opened Wrappers
  import opened Schema
  import opened StoreSemantics
  import opened CanonicalChain
  import opened StoredFacts

  datatype Action =
    | Observe(height: nat, hash: Hash)
    | Commit(block: IndexedBlock)
    | Replace(tip: ChainTip, ancestor: Option<(nat, Hash)>, branch: seq<IndexedBlock>)
    | Refresh(block: IndexedBlock)
    | Finish(height: nat, hash: Hash, status: Status)
    | MarkFailed(text: string)

  // Nothing is assumed of a node's answers beyond these guards.
  ghost predicate Enabled(s: Store, a: Action) {
    match a
    case Observe(_, _) => true
    case Commit(b) => Follows(s.canonical, b.block) && Verified(b)
    case Replace(tip, ancestor, branch) =>
      ancestor.Some? && ForkPoint(s.canonical, ancestor) && AllVerified(branch)
    case Refresh(b) => Verified(b)
    case Finish(height, _, status) =>
      status == Ready ==> s.chainState.indexedHeight == Some(height)
    case MarkFailed(_) => true
  }

  ghost function Apply(s: Store, a: Action): Option<Store> {
    match a
    case Observe(height, hash) => ObserveTip(s, height, hash)
    case Commit(b) => CommitBlock(s, b)
    case Replace(tip, ancestor, branch) => ReplaceBranch(s, tip, ancestor, branch)
    case Refresh(b) => InsertBlock(s, b)
    case Finish(height, hash, status) => UpdateTip(s, height, hash, status)
    case MarkFailed(text) => Some(MarkError(s, text))
  }

  // The store after the transactions of `log`, each enabled and committed.
  ghost function Execute(origin: Store, log: seq<Action>): Option<Store> {
    if log == [] then Some(origin)
    else
      match Execute(origin, log[..|log| - 1])
      case None => None
      case Some(m) =>
        if Enabled(m, log[|log| - 1]) then Apply(m, log[|log| - 1]) else None
  }

  lemma ExecuteNext(origin: Store, log: seq<Action>, s: Store, a: Action)
    requires Execute(origin, log) == Some(s) && Enabled(s, a)
    ensures Execute(origin, log + [a]) == Apply(s, a)
  {
    assert (log + [a])[..|log|] == log;
  }

  // ---- what every transaction keeps ----

  // `ready` is only ever stored for equal heights.
  ghost predicate StatusValid(s: Store) {
    s.chainState.status == Ready ==>
      s.chainState.indexedHeight.Some? && s.chainState.indexedHeight == s.chainState.nodeHeight
  }

  /** A reorg event is complete and reconstructs its own fork: walking stored
      parents from the old tip for the recorded number of steps reaches exactly
      the recorded ancestor. */
  ghost predicate EventValid(s: Store, e: ReorgEvent) {
    && e.completed
    && e.ancestor.Some?
    && e.ancestor.value.0 <= e.oldHeight
    && e.oldHash in s.blocks && s.blocks[e.oldHash].height == e.oldHeight
    && WalkBack(s.blocks, e.oldHash, e.oldHeight - e.ancestor.value.0) == Some(e.ancestor.value.1)
  }

  ghost predicate AuditValid(s: Store) {
    forall i :: 0 <= i < |s.reorgEvents| ==> EventValid(s, s.reorgEvents[i])
  }

  ghost predicate Valid(s: Store) {
    ChainValid(s) && StatusValid(s) && AuditValid(s) && FactsValid(s) && EvidenceValid(s)
  }

  lemma EmptyIsValid()
    ensures Valid(EMPTY_STORE)
  {
  }

  lemma EventStays(s: Store, t: Store, e: ReorgEvent)
    requires EventValid(s, e) && Grows(s, t)
    ensures EventValid(t, e)
  {
    WalkBackStays(s.blocks, t.blocks, e.oldHash, e.oldHeight - e.ancestor.value.0);
  }

  lemma GrowthKeepsAudit(s: Store, t: Store)
    requires AuditValid(s) && Grows(s, t) && t.reorgEvents == s.reorgEvents
    ensures AuditValid(t)
  {
    forall i | 0 <= i < |t.reorgEvents|
      ensures EventValid(t, t.reorgEvents[i])
    {
      EventStays(s, t, s.reorgEvents[i]);
    }
  }

  lemma NewEventValid(s: Store, tip: ChainTip, ancestor: Option<(nat, Hash)>)
    requires ChainValid(s) && ForkPoint(s.canonical, ancestor) && ancestor.Some?
    requires TipLocked(s.chainState, tip)
    ensures EventValid(s, EventOf(tip, ancestor))
  {
    assert SelectedAt(s, tip.height) && SelectedAt(s, ancestor.value.0);
    WalkBackSelected(s, tip.height, tip.height - ancestor.value.0);
  }

  lemma ReplaceKeepsAudit(s: Store, tip: ChainTip, ancestor: Option<(nat, Hash)>,
                          branch: seq<IndexedBlock>, t: Store)
    requires ChainValid(s) && AuditValid(s) && ForkPoint(s.canonical, ancestor) && ancestor.Some?
    requires ReplaceBranch(s, tip, ancestor, branch) == Some(t)
    ensures t.reorgEvents == s.reorgEvents + [EventOf(tip, ancestor)]
    ensures AuditValid(t)
  {
    ReplaceBranchGrows(s, tip, ancestor, branch, t);
    assert t.reorgEvents == s.reorgEvents + [EventOf(tip, ancestor)] by {
      InsertBlocksGrows(s, branch, InsertBlocks(s, branch).value);
    }
    forall i | 0 <= i < |t.reorgEvents|
      ensures EventValid(t, t.reorgEvents[i])
    {
      if i < |s.reorgEvents| {
        EventStays(s, t, s.reorgEvents[i]);
      } else {
        NewEventValid(s, tip, ancestor);
        EventStays(s, t, EventOf(tip, ancestor));
      }
    }
  }

  lemma CommitKeepsValid(s: Store, b: IndexedBlock, t: Store)
    requires Valid(s) && Follows(s.canonical, b.block) && Verified(b) && CommitBlock(s, b) == Some(t)
    ensures Valid(t) && Grows(s, t)
  {
    var s1 := InsertBlock(s, b).value;
    CommitKeepsChain(s, b, t);
    CommitBlockGrows(s, b, t);
    GrowthKeepsAudit(s, t);
    InsertBlockKeepsFacts(s, b, s1);
    SameTablesKeepFacts(s1, t);
    InsertBlockKeepsEvidence(s, b, s1);
    SameTablesKeepEvidence(s1, t);
  }

  lemma ReplaceKeepsValid(s: Store, tip: ChainTip, ancestor: Option<(nat, Hash)>,
                          branch: seq<IndexedBlock>, t: Store)
    requires Valid(s) && ForkPoint(s.canonical, ancestor) && ancestor.Some? && AllVerified(branch)
    requires ReplaceBranch(s, tip, ancestor, branch) == Some(t)
    ensures Valid(t) && Grows(s, t)
  {
    var s1 := InsertBlocks(s, branch).value;
    ReplacementKeepsChain(s, tip, ancestor, branch, t);
    ReplaceBranchGrows(s, tip, ancestor, branch, t);
    ReplaceKeepsAudit(s, tip, ancestor, branch, t);
    ReplaceFrame(s, tip, ancestor, branch, s1, t);
    InsertBlocksKeepsFacts(s, branch, s1);
    SameTablesKeepFacts(s1, t);
    InsertBlocksKeepsEvidence(s, branch, s1);
    SameTablesKeepEvidence(s1, t);
  }

  lemma ReplaceFrame(s: Store, tip: ChainTip, ancestor: Option<(nat, Hash)>,
                     branch: seq<IndexedBlock>, s1: Store, t: Store)
    requires ReplaceBranch(s, tip, ancestor, branch) == Some(t)
    requires InsertBlocks(s, branch) == Some(s1)
    ensures t == s1.(canonical := t.canonical, chainState := t.chainState,
                     reorgEvents := t.reorgEvents)
    ensures t.chainState.status == Syncing
  {
  }

  lemma RefreshKeepsValid(s: Store, b: IndexedBlock, t: Store)
    requires Valid(s) && Verified(b) && InsertBlock(s, b) == Some(t)
    ensures Valid(t) && Grows(s, t) && SameSelection(s, t)
  {
    InsertBlockGrows(s, b, t);
    FactsKeepChain(s, t);
    GrowthKeepsAudit(s, t);
    InsertBlockKeepsFacts(s, b, t);
    InsertBlockKeepsEvidence(s, b, t);
  }

  // Node tip and status alone.
  lemma StatusKeepsValid(s: Store, cs: ChainState, t: Store)
    requires Valid(s) && t == s.(chainState := cs)
    requires cs.indexedHeight == s.chainState.indexedHeight
    requires cs.indexedHash == s.chainState.indexedHash
    requires cs.indexedWitness == s.chainState.indexedWitness
    requires StatusValid(t)
    ensures Valid(t) && Grows(s, t)
  {
    assert Grows(s, t);
    FactsKeepChain(s, t);
    GrowthKeepsAudit(s, t);
    SameTablesKeepFacts(s, t);
    SameTablesKeepEvidence(s, t);
  }

  lemma StepKeepsValid(s: Store, a: Action, t: Store)
    requires Valid(s) && Enabled(s, a) && Apply(s, a) == Some(t)
    ensures Valid(t) && Grows(s, t)
  {
    match a
    case Observe(_, _) => StatusKeepsValid(s, t.chainState, t);
    case Commit(b) => CommitKeepsValid(s, b, t);
    case Replace(tip, ancestor, branch) => ReplaceKeepsValid(s, tip, ancestor, branch, t);
    case Refresh(b) => RefreshKeepsValid(s, b, t);
    case Finish(_, _, _) => StatusKeepsValid(s, t.chainState, t);
    case MarkFailed(_) => StatusKeepsValid(s, t.chainState, t);
  }

  // ---- over whole runs ----

  /** Safety of every run: whatever the node answered and wherever passes were
      cut short, the store is valid and holds every fact of the store it started
      from. With `EmptyIsValid` this covers runs from an empty database. */
  lemma {:induction false} RunKeepsValid(origin: Store, log: seq<Action>, s: Store)
    requires Valid(origin) && Execute(origin, log) == Some(s)
    ensures Valid(s) && Grows(origin, s)
    decreases |log|
  {
    if log == [] {
      assert Grows(origin, s);
    } else {
      var init := log[..|log| - 1];
      var m := Execute(origin, init).value;
      RunKeepsValid(origin, init, m);
      StepKeepsValid(m, log[|log| - 1], s);
      GrowsTransitive(origin, m, s);
    }
  }

  /** In every reachable store a selected block above genesis has a proof that was
      verified locally, and its witness is the exact one on the best chain. */
  lemma SelectedIsProved(s: Store, h: nat)
    requires Valid(s) && h in s.canonical && h > 0
    ensures var k := s.canonical[h];
            && k in s.links && k in s.witnesses
            && s.witnesses[k].exactState == BestChain
            && s.witnesses[k].localState == AuxPowVerified
  {
    assert SelectedAt(s, h) && ProvedAt(s, s.canonical[h]);
  }

  /** A crash leaves a run: every prefix of a log is one. */
  lemma {:induction false} PrefixRuns(origin: Store, log: seq<Action>, n: nat)
    requires Execute(origin, log).Some? && n <= |log|
    ensures Execute(origin, log[..n]).Some?
    decreases |log|
  {
    if n < |log| {
      PrefixRuns(origin, log[..|log| - 1], n);
      assert log[..|log| - 1][..n] == log[..n];
    } else {
      assert log[..n] == log;
    }
  }

  lemma {:induction false} RunsCompose(origin: Store, first: seq<Action>, m: Store, rest: seq<Action>)
    requires Execute(origin, first) == Some(m)
    ensures Execute(origin, first + rest) == Execute(m, rest)
    decreases |rest|
  {
    hide Enabled, Apply;
    if rest == [] {
      assert first + rest == first;
    } else {
      var n := |rest| - 1;
      RunsCompose(origin, first, m, rest[..n]);
      assert (first + rest)[..|first| + n] == first + rest[..n];
    }
  }

  /** Two moments of one run with the same canonical tip hash select the same
      block at every height. */
  lemma SameTipSameChain(origin: Store, log: seq<Action>, i: nat, j: nat, s: Store, t: Store)
    requires Valid(origin) && i <= j <= |log| && Execute(origin, log[..j]) == Some(t)
    requires Execute(origin, log[..i]) == Some(s)
    requires s.chainState.indexedHash.Some? && s.chainState.indexedHash == t.chainState.indexedHash
    ensures s.canonical.Keys == t.canonical.Keys
    ensures forall h :: h in s.canonical ==> s.canonical[h].block == t.canonical[h].block
  {
    LaterGrows(origin, log, i, j, s, t);
    GrowthShares(s, t);
    TipDeterminesChain(s, t);
  }

  lemma LaterGrows(origin: Store, log: seq<Action>, i: nat, j: nat, s: Store, t: Store)
    requires Valid(origin) && i <= j <= |log| && Execute(origin, log[..j]) == Some(t)
    requires Execute(origin, log[..i]) == Some(s)
    ensures Valid(s) && Valid(t) && Grows(s, t)
  {
    hide Valid, Grows, Enabled, Apply;
    RunKeepsValid(origin, log[..i], s);
    RunsCompose(origin, log[..i], s, log[i..j]);
    assert log[..i] + log[i..j] == log[..j];
    RunKeepsValid(s, log[i..j], t);
  }

  /** Audit over runs: the event a replacement appended is still there later,
      names the tip canonical just before, and still reaches its ancestor. */
  lemma ReorgStaysReconstructible(origin: Store, log: seq<Action>, i: nat, j: nat, s: Store, t: Store)
    requires Valid(origin) && i < j <= |log| && log[i].Replace?
    requires Execute(origin, log[..i]) == Some(s) && Execute(origin, log[..j]) == Some(t)
    ensures var e := EventOf(log[i].tip, log[i].ancestor);
            && |s.reorgEvents| < |t.reorgEvents|
            && t.reorgEvents[|s.reorgEvents|] == e
            && s.chainState.indexedHeight == Some(e.oldHeight)
            && s.chainState.indexedHash == Some(e.oldHash)
            && EventValid(t, e)
  {
    PrefixRuns(origin, log[..j], i + 1);
    assert log[..j][..i + 1] == log[..i + 1] && log[..i + 1][..i] == log[..i];
    var m := Execute(origin, log[..i + 1]).value;
    RunKeepsValid(origin, log[..i], s);
    ReplaceKeepsAudit(s, log[i].tip, log[i].ancestor, log[i].branch, m);
    LaterGrows(origin, log, i + 1, j, m, t);
    assert EventValid(m, m.reorgEvents[|s.reorgEvents|]);
    EventStays(m, t, m.reorgEvents[|s.reorgEvents|]);
  }

  ghost predicate AppendOnly(log: seq<Action>) {
    forall i :: 0 <= i < |log| ==> !log[i].Replace?
  }

  /** A run without a replacement keeps every selector. */
  lemma {:induction false} AppendOnlyKeepsSelection(origin: Store, log: seq<Action>, s: Store)
    requires Valid(origin) && Execute(origin, log) == Some(s) && AppendOnly(log)
    ensures KeepsSelection(origin, s)
    decreases |log|
  {
    if log != [] {
      var init, last := log[..|log| - 1], log[|log| - 1];
      var m := Execute(origin, init).value;
      RunKeepsValid(origin, init, m);
      AppendOnlyKeepsSelection(origin, init, m);
      AppendStep(m, last, s);
    }
  }

  lemma AppendStep(s: Store, a: Action, t: Store)
    requires Valid(s) && Enabled(s, a) && Apply(s, a) == Some(t) && !a.Replace?
    ensures KeepsSelection(s, t)
  {
    match a
    case Commit(b) =>
      CommitSucceeds(s, b);
      FollowsTipHeights(s, b.block);
    case _ =>
  }

  /** No run removes or exchanges a selected genesis block. */
  lemma {:induction false} GenesisStays(origin: Store, log: seq<Action>, s: Store)
    requires Valid(origin) && Execute(origin, log) == Some(s) && 0 in origin.canonical
    ensures 0 in s.canonical && s.canonical[0] == origin.canonical[0]
    decreases |log|
  {
    if log != [] {
      var init, last := log[..|log| - 1], log[|log| - 1];
      var m := Execute(origin, init).value;
      RunKeepsValid(origin, init, m);
      GenesisStays(origin, init, m);
      GenesisStep(m, last, s);
    }
  }

  lemma GenesisStep(s: Store, a: Action, t: Store)
    requires Valid(s) && Enabled(s, a) && Apply(s, a) == Some(t) && 0 in s.canonical
    ensures 0 in t.canonical && t.canonical[0] == s.canonical[0]
  {
    match a
    case Commit(b) => CommitSucceeds(s, b);
    case Replace(tip, ancestor, branch) =>
      ReplacementExact(s, tip, ancestor, branch);
      assert 0 in Prefix(s.canonical, ancestor);
    case _ =>
  }
}
