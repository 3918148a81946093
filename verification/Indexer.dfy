/** The synchronization pass (src/indexer.rs). Every transaction it commits is
    recorded in a ghost log and is a step of the protocol; against a node that
    serves one chain the pass converges on it. */
module Indexers {
  import opened Wrappers
  import opened Schema
  import opened ParentEvidence
  import opened StoreSemantics
  import opened CanonicalChain
  import opened StoredFacts
  import opened Protocol
  import opened Databases
  import opened Universes
  import opened Nodes
  import opened GenuineRuns
  import opened Convergence

  datatype Network = Network(id: string, genesis: Hash)

  // What a pass reads before it starts to work.
  datatype Snapshot = Snapshot(height: U64, hash: Hash, tip: Option<ChainTip>)

  datatype SyncOutcome = SyncOutcome(indexedBlocks: nat, indexedHeight: nat, nodeHeight: nat,
                                     reorgDepth: nat)

  // The chain name the node must report for a configured network.
  function ExpectedChain(id: string): string {
    if id == "mainnet" then "main" else if id == "testnet" then "test" else id
  }

  type ValidStore = s: Store | Protocol.Valid(s) witness EMPTY_STORE

  // The kind of a failure, as its message begins.
  function Describe(e: Error): string {
    match e
    case NotReady => "service is not ready: "
    case Config => "configuration error: "
    case InvalidNodeResponse => "invalid node response: "
    case InvalidAuxPow => "invalid AuxPoW proof: "
    case Rpc => "node RPC "
    case Database => "database error"
  }

  // ---- the transactions of a pass ----

  // From entry `n` on the log holds commits only.
  ghost predicate CommitsSince(log: seq<Action>, n: nat) {
    n <= |log| && forall i :: n <= i < |log| ==> log[i].Commit?
  }

  // `after` is `before` and `count` commits.
  ghost predicate Committed(before: seq<Action>, after: seq<Action>, count: nat) {
    before <= after && |after| == |before| + count && CommitsSince(after, |before|)
  }

  lemma CommittedMore(a: seq<Action>, b: seq<Action>, c: seq<Action>, m: nat, n: nat)
    requires Committed(a, b, m) && Committed(b, c, n)
    ensures Committed(a, c, m + n)
  {
    forall i | |a| <= i < |c|
      ensures c[i].Commit?
    {
      assert i < |b| ==> c[i] == b[i];
    }
  }

  // One commit for each indexed block, or one replacement of the reported depth.
  ghost predicate AdvancedSince(log: seq<Action>, n: nat, indexed: nat, depth: nat) {
    || (CommitsSince(log, n) && |log| == n + indexed && depth == 0)
    || (&& |log| == n + 1 && log[n].Replace? && log[n].ancestor.Some?
        && |log[n].branch| == indexed && log[n].ancestor.value.0 + depth == log[n].tip.height)
  }

  // From entry `m` on at most one refresh, then the ready status.
  ghost predicate ClosedSince(log: seq<Action>, m: nat, height: nat, hash: Hash) {
    && m < |log| <= m + 2
    && (|log| == m + 2 ==> log[m].Refresh?)
    && log[|log| - 1] == Finish(height, hash, Ready)
  }

  // Up to entry `m` the advance, then the end of the pass.
  ghost predicate WorkedSince(log: seq<Action>, n: nat, m: nat, height: nat, hash: Hash,
                              indexed: nat, depth: nat)
  {
    n <= m < |log| && AdvancedSince(log[..m], n, indexed, depth) && ClosedSince(log, m, height, hash)
  }

  /** A whole successful pass: the node's tip is observed first. */
  ghost predicate PassSince(log: seq<Action>, n: nat, outcome: SyncOutcome) {
    && n < |log| && log[n].Observe? && log[n].height == outcome.nodeHeight
    && var work, hash := n + 1, log[n].hash;
       exists m :: WorkedSince(log, work, m, outcome.nodeHeight, hash,
                               outcome.indexedBlocks, outcome.reorgDepth)
  }

  /** The call that named the block a pass ends on, for a pass whose work starts
      with call `first`: the first call of the last fetch or, when nothing was
      fetched, the last comparison. A comparison of the tips takes one call, a
      fetch five, and a search one for each height it examines. */
  function NamingCall(first: nat, tip: Option<ChainTip>, nodeHeight: nat, replaced: bool,
                      indexed: nat, depth: nat): int
  {
    var compared: int := first + if tip.Some? && tip.value.height <= nodeHeight then 1 else 0;
    var fetching :=
      if replaced && tip.Some? then
        compared + Min(tip.value.height, nodeHeight) - (tip.value.height - depth) + 1
      else compared;
    if indexed == 0 then fetching - 1 else fetching + 5 * (indexed - 1)
  }

  lemma NamingOfAppend(first: nat, tip: Option<ChainTip>, nodeHeight: nat, indexed: nat)
    requires tip.Some? ==> tip.value.height <= nodeHeight
    ensures var work := first + if tip.Some? then 1 else 0;
            NamingCall(first, tip, nodeHeight, false, indexed, 0) ==
            if indexed == 0 then work - 1 else work + 5 * (indexed - 1)
  {
  }

  // The call that named the tip of a branch staged on a block at `fork`, if the
  // search for it started with call `first`.
  function BranchCall(first: nat, tip: ChainTip, nodeHeight: nat, fork: nat): nat {
    var top := Min(tip.height, nodeHeight);
    if fork > top then first
    else if fork == nodeHeight then first + (top - fork)
    else first + (top - fork) + 1 + 5 * (nodeHeight - fork - 1)
  }

  lemma NamingOfBranch(first: nat, tip: ChainTip, nodeHeight: nat, indexed: nat, depth: nat)
    requires depth <= tip.height && tip.height - depth <= Min(tip.height, nodeHeight)
    requires indexed + (tip.height - depth) == nodeHeight
    ensures NamingCall(first, Some(tip), nodeHeight, true, indexed, depth) ==
            BranchCall(first + if tip.height <= nodeHeight then 1 else 0, tip, nodeHeight, tip.height - depth)
  {
  }

  lemma WorkTrace(before: seq<Action>, advance: seq<Action>, log: seq<Action>, height: nat,
                  hash: Hash, indexed: nat, depth: nat)
    requires before <= advance <= log && AdvancedSince(advance, |before|, indexed, depth)
    requires ClosedSince(log, |advance|, height, hash)
    ensures WorkedSince(log, |before|, |advance|, height, hash, indexed, depth)
  {
    assert log[..|advance|] == advance;
  }

  lemma PassTrace(log: seq<Action>, n: nat, height: nat, hash: Hash, outcome: SyncOutcome)
    requires n < |log| && log[n] == Observe(height, hash) && outcome.nodeHeight == height
    requires var work := n + 1;
             exists m :: WorkedSince(log, work, m, height, hash, outcome.indexedBlocks, outcome.reorgDepth)
    ensures PassSince(log, n, outcome)
  {
  }

  class Indexer {
    const db: Database
    const rpc: Rpc
    const network: Network
    const maxReorgDepth: nat
    const refreshDepth: nat
    const parents: seq<string>
    ghost var origin: ValidStore
    ghost var log: seq<Action>

    ghost predicate Valid()
      reads this, db
    {
      && DistinctLabels(parents)
      && Execute(origin, log) == Some(db.State())
    }

    constructor (db: Database, rpc: Rpc, network: Network, maxReorgDepth: nat, refreshDepth: nat,
                 parents: seq<string>)
      requires DistinctLabels(parents) && Protocol.Valid(db.State())
      ensures Valid() && this.db == db && this.rpc == rpc && log == [] && origin == db.State()
      ensures this.network == network && this.maxReorgDepth == maxReorgDepth
      ensures this.refreshDepth == refreshDepth && this.parents == parents
    {
      this.db, this.rpc, this.network := db, rpc, network;
      this.maxReorgDepth, this.refreshDepth, this.parents := maxReorgDepth, refreshDepth, parents;
      origin, log := db.State(), [];
    }

    // Books the transaction that led from `before` to the present tables.
    ghost method Record(before: Store, a: Action)
      requires DistinctLabels(parents)
      requires Execute(origin, log) == Some(before) && Enabled(before, a)
      requires Apply(before, a) == Some(db.State())
      modifies this`log
      ensures Valid() && log == old(log) + [a]
    {
      ExecuteNext(origin, log, before, a);
      log := log + [a];
    }

    lemma StateIsValid()
      requires Valid()
      ensures Protocol.Valid(db.State())
    {
      RunKeepsValid(origin, log, db.State());
    }

    method ValidateIdentity(nodeChain: string) returns (r: Outcome<()>)
      modifies rpc
      ensures rpc.calls == old(rpc.calls) + 1
      ensures r.Ok? <==>
                && rpc.answers.blockHash(old(rpc.calls), 0) == Ok(network.genesis)
                && nodeChain == ExpectedChain(network.id)
      ensures r.Ok? ==>
                && (network.id == "mainnet" ==> nodeChain == "main")
                && (network.id == "testnet" ==> nodeChain == "test")
                && (network.id !in {"mainnet", "testnet"} ==> nodeChain == network.id)
    {
      var genesis :- rpc.BlockHash(0);
      if genesis != network.genesis {
        return Err(Config);
      }
      if nodeChain != ExpectedChain(network.id) {
        return Err(Config);
      }
      return Ok(());
    }

    // ---- served calls ----

    // The node serves `chain` on the calls from `first` to before `end`.
    ghost predicate Served(net: Universe, chain: seq<Hash>, first: nat, end: nat) {
      Serves(rpc.answers, net, ExpectedChain(network.id), network.genesis, chain, first, end)
    }

    lemma ServedFacts(net: Universe, chain: seq<Hash>, first: nat, end: nat)
      requires Served(net, chain, first, end)
      ensures Linked(net, chain) && Honest(rpc.answers, net) && 0 < |chain| <= I64_MAX
    {
    }

    // Served calls are served before and after any of them.
    lemma ServedSplits(net: Universe, chain: seq<Hash>, first: nat, mid: nat)
      requires first <= mid
      ensures forall end: nat :: mid <= end && Served(net, chain, first, end) ==>
                Served(net, chain, first, mid) && Served(net, chain, mid, end)
    {
    }

    lemma ServedHash(net: Universe, chain: seq<Hash>, first: nat, at: nat, h: nat)
      requires first <= at && h < |chain|
      ensures forall end: nat :: at < end && Served(net, chain, first, end) ==>
                rpc.answers.blockHash(at, h) == Ok(chain[h])
    {
      assert forall end: nat :: at < end && Served(net, chain, first, end) ==>
        ServesBlock(rpc.answers, chain, at, h);
    }

    // What a served node answers to the calls of one fetch, as far as they go.
    ghost predicate FetchServed(net: Universe, chain: seq<Hash>, at: nat, end: nat, h: nat)
      requires h < |chain|
    {
      && (at < end ==> rpc.answers.blockHash(at, h) == Ok(chain[h]))
      && (at + 1 < end ==> rpc.answers.raw(at + 1, chain[h]).Ok?)
      && (at + 2 < end ==>
            && rpc.answers.verbose(at + 2, chain[h]).Ok?
            && var b := rpc.answers.verbose(at + 2, chain[h]).value;
               && b.hash == chain[h] && b.height == h
               && (h > 0 ==> b.previous == Some(chain[h - 1]))
               && (h == 0 ==> b.previous == None || b.previous == Some(ZERO_HASH)))
      && (at + 3 < end ==> ProofAccepted(rpc.answers.proof(at + 3, chain[h]), h))
      && (at + 4 < end ==> rpc.answers.blockHash(at + 4, h) == Ok(chain[h]))
    }

    lemma ServedFetch(net: Universe, chain: seq<Hash>, at: nat, h: nat)
      requires h < |chain|
      ensures forall end: nat :: Served(net, chain, at, end) ==> FetchServed(net, chain, at, end, h)
    {
      forall end: nat | Served(net, chain, at, end)
        ensures FetchServed(net, chain, at, end, h)
      {
        assert at < end ==> ServesBlock(rpc.answers, chain, at, h);
        assert at + 1 < end ==> ServesBlock(rpc.answers, chain, at + 1, h);
        assert at + 2 < end ==> ServesBlock(rpc.answers, chain, at + 2, h);
        assert at + 3 < end ==> ServesBlock(rpc.answers, chain, at + 3, h);
        assert at + 4 < end ==> ServesBlock(rpc.answers, chain, at + 4, h);
      }
    }

    // ---- fetching and searching ----

    // The five answers behind a fetched block.
    ghost predicate FetchedBy(b: IndexedBlock, height: nat, at: nat) {
      && rpc.answers.blockHash(at, height) == Ok(b.block.hash)
      && rpc.answers.raw(at + 1, b.block.hash) == Ok(b.witnessHash)
      && rpc.answers.verbose(at + 2, b.block.hash) == Ok(b.block)
      && EvidenceOf(b.auxpow, rpc.answers, at + 3, b.block.hash, height, parents)
      && rpc.answers.blockHash(at + 4, height) == Ok(b.block.hash)
      && b.fetchedAt == rpc.answers.clock(at + 5)
    }

    /** A fetched block is the one asked for, with the expected parent and the
        evidence of the configured sources, and the node names it at that height
        before and after the verification. */
    method FetchIndexedBlock(height: nat, expectedPrevious: Option<Hash>, ghost net: Universe,
                             ghost chain: seq<Hash>)
      returns (r: Outcome<IndexedBlock>)
      requires DistinctLabels(parents)
      modifies rpc
      ensures rpc.calls >= old(rpc.calls)
      ensures r.Ok? ==> rpc.calls == old(rpc.calls) + 5 && FetchedBy(r.value, height, old(rpc.calls))
      ensures r.Ok? ==>
                && r.value.block.height == height && Verified(r.value)
                && (height > 0 ==> r.value.block.previous == expectedPrevious)
                && (height == 0 ==> r.value.block.previous == None
                                    || r.value.block.previous == Some(ZERO_HASH))
      ensures r.Ok? && Honest(rpc.answers, net) ==>
                Genuine(net, r.value.block) && EvidenceFits(r.value.auxpow)
      ensures Served(net, chain, old(rpc.calls), rpc.calls) && height < |chain|
              && (height > 0 ==> expectedPrevious == Some(chain[height - 1])) ==>
                r.Ok? && r.value.block.hash == chain[height]
    {
      if height < |chain| {
        ServedFetch(net, chain, rpc.calls, height);
      }
      hide Nodes.Serves;
      var expectedHash :- rpc.BlockHash(height);
      var raw :- rpc.BlockRaw(expectedHash);
      var block :- rpc.BlockVerbose(expectedHash);
      if block.hash != expectedHash || block.height != height {
        return Err(InvalidNodeResponse);
      }
      var previousMatches :=
        if height == 0 then block.previous == None || block.previous == Some(ZERO_HASH)
        else block.previous == expectedPrevious;
      if !previousMatches {
        return Err(NotReady);
      }
      var auxpow :- VerifyProof(rpc, parents, block);
      var again :- rpc.BlockHash(height);
      if again != expectedHash {
        return Err(NotReady);
      }
      var fetchedAt := rpc.answers.clock(rpc.calls);
      return Ok(IndexedBlock(block, raw, auxpow, fetchedAt));
    }

    // In a search from `top` whose first call was `first`, the comparison at `height` failed.
    ghost predicate Differs(height: nat, top: nat, first: nat)
      requires height <= top
      reads db
    {
      height in db.canonical ==>
        rpc.answers.blockHash(first + (top - height), height) != Ok(db.canonical[height].block)
    }

    // Against a served chain, a failed comparison is a disagreement.
    lemma ServedDiffers(net: Universe, chain: seq<Hash>, top: nat, first: nat, low: int)
      requires top < |chain| && low >= -1
      requires forall k: nat :: low < k <= top ==> Differs(k, top, first)
      ensures forall end: nat :: Served(net, chain, first, end) && end >= first + (top - low) ==>
                forall k: nat :: low < k <= top ==> !Agree(db.canonical, chain, k)
    {
      forall end: nat, k: nat |
          Served(net, chain, first, end) && end >= first + (top - low) && low < k <= top
        ensures !Agree(db.canonical, chain, k)
      {
        assert Differs(k, top, first);
        ServedHash(net, chain, first, first + (top - k), k);
      }
    }

    /** At most maxReorgDepth+1 comparisons, from the top down to the first that
        agrees. Against one served chain the result is the greatest agreeing height
        examined, and failure means that none of them agrees: `Config` when genesis
        was among them, else `NotReady`. */
    method FindCommonAncestor(tip: ChainTip, nodeHeight: nat, ghost net: Universe,
                              ghost chain: seq<Hash>)
      returns (r: Outcome<Option<(nat, Hash)>>)
      modifies rpc
      ensures old(rpc.calls) <= rpc.calls <= old(rpc.calls) + maxReorgDepth + 1
      ensures r.Ok? ==> r.value.Some? && ForkPoint(db.canonical, r.value)
                        && r.value.value.0 <= Min(tip.height, nodeHeight)
      ensures r.Ok? ==> var top, h := Min(tip.height, nodeHeight), r.value.value.0;
                && rpc.calls == old(rpc.calls) + (top - h) + 1
                && rpc.answers.blockHash(old(rpc.calls) + (top - h), h) == Ok(r.value.value.1)
                && forall k: nat :: h < k <= top ==> Differs(k, top, old(rpc.calls))
      ensures Served(net, chain, old(rpc.calls), rpc.calls) && nodeHeight < |chain| ==>
                var top := Min(tip.height, nodeHeight);
                && (r.Ok? <==> InReach(db.canonical, top, chain, maxReorgDepth))
                && (r.Ok? ==>
                      && SearchHits(db.canonical, top, chain, maxReorgDepth, r.value.value.0)
                      && forall k: nat :: r.value.value.0 < k <= top ==> !Agree(db.canonical, chain, k))
                && (r.Err? ==> r.error == if top <= maxReorgDepth then Config else NotReady)
    {
      var height := Min(tip.height, nodeHeight);
      ghost var top, first := height, rpc.calls;
      var examined := 0;
      while true
        invariant 0 <= height == top - examined && examined <= maxReorgDepth + 1
        invariant rpc.calls == first + examined
        invariant forall k: nat :: height < k <= top ==> Differs(k, top, first)
        decreases height
      {
        if nodeHeight < |chain| {
          ServedDiffers(net, chain, top, first, height);
        }
        if examined > maxReorgDepth {
          return Err(NotReady);
        }
        if nodeHeight < |chain| {
          ServedHash(net, chain, first, rpc.calls, height);
        }
        var stored :- db.CanonicalHash(height);
        var node :- rpc.BlockHash(height);
        if stored == Some(node) {
          assert Served(net, chain, first, rpc.calls) && nodeHeight < |chain| ==>
            SearchHits(db.canonical, top, chain, maxReorgDepth, height);
          return Ok(Some((height, node)));
        }
        assert Differs(height, top, first);
        if height == 0 {
          if nodeHeight < |chain| {
            ServedDiffers(net, chain, top, first, -1);
          }
          return Err(Config);
        }
        height := height - 1;
        examined := examined + 1;
      }
    }

    // Honest facts in the tables, and in every transaction so far.
    ghost predicate GenuineSoFar(net: Universe)
      reads this
    {
      WellFormed(net) && Coherent(origin, net) && GenuineLog(net, log)
    }

    lemma StateIsCoherent(net: Universe)
      requires Valid() && GenuineSoFar(net)
      ensures Coherent(db.State(), net)
    {
      GenuineRun(net, origin, log, db.State());
    }

    ghost predicate IsTipHeight(h: nat)
      reads db
    {
      db.chainState.indexedHeight == Some(h)
    }

    // The recorded tip is the block that call `at` named for `height`.
    ghost predicate NamedBy(height: nat, at: int)
      reads db
    {
      && at >= 0 && db.chainState.indexedHeight == Some(height) && db.chainState.indexedHash.Some?
      && rpc.answers.blockHash(at, height) == Ok(db.chainState.indexedHash.value)
    }

    // ---- appending ----

    method CommitNext(b: IndexedBlock, ghost net: Universe) returns (r: Outcome<()>)
      requires Valid() && Verified(b) && CanonicalChain.Follows(db.canonical, b.block)
      modifies db, this`log
      ensures Valid() && log == old(log) + (if r.Ok? then [Commit(b)] else [])
      ensures r.Err? ==> db.State() == old(db.State())
      ensures r.Ok? ==>
                && IsTip(db.canonical, b.block.height, b.block.hash)
                && db.canonical == old(db.canonical)[b.block.height := b.Key()]
                && db.reorgEvents == old(db.reorgEvents)
      ensures old(GenuineSoFar(net)) && Genuine(net, b.block) && EvidenceFits(b.auxpow) ==> r.Ok?
      ensures old(GenuineLog(net, log)) && Genuine(net, b.block) && EvidenceFits(b.auxpow) ==>
                GenuineLog(net, log)
    {
      hide Universes.Coherent, Universes.WellFormed, Genuine, EvidenceFits, Verified;
      ghost var before := db.State();
      CommitFacts(b, net);
      r := db.CommitBlock(b);
      if r.Ok? {
        Record(before, Commit(b));
      }
    }

    lemma CommitFacts(b: IndexedBlock, net: Universe)
      requires Valid() && CanonicalChain.Follows(db.canonical, b.block)
      ensures CommitBlock(db.State(), b).Some? ==>
                var t := CommitBlock(db.State(), b).value;
                && IsTip(t.canonical, b.block.height, b.block.hash)
                && t.canonical == db.canonical[b.block.height := b.Key()]
                && t.reorgEvents == db.reorgEvents
      ensures GenuineSoFar(net) && Genuine(net, b.block) && EvidenceFits(b.auxpow) ==>
                CommitBlock(db.State(), b).Some?
    {
      StateIsValid();
      CommitSucceeds(db.State(), b);
      if GenuineSoFar(net) && Genuine(net, b.block) && EvidenceFits(b.auxpow) {
        StateIsCoherent(net);
        InsertGenuine(db.State(), net, b);
      }
      if CommitBlock(db.State(), b).Some? {
        CommitKeepsChain(db.State(), b, CommitBlock(db.State(), b).value);
        CommitBlockGrows(db.State(), b, CommitBlock(db.State(), b).value);
      }
    }

    // What an appending pass has reached. `honest` stands for an honest node
    // and a genuine log, `converging` also for genuine tables and a served `chain`.
    ghost predicate AppendedBelow(next: nat, previous: Option<Hash>, net: Universe,
                                  chain: seq<Hash>, honest: bool, converging: bool)
      reads this, db
    {
      && Valid()
      && AppendPoint(db.canonical, next, previous)
      && (honest ==> GenuineLog(net, log))
      && (converging ==> GenuineSoFar(net) && AgreesBelow(db.canonical, chain, next))
    }

    // Fetches and commits the block at `height`, on top of `previous`.
    method AppendOne(height: nat, previous: Option<Hash>, ghost net: Universe,
                     ghost chain: seq<Hash>, ghost honest: bool, ghost converging: bool)
      returns (r: Outcome<Hash>)
      requires AppendedBelow(height, previous, net, chain, honest, converging)
      requires honest ==> Honest(rpc.answers, net)
      requires converging ==> height < |chain|
      modifies db, rpc, this`log
      ensures Valid() && Committed(old(log), log, if r.Ok? then 1 else 0)
      ensures rpc.calls >= old(rpc.calls)
      ensures r.Ok? ==>
                && rpc.calls == old(rpc.calls) + 5
                && rpc.answers.blockHash(old(rpc.calls), height) == Ok(r.value)
      ensures db.reorgEvents == old(db.reorgEvents)
      ensures r.Err? ==> db.State() == old(db.State())
      ensures r.Ok? ==> AppendedBelow(height + 1, Some(r.value), net, chain, honest,
                                      converging && Served(net, chain, old(rpc.calls), rpc.calls))
      ensures honest ==> GenuineLog(net, log)
      ensures converging && Served(net, chain, old(rpc.calls), rpc.calls) ==> r.Ok?
    {
      hide Protocol.Execute, Nodes.Serves, Universes.Coherent, Universes.WellFormed, FetchServed;
      ghost var first := rpc.calls;
      assert converging && height > 0 ==> Agree(db.canonical, chain, height - 1);
      var indexed :- FetchIndexedBlock(height, previous, net, chain);
      ghost var serving := converging && Served(net, chain, first, rpc.calls);
      if serving {
        ServedFacts(net, chain, first, rpc.calls);
      }
      NewHeight(indexed.block);
      ghost var before := db.canonical;
      var committed := CommitNext(indexed, net);
      if committed.Err? {
        return Err(committed.error);
      }
      if serving {
        AgreesOneMore(before, chain, height, indexed.Key());
      }
      return Ok(indexed.block.hash);
    }

    // The appending loop, from `start` up to `nodeHeight`.
    method AppendFrom(start: nat, previous: Option<Hash>, nodeHeight: nat, ghost net: Universe,
                      ghost chain: seq<Hash>, ghost honest: bool, ghost converging: bool)
      returns (r: Outcome<Option<Hash>>)
      requires AppendedBelow(start, previous, net, chain, honest, converging) && start <= nodeHeight + 1
      requires honest ==> Honest(rpc.answers, net)
      requires converging ==> nodeHeight < |chain|
      modifies db, rpc, this`log
      ensures Valid() && old(log) <= log && CommitsSince(log, |old(log)|)
      ensures r.Ok? ==> |log| == |old(log)| + (nodeHeight + 1 - start)
      ensures rpc.calls >= old(rpc.calls)
      ensures r.Ok? ==> rpc.calls == old(rpc.calls) + 5 * (nodeHeight + 1 - start)
      ensures r.Ok? && start <= nodeHeight ==>
                r.value.Some? && rpc.answers.blockHash(rpc.calls - 5, nodeHeight) == Ok(r.value.value)
      ensures r.Ok? ==> AppendedBelow(nodeHeight + 1, r.value, net, chain, honest,
                                      converging && Served(net, chain, old(rpc.calls), rpc.calls))
      ensures converging && Served(net, chain, old(rpc.calls), rpc.calls) ==> r.Ok?
      ensures start > nodeHeight ==> db.State() == old(db.State())
      ensures db.reorgEvents == old(db.reorgEvents)
      ensures honest ==> GenuineLog(net, log)
    {
      hide Protocol.Execute, Nodes.Serves, Nodes.Honest, Universes.Coherent, Universes.WellFormed;
      hide GenuineLog, AgreesBelow, AppendPoint;
      var height, expectedPrevious := start, previous;
      ghost var first := rpc.calls;
      ServedSplits(net, chain, first, first);
      while height <= nodeHeight
        invariant start <= height <= nodeHeight + 1
        invariant Committed(old(log), log, height - start)
        invariant rpc.calls == first + 5 * (height - start)
        invariant height > start ==>
                    && expectedPrevious.Some?
                    && rpc.answers.blockHash(rpc.calls - 5, height - 1) == Ok(expectedPrevious.value)
        invariant db.reorgEvents == old(db.reorgEvents)
        invariant AppendedBelow(height, expectedPrevious, net, chain, honest,
                                converging && Served(net, chain, first, rpc.calls))
        invariant height == start ==> db.State() == old(db.State())
        decreases nodeHeight + 1 - height
      {
        ghost var before, mid := log, rpc.calls;
        ServedSplits(net, chain, first, mid);
        var appended := AppendOne(height, expectedPrevious, net, chain, honest,
                                  converging && Served(net, chain, first, mid));
        CommittedMore(old(log), before, log, height - start, if appended.Ok? then 1 else 0);
        if appended.Err? {
          return Err(appended.error);
        }
        expectedPrevious := Some(appended.value);
        height := height + 1;
      }
      return Ok(expectedPrevious);
    }

    /** The branch of a pass that extends the tip, block by block up to
        `nodeHeight`. */
    method AppendBlocks(tip: Option<ChainTip>, nodeHeight: nat, ghost net: Universe,
                        ghost chain: seq<Hash>)
      returns (r: Outcome<nat>)
      requires Valid()
      requires TipOf(db.canonical, tip) && (tip.Some? ==> tip.value.height <= nodeHeight)
      modifies db, rpc, this`log
      ensures Valid() && old(log) <= log && CommitsSince(log, |old(log)|)
      ensures r.Ok? ==> |log| == |old(log)| + r.value
      ensures rpc.calls >= old(rpc.calls)
      ensures r.Ok? ==> rpc.calls == old(rpc.calls) + 5 * r.value
      ensures db.reorgEvents == old(db.reorgEvents)
      ensures r.Ok? ==> IsTipHeight(nodeHeight)
      ensures r.Ok? ==> r.value == nodeHeight + 1 - StartOf(tip)
      ensures r.Ok? && r.value > 0 ==> NamedBy(nodeHeight, rpc.calls - 5)
      ensures r.Ok? && r.value == 0 ==> db.State() == old(db.State())
      ensures Honest(rpc.answers, net) && old(GenuineLog(net, log)) ==> GenuineLog(net, log)
      ensures old(Converging(net, chain, tip)) && nodeHeight < |chain| ==>
                Served(net, chain, old(rpc.calls), rpc.calls) ==>
                  r.Ok? && AgreesBelow(db.canonical, chain, nodeHeight + 1)
    {
      hide Nodes.Serves, Nodes.Honest, Universes.Coherent, Universes.WellFormed, Protocol.Execute;
      var previous := if tip.Some? then Some(tip.value.hash) else None;
      ghost var honest := Honest(rpc.answers, net) && GenuineLog(net, log);
      ghost var converging := Converging(net, chain, tip) && nodeHeight < |chain|;
      if converging {
        PrefixAgrees(net, chain, tip);
      }
      var last :- AppendFrom(StartOf(tip), previous, nodeHeight, net, chain, honest, converging);
      TipHeight(nodeHeight, last);
      return Ok(nodeHeight + 1 - StartOf(tip));
    }

    function StartOf(tip: Option<ChainTip>): nat {
      if tip.Some? then tip.value.height + 1 else 0
    }

    ghost predicate Converging(net: Universe, chain: seq<Hash>, tip: Option<ChainTip>)
      reads this, db
    {
      && Linked(net, chain) && GenuineSoFar(net)
      && (tip.Some? ==> Agree(db.canonical, chain, tip.value.height))
    }

    lemma TipHeight(h: nat, hash: Option<Hash>)
      requires Valid() && AppendPoint(db.canonical, h + 1, hash)
      ensures IsTipHeight(h) && db.chainState.indexedHash == hash
    {
      StateIsValid();
      TipIsRecorded(db.State(), h, hash.value);
    }

    lemma NewHeight(b: RpcBlock)
      requires Valid() && CanonicalChain.Follows(db.canonical, b)
      ensures b.height !in db.canonical
    {
      StateIsValid();
      FollowsTipHeights(db.State(), b);
    }

    lemma PrefixAgrees(net: Universe, chain: seq<Hash>, tip: Option<ChainTip>)
      requires Valid() && GenuineSoFar(net) && Linked(net, chain)
      requires tip.Some? ==> Agree(db.canonical, chain, tip.value.height)
      ensures AgreesBelow(db.canonical, chain, StartOf(tip))
    {
      StateIsValid();
      StateIsCoherent(net);
      if tip.Some? {
        AgreesThrough(db.State(), net, chain, tip.value.height);
      }
    }

    // ---- replacing ----

    /** Staging never yields a branch that the database would find broken. */
    method StageReplacement(ancestor: (nat, Hash), nodeHeight: U64, ghost net: Universe,
                            ghost chain: seq<Hash>)
      returns (r: Outcome<seq<IndexedBlock>>)
      requires DistinctLabels(parents) && ancestor.0 <= nodeHeight && ancestor.0 <= I64_MAX
      modifies rpc
      ensures rpc.calls >= old(rpc.calls)
      ensures r.Ok? ==> |r.value| == nodeHeight - ancestor.0 && AllVerified(r.value)
      ensures r.Ok? ==> Contiguous(Some(ancestor), r.value)
      ensures r.Ok? ==>
                && rpc.calls == old(rpc.calls) + 5 * |r.value|
                && (r.value != [] ==>
                      rpc.answers.blockHash(rpc.calls - 5, nodeHeight) == Ok(BranchTip(ancestor, r.value)))
      ensures r.Ok? && Honest(rpc.answers, net) ==> GenuineAll(net, r.value)
      ensures Served(net, chain, old(rpc.calls), rpc.calls) && nodeHeight < |chain|
              && ancestor.1 == chain[ancestor.0] ==>
                r.Ok? && IsPartOf(r.value, chain, ancestor.0 + 1)
    {
      hide Nodes.Serves, Nodes.Honest, Contiguous, Verified, Genuine, EvidenceFits, FetchServed;
      ghost var first := rpc.calls;
      ghost var honest := Honest(rpc.answers, net);
      ghost var onChain := nodeHeight < |chain| && ancestor.1 == chain[ancestor.0];
      var height := StartAfter(Some(ancestor));
      var expectedPrevious := Some(ancestor.1);
      var replacement: seq<IndexedBlock> := [];
      StagedStart(ancestor);
      while height <= nodeHeight
        invariant ancestor.0 < height <= nodeHeight + 1
        invariant Staged(ancestor, replacement, height, expectedPrevious)
        invariant rpc.calls == first + 5 * |replacement|
        invariant replacement != [] ==>
                    rpc.answers.blockHash(rpc.calls - 5, height - 1) == Ok(BranchTip(ancestor, replacement))
        invariant honest ==> GenuineAll(net, replacement)
        invariant onChain && Served(net, chain, first, rpc.calls) ==>
                    IsPartOf(replacement, chain, ancestor.0 + 1)
        decreases nodeHeight + 1 - height
      {
        ServedSplits(net, chain, first, rpc.calls);
        var indexed :- FetchIndexedBlock(height, expectedPrevious, net, chain);
        StagedNext(ancestor, replacement, height, expectedPrevious, indexed);
        expectedPrevious := Some(indexed.block.hash);
        replacement := replacement + [indexed];
        height := height + 1;
      }
      return Ok(replacement);
    }

    lemma ForkPointFits(ancestor: (nat, Hash))
      requires Valid() && ForkPoint(db.canonical, Some(ancestor))
      ensures ancestor.0 <= I64_MAX
    {
      StateIsValid();
      assert SelectedAt(db.State(), ancestor.0);
    }

    // `branch` is what `chain` holds above `ancestor`, which the index selects.
    ghost predicate StagedChain(ancestor: (nat, Hash), branch: seq<IndexedBlock>, chain: seq<Hash>)
      reads db
    {
      && Agree(db.canonical, chain, ancestor.0) && ancestor.1 == chain[ancestor.0]
      && |branch| == |chain| - 1 - ancestor.0 && IsPartOf(branch, chain, ancestor.0 + 1)
    }

    // The node still answers with the tip and the ancestor it named before.
    method Recheck(nodeHeight: nat, nodeTipHash: Hash, ancestor: (nat, Hash))
      returns (r: Outcome<()>)
      modifies rpc
      ensures old(rpc.calls) <= rpc.calls <= old(rpc.calls) + 2
      ensures r.Ok? <==>
                && rpc.answers.blockHash(old(rpc.calls), nodeHeight) == Ok(nodeTipHash)
                && rpc.answers.blockHash(old(rpc.calls) + 1, ancestor.0) == Ok(ancestor.1)
      ensures r.Ok? ==> rpc.calls == old(rpc.calls) + 2
      ensures r.Err? && rpc.calls == old(rpc.calls) + 1 ==>
                rpc.answers.blockHash(old(rpc.calls), nodeHeight) != Ok(nodeTipHash)
      ensures r.Err? ==> rpc.calls > old(rpc.calls)
    {
      var tipNow :- rpc.BlockHash(nodeHeight);
      if tipNow != nodeTipHash {
        return Err(NotReady);
      }
      var ancestorNow :- rpc.BlockHash(ancestor.0);
      if ancestorNow != ancestor.1 {
        return Err(NotReady);
      }
      return Ok(());
    }

    // The last two calls confirmed the tip and the ancestor.
    ghost predicate Rechecked(nodeHeight: nat, nodeTipHash: Hash, ancestor: (nat, Hash))
      reads rpc
    {
      && rpc.calls >= 2
      && rpc.answers.blockHash(rpc.calls - 2, nodeHeight) == Ok(nodeTipHash)
      && rpc.answers.blockHash(rpc.calls - 1, ancestor.0) == Ok(ancestor.1)
    }

    // Staging on a fork point and the two rechecks after it.
    method StageOn(ancestor: (nat, Hash), nodeHeight: U64, nodeTipHash: Hash, ghost net: Universe,
                   ghost chain: seq<Hash>)
      returns (r: Outcome<seq<IndexedBlock>>)
      requires DistinctLabels(parents) && ancestor.0 <= nodeHeight && ancestor.0 <= I64_MAX
      modifies rpc
      ensures rpc.calls >= old(rpc.calls)
      ensures r.Ok? ==> |r.value| == nodeHeight - ancestor.0 && AllVerified(r.value)
      ensures r.Ok? ==> Contiguous(Some(ancestor), r.value) && Rechecked(nodeHeight, nodeTipHash, ancestor)
      ensures r.Ok? && r.value != [] ==>
                rpc.answers.blockHash(old(rpc.calls) + 5 * (|r.value| - 1), nodeHeight)
                == Ok(BranchTip(ancestor, r.value))
      ensures r.Ok? && Honest(rpc.answers, net) ==> GenuineAll(net, r.value)
      ensures Served(net, chain, old(rpc.calls), rpc.calls) && nodeHeight < |chain|
              && nodeTipHash == chain[nodeHeight] && ancestor.1 == chain[ancestor.0] ==>
                r.Ok? && IsPartOf(r.value, chain, ancestor.0 + 1)
    {
      hide Contiguous, AllVerified, GenuineAll, IsPartOf, Nodes.Honest, Nodes.Serves;
      ghost var first := rpc.calls;
      var replacement :- StageReplacement(ancestor, nodeHeight, net, chain);
      ServedSplits(net, chain, first, rpc.calls);
      if nodeHeight < |chain| {
        ServedHash(net, chain, first, rpc.calls, nodeHeight);
        ServedHash(net, chain, first, rpc.calls + 1, ancestor.0);
      }
      var _ :- Recheck(nodeHeight, nodeTipHash, ancestor);
      return Ok(replacement);
    }

    /** Search, staging and the two rechecks that follow it; no table changes. */
    method StageDivergence(tip: ChainTip, nodeHeight: U64, nodeTipHash: Hash, ghost net: Universe,
                           ghost chain: seq<Hash>)
      returns (r: Outcome<((nat, Hash), seq<IndexedBlock>)>)
      requires Valid()
      modifies rpc
      ensures rpc.calls >= old(rpc.calls)
      ensures r.Ok? ==>
                && ForkPoint(db.canonical, Some(r.value.0)) && r.value.0.0 <= Min(tip.height, nodeHeight)
                && |r.value.1| == nodeHeight - r.value.0.0
                && AllVerified(r.value.1) && Contiguous(Some(r.value.0), r.value.1)
      ensures r.Ok? ==> Rechecked(nodeHeight, nodeTipHash, r.value.0)
      ensures r.Ok? ==>
                rpc.answers.blockHash(BranchCall(old(rpc.calls), tip, nodeHeight, r.value.0.0), nodeHeight)
                == Ok(BranchTip(r.value.0, r.value.1))
      ensures r.Ok? && Honest(rpc.answers, net) ==> GenuineAll(net, r.value.1)
      ensures Served(net, chain, old(rpc.calls), rpc.calls) && nodeHeight == |chain| - 1
              && nodeTipHash == chain[nodeHeight] ==>
                && (r.Ok? <==> InReach(db.canonical, Min(tip.height, nodeHeight), chain, maxReorgDepth))
                && (r.Ok? ==> StagedChain(r.value.0, r.value.1, chain))
    {
      hide Contiguous, AllVerified, GenuineAll, IsPartOf, Nodes.Honest, Nodes.Serves, Protocol.Execute;
      ghost var first := rpc.calls;
      var found :- FindCommonAncestor(tip, nodeHeight, net, chain);
      var ancestor := found.value;
      ForkPointFits(ancestor);
      ServedSplits(net, chain, first, rpc.calls);
      var replacement :- StageOn(ancestor, nodeHeight, nodeTipHash, net, chain);
      return Ok((ancestor, replacement));
    }

    lemma PublishFacts(tip: ChainTip, ancestor: (nat, Hash), branch: seq<IndexedBlock>,
                       net: Universe, chain: seq<Hash>)
      requires Valid() && ForkPoint(db.canonical, Some(ancestor))
      ensures var t := ReplaceBranch(db.State(), tip, Some(ancestor), branch);
              && (t.Some? ==>
                    && t.value.chainState.indexedHeight == Some(ancestor.0 + |branch|)
                    && t.value.chainState.indexedHash == Some(BranchTip(ancestor, branch))
                    && t.value.reorgEvents == db.reorgEvents + [EventOf(tip, Some(ancestor))])
              && (GenuineSoFar(net) && GenuineAll(net, branch) && TipLocked(db.chainState, tip) ==>
                    Contiguous(Some(ancestor), branch) ==> t.Some?)
              && (t.Some? && GenuineSoFar(net) && Linked(net, chain) ==>
                    StagedChain(ancestor, branch, chain) ==> Mirrors(t.value.canonical, chain))
    {
      var s := db.State();
      StateIsValid();
      if GenuineSoFar(net) {
        StateIsCoherent(net);
        if GenuineAll(net, branch) {
          InsertAllGenuine(s, net, branch);
          ReplacementExact(s, tip, Some(ancestor), branch);
        }
      }
      var r := ReplaceBranch(s, tip, Some(ancestor), branch);
      if r.Some? {
        ReplacementTip(s, tip, ancestor, branch, r.value);
        if GenuineSoFar(net) && Linked(net, chain) && StagedChain(ancestor, branch, chain) {
          ReplacementMirrors(s, net, tip, ancestor, branch, chain, r.value);
        }
      }
    }

    method PublishReplacement(tip: ChainTip, ancestor: (nat, Hash), branch: seq<IndexedBlock>,
                              ghost net: Universe, ghost chain: seq<Hash>)
      returns (r: Outcome<()>)
      requires Valid() && ForkPoint(db.canonical, Some(ancestor)) && AllVerified(branch)
      modifies db, this`log
      ensures Valid()
      ensures log == old(log) + (if r.Ok? then [Replace(tip, Some(ancestor), branch)] else [])
      ensures r.Err? ==> db.State() == old(db.State())
      ensures r.Ok? ==>
                && IsTipHeight(ancestor.0 + |branch|)
                && db.chainState.indexedHash == Some(BranchTip(ancestor, branch))
                && db.reorgEvents == old(db.reorgEvents) + [EventOf(tip, Some(ancestor))]
      ensures old(GenuineLog(net, log)) && GenuineAll(net, branch) ==> GenuineLog(net, log)
      ensures old(GenuineSoFar(net)) && GenuineAll(net, branch) && TipLocked(old(db.chainState), tip) ==>
                Contiguous(Some(ancestor), branch) ==> r.Ok?
      ensures r.Ok? && old(GenuineSoFar(net)) && Linked(net, chain) ==>
                old(StagedChain(ancestor, branch, chain)) ==> Mirrors(db.canonical, chain)
    {
      hide Universes.Coherent, Universes.WellFormed, Mirrors, Linked, Contiguous, IsPartOf;
      hide GenuineAll, AllVerified, TipLocked, StagedChain, ForkPoint;
      ghost var before := db.State();
      PublishFacts(tip, ancestor, branch, net, chain);
      r := db.ReplaceCanonicalBranch(tip, Some(ancestor), branch);
      if r.Ok? {
        Record(before, Replace(tip, Some(ancestor), branch));
      }
    }

    // The tip of `chain`, as a pass has read it.
    ghost predicate AtTip(chain: seq<Hash>, nodeHeight: nat, nodeTipHash: Hash) {
      nodeHeight == |chain| - 1 && nodeTipHash == chain[nodeHeight]
    }

    lemma TipIsLocked(tip: ChainTip)
      requires Valid() && TipOf(db.canonical, Some(tip))
      ensures TipLocked(db.chainState, tip)
    {
      StateIsValid();
      TipIsRecorded(db.State(), tip.height, tip.hash);
    }

    // Entry `n` replaced the branch of `tip` on an ancestor that was rechecked.
    ghost predicate ReplacedSince(n: nat, tip: ChainTip, nodeHeight: nat, nodeTipHash: Hash,
                                  outcome: (nat, nat))
      reads this, rpc
    {
      && |log| == n + 1 && log[n].Replace? && log[n].tip == tip && log[n].ancestor.Some?
      && |log[n].branch| == outcome.0 && log[n].ancestor.value.0 + outcome.1 == tip.height
      && Rechecked(nodeHeight, nodeTipHash, log[n].ancestor.value)
    }

    /** The divergent case. A failure changes nothing; against a served chain it
        fails exactly when no examined height agrees. */
    method ReplaceDivergent(tip: ChainTip, nodeHeight: U64, nodeTipHash: Hash, ghost net: Universe,
                            ghost chain: seq<Hash>)
      returns (r: Outcome<(nat, nat)>)
      requires Valid() && TipOf(db.canonical, Some(tip))
      modifies db, rpc, this`log
      ensures Valid() && old(log) <= log && (r.Err? ==> log == old(log))
      ensures rpc.calls >= old(rpc.calls)
      ensures r.Ok? ==> ReplacedSince(|old(log)|, tip, nodeHeight, nodeTipHash, r.value)
      ensures r.Ok? ==> AdvancedSince(log, |old(log)|, r.value.0, r.value.1) && IsTipHeight(nodeHeight)
      ensures r.Err? ==> db.State() == old(db.State())
      ensures r.Ok? ==>
                && r.value.1 <= tip.height && r.value.0 + (tip.height - r.value.1) == nodeHeight
                && tip.height - r.value.1 <= Min(tip.height, nodeHeight)
                && NamedBy(nodeHeight, BranchCall(old(rpc.calls), tip, nodeHeight, tip.height - r.value.1))
      ensures Honest(rpc.answers, net) && old(GenuineLog(net, log)) ==> GenuineLog(net, log)
      ensures Served(net, chain, old(rpc.calls), rpc.calls) && AtTip(chain, nodeHeight, nodeTipHash)
              && old(GenuineSoFar(net)) ==>
                && (r.Ok? <==> old(InReach(db.canonical, Min(tip.height, nodeHeight), chain, maxReorgDepth)))
                && (r.Ok? ==> Mirrors(db.canonical, chain))
    {
      hide Protocol.Execute, Nodes.Serves, Nodes.Honest, Universes.Coherent, Universes.WellFormed;
      hide GenuineLog, GenuineAll, Mirrors, InReach, Contiguous, AllVerified, Linked;
      hide BranchCall, StagedChain, TipLocked, TipOf, ForkPoint, BranchTip, EventOf;
      TipIsLocked(tip);
      ghost var first := rpc.calls;
      var staged :- StageDivergence(tip, nodeHeight, nodeTipHash, net, chain);
      if Served(net, chain, first, rpc.calls) {
        ServedFacts(net, chain, first, rpc.calls);
      }
      var (ancestor, replacement) := staged;
      var published := PublishReplacement(tip, ancestor, replacement, net, chain);
      if published.Err? {
        return Err(published.error);
      }
      return Ok((|replacement|, tip.height - ancestor.0));
    }

    lemma FullyAppended(chain: seq<Hash>)
      requires Valid() && chain != [] && AgreesBelow(db.canonical, chain, |chain|)
      requires IsTipHeight(|chain| - 1)
      ensures Mirrors(db.canonical, chain)
    {
      StateIsValid();
    }

    ghost predicate StillOnNode(tip: ChainTip, nodeHeight: nat, at: nat) {
      tip.height <= nodeHeight && rpc.answers.blockHash(at, tip.height) == Ok(tip.hash)
    }

    // The first comparison of a pass: does the node still have the stored tip?
    method TipMatches(tip: ChainTip, nodeHeight: nat, ghost net: Universe, ghost chain: seq<Hash>)
      returns (r: Outcome<bool>)
      modifies rpc
      ensures rpc.calls == old(rpc.calls) + if tip.height <= nodeHeight then 1 else 0
      ensures r.Ok? ==> (r.value <==> StillOnNode(tip, nodeHeight, old(rpc.calls)))
      ensures Served(net, chain, old(rpc.calls), rpc.calls) && nodeHeight < |chain| ==>
                r == Ok(tip.height <= nodeHeight && tip.hash == chain[tip.height])
    {
      if tip.height > nodeHeight {
        return Ok(false);
      }
      if nodeHeight < |chain| {
        ServedHash(net, chain, rpc.calls, rpc.calls, tip.height);
      }
      var nodeHash :- rpc.BlockHash(tip.height);
      return Ok(nodeHash == tip.hash);
    }

    // The node no longer has the stored tip, as its answer to call `at` says.
    ghost predicate Diverges(tip: Option<ChainTip>, nodeHeight: nat, at: nat) {
      tip.Some? && !StillOnNode(tip.value, nodeHeight, at)
    }

    lemma TipNamed(tip: ChainTip, at: nat)
      requires Valid() && TipOf(db.canonical, Some(tip)) && StillOnNode(tip, tip.height, at)
      ensures NamedBy(tip.height, at)
    {
      TipIsLocked(tip);
    }

    // The pass of an index whose tip, if any, call `at` found on the node.
    method Extend(tip: Option<ChainTip>, nodeHeight: nat, ghost at: int, ghost net: Universe,
                  ghost chain: seq<Hash>)
      returns (r: Outcome<nat>)
      requires Valid() && TipOf(db.canonical, tip)
      requires tip.Some? ==> at >= 0 && StillOnNode(tip.value, nodeHeight, at)
      modifies db, rpc, this`log
      ensures Valid() && old(log) <= log && CommitsSince(log, |old(log)|)
      ensures rpc.calls >= old(rpc.calls)
      ensures r.Ok? ==> AdvancedSince(log, |old(log)|, r.value, 0) && IsTipHeight(nodeHeight)
      ensures r.Ok? ==> NamedBy(nodeHeight, if r.value == 0 then at else old(rpc.calls) + 5 * (r.value - 1))
      ensures db.reorgEvents == old(db.reorgEvents)
      ensures r.Ok? && tip.Some? && tip.value.height == nodeHeight ==>
                r.value == 0 && db.State() == old(db.State())
      ensures Honest(rpc.answers, net) && old(GenuineLog(net, log)) ==> GenuineLog(net, log)
      ensures old(Converging(net, chain, tip)) && nodeHeight == |chain| - 1 ==>
                Served(net, chain, old(rpc.calls), rpc.calls) ==> r.Ok? && Mirrors(db.canonical, chain)
    {
      hide Protocol.Execute, Nodes.Serves, Nodes.Honest, Universes.Coherent, Universes.WellFormed;
      hide GenuineLog, Mirrors, Linked, AgreesBelow, Converging;
      if tip.Some? && tip.value.height == nodeHeight {
        TipNamed(tip.value, at);
      }
      r := AppendBlocks(tip, nodeHeight, net, chain);
      if r.Ok? && nodeHeight == |chain| - 1 && AgreesBelow(db.canonical, chain, |chain|) {
        FullyAppended(chain);
      }
    }

    // The comparison that decides between the two kinds of pass.
    method Compare(tip: Option<ChainTip>, nodeHeight: nat, ghost net: Universe, ghost chain: seq<Hash>)
      returns (r: Outcome<bool>)
      requires Valid() && TipOf(db.canonical, tip)
      modifies rpc
      ensures rpc.calls == old(rpc.calls) + if tip.Some? && tip.value.height <= nodeHeight then 1 else 0
      ensures r.Ok? ==> (r.value <==> Diverges(tip, nodeHeight, old(rpc.calls)))
      ensures Served(net, chain, old(rpc.calls), rpc.calls) && nodeHeight == |chain| - 1 ==>
                && r.Ok?
                && (r.value ==> !Mirrors(db.canonical, chain))
                && (!r.value ==> ForkInReach(db.canonical, chain, maxReorgDepth))
                && (!r.value && tip.Some? ==> Agree(db.canonical, chain, tip.value.height))
    {
      hide Nodes.Serves, Mirrors, ForkInReach, InReach;
      if nodeHeight == |chain| - 1 {
        ForkInReachAt(db.canonical, tip, chain, maxReorgDepth);
        if Mirrors(db.canonical, chain) {
          MirroredTip(db.canonical, chain, tip);
        }
        if tip.Some? && Agree(db.canonical, chain, tip.value.height) {
          TipInReach(db.canonical, tip.value.height, chain, maxReorgDepth);
        }
      }
      if tip.None? {
        return Ok(false);
      }
      var matches_ :- TipMatches(tip.value, nodeHeight, net, chain);
      return Ok(!matches_);
    }

    /** Extends the tip, or replaces the branch when the node disagrees with it. */
    method Advance(tip: Option<ChainTip>, nodeHeight: U64, nodeTipHash: Hash, ghost net: Universe,
                   ghost chain: seq<Hash>)
      returns (r: Outcome<(nat, nat)>)
      requires Valid() && TipOf(db.canonical, tip)
      modifies db, rpc, this`log
      ensures Valid() && old(log) <= log
      ensures rpc.calls >= old(rpc.calls)
      ensures r.Ok? ==> AdvancedSince(log, |old(log)|, r.value.0, r.value.1)
      ensures r.Ok? ==>
                if Diverges(tip, nodeHeight, old(rpc.calls)) then
                  ReplacedSince(|old(log)|, tip.value, nodeHeight, nodeTipHash, r.value)
                else CommitsSince(log, |old(log)|)
      ensures r.Ok? ==> IsTipHeight(nodeHeight)
      ensures r.Ok? ==>
                NamedBy(nodeHeight, NamingCall(old(rpc.calls), tip, nodeHeight,
                                               Diverges(tip, nodeHeight, old(rpc.calls)),
                                               r.value.0, r.value.1))
      ensures Honest(rpc.answers, net) && old(GenuineLog(net, log)) ==> GenuineLog(net, log)
      ensures Served(net, chain, old(rpc.calls), rpc.calls) && AtTip(chain, nodeHeight, nodeTipHash)
              && old(GenuineSoFar(net)) ==>
                && (r.Ok? <==> old(ForkInReach(db.canonical, chain, maxReorgDepth)))
                && (r.Ok? ==> Mirrors(db.canonical, chain))
                && (r.Err? ==> db.State() == old(db.State()))
                && (old(Mirrors(db.canonical, chain)) ==>
                      && r == Ok((0, 0))
                      && db.canonical == old(db.canonical) && db.reorgEvents == old(db.reorgEvents))
    {
      hide Protocol.Execute, Nodes.Serves, Nodes.Honest, Universes.Coherent, Universes.WellFormed;
      hide GenuineLog, Mirrors, ForkInReach, InReach, Linked, AgreesBelow;
      hide NamingCall, IsTipHeight, NamedBy, AdvancedSince, CommitsSince, ReplacedSince;
      ghost var first := rpc.calls;
      var diverges :- Compare(tip, nodeHeight, net, chain);
      ServedSplits(net, chain, first, rpc.calls);
      if diverges {
        if nodeHeight == |chain| - 1 {
          ForkInReachAt(db.canonical, tip, chain, maxReorgDepth);
        }
        r := ReplaceDivergent(tip.value, nodeHeight, nodeTipHash, net, chain);
        if r.Ok? {
          NamingOfBranch(first, tip.value, nodeHeight, r.value.0, r.value.1);
        }
        return;
      }
      if Served(net, chain, first, rpc.calls) {
        ServedFacts(net, chain, first, rpc.calls);
      }
      if nodeHeight == |chain| - 1 && Mirrors(db.canonical, chain) {
        MirroredTip(db.canonical, chain, tip);
      }
      var indexed :- Extend(tip, nodeHeight, rpc.calls - 1, net, chain);
      NamingOfAppend(first, tip, nodeHeight, indexed);
      return Ok((indexed, 0));
    }

    // ---- evidence refresh ----

    lemma RefreshFacts(b: IndexedBlock, net: Universe)
      requires Valid()
      ensures InsertBlock(db.State(), b).Some? ==> SameSelection(db.State(), InsertBlock(db.State(), b).value)
      ensures GenuineSoFar(net) && Genuine(net, b.block) && EvidenceFits(b.auxpow) ==>
                InsertBlock(db.State(), b).Some?
    {
      if GenuineSoFar(net) && Genuine(net, b.block) && EvidenceFits(b.auxpow) {
        StateIsCoherent(net);
        InsertGenuine(db.State(), net, b);
      }
      if InsertBlock(db.State(), b).Some? {
        InsertBlockGrows(db.State(), b, InsertBlock(db.State(), b).value);
      }
    }

    method StoreRefreshed(b: IndexedBlock, ghost net: Universe) returns (r: Outcome<()>)
      requires Valid() && Verified(b)
      modifies db, this`log
      ensures r.Ok? ==> EvidenceWritten(old(db.links), db.links, old(db.observations), db.observations, b)
      ensures Valid() && log == old(log) + (if r.Ok? then [Refresh(b)] else [])
      ensures db.canonical == old(db.canonical) && db.chainState == old(db.chainState)
      ensures db.reorgEvents == old(db.reorgEvents)
      ensures old(GenuineLog(net, log)) && Genuine(net, b.block) && EvidenceFits(b.auxpow) ==>
                GenuineLog(net, log)
      ensures old(GenuineSoFar(net)) && Genuine(net, b.block) && EvidenceFits(b.auxpow) ==> r.Ok?
    {
      ghost var before := db.State();
      RefreshFacts(b, net);
      r := db.RefreshBlockEvidence(b);
      if r.Ok? {
        Record(before, Refresh(b));
      }
    }

    // No recent proof has stale evidence.
    ghost predicate NothingStale(now: int)
      reads db
    {
      forall t, h, hash :: IsTip(db.canonical, t, hash) ==> !Refreshable(db.State(), t, refreshDepth, now, h)
    }

    // `b` was fetched for height `h`, and if it is the block selected there, its
    // proof now has the time and the answers of this verification.
    ghost predicate RefreshedAt(b: IndexedBlock, now: int, h: nat)
      reads db
    {
      && h in db.canonical && h > 0 && b.block.height == h && b.auxpow.Some?
      && b.Key() in db.links && db.links[b.Key()].verifiedAt == b.fetchedAt
      && b.Key() in db.observations && RowsShow(db.observations[b.Key()], b.auxpow.value.observations)
      && (b.Key() == db.canonical[h] && b.fetchedAt >= now - 30 ==>
            forall tip: nat :: !Refreshable(db.State(), tip, refreshDepth, now, h))
    }

    // The height whose evidence is refreshed and the block the node has below it.
    method RefreshTarget(ghost net: Universe, ghost chain: seq<Hash>)
      returns (r: Outcome<Option<(nat, Option<Hash>)>>)
      modifies rpc
      ensures rpc.calls >= old(rpc.calls)
      ensures r.Ok? && r.value.Some? ==>
                Candidate(db.State(), refreshDepth, rpc.answers.clock(old(rpc.calls)), r.value.value.0)
      ensures r.Ok? && r.value.None? ==> NothingStale(rpc.answers.clock(old(rpc.calls)))
      ensures Served(net, chain, old(rpc.calls), rpc.calls) && Mirrors(db.canonical, chain) ==>
                refreshDepth <= I64_MAX ==>
                && r.Ok?
                && (r.value.Some? && r.value.value.0 > 0 ==>
                      && r.value.value.0 < |chain|
                      && r.value.value.1 == Some(chain[r.value.value.0 - 1]))
    {
      var candidate :- db.EvidenceRefreshCandidate(refreshDepth, rpc.answers.clock(rpc.calls));
      if candidate.None? {
        return Ok(None);
      }
      var height := candidate.value;
      var expectedPrevious := None;
      if height > 0 {
        if height - 1 < |chain| {
          ServedHash(net, chain, rpc.calls, rpc.calls, height - 1);
        }
        var previous :- rpc.BlockHash(height - 1);
        expectedPrevious := Some(previous);
      }
      return Ok(Some((height, expectedPrevious)));
    }

    /** Verifies the candidate again, if there is one, and stores its evidence; no
        selector, status or reorg event changes. */
    method RefreshEvidence(ghost net: Universe, ghost chain: seq<Hash>) returns (r: Outcome<()>)
      requires Valid()
      modifies db, rpc, this`log
      ensures Valid() && old(log) <= log && |log| <= |old(log)| + 1
      ensures |log| > |old(log)| ==> log[|old(log)|].Refresh?
      ensures rpc.calls >= old(rpc.calls)
      ensures r.Ok? && log == old(log) ==> old(NothingStale(rpc.answers.clock(rpc.calls)))
      ensures r.Ok? && log != old(log) ==> exists h ::
                && old(Candidate(db.State(), refreshDepth, rpc.answers.clock(rpc.calls), h))
                && RefreshedAt(log[|old(log)|].block, rpc.answers.clock(old(rpc.calls)), h)
      ensures db.canonical == old(db.canonical) && db.chainState == old(db.chainState)
      ensures db.reorgEvents == old(db.reorgEvents)
      ensures Honest(rpc.answers, net) && old(GenuineLog(net, log)) ==> GenuineLog(net, log)
      ensures Served(net, chain, old(rpc.calls), rpc.calls) && old(GenuineSoFar(net)) ==>
                old(Mirrors(db.canonical, chain)) && refreshDepth <= I64_MAX ==> r.Ok?
    {
      hide Protocol.Execute, Nodes.Serves, Universes.Coherent, Universes.WellFormed, Nodes.Honest;
      hide FetchServed, Verified;
      ghost var first := rpc.calls;
      var target :- RefreshTarget(net, chain);
      if target.None? {
        return Ok(());
      }
      var (height, previous) := target.value;
      ServedSplits(net, chain, first, rpc.calls);
      var refreshed :- FetchIndexedBlock(height, previous, net, chain);
      if Served(net, chain, first, rpc.calls) {
        ServedFacts(net, chain, first, rpc.calls);
      }
      r := StoreRefreshed(refreshed, net);
    }

    // ---- the pass ----

    // The three calls from `at` on named this tip, on the configured network.
    ghost predicate Identified(height: U64, hash: Hash, at: nat) {
      && rpc.answers.info(at) == Ok(Info(ExpectedChain(network.id), height))
      && rpc.answers.blockHash(at + 1, height) == Ok(hash)
      && rpc.answers.blockHash(at + 2, 0) == Ok(network.genesis)
    }

    // Reads the node's tip and checks its identity.
    method ReadNodeTip(ghost net: Universe, ghost chain: seq<Hash>)
      returns (r: Outcome<(U64, Hash)>)
      modifies rpc
      ensures rpc.calls >= old(rpc.calls) && (r.Ok? ==> rpc.calls == old(rpc.calls) + 3)
      ensures r.Ok? ==> Identified(r.value.0, r.value.1, old(rpc.calls))
      ensures Served(net, chain, old(rpc.calls), rpc.calls) ==>
                r == Ok((|chain| - 1, chain[|chain| - 1]))
    {
      if chain != [] {
        ServedHash(net, chain, rpc.calls, rpc.calls + 1, |chain| - 1);
        ServedHash(net, chain, rpc.calls, rpc.calls + 2, 0);
      }
      var info :- rpc.BlockchainInfo();
      var nodeTipHash :- rpc.BlockHash(info.blocks);
      var _ :- ValidateIdentity(info.chain);
      return Ok((info.blocks, nodeTipHash));
    }

    // Records the tip the node names.
    method RecordNodeTip(height: nat, hash: Hash) returns (r: Outcome<()>)
      requires Valid()
      modifies db`chainState, this`log
      ensures Valid() && log == old(log) + (if r.Ok? then [Observe(height, hash)] else [])
      ensures forall net :: old(GenuineLog(net, log)) ==> GenuineLog(net, log)
      ensures r.Ok? <==> height <= I64_MAX
      ensures r.Ok? ==> TipObserved(old(db.chainState), db.chainState, height, hash)
      ensures r.Err? ==> db.chainState == old(db.chainState)
    {
      ghost var before := db.State();
      r := db.ObserveNodeTip(height, hash);
      if r.Ok? {
        Record(before, Observe(height, hash));
      }
    }

    /** Reads where the node and the index are and records the node's tip; no other
        column or table changes. */
    method OpenPass(ghost net: Universe, ghost chain: seq<Hash>) returns (r: Outcome<Snapshot>)
      requires Valid()
      modifies db`chainState, rpc, this`log
      ensures Valid()
      ensures log == old(log) + (if r.Ok? then [Observe(r.value.height, r.value.hash)] else [])
      ensures rpc.calls >= old(rpc.calls) && (r.Ok? ==> rpc.calls == old(rpc.calls) + 3)
      ensures r.Ok? ==> Identified(r.value.height, r.value.hash, old(rpc.calls))
      ensures r.Ok? ==> TipOf(db.canonical, r.value.tip)
      ensures r.Ok? ==> TipObserved(old(db.chainState), db.chainState, r.value.height, r.value.hash)
      ensures r.Err? ==> db.chainState == old(db.chainState)
      ensures old(GenuineLog(net, log)) ==> GenuineLog(net, log)
      ensures Served(net, chain, old(rpc.calls), rpc.calls) ==>
                r.Ok? && AtTip(chain, r.value.height, r.value.hash)
    {
      var nodeTip :- ReadNodeTip(net, chain);
      var tip := db.CanonicalTip();
      var observed := RecordNodeTip(nodeTip.0, nodeTip.1);
      if observed.Err? {
        return Err(observed.error);
      }
      return Ok(Snapshot(nodeTip.0, nodeTip.1, tip));
    }

    lemma TipFits(height: nat)
      requires Valid() && IsTipHeight(height)
      ensures height <= I64_MAX && db.canonical != map[]
      ensures forall hash, h :: IsTip(db.canonical, h, hash) ==> h == height
    {
      StateIsValid();
      assert SelectedAt(db.State(), height);
    }

    // The status a pass ends with. Having reached the node's height it is `ready`.
    method ClosePass(height: nat, hash: Hash, indexed: nat, depth: nat) returns (r: Outcome<SyncOutcome>)
      requires Valid() && IsTipHeight(height)
      modifies db`chainState, this`log
      ensures Valid() && log == old(log) + [Finish(height, hash, Ready)]
      ensures r == Ok(SyncOutcome(indexed, height, height, depth))
      ensures db.chainState == old(db.chainState).(nodeHeight := Some(height), nodeHash := Some(hash),
                                                   status := Ready, lastError := None)
      ensures forall net :: old(GenuineLog(net, log)) ==> GenuineLog(net, log)
    {
      TipFits(height);
      var finalTip := db.CanonicalTip();
      var finalHeight := if finalTip.Some? then finalTip.value.height else 0;
      var status := if finalHeight == height then Ready else Syncing;
      ghost var before := db.State();
      var updated := db.UpdateNodeTip(height, hash, status);
      Record(before, Finish(height, hash, status));
      return Ok(SyncOutcome(indexed, finalHeight, height, depth));
    }

    // The index is ready, on the tip the node was last seen with.
    ghost predicate ReadyAt(height: nat)
      reads db
    {
      && db.chainState.status == Ready
      && db.chainState.indexedHeight == Some(height) && db.chainState.nodeHeight == Some(height)
    }

    // Where the block a pass ends on was named, if its work started with call `first`.
    ghost predicate TipNamedFor(tip: Option<ChainTip>, first: nat, o: SyncOutcome)
      reads db
    {
      NamedBy(o.nodeHeight, NamingCall(first, tip, o.nodeHeight, Diverges(tip, o.nodeHeight, first),
                                       o.indexedBlocks, o.reorgDepth))
    }

    // What follows the advance: the refresh and the status.
    method RefreshAndClose(height: nat, hash: Hash, indexed: nat, depth: nat, ghost net: Universe,
                           ghost chain: seq<Hash>)
      returns (r: Outcome<SyncOutcome>)
      requires Valid() && IsTipHeight(height)
      modifies db, rpc, this`log
      ensures Valid() && old(log) <= log
      ensures rpc.calls >= old(rpc.calls)
      ensures r.Ok? ==> r.value == SyncOutcome(indexed, height, height, depth)
      ensures r.Ok? ==> ClosedSince(log, |old(log)|, height, hash)
      ensures db.canonical == old(db.canonical) && db.reorgEvents == old(db.reorgEvents)
      ensures r.Ok? ==> ReadyAt(height) && db.chainState.nodeHash == Some(hash)
      ensures db.chainState.indexedHeight == old(db.chainState.indexedHeight)
      ensures db.chainState.indexedHash == old(db.chainState.indexedHash)
      ensures Honest(rpc.answers, net) && old(GenuineLog(net, log)) ==> GenuineLog(net, log)
      ensures Served(net, chain, old(rpc.calls), rpc.calls) && old(GenuineSoFar(net)) ==>
                old(Mirrors(db.canonical, chain)) && refreshDepth <= I64_MAX ==> r.Ok?
    {
      hide Protocol.Execute, Nodes.Serves, Nodes.Honest, Universes.Coherent, Universes.WellFormed;
      hide GenuineLog, Mirrors, NothingStale;
      var _ :- RefreshEvidence(net, chain);
      r := ClosePass(height, hash, indexed, depth);
    }

    // The pass from the moment it knows where the node is.
    method WorkOn(start: Snapshot, ghost net: Universe, ghost chain: seq<Hash>)
      returns (r: Outcome<SyncOutcome>)
      requires Valid() && TipOf(db.canonical, start.tip)
      modifies db, rpc, this`log
      ensures Valid() && old(log) <= log
      ensures rpc.calls >= old(rpc.calls)
      ensures r.Ok? ==> exists m :: WorkedSince(log, |old(log)|, m, start.height, start.hash,
                                                r.value.indexedBlocks, r.value.reorgDepth)
      ensures r.Ok? ==> ReadyAt(start.height) && db.chainState.nodeHash == Some(start.hash)
      ensures r.Ok? ==> r.value.indexedHeight == r.value.nodeHeight == start.height
      ensures r.Ok? ==> TipNamedFor(start.tip, old(rpc.calls), r.value)
      ensures Honest(rpc.answers, net) && old(GenuineLog(net, log)) ==> GenuineLog(net, log)
      ensures Served(net, chain, old(rpc.calls), rpc.calls) && AtTip(chain, start.height, start.hash)
              && old(GenuineSoFar(net)) && refreshDepth <= I64_MAX ==>
                && (r.Ok? <==> old(ForkInReach(db.canonical, chain, maxReorgDepth)))
                && (r.Ok? ==> Mirrors(db.canonical, chain))
                && (r.Err? ==> db.canonical == old(db.canonical))
                && (r.Ok? && old(Mirrors(db.canonical, chain)) ==>
                      && r.value.indexedBlocks == 0 && r.value.reorgDepth == 0
                      && db.canonical == old(db.canonical) && db.reorgEvents == old(db.reorgEvents))
    {
      hide Protocol.Execute, Nodes.Serves, Nodes.Honest, Universes.Coherent, Universes.WellFormed;
      hide GenuineLog, Mirrors, ForkInReach, AdvancedSince, WorkedSince, CommitsSince, NamingCall;
      hide Diverges, ReplacedSince, Linked, ClosedSince;
      ghost var first := rpc.calls;
      var advanced :- Advance(start.tip, start.height, start.hash, net, chain);
      ghost var advance := log;
      if Served(net, chain, first, rpc.calls) {
        ServedFacts(net, chain, first, rpc.calls);
      }
      ServedSplits(net, chain, first, rpc.calls);
      r := RefreshAndClose(start.height, start.hash, advanced.0, advanced.1, net, chain);
      if r.Ok? {
        WorkTrace(old(log), advance, log, start.height, start.hash, advanced.0, advanced.1);
      }
    }

    // An index that is the chain is within reach of it.
    lemma MirrorInReach(chain: seq<Hash>)
      requires Mirrors(db.canonical, chain) && chain != []
      ensures ForkInReach(db.canonical, chain, maxReorgDepth)
    {
      var c, top := db.canonical, |chain| - 1;
      assert Agree(c, chain, top);
      assert SearchHits(c, top, chain, maxReorgDepth, top);
      assert forall height, hash :: IsTip(c, height, hash) ==> height == top;
    }

    /** When a successful pass ends on the node's own tip: the recorded hashes are
        equal exactly when the call that named the block it ends on got the same
        answer as the second call of the pass, which first named the node's tip. */
    ghost predicate EqualHashes(tip: Option<ChainTip>, first: nat, o: SyncOutcome)
      reads db
    {
      var at := NamingCall(first + 3, tip, o.nodeHeight, Diverges(tip, o.nodeHeight, first + 3),
                           o.indexedBlocks, o.reorgDepth);
      && at >= 0
      && (db.chainState.indexedHash == db.chainState.nodeHash <==>
            rpc.answers.blockHash(at, o.nodeHeight) == rpc.answers.blockHash(first + 1, o.nodeHeight))
    }

    lemma EndsNamed(start: Snapshot, first: nat, o: SyncOutcome)
      requires Identified(start.height, start.hash, first) && o.nodeHeight == start.height
      requires TipNamedFor(start.tip, first + 3, o) && db.chainState.nodeHash == Some(start.hash)
      ensures EqualHashes(start.tip, first, o)
    {
    }

    /** One synchronization pass. A successful one ends ready, at the node's
        height. Against a node that serves one chain on the calls of this pass it
        succeeds exactly when the fork lies within the bound, and then the index is
        that chain; otherwise the selection stays. From an index that already is the
        chain it indexes nothing and changes no selector. */
    method SyncOnce(ghost net: Universe, ghost chain: seq<Hash>) returns (r: Outcome<SyncOutcome>)
      requires Valid()
      modifies db, rpc, this`log
      ensures Valid() && old(log) <= log
      ensures rpc.calls >= old(rpc.calls)
      ensures r.Ok? ==> PassSince(log, |old(log)|, r.value)
      ensures r.Ok? ==> ReadyAt(r.value.nodeHeight) && r.value.indexedHeight == r.value.nodeHeight
      ensures r.Ok? ==> exists tip :: TipOf(old(db.canonical), tip)
                                      && EqualHashes(tip, old(rpc.calls), r.value)
      ensures Honest(rpc.answers, net) && old(GenuineLog(net, log)) ==> GenuineLog(net, log)
      ensures Served(net, chain, old(rpc.calls), rpc.calls) && old(GenuineSoFar(net)) ==>
                refreshDepth <= I64_MAX ==>
                && (r.Ok? <==> old(ForkInReach(db.canonical, chain, maxReorgDepth)))
                && (r.Ok? ==> Mirrors(db.canonical, chain) && ReadyAt(|chain| - 1)
                              && db.chainState.nodeHash == Some(chain[|chain| - 1]))
                && (r.Err? ==> db.canonical == old(db.canonical))
                && (old(Mirrors(db.canonical, chain)) ==>
                      && r.Ok? && r.value.indexedBlocks == 0 && r.value.reorgDepth == 0
                      && db.canonical == old(db.canonical) && db.reorgEvents == old(db.reorgEvents))
    {
      hide Protocol.Execute, Nodes.Serves, Nodes.Honest, Universes.Coherent, Universes.WellFormed;
      hide GenuineLog, Mirrors, ForkInReach, WorkedSince, PassSince, Linked;
      hide EqualHashes, TipNamedFor, Identified, TipOf, TipObserved, Follows;
      ghost var first, n := rpc.calls, |log|;
      if chain != [] && Mirrors(db.canonical, chain) {
        MirrorInReach(chain);
      }
      ServedSplits(net, chain, first, first);
      var start :- OpenPass(net, chain);
      ghost var observed := |log|;
      if Served(net, chain, first, rpc.calls) {
        ServedFacts(net, chain, first, rpc.calls);
      }
      ServedSplits(net, chain, first, rpc.calls);
      r := WorkOn(start, net, chain);
      assert observed == n + 1 && log[n] == Observe(start.height, start.hash);
      if r.Ok? {
        PassTrace(log, n, start.height, start.hash, r.value);
        EndsNamed(start, first, r.value);
      }
    }

    /** A tick of the run loop: a failed pass leaves its error as the status. */
    method Tick(ghost net: Universe, ghost chain: seq<Hash>) returns (r: Outcome<SyncOutcome>)
      requires Valid()
      modifies db, rpc, this`log
      ensures Valid() && old(log) <= log
      ensures rpc.calls >= old(rpc.calls)
      ensures r.Ok? ==> ReadyAt(r.value.nodeHeight)
      ensures r.Err? ==> db.chainState.status == Failed
                         && db.chainState.lastError == Some(Describe(r.error))
      ensures r.Err? ==> old(log) < log && log[|log| - 1] == MarkFailed(Describe(r.error))
      ensures Honest(rpc.answers, net) && old(GenuineLog(net, log)) ==> GenuineLog(net, log)
      ensures Served(net, chain, old(rpc.calls), rpc.calls) && old(GenuineSoFar(net)) ==>
                refreshDepth <= I64_MAX ==>
                && (r.Ok? <==> old(ForkInReach(db.canonical, chain, maxReorgDepth)))
                && (r.Ok? ==> Mirrors(db.canonical, chain))
                && (r.Err? ==> db.canonical == old(db.canonical))
    {
      hide Nodes.Serves, Nodes.Honest, Universes.Coherent, Universes.WellFormed;
      hide Mirrors, ForkInReach, PassSince, EqualHashes, Linked;
      ghost var first := rpc.calls;
      r := SyncOnce(net, chain);
      if Served(net, chain, first, rpc.calls) {
        ServedFacts(net, chain, first, rpc.calls);
      }
      if r.Err? {
        ghost var before := db.State();
        db.MarkIndexerError(Describe(r.error));
        Record(before, MarkFailed(Describe(r.error)));
      }
    }

    /** Two ticks around a reorganization of the node. During the first it serves
        `a`, during the second `b`: the index follows it to `b` exactly when the two
        chains meet within the bound, and else stays on `a`. */
    method TwoTicks(ghost net: Universe, ghost a: seq<Hash>, ghost b: seq<Hash>)
      returns (r: Outcome<SyncOutcome>, r': Outcome<SyncOutcome>, ghost between: nat)
      requires Valid()
      modifies db, rpc, this`log
      ensures Valid() && old(log) <= log
      ensures old(rpc.calls) <= between <= rpc.calls
      ensures Served(net, a, old(rpc.calls), between) && Served(net, b, between, rpc.calls) ==>
                old(GenuineSoFar(net) && ForkInReach(db.canonical, a, maxReorgDepth)) ==>
                refreshDepth <= I64_MAX ==>
                && r.Ok?
                && (r'.Ok? <==> ChainsMeet(a, b, maxReorgDepth))
                && Mirrors(db.canonical, if r'.Ok? then b else a)
    {
      hide Protocol.Execute, Nodes.Serves, Nodes.Honest, Universes.Coherent, Universes.WellFormed;
      hide GenuineLog, Mirrors, ForkInReach, ChainsMeet, Linked;
      ghost var first := rpc.calls;
      r := Tick(net, a);
      between := rpc.calls;
      if Served(net, a, first, between) {
        ServedFacts(net, a, first, between);
        if b != [] && Mirrors(db.canonical, a) {
          MirrorMeets(db.canonical, a, b, maxReorgDepth);
        }
      }
      r' := Tick(net, b);
      if Served(net, b, between, rpc.calls) {
        ServedFacts(net, b, between, rpc.calls);
      }
    }
  }
}
