/** The Wcash node and the parent nodes as the indexer sees them: an oracle that
    may answer every call differently (src/rpc.rs, src/auxpow.rs:47-122). */
module Nodes {
  import opened Wrappers
  import opened Schema
  import opened ParentEvidence
  import opened StoreSemantics
  import opened Universes

  type U64 = n: nat | n <= U64_MAX

  datatype Info = Info(chain: string, blocks: U64)

  // What decoding, local validation and the exact-witness lookup of a proof found.
  datatype ProofReport = ProofReport(parentBits: string, meetsTarget: bool,
                                     witnessState: WitnessState, confirmations: Option<nat>)

  /** The answer to each kind of call, by the number of the call. `raw` stands
      for the hash of the raw block; `proof` is `None` for a solution without the
      proof marker. */
  datatype Answers = Answers(info: nat -> Outcome<Info>,
                             blockHash: (nat, nat) -> Outcome<Hash>,
                             raw: (nat, Hash) -> Outcome<Hash>,
                             verbose: (nat, Hash) -> Outcome<RpcBlock>,
                             proof: (nat, Hash) -> Outcome<Option<ProofReport>>,
                             parent: (nat, string) -> ParentAnswer,
                             clock: nat -> int)

  class Rpc {
    const answers: Answers
    var calls: nat

    constructor (answers: Answers)
      ensures this.answers == answers && calls == 0
    {
      this.answers := answers;
      calls := 0;
    }

    method BlockchainInfo() returns (r: Outcome<Info>)
      modifies this
      ensures r == answers.info(old(calls)) && calls == old(calls) + 1
    {
      r := answers.info(calls);
      calls := calls + 1;
    }

    method BlockHash(height: nat) returns (r: Outcome<Hash>)
      modifies this
      ensures r == answers.blockHash(old(calls), height) && calls == old(calls) + 1
    {
      r := answers.blockHash(calls, height);
      calls := calls + 1;
    }

    method BlockRaw(hash: Hash) returns (r: Outcome<Hash>)
      modifies this
      ensures r == answers.raw(old(calls), hash) && calls == old(calls) + 1
    {
      r := answers.raw(calls, hash);
      calls := calls + 1;
    }

    method BlockVerbose(hash: Hash) returns (r: Outcome<RpcBlock>)
      modifies this
      ensures r == answers.verbose(old(calls), hash) && calls == old(calls) + 1
    {
      r := answers.verbose(calls, hash);
      calls := calls + 1;
    }

    // Proof checks and the answers of all parents, taken together.
    method InspectProof(hash: Hash) returns (r: Outcome<Option<ProofReport>>, at: nat)
      modifies this
      ensures at == old(calls) && calls == at + 1 && r == answers.proof(at, hash)
    {
      at := calls;
      r := answers.proof(at, hash);
      calls := calls + 1;
    }
  }

  ghost predicate DistinctLabels(labels: seq<string>) {
    forall i, j :: 0 <= i < j < |labels| ==> labels[i] != labels[j]
  }

  function ObserveParents(answers: Answers, at: nat, labels: seq<string>): seq<ParentObservation> {
    seq(|labels|, i requires 0 <= i < |labels| =>
      ObserveParent(labels[i], answers.parent(at, labels[i]), answers.clock(at)))
  }

  lemma ParentsObserved(answers: Answers, at: nat, labels: seq<string>)
    requires DistinctLabels(labels)
    ensures var os := ObserveParents(answers, at, labels);
            && DistinctSources(os)
            && (forall i :: 0 <= i < |os| ==> Observed(os[i]))
            && (ParentHeightsFit(answers) ==>
                  forall i :: 0 <= i < |os| ==> os[i].parent.Some? ==> os[i].parent.value.height <= I64_MAX)
  {
    var os := ObserveParents(answers, at, labels);
    forall i | 0 <= i < |os|
      ensures Observed(os[i]) && os[i].source == labels[i]
    {
      assert os[i] == ObserveParent(labels[i], answers.parent(at, labels[i]), answers.clock(at));
    }
  }

  /** What the verifier makes of a proof: its own findings, the answers of the
      configured parents in order, and their classification. */
  function Evidence(p: ProofReport, answers: Answers, at: nat, labels: seq<string>): VerifiedAuxPow {
    var observations := ObserveParents(answers, at, labels);
    var (state, agree) := Classify(observations);
    VerifiedAuxPow(p.parentBits, p.meetsTarget, p.witnessState, p.confirmations, observations,
                   state, agree)
  }

  // What an answer of `source` shows, case by case.
  ghost predicate Shows(o: ParentObservation, source: string, answer: ParentAnswer) {
    && o.source == source
    && o.parent == (if answer.Found? then Some(answer.parent) else None)
    && o.headerMatches == (if answer.Found? then Some(answer.headerMatches) else None)
    && (o.state == Disagreement <==> answer.Found? && !answer.headerMatches)
    && (o.state == Orphaned <==>
          answer.Found? && answer.headerMatches && answer.parent.confirmations < 0)
    && (o.state == Canonical <==>
          answer.Found? && answer.headerMatches && answer.parent.confirmations >= 0)
    && (o.state == NotFound <==> answer.RpcError? && answer.code in {-8, -5})
    && (o.state == Unavailable <==>
          answer.Unreachable? || (answer.RpcError? && answer.code !in {-8, -5}))
  }

  /** `aux` is the outcome of call `at` for a block at `height`: the findings of the
      proof as reported, and for each configured source, in order, what its own
      answer shows. */
  ghost predicate EvidenceOf(aux: Option<VerifiedAuxPow>, answers: Answers, at: nat, hash: Hash,
                             height: nat, labels: seq<string>)
  {
    && ProofAccepted(answers.proof(at, hash), height)
    && (aux.Some? <==> answers.proof(at, hash).value.Some?)
    && (aux.Some? ==>
          var p, os := answers.proof(at, hash).value.value, aux.value.observations;
          && aux.value.parentBits == p.parentBits && aux.value.meetsTarget == p.meetsTarget
          && aux.value.witnessState == p.witnessState && aux.value.confirmations == p.confirmations
          && |os| == |labels|
          && forall i :: 0 <= i < |os| ==>
               Shows(os[i], labels[i], answers.parent(at, labels[i])) && os[i].checkedAt == answers.clock(at))
  }

  lemma EvidenceHolds(p: ProofReport, answers: Answers, at: nat, labels: seq<string>)
    requires DistinctLabels(labels) && p.witnessState == BestChain
    ensures WellVerified(Evidence(p, answers, at, labels))
    ensures forall hash, height :: answers.proof(at, hash) == Ok(Some(p)) ==>
              EvidenceOf(Some(Evidence(p, answers, at, labels)), answers, at, hash, height, labels)
    ensures ParentHeightsFit(answers) ==> EvidenceFits(Some(Evidence(p, answers, at, labels)))
  {
    ParentsObserved(answers, at, labels);
    var os := Evidence(p, answers, at, labels).observations;
    forall i | 0 <= i < |os|
      ensures Shows(os[i], labels[i], answers.parent(at, labels[i])) && os[i].checkedAt == answers.clock(at)
    {
      assert os[i] == ObserveParent(labels[i], answers.parent(at, labels[i]), answers.clock(at));
    }
  }

  /** `AuxPowVerifier::verify`. A proof is optional at height 0 only, and only an
      exact witness on the best chain passes; the evidence is that of the answers
      of exactly the configured sources. */
  method VerifyProof(rpc: Rpc, labels: seq<string>, block: RpcBlock)
    returns (r: Outcome<Option<VerifiedAuxPow>>)
    requires DistinctLabels(labels)
    modifies rpc
    ensures rpc.calls == old(rpc.calls) + 1
    ensures r.Ok? <==> ProofAccepted(rpc.answers.proof(old(rpc.calls), block.hash), block.height)
    ensures r.Ok? ==>
              EvidenceOf(r.value, rpc.answers, old(rpc.calls), block.hash, block.height, labels)
    ensures r.Ok? && r.value.Some? ==> WellVerified(r.value.value)
    ensures r.Ok? && ParentHeightsFit(rpc.answers) ==> EvidenceFits(r.value)
  {
    var report, at := rpc.InspectProof(block.hash);
    var found :- report;
    if found.None? {
      if block.height == 0 {
        return Ok(None);
      }
      return Err(InvalidAuxPow);
    }
    var p := found.value;
    if p.witnessState != BestChain {
      return Err(InvalidAuxPow);
    }
    EvidenceHolds(p, rpc.answers, at, labels);
    return Ok(Some(Evidence(p, rpc.answers, at, labels)));
  }

  ghost predicate ProofAccepted(r: Outcome<Option<ProofReport>>, height: nat) {
    && r.Ok?
    && (r.value.None? ==> height == 0)
    && (r.value.Some? ==> r.value.value.witnessState == BestChain)
  }

  // Parent heights in the database range.
  ghost predicate ParentHeightsFit(a: Answers) {
    forall at, source ::
      a.parent(at, source).Found? ==> a.parent(at, source).parent.height <= I64_MAX
  }

  /** A node that may change its chain at any time, but never what a hash means. */
  ghost predicate Honest(a: Answers, net: Universe) {
    && WellFormed(net)
    && ParentHeightsFit(a)
    && forall at, hash ::
         a.verbose(at, hash).Ok? && a.verbose(at, hash).value.hash == hash ==>
           Genuine(net, a.verbose(at, hash).value)
  }

  ghost predicate ServesBlock(a: Answers, chain: seq<Hash>, at: nat, h: nat)
    requires h < |chain|
  {
    && a.blockHash(at, h) == Ok(chain[h])
    && a.raw(at, chain[h]).Ok?
    && a.verbose(at, chain[h]).Ok? && a.verbose(at, chain[h]).value.hash == chain[h]
    && ProofAccepted(a.proof(at, chain[h]), h)
  }

  /** An honest node that serves the one linked chain `chain` on all calls from
      `first` to before `end`, every one of them and every verification
      succeeding. What it answers before and after is left open. */
  ghost predicate Serves(a: Answers, net: Universe, name: string, genesis: Hash, chain: seq<Hash>,
                         first: nat, end: nat)
  {
    && Honest(a, net)
    && 0 < |chain| <= I64_MAX && chain[0] == genesis
    && Linked(net, chain)
    && (net.block(genesis).previous == None || net.block(genesis).previous == Some(ZERO_HASH))
    && (forall at: nat :: first <= at < end ==> a.info(at) == Ok(Info(name, |chain| - 1)))
    && (forall at: nat, h: nat {:trigger ServesBlock(a, chain, at, h)} {:trigger a.blockHash(at, h)} ::
          first <= at < end && h < |chain| ==> ServesBlock(a, chain, at, h))
  }
}
