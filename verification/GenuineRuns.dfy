/** Runs fed by honest answers: every transaction of the log carries genuine
    facts only. */
module GenuineRuns {
  import opened Wrappers
  import opened Schema
  import opened StoreSemantics
  import opened Protocol
  import opened Universes

  ghost predicate GenuineAction(net: Universe, a: Action) {
    match a
    case Commit(b) => Genuine(net, b.block) && EvidenceFits(b.auxpow)
    case Refresh(b) => Genuine(net, b.block) && EvidenceFits(b.auxpow)
    case Replace(_, _, branch) => GenuineAll(net, branch)
    case _ => true
  }

  ghost predicate GenuineLog(net: Universe, log: seq<Action>) {
    forall i :: 0 <= i < |log| ==> GenuineAction(net, log[i])
  }

  lemma GenuineStep(net: Universe, s: Store, a: Action, t: Store)
    requires WellFormed(net) && Coherent(s, net) && GenuineAction(net, a) && Apply(s, a) == Some(t)
    ensures Coherent(t, net)
  {
    match a
    case Commit(b) =>
      InsertGenuine(s, net, b);
      SameFactsCoherent(InsertBlock(s, b).value, t, net);
    case Refresh(b) => InsertGenuine(s, net, b);
    case Replace(tip, ancestor, branch) =>
      InsertAllGenuine(s, net, branch);
      SameFactsCoherent(InsertBlocks(s, branch).value, t, net);
    case _ => SameFactsCoherent(s, t, net);
  }

  /** A run fed by honest answers, from whatever chains, holds only genuine facts. */
  lemma {:induction false} GenuineRun(net: Universe, origin: Store, log: seq<Action>, s: Store)
    requires WellFormed(net) && Coherent(origin, net) && GenuineLog(net, log)
    requires Execute(origin, log) == Some(s)
    ensures Coherent(s, net)
    decreases |log|
  {
    if log != [] {
      var init := log[..|log| - 1];
      assert forall i :: 0 <= i < |init| ==> init[i] == log[i];
      GenuineRun(net, origin, init, Execute(origin, init).value);
      GenuineStep(net, Execute(origin, init).value, log[|log| - 1], s);
    }
  }

  lemma EmptyIsCoherent(net: Universe)
    requires WellFormed(net)
    ensures Coherent(EMPTY_STORE, net)
  {
  }

  /** From an empty database, a run fed by honest answers holds a valid store of
      genuine facts. */
  lemma GenuineFromEmpty(net: Universe, log: seq<Action>, s: Store)
    requires WellFormed(net) && GenuineLog(net, log) && Execute(EMPTY_STORE, log) == Some(s)
    ensures Valid(s) && Coherent(s, net)
  {
    EmptyIsValid();
    RunKeepsValid(EMPTY_STORE, log, s);
    EmptyIsCoherent(net);
    GenuineRun(net, EMPTY_STORE, log, s);
  }
}
