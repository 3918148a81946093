/** Parent-chain observations and their aggregate (src/auxpow.rs:170-244). */
module ParentEvidence {
  import opened Wrappers
  import opened Schema

  // Answers of one parent node to the block and raw-header lookups.
  datatype ParentAnswer =
    | Found(parent: ParentBlock, headerMatches: bool)
    | RpcError(code: int)
    | Unreachable

  function ObserveParent(source: string, answer: ParentAnswer, checkedAt: int): ParentObservation {
    match answer
    case Found(parent, matches_) =>
      var state :=
        if !matches_ then Disagreement
        else if parent.confirmations < 0 then Orphaned
        else Canonical;
      ParentObservation(source, state, Some(parent), Some(matches_), checkedAt)
    case RpcError(code) =>
      var state := if code == -5 || code == -8 then NotFound else Unavailable;
      ParentObservation(source, state, None, None, checkedAt)
    case Unreachable =>
      ParentObservation(source, Unavailable, None, None, checkedAt)
  }

  function States(observations: seq<ParentObservation>): (states: seq<ParentLookupState>)
    ensures |states| == |observations|
    ensures forall i :: 0 <= i < |states| ==> states[i] == observations[i].state
  {
    seq(|observations|, i requires 0 <= i < |observations| => observations[i].state)
  }

  function ClassifyStates(states: seq<ParentLookupState>): (ParentLookupState, bool) {
    if states == [] then (NotConfigured, false)
    else
      var agree := |states| >= 2 && forall i :: 0 <= i < |states| ==> states[i] == states[0];
      var state :=
        if Disagreement in states ||
           (Canonical in states && (NotFound in states || Orphaned in states)) then Disagreement
        else if Canonical in states then Canonical
        else if Orphaned in states then Orphaned
        else if NotFound in states then NotFound
        else Unavailable;
      (state, agree)
  }

  function Classify(observations: seq<ParentObservation>): (ParentLookupState, bool) {
    ClassifyStates(States(observations))
  }

  /** The aggregate of `count` observations with the states `present`, whatever
      their order: the reference for the classification of a stored set of rows. */
  ghost function Aggregate(present: set<ParentLookupState>, count: nat): (ParentLookupState, bool) {
    var state :=
      if count == 0 then NotConfigured
      else if Disagreement in present then Disagreement
      else if Canonical in present && !(present !! {NotFound, Orphaned}) then Disagreement
      else if Canonical in present then Canonical
      else if Orphaned in present then Orphaned
      else if NotFound in present then NotFound
      else Unavailable;
    (state, count >= 2 && |present| == 1)
  }

  ghost function StateSet(states: seq<ParentLookupState>): set<ParentLookupState> {
    set i | 0 <= i < |states| :: states[i]
  }

  lemma ClassifyIsAggregate(states: seq<ParentLookupState>)
    ensures ClassifyStates(states) == Aggregate(StateSet(states), |states|)
  {
    var present := StateSet(states);
    assert forall st :: st in states <==> st in present;
    if states != [] {
      assert states[0] in present;
      if forall i :: 0 <= i < |states| ==> states[i] == states[0] {
        assert present == {states[0]};
      } else {
        var i :| 0 <= i < |states| && states[i] != states[0];
        assert {states[0], states[i]} <= present;
        if |present| == 1 {
          SingletonHasOne(present, states[0], states[i]);
        }
      }
      assert !(present !! {NotFound, Orphaned}) <==> NotFound in present || Orphaned in present by {
        assert NotFound in present ==> NotFound in present * {NotFound, Orphaned};
        assert Orphaned in present ==> Orphaned in present * {NotFound, Orphaned};
      }
    }
  }

  lemma SingletonHasOne<T>(s: set<T>, a: T, b: T)
    requires |s| == 1 && a in s && b in s
    ensures a == b
  {
    assert |s - {a}| == 0;
  }

  /** The order in which sources answer does not matter. */
  lemma ClassifyIgnoresOrder(a: seq<ParentLookupState>, b: seq<ParentLookupState>)
    requires multiset(a) == multiset(b)
    ensures ClassifyStates(a) == ClassifyStates(b)
  {
    ClassifyIsAggregate(a);
    ClassifyIsAggregate(b);
    assert |a| == |multiset(a)| == |multiset(b)| == |b|;
    forall st
      ensures st in StateSet(a) <==> st in StateSet(b)
    {
      assert st in a <==> st in multiset(a);
      assert st in b <==> st in multiset(b);
    }
    assert StateSet(a) == StateSet(b);
  }

  // ---- stored observation rows ----

  function RowOf(o: ParentObservation): ObservationRow {
    if o.parent.Some? then
      ObservationRow(o.state, Some(o.parent.value.height), Some(o.parent.value.confirmations),
                     Some(o.parent.value.bits), o.headerMatches, o.checkedAt)
    else
      ObservationRow(o.state, None, None, None, o.headerMatches, o.checkedAt)
  }

  // INSERT ... ON CONFLICT (source) DO UPDATE over the whole list.
  function RowsFrom(observations: seq<ParentObservation>): map<string, ObservationRow> {
    if observations == [] then map[]
    else
      var last := observations[|observations| - 1];
      RowsFrom(observations[..|observations| - 1])[last.source := RowOf(last)]
  }

  // The columns of the row of one observation.
  ghost predicate ShownBy(row: ObservationRow, o: ParentObservation) {
    && row.state == o.state && row.headerMatches == o.headerMatches && row.checkedAt == o.checkedAt
    && (o.parent.None? ==>
          row.parentHeight.None? && row.parentConfirmations.None? && row.parentBits.None?)
    && (o.parent.Some? ==>
          && row.parentHeight == Some(o.parent.value.height)
          && row.parentConfirmations == Some(o.parent.value.confirmations)
          && row.parentBits == Some(o.parent.value.bits))
  }

  ghost predicate LastOfSource(observations: seq<ParentObservation>, i: nat)
    requires i < |observations|
  {
    forall j :: i < j < |observations| ==> observations[j].source != observations[i].source
  }

  /** One row for each source that was asked, showing its last observation, and
      no other row. */
  ghost predicate RowsShow(rows: map<string, ObservationRow>, observations: seq<ParentObservation>) {
    && (forall k :: k in rows <==> exists i :: 0 <= i < |observations| && observations[i].source == k)
    && (forall i :: 0 <= i < |observations| && LastOfSource(observations, i) ==>
          observations[i].source in rows && ShownBy(rows[observations[i].source], observations[i]))
  }

  lemma {:induction false} RowsFromKeys(observations: seq<ParentObservation>, k: string)
    ensures k in RowsFrom(observations) <==>
            exists i :: 0 <= i < |observations| && observations[i].source == k
  {
    if observations != [] {
      var n := |observations| - 1;
      var init := observations[..n];
      RowsFromKeys(init, k);
      if k in RowsFrom(init) {
        var i :| 0 <= i < |init| && init[i].source == k;
        assert observations[i].source == k;
      } else if k == observations[n].source {
        assert observations[n].source == k;
      } else {
        assert forall i :: 0 <= i < n ==> observations[i] == init[i];
      }
    }
  }

  lemma {:induction false} RowsFromLast(observations: seq<ParentObservation>, i: nat)
    requires i < |observations| && LastOfSource(observations, i)
    ensures observations[i].source in RowsFrom(observations)
    ensures ShownBy(RowsFrom(observations)[observations[i].source], observations[i])
  {
    var n := |observations| - 1;
    if i < n {
      var init := observations[..n];
      assert forall j :: i <= j < n ==> init[j] == observations[j];
      RowsFromLast(init, i);
    }
  }

  lemma RowsFromShow(observations: seq<ParentObservation>)
    ensures RowsShow(RowsFrom(observations), observations)
  {
    forall k
      ensures k in RowsFrom(observations) <==>
              exists i :: 0 <= i < |observations| && observations[i].source == k
    {
      RowsFromKeys(observations, k);
    }
    forall i | 0 <= i < |observations| && LastOfSource(observations, i)
      ensures observations[i].source in RowsFrom(observations)
      ensures ShownBy(RowsFrom(observations)[observations[i].source], observations[i])
    {
      RowsFromLast(observations, i);
    }
  }

  ghost predicate DistinctSources(observations: seq<ParentObservation>) {
    forall i, j :: 0 <= i < j < |observations| ==> observations[i].source != observations[j].source
  }

  // `rows` holds the row of each observation under its source, and no other row.
  ghost predicate RowsHold(observations: seq<ParentObservation>, rows: map<string, ObservationRow>) {
    && |rows| == |observations|
    && (forall i :: 0 <= i < |observations| ==>
          observations[i].source in rows && rows[observations[i].source] == RowOf(observations[i]))
    && (forall k :: k in rows ==> exists i :: 0 <= i < |observations| && observations[i].source == k)
  }

  lemma OneMoreRow(observations: seq<ParentObservation>, rows: map<string, ObservationRow>)
    requires observations != [] && DistinctSources(observations)
    requires RowsHold(observations[..|observations| - 1], rows)
    ensures var last := observations[|observations| - 1];
            RowsHold(observations, rows[last.source := RowOf(last)])
  {
    var n := |observations| - 1;
    var init, last := observations[..n], observations[n];
    var after := rows[last.source := RowOf(last)];
    assert last.source !in rows;
    forall i | 0 <= i < |observations|
      ensures observations[i].source in after && after[observations[i].source] == RowOf(observations[i])
    {
      assert i < n ==> init[i] == observations[i];
    }
    forall k | k in after
      ensures exists i :: 0 <= i < |observations| && observations[i].source == k
    {
      if k != last.source {
        var i :| 0 <= i < |init| && init[i].source == k;
        assert observations[i].source == k;
      } else {
        assert observations[n].source == k;
      }
    }
  }

  lemma {:induction false} RowsFromHolds(observations: seq<ParentObservation>)
    requires DistinctSources(observations)
    ensures RowsHold(observations, RowsFrom(observations))
  {
    if observations != [] {
      RowsFromHolds(observations[..|observations| - 1]);
      OneMoreRow(observations, RowsFrom(observations[..|observations| - 1]));
    }
  }

  ghost function RowStates(rows: map<string, ObservationRow>): set<ParentLookupState> {
    set k | k in rows :: rows[k].state
  }

  ghost function AggregateRows(rows: map<string, ObservationRow>): (ParentLookupState, bool) {
    Aggregate(RowStates(rows), |rows|)
  }

  lemma RowStatesWithin(observations: seq<ParentObservation>, rows: map<string, ObservationRow>,
                        states: seq<ParentLookupState>)
    requires RowsHold(observations, rows) && |states| == |observations|
    requires forall i :: 0 <= i < |states| ==> states[i] == observations[i].state
    ensures RowStates(rows) <= StateSet(states)
  {
    forall k | k in rows
      ensures rows[k].state in StateSet(states)
    {
      var i :| 0 <= i < |observations| && observations[i].source == k;
      assert states[i] == rows[k].state;
    }
  }

  lemma StatesWithinRows(observations: seq<ParentObservation>, rows: map<string, ObservationRow>,
                         states: seq<ParentLookupState>)
    requires RowsHold(observations, rows) && |states| == |observations|
    requires forall i :: 0 <= i < |states| ==> states[i] == observations[i].state
    ensures StateSet(states) <= RowStates(rows)
  {
    forall i | 0 <= i < |states|
      ensures states[i] in RowStates(rows)
    {
      assert rows[observations[i].source].state == states[i];
    }
  }

  /** With one label per source, classifying the answers and classifying the
      rows they are stored as give the same state and agreement flag. */
  lemma ClassifyStoredRows(observations: seq<ParentObservation>)
    requires DistinctSources(observations)
    ensures Classify(observations) == AggregateRows(RowsFrom(observations))
  {
    var rows, states := RowsFrom(observations), States(observations);
    ClassifyIsAggregate(states);
    assert RowsHold(observations, rows) by {
      RowsFromHolds(observations);
    }
    assert RowStates(rows) == StateSet(states) by {
      RowStatesWithin(observations, rows, states);
      StatesWithinRows(observations, rows, states);
    }
  }

  // Two sources under one label: the stored row loses the first answer.
  lemma SharedLabelLosesEvidence()
    ensures var lost := ObserveParent("parent", Found(ParentBlock(7, 3, "1d00ffff"), false), 0);
            var kept := ObserveParent("parent", Found(ParentBlock(7, 3, "1d00ffff"), true), 0);
            Classify([lost, kept]) == (Disagreement, false)
            && AggregateRows(RowsFrom([lost, kept])) == (Canonical, false)
  {
    var lost := ObserveParent("parent", Found(ParentBlock(7, 3, "1d00ffff"), false), 0);
    var kept := ObserveParent("parent", Found(ParentBlock(7, 3, "1d00ffff"), true), 0);
    assert States([lost, kept])[0] == Disagreement;
    assert [lost, kept][..1] == [lost] && [lost][..0] == [];
    assert RowsFrom([lost]) == map["parent" := RowOf(lost)];
    var rows := RowsFrom([lost, kept]);
    assert rows == map["parent" := RowOf(kept)];
    assert rows["parent"].state == Canonical;
    assert RowStates(rows) == {Canonical};
  }

  // What `ObserveParent` can produce.
  ghost predicate Observed(o: ParentObservation) {
    && o.state != NotConfigured
    && (o.state == Canonical ==>
          o.headerMatches == Some(true) && o.parent.Some? && o.parent.value.confirmations >= 0)
  }

  /** Evidence as the verifier reports it: classified from its own observations,
      one per distinct source label. */
  ghost predicate WellVerified(aux: VerifiedAuxPow) {
    && aux.witnessState == BestChain
    && (aux.lookupState, aux.sourcesAgree) == Classify(aux.observations)
    && DistinctSources(aux.observations)
    && forall i :: 0 <= i < |aux.observations| ==> Observed(aux.observations[i])
  }
}
