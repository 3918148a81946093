/** The merge-mining partition under SQL three-valued logic
    (src/analytics.rs:720-813). */
module MergeMining {
  import opened Wrappers
  import opened Schema
  import opened ParentEvidence
  import opened CanonicalChain
  import opened StoredFacts
  import opened Protocol
  import opened Readiness

  // A truth value of SQL; `None` is UNKNOWN.
  type Truth = Option<bool>

  function And(a: Truth, b: Truth): Truth {
    if a == Some(false) || b == Some(false) then Some(false)
    else if a == Some(true) && b == Some(true) then Some(true)
    else None
  }

  function Or(a: Truth, b: Truth): Truth {
    if a == Some(true) || b == Some(true) then Some(true)
    else if a == Some(false) && b == Some(false) then Some(false)
    else None
  }

  // x = constant, UNKNOWN for NULL.
  function Equals<V(==)>(x: Option<V>, value: V): Truth {
    if x.None? then None else Some(x.value == value)
  }

  function IsTrue(a: Truth): Truth {
    Some(a == Some(true))
  }

  function IsNotTrue(a: Truth): Truth {
    Some(a != Some(true))
  }

  // ---- the query ----

  // One row; the columns of a missing proof are NULL.
  datatype Row = Row(height: nat, exactState: WitnessState, localState: LocalState,
                     meetsTarget: Option<bool>, lookupState: Option<ParentLookupState>,
                     agree: Option<bool>, hasCanonicalParent: bool, hasAuxpow: bool)

  ghost function RowAt(s: Store, height: nat): Row
    requires height in s.canonical && s.canonical[height] in s.witnesses
  {
    var k := s.canonical[height];
    var w, rows := s.witnesses[k], ObservationsOf(s, k);
    var canonical :=
      exists o :: o in rows && rows[o].state == Canonical && rows[o].headerMatches == Some(true);
    if k in s.links then
      var a := s.links[k];
      Row(height, w.exactState, w.localState, Some(a.meetsTarget), Some(a.lookupState),
          Some(a.sourcesAgree), canonical, true)
    else Row(height, w.exactState, w.localState, None, None, None, canonical, false)
  }

  function Child(r: Row): Truth {
    Some(r.height > 0)
  }

  function LocallyProved(r: Row): Truth {
    And(And(Some(r.hasAuxpow), Some(r.exactState == BestChain)), Some(r.localState == AuxPowVerified))
  }

  function Proved(r: Row): Truth {
    And(And(And(LocallyProved(r), IsTrue(r.meetsTarget)), IsTrue(r.agree)), Some(r.hasCanonicalParent))
  }

  function Unobserved(r: Row): Truth {
    And(LocallyProved(r), Equals(r.lookupState, NotConfigured))
  }

  function FullyVerified(r: Row): Truth {
    And(Child(r), Proved(r))
  }

  function LocallyVerifiedOnly(r: Row): Truth {
    And(Child(r), Unobserved(r))
  }

  function Anomaly(r: Row): Truth {
    And(Child(r), IsNotTrue(Or(Proved(r), Unobserved(r))))
  }

  ghost predicate Selectable(s: Store) {
    forall h :: h in s.canonical ==> s.canonical[h] in s.witnesses
  }

  // The heights a FILTER keeps; COUNT(*) is their number.
  ghost function Where(s: Store, condition: Row -> Truth): set<nat>
    requires Selectable(s)
  {
    set h | h in s.canonical && condition(RowAt(s, h)) == Some(true)
  }

  // ---- the partition ----

  // The filters overlap on a row only if an unconfigured proof has an observation.
  lemma OverlapNeedsIncoherence(r: Row)
    ensures FullyVerified(r) == Some(true) && LocallyVerifiedOnly(r) == Some(true) ==>
              r.hasCanonicalParent && r.lookupState == Some(NotConfigured)
    ensures Anomaly(r) == Some(true) <==>
              r.height > 0 && FullyVerified(r) != Some(true) && LocallyVerifiedOnly(r) != Some(true)
  {
  }

  lemma NoObservationWhenUnconfigured(s: Store, height: nat)
    requires EvidenceValid(s) && height in s.canonical && s.canonical[height] in s.witnesses
    requires RowAt(s, height).lookupState == Some(NotConfigured)
    ensures !RowAt(s, height).hasCanonicalParent
  {
    var k := s.canonical[height];
    assert EvidenceAt(s, k);
    assert ObservationsOf(s, k) == map[];
  }

  lemma ValidSelectable(s: Store)
    requires ChainValid(s)
    ensures Selectable(s)
  {
    assert forall h :: h in s.canonical ==> SelectedAt(s, h);
  }

  // The filters a child row passes.
  ghost predicate PassesOne(r: Row) {
    && !(FullyVerified(r) == Some(true) && LocallyVerifiedOnly(r) == Some(true))
    && (Anomaly(r) == Some(true) <==>
          Child(r) == Some(true) && FullyVerified(r) != Some(true) && LocallyVerifiedOnly(r) != Some(true))
    && ((FullyVerified(r) == Some(true) || LocallyVerifiedOnly(r) == Some(true)) ==> Child(r) == Some(true))
  }

  lemma RowPassesOne(s: Store, h: nat)
    requires EvidenceValid(s) && h in s.canonical && s.canonical[h] in s.witnesses
    ensures PassesOne(RowAt(s, h))
  {
    OverlapNeedsIncoherence(RowAt(s, h));
    if RowAt(s, h).lookupState == Some(NotConfigured) {
      NoObservationWhenUnconfigured(s, h);
    }
  }

  lemma MemberOfOne(s: Store, h: nat)
    requires Selectable(s) && (h in s.canonical ==> PassesOne(RowAt(s, h)))
    ensures h in Where(s, Child) <==>
            h in Where(s, FullyVerified) || h in Where(s, LocallyVerifiedOnly) || h in Where(s, Anomaly)
    ensures OnlyOne(h in Where(s, FullyVerified), h in Where(s, LocallyVerifiedOnly), h in Where(s, Anomaly))
  {
  }

  predicate OnlyOne(a: bool, b: bool, c: bool) {
    !(a && b) && !(a && c) && !(b && c)
  }

  lemma ThreeParts(all: set<nat>, a: set<nat>, b: set<nat>, c: set<nat>)
    requires forall h :: h in all <==> h in a || h in b || h in c
    requires forall h :: OnlyOne(h in a, h in b, h in c)
    ensures a !! b && a !! c && b !! c && a + b + c == all && |a| + |b| + |c| == |all|
  {
    assert forall h :: h in a || h in b || h in c ==> OnlyOne(h in a, h in b, h in c);
    assert a + b + c == all;
    assert |a + b| == |a| + |b|;
  }

  /** In every reachable store the three counters partition the child blocks. */
  lemma Partition(s: Store)
    requires Valid(s)
    ensures Selectable(s)
    ensures var full, local, anomaly := Where(s, FullyVerified), Where(s, LocallyVerifiedOnly), Where(s, Anomaly);
            && full !! local && full !! anomaly && local !! anomaly
            && full + local + anomaly == Where(s, Child)
            && |full| + |local| + |anomaly| == |Where(s, Child)|
  {
    ValidSelectable(s);
    var full, local, anomaly := Where(s, FullyVerified), Where(s, LocallyVerifiedOnly), Where(s, Anomaly);
    forall h
      ensures h in Where(s, Child) <==> h in full || h in local || h in anomaly
      ensures OnlyOne(h in full, h in local, h in anomaly)
    {
      if h in s.canonical {
        RowPassesOne(s, h);
      }
      MemberOfOne(s, h);
    }
    ThreeParts(Where(s, Child), full, local, anomaly);
  }

  /** In every reachable store a block above genesis is fully verified exactly when
      its proof meets the target and at least two sources, all of them, found the
      parent canonical; the conditions on its witness always hold. */
  lemma FullyVerifiedExact(s: Store, h: nat)
    requires Valid(s) && h in s.canonical && s.canonical[h] in s.witnesses
    ensures h > 0 ==> s.canonical[h] in s.links
    ensures FullyVerified(RowAt(s, h)) == Some(true) <==>
            && h > 0
            && s.links[s.canonical[h]].meetsTarget
            && |ObservationsOf(s, s.canonical[h])| >= 2
            && forall o :: o in ObservationsOf(s, s.canonical[h]) ==>
                 ObservationsOf(s, s.canonical[h])[o].state == Canonical
  {
    if h > 0 {
      SelectedIsProved(s, h);
      ProvedExact(s, h);
    }
  }

  lemma ProvedExact(s: Store, h: nat)
    requires EvidenceValid(s) && h > 0 && h in s.canonical
    requires s.canonical[h] in s.links && s.canonical[h] in s.witnesses
    requires s.witnesses[s.canonical[h]].exactState == BestChain
    requires s.witnesses[s.canonical[h]].localState == AuxPowVerified
    ensures FullyVerified(RowAt(s, h)) == Some(true) <==>
            && s.links[s.canonical[h]].meetsTarget
            && |ObservationsOf(s, s.canonical[h])| >= 2
            && forall o :: o in ObservationsOf(s, s.canonical[h]) ==>
                 ObservationsOf(s, s.canonical[h])[o].state == Canonical
  {
    var k := s.canonical[h];
    var rows := ObservationsOf(s, k);
    assert EvidenceAt(s, k);
    if |rows| >= 2 && forall o :: o in rows ==> rows[o].state == Canonical {
      AllCanonical(s, k);
      var o :| o in rows.Keys;
      assert ObservedRow(rows[o]);
    }
    if s.links[k].sourcesAgree && RowAt(s, h).hasCanonicalParent {
      OneState(rows);
    }
  }

  lemma OneState(rows: map<string, ObservationRow>)
    requires |RowStates(rows)| == 1 && exists o :: o in rows && rows[o].state == Canonical
    ensures forall o :: o in rows ==> rows[o].state == Canonical
  {
    var c :| c in rows && rows[c].state == Canonical;
    forall o | o in rows
      ensures rows[o].state == Canonical
    {
      assert rows[o].state in RowStates(rows) && rows[c].state in RowStates(rows);
      SingletonHasOne(RowStates(rows), rows[o].state, rows[c].state);
    }
  }

  /** In every reachable store a block counts as verified locally only exactly when
      it is above genesis and no observation is stored for its witness, and as an
      anomaly exactly when there are observations that do not verify it fully. */
  lemma LocallyOnlyExact(s: Store, h: nat)
    requires Valid(s) && h in s.canonical && s.canonical[h] in s.witnesses
    ensures LocallyVerifiedOnly(RowAt(s, h)) == Some(true) <==>
            h > 0 && ObservationsOf(s, s.canonical[h]) == map[]
    ensures Anomaly(RowAt(s, h)) == Some(true) <==>
            && h > 0 && ObservationsOf(s, s.canonical[h]) != map[]
            && FullyVerified(RowAt(s, h)) != Some(true)
  {
    var k := s.canonical[h];
    var rows := ObservationsOf(s, k);
    OverlapNeedsIncoherence(RowAt(s, h));
    FullyVerifiedExact(s, h);
    if h > 0 {
      SelectedIsProved(s, h);
      assert EvidenceAt(s, k);
      if rows != map[] {
        AggregateConfigured(rows);
      }
    }
  }

  lemma AggregateConfigured(rows: map<string, ObservationRow>)
    requires rows != map[]
    ensures AggregateRows(rows).0 != NotConfigured
  {
  }

  /** Without the coherence of evidence the filters may both keep a row. */
  lemma IncoherentRowCountsTwice()
    ensures var r := Row(1, BestChain, AuxPowVerified, Some(true), Some(NotConfigured), Some(true), true, true);
            FullyVerified(r) == Some(true) && LocallyVerifiedOnly(r) == Some(true)
  {
  }
}
