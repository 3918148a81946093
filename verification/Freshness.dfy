/** What a refresh of evidence achieves: the proof it verified again is no longer
    stale, and its block is ready on the new answers alone. */
module Freshness {
  import opened Wrappers
  import opened Schema
  import opened ParentEvidence
  import opened StoreSemantics
  import opened CanonicalChain
  import opened StoredFacts
  import opened Protocol
  import opened Databases
  import opened Readiness

  // The heights whose evidence is due.
  ghost function Stale(s: Store, tip: nat, depth: nat, now: int): set<nat> {
    set h | h in s.canonical && Refreshable(s, tip, depth, now, h)
  }

  /** After a refresh of the selected proof at `h` it is due again exactly when the
      refresh itself is more than the interval ago; no other height is affected. */
  lemma RefreshExact(s: Store, b: IndexedBlock, t: Store, tip: nat, depth: nat, now: int, h: nat)
    requires InsertBlock(s, b) == Some(t) && b.auxpow.Some? && h in s.canonical
    ensures s.canonical[h] == b.Key() ==>
              (Refreshable(t, tip, depth, now, h) <==>
                h > 0 && tip - h <= depth && now - b.fetchedAt > 30)
    ensures s.canonical[h] != b.Key() ==>
              (Refreshable(t, tip, depth, now, h) <==> Refreshable(s, tip, depth, now, h))
  {
    InsertBlockGrows(s, b, t);
    BlockIsWritten(s, b, t);
  }

  lemma SelectedOnce(s: Store, h: nat, k: nat)
    requires ChainValid(s) && h in s.canonical && k in s.canonical && s.canonical[h] == s.canonical[k]
    ensures h == k
  {
    assert SelectedAt(s, h) && SelectedAt(s, k);
  }

  /** A refresh no older than the interval takes exactly the refreshed height from
      those that are due. */
  lemma RefreshShrinksStale(s: Store, b: IndexedBlock, t: Store, tip: nat, depth: nat, now: int, h: nat)
    requires ChainValid(s) && InsertBlock(s, b) == Some(t) && b.auxpow.Some?
    requires h in s.canonical && s.canonical[h] == b.Key()
    requires b.fetchedAt >= now - REFRESH_INTERVAL_SECONDS
    ensures Stale(t, tip, depth, now) == Stale(s, tip, depth, now) - {h}
  {
    InsertBlockGrows(s, b, t);
    forall k | k in s.canonical
      ensures k in Stale(t, tip, depth, now) <==> k in Stale(s, tip, depth, now) && k != h
    {
      RefreshExact(s, b, t, tip, depth, now, k);
      if s.canonical[k] == b.Key() {
        SelectedOnce(s, h, k);
      }
    }
  }

  // What the evidence gate asks of a fresh verification, for a proof whose header
  // facts are `stored`.
  ghost predicate Convincing(aux: VerifiedAuxPow, stored: AuxLink, fetchedAt: int, now: int) {
    && stored.meetsTarget
    && now - fetchedAt <= 60
    && |aux.observations| >= 2
    && forall o :: o in aux.observations ==>
         && o.state == Canonical && o.parent.Some? && o.parent.value.bits == stored.parentBits
         && now - o.checkedAt <= 60
  }

  lemma FreshRows(rows: map<string, ObservationRow>, observations: seq<ParentObservation>)
    requires DistinctSources(observations) && RowsHold(observations, rows) && RowsShow(rows, observations)
    ensures |rows| == |observations|
    ensures forall o :: o in observations ==> o.source in rows && ShownBy(rows[o.source], o)
    ensures forall k :: k in rows ==> exists o :: o in observations && o.source == k
  {
    forall o | o in observations
      ensures o.source in rows && ShownBy(rows[o.source], o)
    {
      var i :| 0 <= i < |observations| && observations[i] == o;
      assert LastOfSource(observations, i);
    }
    forall k | k in rows
      ensures exists o :: o in observations && o.source == k
    {
      var i :| 0 <= i < |observations| && observations[i].source == k;
      assert observations[i] in observations;
    }
  }

  // The rows of a verification convince exactly when its observations do.
  lemma ConvincingRows(rows: map<string, ObservationRow>, os: seq<ParentObservation>, bits: string, now: int)
    requires DistinctSources(os) && RowsHold(os, rows) && RowsShow(rows, os)
    requires forall i :: 0 <= i < |os| ==> Observed(os[i])
    ensures (forall k :: k in rows ==>
               && rows[k].state == Canonical && rows[k].parentBits == Some(bits)
               && now - rows[k].checkedAt <= PARENT_EVIDENCE_MAX_AGE) <==>
            (forall o :: o in os ==>
               && o.state == Canonical && o.parent.Some? && o.parent.value.bits == bits
               && now - o.checkedAt <= 60)
  {
    FreshRows(rows, os);
    forall o | o in os
      ensures Observed(o)
    {
      var i :| 0 <= i < |os| && os[i] == o;
    }
  }

  lemma FreshEvidence(s: Store, b: IndexedBlock, t: Store, h: nat, now: int)
    requires Verified(b) && InsertBlock(s, b) == Some(t) && b.auxpow.Some?
    requires h in s.canonical && s.canonical[h] == b.Key() && b.Key() in s.links
    ensures WellEvidenced(t, h, now) <==> Convincing(b.auxpow.value, s.links[b.Key()], b.fetchedAt, now)
  {
    hide InsertBlock, DistinctSources, RowsHold, RowsShow, Observed, ShownBy, Verified, BlockColumns;
    var os := b.auxpow.value.observations;
    InsertBlockGrows(s, b, t);
    BlockIsWritten(s, b, t);
    RefreshedRows(s, b, t);
    FreshRows(ObservationsOf(t, b.Key()), os);
    ConvincingRows(ObservationsOf(t, b.Key()), os, s.links[b.Key()].parentBits, now);
  }

  lemma RefreshedRows(s: Store, b: IndexedBlock, t: Store)
    requires Verified(b) && InsertBlock(s, b) == Some(t) && b.auxpow.Some?
    ensures var os := b.auxpow.value.observations;
            && DistinctSources(os) && (forall i :: 0 <= i < |os| ==> Observed(os[i]))
            && RowsHold(os, ObservationsOf(t, b.Key())) && RowsShow(ObservationsOf(t, b.Key()), os)
  {
    RowsFromHolds(b.auxpow.value.observations);
    RowsFromShow(b.auxpow.value.observations);
  }

  /** After a refresh of a selected block above genesis its evidence gate depends on
      this verification alone: it opens exactly when that is recent, two or more
      sources answered, and all of them found the parent of the stored proof, which
      met its target, canonical. Nothing of the earlier evidence matters. */
  lemma RefreshOpensGate(s: Store, b: IndexedBlock, t: Store, h: nat, now: int)
    requires Valid(s) && Verified(b) && InsertBlock(s, b) == Some(t)
    requires h in s.canonical && h > 0 && s.canonical[h] == b.Key()
    ensures b.auxpow.Some? && b.Key() in s.links && LoadEvidence(t, h, b.block.hash).Some?
    ensures IsReady(LoadEvidence(t, h, b.block.hash).value, now) <==>
            Convincing(b.auxpow.value, s.links[b.Key()], b.fetchedAt, now)
  {
    SelectedIsProved(s, h);
    SelectedHeight(s, b, t, h);
    RefreshKeepsValid(s, b, t);
    EvidenceGate(t, h, b.block.hash, now);
    FreshEvidence(s, b, t, h, now);
  }

  lemma SelectedHeight(s: Store, b: IndexedBlock, t: Store, h: nat)
    requires Valid(s) && Verified(b) && InsertBlock(s, b) == Some(t)
    requires h in s.canonical && h > 0 && s.canonical[h] == b.Key()
    ensures b.auxpow.Some?
  {
    assert SelectedAt(s, h);
  }
}
