/** Immutable facts and evidence rows in every reachable store: which rows exist
    for a block, and that evidence agrees with its own observations. */
module StoredFacts {
  import opened Wrappers
  import opened OrderedRows
  import opened Schema
  import opened Transactions
  import opened ParentEvidence
  import opened StoreSemantics

  // The positions of a stored block witness are exactly 0..count-1, each a
  // different stored transaction.
  ghost predicate PositionsAt(s: Store, k: WitnessKey) {
    && k.block in s.blocks
    && k in s.positions
    && (forall i: Index :: i in s.positions[k] <==> i < s.blocks[k.block].transactionCount)
    && Injective(s.positions[k])
    && (forall i :: i in s.positions[k] ==> s.positions[k][i] in s.ledger.transactions)
  }

  // Inputs are numbered without gaps, outputs carry amounts in range.
  ghost predicate ListsFit(inputs: map<Index, Input>, outputs: map<Index, OutputRow>) {
    && (forall i: Index, j :: j in inputs && i < j ==> i in inputs)
    && (forall i :: i in inputs ==> InputFits(inputs[i]))
    && (forall n :: n in outputs ==> 0 <= outputs[n].value <= I64_MAX)
  }

  ghost predicate ListsAt(ledger: Ledger, key: TxKey) {
    ListsFit(RowsOf(ledger.inputs, key), RowsOf(ledger.outputs, key))
  }

  ghost predicate LedgerValid(ledger: Ledger) {
    forall key :: key in ledger.transactions ==> ListsAt(ledger, key)
  }

  ghost predicate FactsValid(s: Store) {
    && (forall k {:trigger PositionsAt(s, k)} :: k in s.witnesses ==> PositionsAt(s, k))
    && s.positions.Keys == s.witnesses.Keys
    && LedgerValid(s.ledger)
  }

  lemma AcceptedLists(tx: RpcTransaction)
    requires TxFits(tx) && Increasing(OutputPairs(tx.vout))
    ensures ListsFit(FromPairs(InputPairs(tx.vin)), FromPairs(OutputPairs(tx.vout)))
  {
    var inputs := FromPairs(InputPairs(tx.vin));
    forall k: Index
      ensures k in inputs <==> k < |tx.vin|
      ensures k < |tx.vin| ==> inputs[k] == tx.vin[k]
    {
      InputRowAt(tx.vin, k);
    }
    var pairs := OutputPairs(tx.vout);
    FromPairsHolds(pairs);
    forall n | n in FromPairs(pairs)
      ensures 0 <= FromPairs(pairs)[n].value <= I64_MAX
    {
      var i :| 0 <= i < |pairs| && pairs[i].0 == n;
      assert OutputFits(tx.vout[i]);
    }
  }

  lemma {:induction false} AcceptAllKeepsLists(s: Ledger, txs: seq<RpcTransaction>, t: Ledger)
    requires LedgerValid(s) && AcceptAll(s, txs) == Some(t)
    ensures LedgerValid(t)
  {
    if txs != [] {
      var n := |txs| - 1;
      var m := AcceptAll(s, txs[..n]).value;
      AcceptAllKeepsLists(s, txs[..n], m);
      AcceptedLists(txs[n]);
      forall key | key in t.transactions
        ensures ListsAt(t, key)
      {
        if key != KeyOf(txs[n]) {
          assert ListsAt(m, key);
        }
      }
    }
  }

  // Before an insertion the witness has all its positions, or none.
  lemma KnownPositions(s: Store, b: IndexedBlock)
    requires FactsValid(s) && BlockAccepted(s.blocks, b.block)
    ensures Injective(RowsOf(s.positions, b.Key()))
    ensures forall i :: i in RowsOf(s.positions, b.Key()) ==> i < |b.block.txs|
  {
    if b.Key() in s.witnesses {
      assert PositionsAt(s, b.Key());
    }
  }

  /** A successful insertion leaves the compared facts equal to the supplied
      ones, the positions of the witness exactly 0..n-1, and at each of them the
      rows of the supplied transaction, column by column. */
  lemma InsertBlockStores(s: Store, b: IndexedBlock, t: Store)
    requires FactsValid(s) && InsertBlock(s, b) == Some(t)
    ensures b.block.hash in t.blocks && SameFacts(t.blocks[b.block.hash], BlockRowOf(b.block))
    ensures b.Key() in t.positions
    ensures forall i: Index :: i in t.positions[b.Key()] <==> i < |b.block.txs|
    ensures forall i: Index :: i < |b.block.txs| ==>
              && StoredAs(t.ledger, b.block.txs[i])
              && t.positions[b.Key()][i] == KeyOf(b.block.txs[i])
              && RowsAreOf(t.ledger, t.positions[b.Key()][i], b.block.txs[i])
  {
    var keys, txs := Keys(b.block.txs), b.block.txs;
    KnownPositions(s, b);
    PlaceAllPlaces(RowsOf(s.positions, b.Key()), keys, t.positions[b.Key()]);
    forall i: Index | i < |txs|
      ensures StoredAs(t.ledger, txs[i]) && RowsAreOf(t.ledger, KeyOf(txs[i]), txs[i])
    {
      PlacedKeysDiffer(RowsOf(s.positions, b.Key()), keys, t.positions[b.Key()]);
      AcceptAllStores(s.ledger, txs, t.ledger, i);
      StoredColumns(t.ledger, txs[i]);
    }
  }

  lemma PlacedKeysDiffer(before: map<Index, TxKey>, keys: seq<TxKey>, after: map<Index, TxKey>)
    requires Placed(before, keys, after) && |keys| <= I32_MAX
    ensures forall i, j :: 0 <= i < j < |keys| ==> keys[i] != keys[j]
  {
    forall i, j | 0 <= i < j < |keys|
      ensures keys[i] != keys[j]
    {
      assert after[i] == keys[i] && after[j] == keys[j];
    }
  }

  lemma InsertBlockKeepsFacts(s: Store, b: IndexedBlock, t: Store)
    requires FactsValid(s) && InsertBlock(s, b) == Some(t)
    ensures FactsValid(t)
  {
    var txs := b.block.txs;
    InsertBlockStores(s, b, t);
    KnownPositions(s, b);
    PlaceAllPlaces(RowsOf(s.positions, b.Key()), Keys(txs), t.positions[b.Key()]);
    AcceptAllKeepsLists(s.ledger, txs, t.ledger);
    AcceptAllGrows(s.ledger, txs, t.ledger);
    assert PositionsAt(t, b.Key());
    forall k | k in t.witnesses
      ensures PositionsAt(t, k)
    {
      if k != b.Key() {
        assert PositionsAt(s, k);
      }
    }
  }

  lemma {:induction false} InsertBlocksKeepsFacts(s: Store, branch: seq<IndexedBlock>, t: Store)
    requires FactsValid(s) && InsertBlocks(s, branch) == Some(t)
    ensures FactsValid(t)
    decreases |branch|
  {
    if branch != [] {
      var n := |branch| - 1;
      var m := InsertBlocks(s, branch[..n]).value;
      InsertBlocksKeepsFacts(s, branch[..n], m);
      InsertBlockKeepsFacts(m, branch[n], t);
    }
  }

  lemma SameTablesKeepFacts(s: Store, t: Store)
    requires FactsValid(s)
    requires s.blocks == t.blocks && s.witnesses == t.witnesses && s.positions == t.positions
    requires s.ledger == t.ledger
    ensures FactsValid(t)
  {
    assert forall k :: k in s.witnesses ==> PositionsAt(s, k);
  }

  // ---- evidence ----

  function ObservationsOf(s: Store, k: WitnessKey): map<string, ObservationRow> {
    if k in s.observations then s.observations[k] else map[]
  }

  ghost predicate ObservedRow(row: ObservationRow) {
    && row.state != NotConfigured
    && (row.state == Canonical ==>
          && row.headerMatches == Some(true) && row.parentHeight.Some?
          && row.parentConfirmations.Some? && row.parentConfirmations.value >= 0)
  }

  // The aggregate of a proof is that of the rows stored for it.
  ghost predicate EvidenceAt(s: Store, k: WitnessKey)
    requires k in s.links
  {
    var rows := ObservationsOf(s, k);
    && k in s.witnesses
    && (s.links[k].lookupState, s.links[k].sourcesAgree) == AggregateRows(rows)
    && (forall source :: source in rows ==> ObservedRow(rows[source]))
  }

  // A witness of a block above genesis has a proof, verified locally, and is the
  // exact one on the best chain.
  ghost predicate ProvedAt(s: Store, k: WitnessKey)
    requires k in s.witnesses
  {
    && k.block in s.blocks
    && (s.blocks[k.block].height > 0 ==>
          && k in s.links
          && s.witnesses[k].exactState == BestChain
          && s.witnesses[k].localState == AuxPowVerified)
  }

  ghost predicate EvidenceValid(s: Store) {
    && (forall k {:trigger EvidenceAt(s, k)} :: k in s.links ==> EvidenceAt(s, k))
    && (forall k :: k in s.observations ==> k in s.links)
    && (forall k {:trigger ProvedAt(s, k)} :: k in s.witnesses ==> ProvedAt(s, k))
  }

  // A block the verifier passed on: evidence it classified itself, which only
  // genesis may lack.
  ghost predicate Verified(b: IndexedBlock) {
    if b.auxpow.None? then b.block.height == 0 else WellVerified(b.auxpow.value)
  }

  ghost predicate AllVerified(branch: seq<IndexedBlock>) {
    forall i :: 0 <= i < |branch| ==> Verified(branch[i])
  }

  lemma VerifiedInit(branch: seq<IndexedBlock>)
    requires branch != [] && AllVerified(branch)
    ensures AllVerified(branch[..|branch| - 1]) && Verified(branch[|branch| - 1])
  {
  }

  lemma StoredObservations(observations: seq<ParentObservation>)
    requires DistinctSources(observations)
    requires forall i :: 0 <= i < |observations| ==> Observed(observations[i])
    ensures forall k :: k in RowsFrom(observations) ==> ObservedRow(RowsFrom(observations)[k])
  {
    RowsFromHolds(observations);
    forall k | k in RowsFrom(observations)
      ensures ObservedRow(RowsFrom(observations)[k])
    {
      var i :| 0 <= i < |observations| && observations[i].source == k;
      assert Observed(observations[i]);
    }
  }

  lemma InsertBlockKeepsProofs(s: Store, b: IndexedBlock, t: Store, k: WitnessKey)
    requires EvidenceValid(s) && Verified(b) && InsertBlock(s, b) == Some(t) && k in t.witnesses
    ensures ProvedAt(t, k)
  {
    if k in s.witnesses {
      assert ProvedAt(s, k);
    }
  }

  lemma InsertBlockKeepsEvidence(s: Store, b: IndexedBlock, t: Store)
    requires EvidenceValid(s) && Verified(b) && InsertBlock(s, b) == Some(t)
    ensures EvidenceValid(t)
  {
    if b.auxpow.Some? {
      StoredObservations(b.auxpow.value.observations);
      ClassifyStoredRows(b.auxpow.value.observations);
    }
    forall k | k in t.links
      ensures EvidenceAt(t, k)
    {
      if k in s.links {
        assert EvidenceAt(s, k);
      }
    }
    forall k | k in t.witnesses
      ensures ProvedAt(t, k)
    {
      InsertBlockKeepsProofs(s, b, t, k);
    }
  }

  lemma {:induction false} InsertBlocksKeepsEvidence(s: Store, branch: seq<IndexedBlock>, t: Store)
    requires EvidenceValid(s) && InsertBlocks(s, branch) == Some(t) && AllVerified(branch)
    ensures EvidenceValid(t)
    decreases |branch|
  {
    if branch != [] {
      var n := |branch| - 1;
      var m := InsertBlocks(s, branch[..n]).value;
      VerifiedInit(branch);
      InsertBlocksKeepsEvidence(s, branch[..n], m);
      InsertBlockKeepsEvidence(m, branch[n], t);
    }
  }

  lemma SameTablesKeepEvidence(s: Store, t: Store)
    requires EvidenceValid(s) && s.blocks == t.blocks
    requires s.witnesses == t.witnesses && s.links == t.links && s.observations == t.observations
    ensures EvidenceValid(t)
  {
    assert forall k :: k in s.links ==> EvidenceAt(s, k);
    assert forall k :: k in s.witnesses ==> ProvedAt(s, k);
  }
}
