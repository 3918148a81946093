/** The store itself (src/db.rs): tables updated in place by transactions that
    commit whole or leave every table as it was. */
module Databases {
  import opened Wrappers
  import opened OrderedRows
  import opened Schema
  import opened Transactions
  import opened ParentEvidence
  import opened StoreSemantics
  import opened CanonicalChain

  const REFRESH_INTERVAL_SECONDS := 30

  /** Rows the refresh may pick: a selected proof in the recent window whose
      evidence is older than the interval. */
  predicate Refreshable(s: Store, tip: nat, depth: nat, now: int, h: nat) {
    && h in s.canonical && s.canonical[h] in s.links
    && h >= 1 && h >= tip - depth
    && s.links[s.canonical[h]].verifiedAt < now - REFRESH_INTERVAL_SECONDS
  }

  /** The height to refresh: the tip if its evidence is stale, otherwise one with
      the oldest evidence among the stale ones. */
  ghost predicate Candidate(s: Store, depth: nat, now: int, h: nat) {
    exists t, hash ::
      && IsTip(s.canonical, t, hash)
      && Refreshable(s, t, depth, now, h)
      && (h == t || forall k :: Refreshable(s, t, depth, now, k) ==>
            k != t && VerifiedAt(s, h) <= VerifiedAt(s, k))
  }

  function VerifiedAt(s: Store, h: nat): int
    requires h in s.canonical && s.canonical[h] in s.links
  {
    s.links[s.canonical[h]].verifiedAt
  }

  class Database {
    var blocks: map<Hash, BlockRow>
    var witnesses: map<WitnessKey, WitnessRow>
    var positions: map<WitnessKey, map<Index, TxKey>>
    var transactions: map<TxKey, TxRow>
    var inputs: map<TxKey, map<Index, Input>>
    var outputs: map<TxKey, map<Index, OutputRow>>
    var links: map<WitnessKey, AuxLink>
    var observations: map<WitnessKey, map<string, ObservationRow>>
    var canonical: map<nat, WitnessKey>
    var chainState: ChainState
    var reorgEvents: seq<ReorgEvent>

    function LedgerState(): Ledger
      reads this
    {
      Ledger(transactions, inputs, outputs)
    }

    function State(): Store
      reads this
    {
      Store(blocks, witnesses, positions, LedgerState(), links, observations, canonical,
            chainState, reorgEvents)
    }

    constructor ()
      ensures State() == EMPTY_STORE
    {
      blocks, witnesses, positions := map[], map[], map[];
      transactions, inputs, outputs := map[], map[], map[];
      links, observations, canonical := map[], map[], map[];
      chainState := EMPTY_STORE.chainState;
      reorgEvents := [];
    }

    // Dropping an open transaction.
    method Rollback(saved: Store)
      modifies this
      ensures State() == saved
    {
      blocks, witnesses, positions := saved.blocks, saved.witnesses, saved.positions;
      transactions, inputs := saved.ledger.transactions, saved.ledger.inputs;
      outputs := saved.ledger.outputs;
      links, observations, canonical := saved.links, saved.observations, saved.canonical;
      chainState, reorgEvents := saved.chainState, saved.reorgEvents;
    }

    // ---- reads ----

    /** The selector of greatest height. */
    method CanonicalTip() returns (tip: Option<ChainTip>)
      ensures tip.None? <==> canonical == map[]
      ensures tip.Some? ==>
                && IsTip(canonical, tip.value.height, tip.value.hash)
                && canonical[tip.value.height].witnessHash == tip.value.witnessHash
    {
      var rest := canonical.Keys;
      tip := None;
      while rest != {}
        invariant rest <= canonical.Keys
        invariant tip.None? ==> rest == canonical.Keys
        invariant tip.Some? ==>
                    && tip.value.height in canonical
                    && canonical[tip.value.height] == WitnessKey(tip.value.hash, tip.value.witnessHash)
                    && forall h :: h in canonical && h !in rest ==> h <= tip.value.height
      {
        var h :| h in rest;
        rest := rest - {h};
        if tip.None? || tip.value.height < h {
          tip := Some(ChainTip(h, canonical[h].block, canonical[h].witnessHash));
        }
      }
      if canonical != map[] {
        assert canonical.Keys != {};
      }
    }

    method CanonicalHash(height: nat) returns (r: Outcome<Option<Hash>>)
      ensures r.Ok? <==> height <= I64_MAX
      ensures r.Ok? ==>
                r.value == if height in canonical then Some(canonical[height].block) else None
    {
      if height > I64_MAX {
        return Err(InvalidNodeResponse);
      }
      return Ok(if height in canonical then Some(canonical[height].block) else None);
    }

    /** The tip if its evidence is stale, else a recent proof with the oldest
        evidence, else nothing; `now` is the database clock. */
    method EvidenceRefreshCandidate(depth: nat, now: int) returns (r: Outcome<Option<nat>>)
      ensures r.Ok? <==> depth <= I64_MAX
      ensures r.Ok? && r.value.None? ==>
                forall t, h, hash :: IsTip(canonical, t, hash) ==> !Refreshable(State(), t, depth, now, h)
      ensures r.Ok? && r.value.Some? ==> Candidate(State(), depth, now, r.value.value)
    {
      if depth > I64_MAX {
        return Err(InvalidNodeResponse);
      }
      var tip := CanonicalTip();
      if tip.None? {
        return Ok(None);
      }
      var t := tip.value.height;
      if Refreshable(State(), t, depth, now, t) {
        return Ok(Some(t));
      }
      var rest, best := canonical.Keys, None;
      while rest != {}
        invariant rest <= canonical.Keys
        invariant best.None? ==>
                    forall h :: h in canonical && h !in rest ==> !Refreshable(State(), t, depth, now, h)
        invariant best.Some? ==>
                    && Refreshable(State(), t, depth, now, best.value)
                    && forall h :: h !in rest && Refreshable(State(), t, depth, now, h) ==>
                         VerifiedAt(State(), best.value) <= VerifiedAt(State(), h)
      {
        var h :| h in rest;
        rest := rest - {h};
        if Refreshable(State(), t, depth, now, h) &&
           (best.None? || VerifiedAt(State(), h) < VerifiedAt(State(), best.value)) {
          best := Some(h);
        }
      }
      return Ok(best);
    }

    // ---- facts ----

    /** Accepts exactly the submissions of `Accepts`; then every column of the
        transaction and of its lists is stored as supplied, under its own id. */
    method InsertTransaction(tx: RpcTransaction) returns (r: Outcome<TxKey>)
      modifies this`transactions, this`inputs, this`outputs
      ensures r.Ok? <==> Accepts(old(LedgerState()), tx)
      ensures r.Ok? ==> r.value == KeyOf(tx) && LedgerState() == Accepted(old(LedgerState()), tx)
      ensures r.Ok? ==> RowsAreOf(LedgerState(), r.value, tx)
    {
      if Accepts(LedgerState(), tx) {
        AcceptedReadsBack(LedgerState(), tx);
      }
      if !HasDigest(tx) || !ScalarsFit(tx.scalars) {
        return Err(InvalidNodeResponse);
      }
      var key, row := KeyOf(tx), TxRowOf(tx);
      if key !in transactions {
        transactions := transactions[key := row];
      }
      if transactions[key] != row {
        return Err(InvalidNodeResponse);
      }
      r := InsertInputs(key, tx.vin);
      if r.Err? {
        return;
      }
      r := InsertOutputs(key, tx.vout);
    }

    // The read-back comparison: the same number of rows, and each one equal.
    static method SameRows<V(==)>(stored: seq<(Index, V)>, supplied: seq<(Index, V)>)
      returns (same: bool)
      ensures same <==> stored == supplied
    {
      if |stored| != |supplied| {
        return false;
      }
      var i := 0;
      while i < |supplied|
        invariant i <= |supplied| && stored[..i] == supplied[..i]
      {
        if stored[i] != supplied[i] {
          return false;
        }
        i := i + 1;
      }
      return true;
    }

    method InsertInputs(key: TxKey, vin: seq<Input>) returns (r: Outcome<TxKey>)
      modifies this`inputs
      ensures r.Ok? <==>
                && |vin| <= INDEX_LIMIT
                && (forall i :: 0 <= i < |vin| ==> InputFits(vin[i]))
                && Submap(RowsOf(old(inputs), key), FromPairs(InputPairs(vin)))
      ensures r.Ok? ==> r.value == key && inputs == old(inputs)[key := FromPairs(InputPairs(vin))]
    {
      var rows := RowsOf(inputs, key);
      ghost var before := rows;
      var position := 0;
      while position < |vin|
        invariant position <= |vin| && position <= INDEX_LIMIT
        invariant forall i :: 0 <= i < position ==> InputFits(vin[i])
        invariant rows == InsertAll(before, InputPairs(vin[..position]))
      {
        if position > I32_MAX || !InputFits(vin[position]) {
          return Err(Error.Database);
        }
        rows := InsertIgnore(rows, position, vin[position]);
        position := position + 1;
        assert InputPairs(vin[..position])[..position - 1] == InputPairs(vin[..position - 1]);
      }
      assert vin[..position] == vin;
      ReadBackAccepts(before, InputPairs(vin));
      var same := SameRows(Select(rows), InputPairs(vin));
      if !same {
        return Err(InvalidNodeResponse);
      }
      inputs := inputs[key := rows];
      return Ok(key);
    }

    method InsertOutputs(key: TxKey, vout: seq<RpcOutput>) returns (r: Outcome<TxKey>)
      modifies this`outputs
      ensures r.Ok? <==>
                && (forall i :: 0 <= i < |vout| ==> OutputFits(vout[i]))
                && Increasing(OutputPairs(vout))
                && Submap(RowsOf(old(outputs), key), FromPairs(OutputPairs(vout)))
      ensures r.Ok? ==> r.value == key && outputs == old(outputs)[key := FromPairs(OutputPairs(vout))]
    {
      var rows := RowsOf(outputs, key);
      ghost var before := rows;
      var k := 0;
      while k < |vout|
        invariant k <= |vout|
        invariant forall i :: 0 <= i < k ==> OutputFits(vout[i])
        invariant rows == InsertAll(before, OutputPairs(vout[..k]))
      {
        if !OutputFits(vout[k]) {
          return Err(Error.Database);
        }
        rows := InsertIgnore(rows, vout[k].n, OutputRowOf(vout[k]));
        k := k + 1;
        assert OutputPairs(vout[..k])[..k - 1] == OutputPairs(vout[..k - 1]);
      }
      assert vout[..k] == vout;
      ReadBackAccepts(before, OutputPairs(vout));
      var same := SameRows(Select(rows), OutputPairs(vout));
      if !same {
        return Err(InvalidNodeResponse);
      }
      outputs := outputs[key := rows];
      return Ok(key);
    }

    // One row of block_transactions and the comparison after it.
    static method PlaceTransaction(rows: map<Index, TxKey>, position: Index, key: TxKey)
      returns (r: Outcome<map<Index, TxKey>>)
      ensures r.Ok? <==> Place(rows, position, key).Some?
      ensures r.Ok? ==> r.value == Place(rows, position, key).value
    {
      var updated := rows;
      if position !in rows {
        // UNIQUE (block_hash, witness_hash, transaction_instance_id)
        if exists p :: p in rows && rows[p] == key {
          return Err(Error.Database);
        }
        updated := rows[position := key];
      }
      if updated[position] != key {
        return Err(InvalidNodeResponse);
      }
      return Ok(updated);
    }

    /** The transactions of one block and their positions, one after the other. */
    method InsertTransactions(k: WitnessKey, txs: seq<RpcTransaction>) returns (r: Outcome<()>)
      requires |txs| <= I32_MAX
      modifies this`transactions, this`inputs, this`outputs, this`positions
      ensures r.Ok? <==> Puttable(old(LedgerState()), RowsOf(old(positions), k), txs)
      ensures r.Ok? ==>
                && LedgerState() == AcceptAll(old(LedgerState()), txs).value
                && positions ==
                     old(positions)[k := PlaceAll(RowsOf(old(positions), k), Keys(txs)).value]
    {
      ghost var ledger0 := LedgerState();
      var rows: map<Index, TxKey> := RowsOf(positions, k);
      ghost var rows0 := rows;
      var position := 0;
      while position < |txs|
        invariant position <= |txs|
        invariant positions == old(positions)
        invariant PutUpTo(ledger0, rows0, txs, position, LedgerState(), rows)
      {
        PutNext(ledger0, rows0, txs, position, LedgerState(), rows);
        if Puttable(ledger0, rows0, txs) {
          PutFails(ledger0, rows0, txs, position + 1);
        }
        var inserted := InsertTransaction(txs[position]);
        if inserted.Err? {
          return Err(inserted.error);
        }
        var placed := PlaceTransaction(rows, position, inserted.value);
        if placed.Err? {
          return Err(placed.error);
        }
        rows := placed.value;
        position := position + 1;
      }
      assert txs[..position] == txs;
      positions := positions[k := rows];
      return Ok(());
    }

    /** The proof row and the fresh set of observation rows of a block's proof. */
    method InsertEvidence(b: IndexedBlock) returns (r: Outcome<()>)
      modifies this`links, this`observations
      ensures r.Ok? <==> EvidenceFits(b.auxpow)
      ensures r.Ok? ==>
                && links == LinksAfter(old(links), b)
                && observations == ObservationsAfter(old(observations), b)
      ensures r.Ok? ==> EvidenceWritten(old(links), links, old(observations), observations, b)
    {
      hide EvidenceWritten;
      EvidenceIsWritten(links, observations, b);
      if b.auxpow.None? {
        return Ok(());
      }
      var aux := b.auxpow.value;
      links := PutLink(links, b.Key(), aux, b.fetchedAt);
      var rows: map<string, ObservationRow> := map[];
      var i := 0;
      while i < |aux.observations|
        invariant i <= |aux.observations|
        invariant rows == RowsFrom(aux.observations[..i])
        invariant forall j :: 0 <= j < i ==> aux.observations[j].parent.Some? ==>
                    aux.observations[j].parent.value.height <= I64_MAX
      {
        var o := aux.observations[i];
        if o.parent.Some? && o.parent.value.height > I64_MAX {
          return Err(InvalidNodeResponse);
        }
        rows := rows[o.source := RowOf(o)];
        i := i + 1;
        assert aux.observations[..i][..i - 1] == aux.observations[..i - 1];
      }
      assert aux.observations[..i] == aux.observations;
      observations := observations[b.Key() := rows];
      return Ok(());
    }

    // The blocks row, compared after the insertion, and the witness row.
    method InsertBlockRow(b: IndexedBlock) returns (r: Outcome<()>)
      modifies this`blocks, this`witnesses
      ensures r.Ok? <==> BlockFits(b.block) && BlockAccepted(old(blocks), b.block)
      ensures r.Ok? ==>
                && blocks == PutBlock(old(blocks), b.block)
                && witnesses == PutWitness(old(witnesses), b)
      ensures r.Ok? ==> BlockColumns(blocks, b.block) && WitnessWritten(old(witnesses), witnesses, b)
    {
      if !BlockFits(b.block) {
        return Err(InvalidNodeResponse);
      }
      blocks := PutBlock(blocks, b.block);
      if !SameFacts(blocks[b.block.hash], BlockRowOf(b.block)) {
        return Err(InvalidNodeResponse);
      }
      witnesses := PutWitness(witnesses, b);
      return Ok(());
    }

    method InsertBlock(b: IndexedBlock) returns (r: Outcome<()>)
      modifies this
      ensures r.Ok? <==> Insertable(old(State()), b)
      ensures r.Ok? ==> State() == Inserted(old(State()), b)
      ensures r.Ok? ==> BlockWritten(old(State()), State(), b)
    {
      hide BlockWritten, EvidenceWritten, WitnessWritten, BlockColumns, BlockAccepted;
      hide PutBlock, PutWitness, LinksAfter, ObservationsAfter, EvidenceFits, Puttable, AcceptAll;
      ghost var before := State();
      r := InsertBlockRow(b);
      if r.Err? {
        return;
      }
      r := InsertTransactions(b.Key(), b.block.txs);
      if r.Err? {
        return;
      }
      r := InsertEvidence(b);
      if r.Ok? {
        BlockIsWritten(before, b, State());
      }
    }

    // ---- transactions ----

    method InsertCanonicalSelector(b: IndexedBlock) returns (r: Outcome<()>)
      modifies this`canonical
      ensures r.Ok? <==> PutSelector(old(canonical), witnesses, b).Some?
      ensures r.Ok? ==> canonical == PutSelector(old(canonical), witnesses, b).value
      ensures r.Ok? <==>
                || b.block.height in old(canonical)
                || (b.Key() in witnesses
                    && forall h :: h in old(canonical) ==> old(canonical)[h].block != b.block.hash)
      ensures canonical == if r.Err? || b.block.height in old(canonical) then old(canonical)
                           else old(canonical)[b.block.height := b.Key()]
    {
      if b.block.height in canonical {
        return Ok(());
      }
      if SelectsBlock(canonical, b.block.hash) || b.Key() !in witnesses {
        return Err(Error.Database);
      }
      canonical := canonical[b.block.height := b.Key()];
      return Ok(());
    }

    /** Writes the block, selects it at its height and records it as the tip, or
        changes nothing. */
    method CommitBlock(b: IndexedBlock) returns (r: Outcome<()>)
      modifies this
      ensures r.Ok? <==> StoreSemantics.CommitBlock(old(State()), b).Some?
      ensures r.Ok? ==> State() == StoreSemantics.CommitBlock(old(State()), b).value
      ensures r.Ok? ==> BlockWritten(old(State()), State(), b) && BlockSelected(old(State()), State(), b)
      ensures r.Err? ==> State() == old(State())
    {
      hide BlockWritten, BlockSelected, Insertable, Inserted;
      var saved := State();
      r := InsertBlock(b);
      if r.Ok? {
        r := InsertCanonicalSelector(b);
      }
      if r.Ok? && canonical[b.block.height] != b.Key() {
        r := Err(NotReady);
      }
      if r.Err? {
        Rollback(saved);
        return;
      }
      chainState := TipState(chainState, b);
      CommitIsSelected(saved, b, State());
    }

    /** Writes the evidence of this verification, or changes nothing. */
    method RefreshBlockEvidence(b: IndexedBlock) returns (r: Outcome<()>)
      modifies this
      ensures r.Ok? <==> StoreSemantics.InsertBlock(old(State()), b).Some?
      ensures r.Ok? ==> State() == StoreSemantics.InsertBlock(old(State()), b).value
      ensures r.Ok? ==> BlockWritten(old(State()), State(), b)
      ensures r.Err? ==> State() == old(State())
    {
      var saved := State();
      r := InsertBlock(b);
      if r.Err? {
        Rollback(saved);
      }
    }

    static method ValidateReplacementBranch(ancestor: Option<(nat, Hash)>, branch: seq<IndexedBlock>)
      returns (r: Outcome<()>)
      ensures r.Ok? <==> Contiguous(ancestor, branch)
      ensures r.Err? ==> r.error == NotReady
    {
      var expectedHeight := StartAfter(ancestor);
      var expectedPrevious := if ancestor.Some? then Some(ancestor.value.1) else None;
      var i := 0;
      while i < |branch|
        invariant i <= |branch| && Contiguous(ancestor, branch[..i])
        invariant i == 0 ==>
                    && expectedHeight == StartAfter(ancestor)
                    && expectedPrevious == if ancestor.Some? then Some(ancestor.value.1) else None
        invariant i > 0 ==>
                    && expectedHeight == SaturatingNext(branch[i-1].block.height)
                    && expectedPrevious == Some(branch[i-1].block.hash)
      {
        if branch[i].block.height != expectedHeight || branch[i].block.previous != expectedPrevious {
          return Err(NotReady);
        }
        expectedHeight := SaturatingNext(expectedHeight);
        expectedPrevious := Some(branch[i].block.hash);
        i := i + 1;
      }
      assert branch[..i] == branch;
      return Ok(());
    }

    // The facts of a whole branch, and then its selectors.
    method InsertBranch(branch: seq<IndexedBlock>) returns (r: Outcome<()>)
      modifies this
      ensures r.Ok? <==> InsertBlocks(old(State()), branch).Some?
      ensures r.Ok? ==> State() == InsertBlocks(old(State()), branch).value
    {
      hide BlockWritten, Insertable, Inserted;
      ghost var s0 := State();
      var i := 0;
      while i < |branch|
        invariant i <= |branch| && InsertBlocks(s0, branch[..i]) == Some(State())
      {
        assert branch[..i + 1][..i] == branch[..i];
        r := InsertBlock(branch[i]);
        if r.Err? {
          if InsertBlocks(s0, branch).Some? {
            InsertBlocksPrefix(s0, branch, i + 1);
          }
          return;
        }
        i := i + 1;
      }
      assert branch[..i] == branch;
      return Ok(());
    }

    method SelectBranch(branch: seq<IndexedBlock>) returns (r: Outcome<()>)
      modifies this`canonical
      ensures r.Ok? <==> PutSelectors(old(canonical), witnesses, branch).Some?
      ensures r.Ok? ==> canonical == PutSelectors(old(canonical), witnesses, branch).value
    {
      ghost var c0 := canonical;
      var i := 0;
      while i < |branch|
        invariant i <= |branch| && PutSelectors(c0, witnesses, branch[..i]) == Some(canonical)
      {
        assert branch[..i + 1][..i] == branch[..i];
        r := InsertCanonicalSelector(branch[i]);
        if r.Err? {
          if PutSelectors(c0, witnesses, branch).Some? {
            PutSelectorsPrefix(c0, witnesses, branch, i + 1);
          }
          return;
        }
        i := i + 1;
      }
      assert branch[..i] == branch;
      return Ok(());
    }

    /** A moved tip is reported as `NotReady`; every failure changes nothing. */
    method ReplaceCanonicalBranch(tip: ChainTip, ancestor: Option<(nat, Hash)>,
                                  branch: seq<IndexedBlock>)
      returns (r: Outcome<()>)
      modifies this
      ensures r.Ok? <==> ReplaceBranch(old(State()), tip, ancestor, branch).Some?
      ensures r.Ok? ==> State() == ReplaceBranch(old(State()), tip, ancestor, branch).value
      ensures r.Err? ==> State() == old(State())
      ensures tip.height <= I64_MAX && !TipLocked(old(chainState), tip) ==> r == Err(NotReady)
    {
      var saved := State();
      if tip.height > I64_MAX {
        return Err(InvalidNodeResponse);
      }
      if !TipLocked(chainState, tip) {
        return Err(NotReady);
      }
      r := ValidateReplacementBranch(ancestor, branch);
      if r.Ok? {
        r := InsertBranch(branch);
      }
      if r.Ok? && ancestor.Some? && ancestor.value.0 > I64_MAX {
        r := Err(InvalidNodeResponse);
      }
      if r.Ok? {
        r := PublishBranch(tip, ancestor, branch);
      }
      if r.Err? {
        Rollback(saved);
      }
    }

    // Records the event, deletes the selectors above the fork, selects the
    // branch, records the tip and completes the event.
    method PublishBranch(tip: ChainTip, ancestor: Option<(nat, Hash)>, branch: seq<IndexedBlock>)
      returns (r: Outcome<()>)
      modifies this`canonical, this`chainState, this`reorgEvents
      ensures r.Ok? <==> PutSelectors(Prefix(old(canonical), ancestor), witnesses, branch).Some?
      ensures r.Ok? ==>
                && canonical == PutSelectors(Prefix(old(canonical), ancestor), witnesses, branch).value
                && chainState == Publication(old(chainState), ancestor, branch)
                && reorgEvents == old(reorgEvents) + [EventOf(tip, ancestor)]
    {
      var event := ReorgEvent(tip.height, tip.hash, ancestor, false);
      reorgEvents := reorgEvents + [event];
      if ancestor.Some? {
        canonical := map h | h in canonical && h <= ancestor.value.0 :: canonical[h];
      } else {
        canonical := map[];
      }
      assert canonical == Prefix(old(canonical), ancestor);
      r := SelectBranch(branch);
      if r.Ok? {
        chainState := Publication(chainState, ancestor, branch);
        reorgEvents := reorgEvents[|reorgEvents| - 1 := event.(completed := true)];
      }
    }

    // ---- node tip and status ----

    /** Records the node's tip; from then on the index is syncing unless its own
        recorded tip is that block. */
    method ObserveNodeTip(height: nat, hash: Hash) returns (r: Outcome<()>)
      modifies this`chainState
      ensures r.Ok? ==> TipObserved(old(chainState), chainState, height, hash)
      ensures r.Ok? <==> ObserveTip(old(State()), height, hash).Some?
      ensures r.Ok? ==> State() == ObserveTip(old(State()), height, hash).value
      ensures r.Err? ==> State() == old(State())
    {
      if height > I64_MAX {
        return Err(InvalidNodeResponse);
      }
      var current := chainState.indexedHeight == Some(height) && chainState.indexedHash == Some(hash);
      chainState := chainState.(nodeHeight := Some(height), nodeHash := Some(hash));
      if !current {
        chainState := chainState.(status := Syncing);
      }
      return Ok(());
    }

    method UpdateNodeTip(height: nat, hash: Hash, status: Status) returns (r: Outcome<()>)
      modifies this`chainState
      ensures r.Ok? <==> UpdateTip(old(State()), height, hash, status).Some?
      ensures r.Ok? ==> State() == UpdateTip(old(State()), height, hash, status).value
      ensures r.Err? ==> State() == old(State())
    {
      if height > I64_MAX {
        return Err(InvalidNodeResponse);
      }
      chainState := chainState.(nodeHeight := Some(height), nodeHash := Some(hash),
                                status := status, lastError := None);
      return Ok(());
    }

    method MarkIndexerError(text: string)
      modifies this`chainState
      ensures ErrorMarked(old(chainState), chainState, text)
      ensures State() == MarkError(old(State()), text)
    {
      chainState := chainState.(status := Failed, lastError := Some(Truncate(text, 1000)));
    }
  }
}
