/** The canonical history: the rows of canonical_chain joined with block
    positions and transactions, in chain order. All views read these rows. */
module History {
  import opened Wrappers
  import opened OrderedRows
  import opened Schema
  import opened Transactions
  import opened StoreSemantics
  import opened CanonicalChain
  import opened StoredFacts
  import opened Universes
  import Protocol

  datatype Event = Event(height: nat, position: nat, block: WitnessKey, key: TxKey,
                         coinbase: bool, inputs: seq<(Index, Input)>,
                         outputs: seq<(Index, OutputRow)>)

  // Height before position.
  predicate Before(a: Event, b: Event) {
    a.height < b.height || (a.height == b.height && a.position < b.position)
  }

  ghost predicate Ordered(h: seq<Event>) {
    forall i, j :: 0 <= i < j < |h| ==> Before(h[i], h[j])
  }

  // Amounts as the schema holds them.
  ghost predicate Priced(e: Event) {
    forall j :: 0 <= j < |e.outputs| ==> 0 <= e.outputs[j].1.value
  }

  ghost function EventOf(ledger: Ledger, height: nat, position: nat, k: WitnessKey, key: TxKey): Event {
    Event(height, position, k, key, key in ledger.transactions && ledger.transactions[key].isCoinbase,
          Select(RowsOf(ledger.inputs, key)), Select(RowsOf(ledger.outputs, key)))
  }

  ghost function BlockEvents(s: Store, height: nat, k: WitnessKey): (r: seq<Event>)
    ensures var rows := Select(RowsOf(s.positions, k));
            && |r| == |rows|
            && forall i :: 0 <= i < |r| ==> r[i] == EventOf(s.ledger, height, rows[i].0, k, rows[i].1)
  {
    var rows := Select(RowsOf(s.positions, k));
    seq(|rows|, i requires 0 <= i < |rows| => EventOf(s.ledger, height, rows[i].0, k, rows[i].1))
  }

  /** The rows of all selected heights below `n`. */
  ghost function HistoryBelow(s: Store, n: nat): seq<Event> {
    if n == 0 then []
    else if n - 1 in s.canonical then
      HistoryBelow(s, n - 1) + BlockEvents(s, n - 1, s.canonical[n - 1])
    else HistoryBelow(s, n - 1)
  }

  ghost predicate IsEvent(s: Store, e: Event) {
    && e.height in s.canonical && e.block == s.canonical[e.height]
    && e.position < INDEX_LIMIT
    && e.position in RowsOf(s.positions, e.block)
    && e == EventOf(s.ledger, e.height, e.position, e.block, RowsOf(s.positions, e.block)[e.position])
  }

  lemma BlockEventsHold(s: Store, height: nat)
    requires height in s.canonical
    ensures var r := BlockEvents(s, height, s.canonical[height]);
            && Ordered(r)
            && (forall i :: 0 <= i < |r| ==> IsEvent(s, r[i]) && r[i].height == height)
            && forall e :: IsEvent(s, e) && e.height == height ==> e in r
  {
    var k := s.canonical[height];
    var rows := RowsOf(s.positions, k);
    ScanSound(rows, INDEX_LIMIT);
    forall e | IsEvent(s, e) && e.height == height
      ensures e in BlockEvents(s, height, k)
    {
      var p := (e.position, rows[e.position]);
      assert p in Select(rows);
      var i :| 0 <= i < |Select(rows)| && Select(rows)[i] == p;
      assert BlockEvents(s, height, k)[i] == e;
    }
  }

  /** In every store, the history lists each joined row exactly once, by height
      and then by position. */
  lemma {:induction false} HistoryExact(s: Store, n: nat)
    ensures Ordered(HistoryBelow(s, n))
    ensures forall e :: e in HistoryBelow(s, n) <==> IsEvent(s, e) && e.height < n
  {
    if n > 0 {
      HistoryExact(s, n - 1);
      if n - 1 in s.canonical {
        BlockEventsHold(s, n - 1);
        AppendOrdered(HistoryBelow(s, n - 1), BlockEvents(s, n - 1, s.canonical[n - 1]), n - 1);
      }
    }
  }

  lemma AppendOrdered(a: seq<Event>, b: seq<Event>, height: nat)
    requires Ordered(a) && Ordered(b)
    requires forall e :: e in a ==> e.height < height
    requires forall e :: e in b ==> e.height == height
    ensures Ordered(a + b)
  {
    assert forall i :: 0 <= i < |a| ==> a[i] in a;
    assert forall i :: 0 <= i < |b| ==> b[i] in b;
  }

  /** In a valid store the amounts are non-negative. */
  lemma HistoryPriced(s: Store, n: nat)
    requires ChainValid(s) && FactsValid(s)
    ensures forall e :: e in HistoryBelow(s, n) ==> Priced(e)
  {
    HistoryExact(s, n);
    forall e | e in HistoryBelow(s, n)
      ensures Priced(e)
    {
      assert SelectedAt(s, e.height) && PositionsAt(s, e.block);
      assert ListsAt(s.ledger, e.key);
      ScanSound(RowsOf(s.ledger.outputs, e.key), INDEX_LIMIT);
    }
  }

  // All of it.
  ghost function HistoryOf(s: Store): seq<Event> {
    if s.chainState.indexedHeight.Some? then HistoryBelow(s, s.chainState.indexedHeight.value + 1) else []
  }

  /** What all views start from: in a valid store the whole history is ordered,
      priced, complete and free of duplicates. */
  lemma HistoryOfValid(s: Store)
    requires ChainValid(s) && FactsValid(s)
    ensures Ordered(HistoryOf(s))
    ensures forall e :: e in HistoryOf(s) ==> Priced(e)
    ensures forall e :: e in HistoryOf(s) <==> IsEvent(s, e)
  {
    if s.chainState.indexedHeight.Some? {
      HistoryExact(s, s.chainState.indexedHeight.value + 1);
      HistoryPriced(s, s.chainState.indexedHeight.value + 1);
    }
  }

  // ---- later stores ----

  // A stored transaction is the one the universe has under its key.
  lemma SameEvent(a: Ledger, b: Ledger, net: Universe, height: nat, position: nat, k: WitnessKey,
                  key: TxKey)
    requires LedgerCoherent(a, net) && LedgerCoherent(b, net)
    requires key in a.transactions && key in b.transactions
    ensures EventOf(a, height, position, k, key) == EventOf(b, height, position, k, key)
  {
    assert TxCoherent(a, net, key) && TxCoherent(b, net, key);
  }

  lemma SamePositions(s: Store, t: Store, k: WitnessKey)
    requires FactsValid(s) && FactsValid(t) && Grows(s, t) && k in s.witnesses
    ensures k in t.witnesses && RowsOf(s.positions, k) == RowsOf(t.positions, k)
  {
    var a, b := RowsOf(s.positions, k), RowsOf(t.positions, k);
    assert PositionsAt(s, k) && PositionsAt(t, k) && Submap(a, b);
    assert forall i: Index :: i in b ==> i in a;
  }

  lemma SameEvents(s: Store, t: Store, net: Universe, height: nat, k: WitnessKey)
    requires WellFormed(net) && Coherent(s, net) && Coherent(t, net) && Grows(s, t)
    requires FactsValid(s) && FactsValid(t) && k in s.witnesses
    ensures BlockEvents(s, height, k) == BlockEvents(t, height, k)
  {
    SamePositions(s, t, k);
    var rows := RowsOf(s.positions, k);
    ScanSound(rows, INDEX_LIMIT);
    assert PositionsAt(s, k);
    forall i | 0 <= i < |Select(rows)|
      ensures BlockEvents(s, height, k)[i] == BlockEvents(t, height, k)[i]
    {
      SameEvent(s.ledger, t.ledger, net, height, Select(rows)[i].0, k, Select(rows)[i].1);
    }
  }

  // The same selectors with the same rows, below `n`.
  ghost predicate SameBelow(s: Store, t: Store, n: nat) {
    && (forall h: nat :: h < n ==> (h in s.canonical <==> h in t.canonical))
    && (forall h: nat :: h < n && h in s.canonical ==>
          && s.canonical[h] == t.canonical[h]
          && BlockEvents(s, h, s.canonical[h]) == BlockEvents(t, h, s.canonical[h]))
  }

  lemma {:induction false} SameHistory(s: Store, t: Store, n: nat)
    requires SameBelow(s, t, n)
    ensures HistoryBelow(t, n) == HistoryBelow(s, n)
  {
    if n > 0 {
      SameHistory(s, t, n - 1);
    }
  }

  /** Between two moments of a genuine run, the history of a shared prefix of
      selectors is the same row for row: new blocks only append to it. */
  lemma HistoryStays(s: Store, t: Store, net: Universe, n: nat)
    requires WellFormed(net) && Coherent(s, net) && Coherent(t, net) && Grows(s, t)
    requires ChainValid(s) && FactsValid(s) && FactsValid(t)
    requires forall h: nat :: h < n ==> (h in s.canonical <==> h in t.canonical)
    requires forall h: nat :: h < n && h in s.canonical ==> s.canonical[h] == t.canonical[h]
    ensures SameBelow(s, t, n) && HistoryBelow(t, n) == HistoryBelow(s, n)
  {
    forall h: nat | h < n && h in s.canonical
      ensures BlockEvents(s, h, s.canonical[h]) == BlockEvents(t, h, s.canonical[h])
    {
      assert SelectedAt(s, h);
      SameEvents(s, t, net, h, s.canonical[h]);
    }
    SameHistory(s, t, n);
  }

  lemma PositionsAreKeys(txs: seq<RpcTransaction>, rows: map<Index, TxKey>)
    requires |txs| <= I32_MAX && forall i: Index :: i < |txs| ==> HasDigest(txs[i])
    requires forall i: Index :: i in rows <==> i < |txs|
    requires forall i: Index :: i < |txs| ==> rows[i] == KeyOf(txs[i])
    ensures |Select(rows)| == |txs|
    ensures forall i: Index :: i < |txs| ==> Select(rows)[i] == (i, KeyOf(txs[i]))
  {
    var pairs := seq(|txs|, i requires 0 <= i < |txs| => (i as Index, rows[i]));
    FromPairsHolds(pairs);
    forall i: Index
      ensures i in rows <==> i in FromPairs(pairs)
      ensures i in rows ==> rows[i] == FromPairs(pairs)[i]
    {
      if i < |txs| {
        assert pairs[i].0 == i;
      }
    }
    assert rows == FromPairs(pairs);
    SelectFromPairs(pairs);
  }

  // The row of a transaction as supplied, column by column.
  ghost predicate ShowsTransaction(e: Event, height: nat, position: nat, k: WitnessKey,
                                   tx: RpcTransaction)
  {
    && e.height == height && e.position == position && e.block == k
    && Identifies(e.key, tx)
    && (e.coinbase <==> exists input :: input in tx.vin && input.coinbase.Some?)
    && |e.inputs| == |tx.vin|
    && (forall j :: 0 <= j < |tx.vin| ==> e.inputs[j].0 == j && e.inputs[j].1 == tx.vin[j])
    && |e.outputs| == |tx.vout|
    && (forall j :: 0 <= j < |tx.vout| ==>
          e.outputs[j].0 == tx.vout[j].n && OutputColumn(e.outputs[j].1, tx.vout[j]))
  }

  lemma StoredEvent(ledger: Ledger, height: nat, position: nat, k: WitnessKey, tx: RpcTransaction)
    requires StoredAs(ledger, tx)
    ensures ShowsTransaction(EventOf(ledger, height, position, k, KeyOf(tx)), height, position, k, tx)
  {
    RowColumns(tx);
    SelectFromPairs(InputPairs(tx.vin));
    SelectFromPairs(OutputPairs(tx.vout));
    forall j | 0 <= j < |tx.vout|
      ensures OutputPairs(tx.vout)[j].0 == tx.vout[j].n
      ensures OutputColumn(OutputPairs(tx.vout)[j].1, tx.vout[j])
    {
      OutputRowColumns(tx.vout[j]);
    }
  }

  // One event for each transaction, in the order of the block, as supplied.
  ghost predicate AreEvents(events: seq<Event>, height: nat, k: WitnessKey, txs: seq<RpcTransaction>) {
    && |events| == |txs|
    && forall i :: 0 <= i < |txs| ==> ShowsTransaction(events[i], height, i, k, txs[i])
  }

  lemma EventsOfTransactions(t: Store, height: nat, k: WitnessKey, txs: seq<RpcTransaction>)
    requires |txs| <= I32_MAX && forall i: Index :: i < |txs| ==> StoredAs(t.ledger, txs[i])
    requires forall i: Index :: i in RowsOf(t.positions, k) <==> i < |txs|
    requires forall i: Index :: i < |txs| ==>
               HasDigest(txs[i]) && RowsOf(t.positions, k)[i] == KeyOf(txs[i])
    ensures AreEvents(BlockEvents(t, height, k), height, k, txs)
  {
    PositionsAreKeys(txs, RowsOf(t.positions, k));
    forall i: Index | i < |txs|
      ensures ShowsTransaction(BlockEvents(t, height, k)[i], height, i, k, txs[i])
    {
      StoredEvent(t.ledger, height, i, k, txs[i]);
    }
  }

  /** In a genuine store the rows of a witness are those of the transactions of the
      block that its hash means, in block order and column by column. */
  lemma GenuineEvents(s: Store, net: Universe, height: nat, k: WitnessKey)
    requires WellFormed(net) && Coherent(s, net) && FactsValid(s) && k in s.witnesses
    ensures AreEvents(BlockEvents(s, height, k), height, k, net.block(k.block).txs)
  {
    var txs := net.block(k.block).txs;
    assert PositionsAt(s, k) && PositionsCoherent(s, net, k) && WellFormedBlock(net, net.block(k.block));
    assert |txs| == s.blocks[k.block].transactionCount;
    forall i: Index | i < |txs|
      ensures HasDigest(txs[i]) && RowsOf(s.positions, k)[i] == KeyOf(txs[i]) && StoredAs(s.ledger, txs[i])
    {
      assert KnownTx(net, txs[i]) && i in s.positions[k];
      assert TxCoherent(s.ledger, net, KeyOf(txs[i]));
    }
    EventsOfTransactions(s, height, k, txs);
  }

  /** The history of a genuine store is the transactions of its canonical blocks:
      exactly one row for each height and position, showing that transaction. After
      a replacement it is so again, with nothing left of the old branch. */
  lemma HistoryIsChain(s: Store, net: Universe, height: nat, position: nat)
    requires WellFormed(net) && Coherent(s, net) && ChainValid(s) && FactsValid(s)
    ensures (exists e :: e in HistoryOf(s) && e.height == height && e.position == position) <==>
            height in s.canonical && position < |net.block(s.canonical[height].block).txs|
    ensures forall e :: e in HistoryOf(s) && e.height == height && e.position == position ==>
              height in s.canonical && position < |net.block(s.canonical[height].block).txs| &&
              ShowsTransaction(e, height, position, s.canonical[height],
                               net.block(s.canonical[height].block).txs[position])
  {
    HistoryOfValid(s);
    if height in s.canonical {
      assert SelectedAt(s, height);
      GenuineEvents(s, net, height, s.canonical[height]);
      BlockEventsHold(s, height);
      var events := BlockEvents(s, height, s.canonical[height]);
      if position < |events| {
        assert ShowsTransaction(events[position], height, position, s.canonical[height],
                                net.block(s.canonical[height].block).txs[position]);
        assert events[position] in events && IsEvent(s, events[position]);
      }
      forall e | e in HistoryOf(s) && e.height == height && e.position == position
        ensures position < |events| && e == events[position]
      {
        var i :| 0 <= i < |events| && events[i] == e;
        assert ShowsTransaction(events[i], height, i, s.canonical[height],
                                net.block(s.canonical[height].block).txs[i]);
      }
    }
  }

  lemma CommittedEvents(s: Store, b: IndexedBlock, t: Store)
    requires FactsValid(s) && InsertBlock(s, b) == Some(t)
    ensures AreEvents(BlockEvents(t, b.block.height, b.Key()), b.block.height, b.Key(), b.block.txs)
  {
    InsertBlockStores(s, b, t);
    EventsOfTransactions(t, b.block.height, b.Key(), b.block.txs);
  }

  lemma HistoryIsBelow(s: Store, n: nat)
    requires ChainValid(s) && forall h: nat :: h in s.canonical <==> h < n
    ensures HistoryOf(s) == HistoryBelow(s, n)
  {
    if n > 0 {
      assert n - 1 in s.canonical && n !in s.canonical;
    }
  }

  lemma AppendedHistory(s: Store, t: Store, n: nat, k: WitnessKey)
    requires ChainValid(s) && ChainValid(t)
    requires forall h: nat :: h in s.canonical <==> h < n
    requires t.canonical == s.canonical[n := k]
    requires HistoryBelow(t, n) == HistoryBelow(s, n)
    ensures HistoryOf(t) == HistoryOf(s) + BlockEvents(t, n, k)
  {
    HistoryIsBelow(s, n);
    HistoryIsBelow(t, n + 1);
  }

  lemma {:induction false} HistoryPrefix(t: Store, n: nat, m: nat)
    requires n <= m
    ensures HistoryBelow(t, n) <= HistoryBelow(t, m)
    decreases m
  {
    if n < m {
      HistoryPrefix(t, n, m - 1);
    }
  }

  lemma KeptTip(s: Store, t: Store)
    requires ChainValid(s) && ChainValid(t) && KeepsSelection(s, t)
    requires s.chainState.indexedHeight.Some?
    ensures t.chainState.indexedHeight.Some?
    ensures s.chainState.indexedHeight.value <= t.chainState.indexedHeight.value
  {
    assert s.chainState.indexedHeight.value in t.canonical;
  }

  lemma KeptHistory(s: Store, t: Store, net: Universe, n: nat)
    requires WellFormed(net) && Coherent(s, net) && Coherent(t, net) && Grows(s, t)
    requires ChainValid(s) && FactsValid(s) && FactsValid(t)
    requires KeepsSelection(s, t) && forall h: nat :: h in s.canonical <==> h < n
    ensures HistoryBelow(t, n) == HistoryBelow(s, n)
  {
    HistoryStays(s, t, net, n);
  }

  lemma GrownHistory(s: Store, t: Store, n: nat)
    requires ChainValid(s) && ChainValid(t) && KeepsSelection(s, t)
    requires s.chainState.indexedHeight == if n == 0 then None else Some((n - 1) as nat)
    requires HistoryBelow(t, n) == HistoryBelow(s, n)
    ensures HistoryOf(s) <= HistoryOf(t)
  {
    hide ChainValid, KeepsSelection, BlockEvents;
    if n > 0 {
      KeptTip(s, t);
      HistoryPrefix(t, n, t.chainState.indexedHeight.value + 1);
    }
  }

  /** While blocks are only appended, the history only grows at its end. */
  lemma ExtensionAppends(s: Store, t: Store, net: Universe)
    requires WellFormed(net) && Coherent(s, net) && Coherent(t, net) && Grows(s, t)
    requires ChainValid(s) && FactsValid(s) && FactsValid(t) && ChainValid(t)
    requires KeepsSelection(s, t)
    ensures HistoryOf(s) <= HistoryOf(t)
  {
    var n := if s.chainState.indexedHeight.Some? then s.chainState.indexedHeight.value + 1 else 0;
    assert forall h: nat :: h in s.canonical <==> h < n;
    KeptHistory(s, t, net, n);
    GrownHistory(s, t, n);
  }

  lemma CommitSelects(s: Store, b: IndexedBlock, t: Store)
    requires ChainValid(s) && Follows(s.canonical, b.block) && CommitBlock(s, b) == Some(t)
    ensures forall h: nat :: h in s.canonical <==> h < b.block.height
    ensures t.canonical == s.canonical[b.block.height := b.Key()]
    ensures ChainValid(t)
  {
    CommitSucceeds(s, b);
    FollowsTipHeights(s, b.block);
    CommitKeepsChain(s, b, t);
  }

  lemma StaysBelow(s: Store, t: Store, net: Universe, n: nat, k: WitnessKey)
    requires WellFormed(net) && Coherent(s, net) && Coherent(t, net) && Grows(s, t)
    requires ChainValid(s) && FactsValid(s) && FactsValid(t)
    requires t.canonical == s.canonical[n := k]
    ensures HistoryBelow(t, n) == HistoryBelow(s, n)
  {
    HistoryStays(s, t, net, n);
  }

  lemma CommitCoherent(s: Store, net: Universe, b: IndexedBlock, t: Store)
    requires WellFormed(net) && Coherent(s, net)
    requires Genuine(net, b.block) && EvidenceFits(b.auxpow) && CommitBlock(s, b) == Some(t)
    ensures Coherent(t, net)
  {
    InsertGenuine(s, net, b);
    SameFactsCoherent(InsertBlock(s, b).value, t, net);
  }

  /** Committing a genuine block appends exactly that block's transactions, in
      block order and column by column as supplied, to the history. */
  lemma CommitAppends(s: Store, net: Universe, b: IndexedBlock, t: Store)
    requires WellFormed(net) && Coherent(s, net)
    requires Genuine(net, b.block) && EvidenceFits(b.auxpow)
    requires Protocol.Valid(s) && Protocol.Enabled(s, Protocol.Commit(b))
    requires CommitBlock(s, b) == Some(t)
    ensures HistoryOf(t) == HistoryOf(s) + BlockEvents(t, b.block.height, b.Key())
    ensures AreEvents(BlockEvents(t, b.block.height, b.Key()), b.block.height, b.Key(), b.block.txs)
  {
    CommitSelects(s, b, t);
    CommitCoherent(s, net, b, t);
    assert FactsValid(t) && Grows(s, t) by {
      Protocol.CommitKeepsValid(s, b, t);
    }
    StaysBelow(s, t, net, b.block.height, b.Key());
    AppendedHistory(s, t, b.block.height, b.Key());
    CommitRows(s, b, t);
  }

  lemma CommitRows(s: Store, b: IndexedBlock, t: Store)
    requires FactsValid(s) && CommitBlock(s, b) == Some(t)
    ensures AreEvents(BlockEvents(t, b.block.height, b.Key()), b.block.height, b.Key(), b.block.txs)
  {
    CommittedEvents(s, b, InsertBlock(s, b).value);
  }
}
