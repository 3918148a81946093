/** A run that ends in a history which is not orderly: its first block spends an
    output in a transaction before the one that creates it. */
module EarlySpend {
  import opened Wrappers
  import opened OrderedRows
  import opened Schema
  import opened Transactions
  import opened StoreSemantics
  import opened Protocol
  import opened History
  import opened Sums
  import opened AddressViews
  import opened RunningBalance

  const SOME_KEY := WitnessKey(Hash(1), Hash(1))
  const THE_INPUT := Input(Some(Hash(5)), Some(0), None, None)
  const SPENDER := Event(0, 0, SOME_KEY, TxKey(Hash(4), Hash(14)), false, [(0 as Index, THE_INPUT)], [])
  const PAYER := Event(0, 1, SOME_KEY, TxKey(Hash(5), Hash(15)), false, [],
                       [(0 as Index, OutputRow(7, Some("a"), None, None))])

  const THE_COIN := Coin(1, 0, Hash(5), false, 0, 7, Some("a"))
  const THE_SPEND := Spend(0, Hash(5), 0)

  lemma EarlyTables()
    ensures var h := [SPENDER, PAYER];
            && Coins(h) == [THE_COIN] && Spends(h) == [THE_SPEND]
            && h[..1] == [SPENDER] && Coins(h[..1]) == []
  {
    var h := [SPENDER, PAYER];
    assert h[..1] == [SPENDER] && h[..1][..0] == [] && SPENDER.inputs[..0] == [];
    assert SpendsIn(SPENDER.inputs, 0) == [THE_SPEND] && SpendsIn(PAYER.inputs, 1) == [];
    assert Spends(h[..1]) == [THE_SPEND];
    assert Spends(h) == Spends(h[..1]) + [];
    assert CoinsOf(SPENDER, 0) == [] && CoinsOf(PAYER, 1) == [THE_COIN];
    assert Coins(h[..1]) == [];
    assert Coins(h) == [] + CoinsOf(h[1], 1);
  }

  lemma EarlyCounts()
    ensures var h := [SPENDER, PAYER];
            SpendCount(h, "a", THE_COIN) == 1 && UsesBelow(h, THE_COIN, 1) == 1 && Uses(h, THE_COIN) == 1
  {
    var h, a := [SPENDER, PAYER], "a";
    EarlyTables();
    SumOne(THE_SPEND, (p: Spend) => if Matches(THE_COIN, p) then 1 else 0);
    SumOne(THE_SPEND, (p: Spend) => if p.event < 1 && Matches(THE_COIN, p) then 1 else 0);
    SumOne(THE_COIN, (r: Coin) =>
      if Owned(a, r) && r.txid == THE_COIN.txid && r.index == THE_COIN.index then Uses(h, r) else 0);
  }

  lemma EarlyBalances()
    ensures var h := [SPENDER, PAYER];
            && Ordered(h) && AllPriced(h)
            && (exists row :: row in Activity(h, "a", |h|) && row.event == 0 && row.balanceAfter == -7)
            && Balance(h[..1], "a") == 0
            && Anomalies(h, "a") == 0
            && LastBalance(Activity(h, "a", |h|)) == Balance(h, "a") == 0
  {
    var h, a := [SPENDER, PAYER], "a";
    EarlyTables();
    EarlyCounts();
    SumOne(THE_COIN, c => Flow(h, a, c, 1));
    RunningIsFlow(h, a, 1);
    SumOne(THE_COIN, (c: Coin) => if Owned(a, c) then Excess(SpendCount(h, a, c)) else 0);
    var zero := (c: Coin) => SpendCount(h, a, c) == 0;
    SumOne(THE_COIN, (c: Coin) => if Owned(a, c) && zero(c) then c.value else 0);
    LastRowIsUnspent(h, a);
    assert THE_SPEND in Spends(h) && Involves(h, a, THE_COIN, 0);
    var row := RowFor(h, a, 0);
  }

  // ---- the run ----

  const SCALARS := TxScalars(4, 1, 0, 0, None, 0, 0, 0, 0)
  const SPENDING_TX := RpcTransaction(Hash(4), None, Hash(14), SCALARS, [THE_INPUT], [])
  const PAYING_TX := RpcTransaction(Hash(5), None, Hash(15), SCALARS, [],
                                    [RpcOutput(0, 7, ScriptPubKey(Some("a"), [], None, None))])
  const FIRST_BLOCK := IndexedBlock(
    RpcBlock(Hash(1), 0, None, BlockFacts(Hash(1), None, 0, 1, "", "", None), "", 1, [SPENDING_TX, PAYING_TX]),
    Hash(1), None, 0)
  const EARLY_RUN := [Commit(FIRST_BLOCK)]

  lemma TransactionsAccepted()
    ensures AcceptAll(EMPTY_STORE.ledger, FIRST_BLOCK.block.txs).Some?
  {
    var l, txs := EMPTY_STORE.ledger, FIRST_BLOCK.block.txs;
    assert txs[..1] == [SPENDING_TX] && [SPENDING_TX][..0] == [];
    assert Accepts(l, SPENDING_TX);
    var m := Accepted(l, SPENDING_TX);
    assert AcceptAll(l, [SPENDING_TX]) == Some(m);
    assert KeyOf(PAYING_TX) !in m.transactions;
    assert Accepts(m, PAYING_TX);
  }

  lemma TransactionsPlaced()
    ensures PlaceAll(map[], Keys(FIRST_BLOCK.block.txs)).Some?
  {
    var keys := Keys(FIRST_BLOCK.block.txs);
    assert keys[..1] == [KeyOf(SPENDING_TX)] && keys[..1][..0] == [];
    assert PlaceAll(map[], keys[..1]) == Some(map[0 := KeyOf(SPENDING_TX)]);
  }

  lemma FirstBlockCommits()
    ensures CommitBlock(EMPTY_STORE, FIRST_BLOCK).Some?
  {
    TransactionsAccepted();
    TransactionsPlaced();
    assert RowsOf(EMPTY_STORE.positions, FIRST_BLOCK.Key()) == map[];
    assert Insertable(EMPTY_STORE, FIRST_BLOCK);
    EmptyIsValid();
    CanonicalChain.CommitSucceeds(EMPTY_STORE, FIRST_BLOCK);
  }

  lemma RunOfOne(s: Store)
    requires CommitBlock(EMPTY_STORE, FIRST_BLOCK) == Some(s)
    ensures Execute(EMPTY_STORE, EARLY_RUN) == Some(s) && Valid(s)
  {
    EmptyIsValid();
    ExecuteNext(EMPTY_STORE, [], EMPTY_STORE, Commit(FIRST_BLOCK));
    assert [] + [Commit(FIRST_BLOCK)] == EARLY_RUN;
    RunKeepsValid(EMPTY_STORE, EARLY_RUN, s);
  }

  lemma OneBlockHistory(s: Store)
    requires CanonicalChain.ChainValid(s) && s.canonical == map[0 := SOME_KEY]
    ensures HistoryOf(s) == BlockEvents(s, 0, SOME_KEY)
  {
    HistoryIsBelow(s, 1);
    assert HistoryBelow(s, 0) == [];
  }

  lemma RunHistory(s: Store)
    requires CommitBlock(EMPTY_STORE, FIRST_BLOCK) == Some(s)
    ensures HistoryOf(s) == [SPENDER, PAYER]
  {
    hide CommitBlock, HistoryOf, BlockEvents;
    EmptyIsValid();
    CommitSelects(EMPTY_STORE, FIRST_BLOCK, s);
    OneBlockHistory(s);
    CommitRows(EMPTY_STORE, FIRST_BLOCK, s);
    BlockRowsAre(BlockEvents(s, 0, SOME_KEY));
  }

  lemma BlockRowsAre(events: seq<Event>)
    requires AreEvents(events, 0, SOME_KEY, FIRST_BLOCK.block.txs)
    ensures events == [SPENDER, PAYER]
  {
    var spender, payer := events[0], events[1];
    assert ShowsTransaction(spender, 0, 0, SOME_KEY, SPENDING_TX);
    assert ShowsTransaction(payer, 0, 1, SOME_KEY, PAYING_TX);
    assert spender.inputs == SPENDER.inputs && payer.outputs[0].0 == 0;
    var row := payer.outputs[0].1;
    assert row.address == Some("a") && payer.outputs == [(0 as Index, row)];
    assert row == OutputRow(7, Some("a"), None, None);
  }

  /** The order condition is needed in reachable stores: from an empty database one
      commit leads to a valid store whose activity goes below zero, while the page
      reports neither an anomaly nor a different final balance. */
  lemma EarlySpendGoesNegative()
    ensures Execute(EMPTY_STORE, EARLY_RUN).Some?
    ensures var s := Execute(EMPTY_STORE, EARLY_RUN).value;
            var h := HistoryOf(s);
            && Valid(s) && |h| == 2
            && (exists row :: row in Activity(h, "a", |h|) && row.event == 0 && row.balanceAfter == -7)
            && Balance(h[..1], "a") == 0
            && Anomalies(h, "a") == 0
            && LastBalance(Activity(h, "a", |h|)) == Balance(h, "a") == 0
  {
    FirstBlockCommits();
    var s := CommitBlock(EMPTY_STORE, FIRST_BLOCK).value;
    RunOfOne(s);
    RunHistory(s);
    EarlyBalances();
  }
}
