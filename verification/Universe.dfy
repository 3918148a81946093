/** A world in which a hash fixes a block and a key fixes a transaction, whatever
    chains the node serves over time. In it no fact is ever refused. */
module Universes {
  import opened Wrappers
  import opened OrderedRows
  import opened Schema
  import opened Transactions
  import opened StoreSemantics
  import opened CanonicalChain

  datatype Universe = Universe(block: Hash -> RpcBlock, tx: TxKey -> RpcTransaction)

  ghost predicate KnownTx(net: Universe, tx: RpcTransaction) {
    TxFits(tx) && Increasing(OutputPairs(tx.vout)) && net.tx(KeyOf(tx)) == tx
  }

  ghost predicate KnownTxs(net: Universe, txs: seq<RpcTransaction>) {
    forall i :: 0 <= i < |txs| ==> KnownTx(net, txs[i])
  }

  // Blocks the schema can hold, with pairwise different transactions.
  ghost predicate WellFormedBlock(net: Universe, b: RpcBlock) {
    && BlockFits(b)
    && KnownTxs(net, b.txs)
    && forall i, j :: 0 <= i < j < |b.txs| ==> KeyOf(b.txs[i]) != KeyOf(b.txs[j])
  }

  ghost predicate WellFormed(net: Universe) {
    forall hash :: net.block(hash).hash == hash && WellFormedBlock(net, net.block(hash))
  }

  /** `b` is the block its hash names; confirmations and the uncompared
      difficulty text may differ from answer to answer. */
  ghost predicate Genuine(net: Universe, b: RpcBlock) {
    b == net.block(b.hash).(confirmations := b.confirmations, difficulty := b.difficulty)
  }

  ghost predicate GenuineAll(net: Universe, branch: seq<IndexedBlock>) {
    forall i :: 0 <= i < |branch| ==> Genuine(net, branch[i].block) && EvidenceFits(branch[i].auxpow)
  }

  // ---- stores that hold only genuine facts ----

  ghost predicate TxCoherent(ledger: Ledger, net: Universe, key: TxKey) {
    if key in ledger.transactions then
      StoredAs(ledger, net.tx(key)) && KeyOf(net.tx(key)) == key
    else
      RowsOf(ledger.inputs, key) == map[] && RowsOf(ledger.outputs, key) == map[]
  }

  ghost predicate LedgerCoherent(ledger: Ledger, net: Universe) {
    forall key :: TxCoherent(ledger, net, key)
  }

  ghost predicate RowsCoherent(rows: map<Index, TxKey>, txs: seq<RpcTransaction>)
    requires forall i :: 0 <= i < |txs| ==> HasDigest(txs[i])
  {
    forall i :: i in rows ==> i < |txs| && rows[i] == KeyOf(txs[i])
  }

  ghost predicate PositionsCoherent(s: Store, net: Universe, k: WitnessKey)
    requires WellFormed(net)
  {
    var txs := net.block(k.block).txs;
    assert KnownTxs(net, txs);
    RowsCoherent(RowsOf(s.positions, k), txs)
  }

  ghost predicate Coherent(s: Store, net: Universe)
    requires WellFormed(net)
  {
    && (forall hash :: hash in s.blocks ==> SameFacts(s.blocks[hash], BlockRowOf(net.block(hash))))
    && LedgerCoherent(s.ledger, net)
    && (forall k {:trigger PositionsCoherent(s, net, k)} :: PositionsCoherent(s, net, k))
  }

  lemma AcceptKnown(ledger: Ledger, net: Universe, tx: RpcTransaction)
    requires LedgerCoherent(ledger, net) && KnownTx(net, tx)
    ensures Accepts(ledger, tx) && LedgerCoherent(Accepted(ledger, tx), net)
  {
    var key, t := KeyOf(tx), ledger;
    assert TxCoherent(ledger, net, key);
    assert Accepts(ledger, tx);
    forall k
      ensures TxCoherent(Accepted(ledger, tx), net, k)
    {
      assert TxCoherent(ledger, net, k);
    }
  }

  lemma {:induction false} AcceptAllKnown(ledger: Ledger, net: Universe, txs: seq<RpcTransaction>)
    requires LedgerCoherent(ledger, net) && KnownTxs(net, txs)
    ensures AcceptAll(ledger, txs).Some? && LedgerCoherent(AcceptAll(ledger, txs).value, net)
    decreases |txs|
  {
    if txs != [] {
      var n := |txs| - 1;
      assert forall i :: 0 <= i < n ==> txs[..n][i] == txs[i];
      AcceptAllKnown(ledger, net, txs[..n]);
      AcceptKnown(AcceptAll(ledger, txs[..n]).value, net, txs[n]);
    }
  }

  lemma PlaceAllKnown(rows: map<Index, TxKey>, txs: seq<RpcTransaction>)
    requires |txs| <= I32_MAX && forall i :: 0 <= i < |txs| ==> HasDigest(txs[i])
    requires RowsCoherent(rows, txs)
    requires forall i, j :: 0 <= i < j < |txs| ==> KeyOf(txs[i]) != KeyOf(txs[j])
    ensures PlaceAll(rows, Keys(txs)).Some? && RowsCoherent(PlaceAll(rows, Keys(txs)).value, txs)
  {
    var keys := Keys(txs);
    var after := map i: Index | 0 <= i < |keys| :: keys[i];
    assert Placed(rows, keys, after);
    PlaceAllAccepts(rows, keys, after);
  }

  /** A genuine block is always insertable, and inserting it keeps the store
      genuine: no conflict with a stored fact is possible. */
  lemma InsertGenuine(s: Store, net: Universe, b: IndexedBlock)
    requires WellFormed(net) && Coherent(s, net)
    requires Genuine(net, b.block) && EvidenceFits(b.auxpow)
    ensures InsertBlock(s, b).Some? && Coherent(InsertBlock(s, b).value, net)
  {
    var known := net.block(b.block.hash);
    assert known.hash == b.block.hash && WellFormedBlock(net, known);
    assert b.block.txs == known.txs && BlockFits(b.block);
    AcceptAllKnown(s.ledger, net, b.block.txs);
    assert PositionsCoherent(s, net, b.Key());
    PlaceAllKnown(RowsOf(s.positions, b.Key()), b.block.txs);
    assert Insertable(s, b);
    InsertedCoherent(s, net, b, Inserted(s, b));
  }

  lemma InsertedCoherent(s: Store, net: Universe, b: IndexedBlock, t: Store)
    requires WellFormed(net) && Coherent(s, net) && Genuine(net, b.block)
    requires LedgerCoherent(t.ledger, net)
    requires t.blocks == PutBlock(s.blocks, b.block)
    requires b.Key() in t.positions
    requires t.positions == s.positions[b.Key() := t.positions[b.Key()]]
    requires KnownTxs(net, b.block.txs) && RowsCoherent(t.positions[b.Key()], b.block.txs)
    ensures Coherent(t, net)
  {
    forall k
      ensures PositionsCoherent(t, net, k)
    {
      assert PositionsCoherent(s, net, k);
    }
  }

  lemma GenuineInit(net: Universe, branch: seq<IndexedBlock>)
    requires branch != [] && GenuineAll(net, branch)
    ensures GenuineAll(net, branch[..|branch| - 1])
    ensures Genuine(net, branch[|branch| - 1].block) && EvidenceFits(branch[|branch| - 1].auxpow)
  {
  }

  lemma {:induction false} InsertAllGenuine(s: Store, net: Universe, branch: seq<IndexedBlock>)
    requires WellFormed(net) && Coherent(s, net) && GenuineAll(net, branch)
    ensures InsertBlocks(s, branch).Some? && Coherent(InsertBlocks(s, branch).value, net)
    decreases |branch|
  {
    hide WellFormed, Coherent, Genuine, GenuineAll, EvidenceFits, Insertable;
    if branch != [] {
      var n := |branch| - 1;
      GenuineInit(net, branch);
      InsertAllGenuine(s, net, branch[..n]);
      InsertGenuine(InsertBlocks(s, branch[..n]).value, net, branch[n]);
    }
  }

  lemma SameFactsCoherent(s: Store, t: Store, net: Universe)
    requires WellFormed(net) && Coherent(s, net)
    requires t.blocks == s.blocks && t.ledger == s.ledger && t.positions == s.positions
    ensures Coherent(t, net)
  {
    forall k
      ensures PositionsCoherent(t, net, k)
    {
      assert PositionsCoherent(s, net, k);
    }
  }

  // ---- chains of the universe ----

  ghost predicate Linked(net: Universe, chain: seq<Hash>) {
    && (forall i :: 0 <= i < |chain| ==> net.block(chain[i]).height == i)
    && (forall i :: 0 < i < |chain| ==> net.block(chain[i]).previous == Some(chain[i-1]))
  }

  ghost predicate Agree(c: map<nat, WitnessKey>, chain: seq<Hash>, h: nat) {
    h in c && h < |chain| && c[h].block == chain[h]
  }

  /** Where the index and a linked chain agree at one height, they agree at every
      lower one: the reason one comparison stands for a whole prefix. */
  lemma {:induction false} AgreeDownward(s: Store, net: Universe, chain: seq<Hash>, h: nat, k: nat)
    requires WellFormed(net) && ChainValid(s) && Coherent(s, net) && Linked(net, chain)
    requires Agree(s.canonical, chain, h) && k <= h
    ensures Agree(s.canonical, chain, k)
    decreases h
  {
    if k < h {
      assert SelectedAt(s, h) && LinkedAt(s, h);
      AgreeDownward(s, net, chain, h - 1, k);
    }
  }
}
