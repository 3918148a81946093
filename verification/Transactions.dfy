/** What `insert_transaction` accepts and leaves behind (src/db.rs:735-983),
    stated without its insert-then-compare loops. */
module Transactions {
  import opened Wrappers
  import opened OrderedRows
  import opened Schema

  // Version 5 and later must carry an authorization digest.
  predicate HasDigest(tx: RpcTransaction) {
    tx.scalars.version >= 5 ==> tx.authDigest.Some?
  }

  function KeyOf(tx: RpcTransaction): TxKey
    requires HasDigest(tx)
  {
    TxKey(tx.txid, if tx.scalars.version >= 5 then tx.authDigest.value else tx.rawHash)
  }

  function TxRowOf(tx: RpcTransaction): TxRow {
    TxRow(if tx.scalars.version >= 5 then tx.authDigest else None, tx.rawHash, tx.scalars,
          exists i :: 0 <= i < |tx.vin| && tx.vin[i].coinbase.Some?)
  }

  function OutputRowOf(output: RpcOutput): OutputRow {
    OutputRow(output.value, output.script.PrimaryAddress(), output.script.scriptType,
              output.script.scriptHex)
  }

  // Integer conversions and CHECK constraints of transaction_instances.
  predicate ScalarsFit(t: TxScalars) {
    && 0 < t.size <= I64_MAX && t.lockTime <= I64_MAX && t.expiryHeight <= I64_MAX
    && t.saplingSpends <= I32_MAX && t.saplingOutputs <= I32_MAX
    && t.orchardActions <= I32_MAX && t.ironwoodActions <= I32_MAX
  }

  // Coinbase inputs carry no outpoint and all others carry a whole one.
  predicate InputFits(input: Input) {
    && (input.previousIndex.Some? ==> input.previousIndex.value <= I32_MAX)
    && (input.sequence.Some? ==> input.sequence.value <= U32_MAX)
    && (|| (input.coinbase.Some? && input.previousTxid.None? && input.previousIndex.None?)
        || (input.coinbase.None? && input.previousTxid.Some? && input.previousIndex.Some?))
  }

  predicate OutputFits(output: RpcOutput) {
    output.n <= I32_MAX && 0 <= output.value <= I64_MAX
  }

  predicate TxFits(tx: RpcTransaction) {
    && HasDigest(tx)
    && ScalarsFit(tx.scalars)
    && |tx.vin| <= INDEX_LIMIT
    && (forall i :: 0 <= i < |tx.vin| ==> InputFits(tx.vin[i]))
    && (forall i :: 0 <= i < |tx.vout| ==> OutputFits(tx.vout[i]))
  }

  function InputPairs(vin: seq<Input>): seq<(Index, Input)>
    requires |vin| <= INDEX_LIMIT
  {
    seq(|vin|, i requires 0 <= i < |vin| => (i, vin[i]))
  }

  function OutputPairs(vout: seq<RpcOutput>): seq<(Index, OutputRow)>
    requires forall i :: 0 <= i < |vout| ==> OutputFits(vout[i])
  {
    seq(|vout|, i requires 0 <= i < |vout| =>
      assert OutputFits(vout[i]);
      (vout[i].n as Index, OutputRowOf(vout[i])))
  }

  /** Exactly the submissions `insert_transaction` accepts: columns in range, a
      stored instance with the same scalar facts if there is one, output
      numbers strictly increasing, and no stored input or output row missing
      from, or different in, the supplied lists. */
  ghost predicate Accepts(s: Ledger, tx: RpcTransaction) {
    && TxFits(tx)
    && (KeyOf(tx) in s.transactions ==> s.transactions[KeyOf(tx)] == TxRowOf(tx))
    && Submap(RowsOf(s.inputs, KeyOf(tx)), FromPairs(InputPairs(tx.vin)))
    && Increasing(OutputPairs(tx.vout))
    && Submap(RowsOf(s.outputs, KeyOf(tx)), FromPairs(OutputPairs(tx.vout)))
  }

  ghost function Accepted(s: Ledger, tx: RpcTransaction): Ledger
    requires Accepts(s, tx)
  {
    var key := KeyOf(tx);
    Ledger(s.transactions[key := TxRowOf(tx)],
           s.inputs[key := FromPairs(InputPairs(tx.vin))],
           s.outputs[key := FromPairs(OutputPairs(tx.vout))])
  }

  lemma InputRowAt(vin: seq<Input>, k: Index)
    requires |vin| <= INDEX_LIMIT
    ensures k in FromPairs(InputPairs(vin)) <==> k < |vin|
    ensures k < |vin| ==> FromPairs(InputPairs(vin))[k] == vin[k]
  {
    FromPairsHolds(InputPairs(vin));
    if k < |vin| {
      assert InputPairs(vin)[k].0 == k;
    }
  }

  // Between increasing lists, a submap is a sublist.
  lemma SubmapIsSublist<V>(a: seq<(Index, V)>, b: seq<(Index, V)>)
    requires Increasing(a) && Increasing(b)
    ensures Submap(FromPairs(a), FromPairs(b)) <==> forall p :: p in a ==> p in b
  {
    var left, right := FromPairs(a), FromPairs(b);
    FromPairsHolds(a);
    FromPairsHolds(b);
    if Submap(left, right) {
      forall i | 0 <= i < |a|
        ensures a[i] in b
      {
        assert a[i].0 in right;
        var j :| 0 <= j < |b| && b[j].0 == a[i].0;
        assert b[j] == a[i];
      }
    }
    if forall p :: p in a ==> p in b {
      forall k | k in left
        ensures k in right && right[k] == left[k]
      {
        var i :| 0 <= i < |a| && a[i].0 == k;
        assert a[i] in b;
        var j :| 0 <= j < |b| && b[j] == a[i];
      }
    }
  }

  lemma InputSubmapIsPrefix(a: seq<Input>, b: seq<Input>)
    requires |a| <= INDEX_LIMIT && |b| <= INDEX_LIMIT
    ensures Submap(FromPairs(InputPairs(a)), FromPairs(InputPairs(b))) <==> a <= b
  {
    var before, after := FromPairs(InputPairs(a)), FromPairs(InputPairs(b));
    forall k: Index
      ensures k in before <==> k < |a|
      ensures k in after <==> k < |b|
      ensures k < |a| ==> before[k] == a[k]
      ensures k < |b| ==> after[k] == b[k]
    {
      InputRowAt(a, k);
      InputRowAt(b, k);
    }
    if Submap(before, after) {
      assert |b| < |a| ==> |b| in before;
      assert forall k: Index :: k < |a| ==> k in before && a[k] == b[k];
    }
  }

  // ---- the stored rows, column by column ----

  ghost predicate InstanceColumns(row: TxRow, tx: RpcTransaction) {
    && row.authDigest == (if tx.scalars.version >= 5 then tx.authDigest else None)
    && row.rawHash == tx.rawHash && row.scalars == tx.scalars
    && (row.isCoinbase <==> exists input :: input in tx.vin && input.coinbase.Some?)
  }

  ghost predicate InputColumns(rows: map<Index, Input>, vin: seq<Input>) {
    && (forall i: Index :: i in rows <==> i < |vin|)
    && (forall i: Index :: i < |vin| ==> rows[i] == vin[i])
  }

  // The address of a script is its own, or the only one it lists.
  ghost predicate OutputColumn(row: OutputRow, output: RpcOutput) {
    && row.value == output.value
    && row.scriptType == output.script.scriptType && row.scriptHex == output.script.scriptHex
    && (forall a :: row.address == Some(a) <==>
          || output.script.address == Some(a)
          || (output.script.address.None? && output.script.addresses == [a]))
  }

  ghost predicate OutputColumns(rows: map<Index, OutputRow>, vout: seq<RpcOutput>) {
    && (forall n: Index :: n in rows <==> exists j :: 0 <= j < |vout| && vout[j].n == n)
    && (forall j :: 0 <= j < |vout| ==> vout[j].n < INDEX_LIMIT)
    && (forall j :: 0 <= j < |vout| ==> vout[j].n in rows && OutputColumn(rows[vout[j].n], vout[j]))
  }

  // The key of an instance: its id, and its authorization digest from version 5
  // on or else the hash of the raw transaction.
  ghost predicate Identifies(key: TxKey, tx: RpcTransaction) {
    && key.txid == tx.txid
    && (if tx.scalars.version >= 5 then tx.authDigest == Some(key.digest) else key.digest == tx.rawHash)
  }

  /** Under its own key, every column of the transaction, every supplied input at
      its place in the list, every supplied output at its number, and no other row. */
  ghost predicate RowsAreOf(l: Ledger, key: TxKey, tx: RpcTransaction) {
    && Identifies(key, tx)
    && key in l.transactions && InstanceColumns(l.transactions[key], tx)
    && InputColumns(RowsOf(l.inputs, key), tx.vin)
    && OutputColumns(RowsOf(l.outputs, key), tx.vout)
  }

  lemma RowColumns(tx: RpcTransaction)
    requires HasDigest(tx)
    ensures Identifies(KeyOf(tx), tx) && InstanceColumns(TxRowOf(tx), tx)
  {
    if TxRowOf(tx).isCoinbase {
      var i :| 0 <= i < |tx.vin| && tx.vin[i].coinbase.Some?;
      assert tx.vin[i] in tx.vin;
    }
  }

  lemma OutputRowColumns(output: RpcOutput)
    ensures OutputColumn(OutputRowOf(output), output)
  {
  }

  lemma StoredRows(tx: RpcTransaction)
    requires TxFits(tx) && Increasing(OutputPairs(tx.vout))
    ensures InputColumns(FromPairs(InputPairs(tx.vin)), tx.vin)
    ensures OutputColumns(FromPairs(OutputPairs(tx.vout)), tx.vout)
  {
    forall i: Index
      ensures i in FromPairs(InputPairs(tx.vin)) <==> i < |tx.vin|
      ensures i < |tx.vin| ==> FromPairs(InputPairs(tx.vin))[i] == tx.vin[i]
    {
      InputRowAt(tx.vin, i);
    }
    var pairs := OutputPairs(tx.vout);
    FromPairsHolds(pairs);
    forall j | 0 <= j < |tx.vout|
      ensures tx.vout[j].n < INDEX_LIMIT
      ensures tx.vout[j].n in FromPairs(pairs) && OutputColumn(FromPairs(pairs)[tx.vout[j].n], tx.vout[j])
    {
      assert pairs[j] == (tx.vout[j].n as Index, OutputRowOf(tx.vout[j]));
      OutputRowColumns(tx.vout[j]);
    }
    forall n: Index | n in FromPairs(pairs)
      ensures exists j :: 0 <= j < |tx.vout| && tx.vout[j].n == n
    {
      var j :| 0 <= j < |pairs| && pairs[j].0 == n;
      assert tx.vout[j].n == n;
    }
  }

  /** An accepted transaction is stored under its own id and digest with every
      column as supplied, and reads back as supplied: its inputs in order from
      index 0 and its outputs in order of their numbers, none else. */
  lemma AcceptedReadsBack(s: Ledger, tx: RpcTransaction)
    requires Accepts(s, tx)
    ensures RowsAreOf(Accepted(s, tx), KeyOf(tx), tx)
    ensures var s' := Accepted(s, tx); var key := KeyOf(tx);
            && Select(RowsOf(s'.inputs, key)) == InputPairs(tx.vin)
            && Select(RowsOf(s'.outputs, key)) == OutputPairs(tx.vout)
  {
    RowColumns(tx);
    StoredRows(tx);
    SelectFromPairs(InputPairs(tx.vin));
    SelectFromPairs(OutputPairs(tx.vout));
  }

  /** Resubmitting a stored transaction is accepted exactly when the stored
      inputs are a prefix of the supplied ones and the supplied outputs extend
      the stored ones at new, still increasing numbers: additions go through. */
  lemma ResubmissionAccepted(s: Ledger, stored: RpcTransaction, tx: RpcTransaction)
    requires Accepts(s, stored) && TxFits(tx) && KeyOf(tx) == KeyOf(stored)
    ensures Accepts(Accepted(s, stored), tx) <==>
            && TxRowOf(tx) == TxRowOf(stored)
            && stored.vin <= tx.vin
            && Increasing(OutputPairs(tx.vout))
            && (forall p :: p in OutputPairs(stored.vout) ==> p in OutputPairs(tx.vout))
  {
    InputSubmapIsPrefix(stored.vin, tx.vin);
    if Increasing(OutputPairs(tx.vout)) {
      SubmapIsSublist(OutputPairs(stored.vout), OutputPairs(tx.vout));
    }
  }

  const SOME_SCALARS := TxScalars(4, 1, 0, 0, None, 0, 0, 0, 0)
  const SOME_INPUT := Input(Some(Hash(2)), Some(0), None, None)
  const SHORT_TX := RpcTransaction(Hash(3), None, Hash(4), SOME_SCALARS, [SOME_INPUT], [])
  const LONG_TX := SHORT_TX.(vin := [SOME_INPUT, SOME_INPUT.(previousIndex := Some(1))],
                             vout := [RpcOutput(0, 7, ScriptPubKey(Some("a"), [], None, None))])

  /** Such an addition: stored in a fresh ledger with one input and no output, a
      transaction is accepted again with two inputs and an output, and then
      reads back with them. */
  lemma LongerListAccepted()
    ensures var fresh_ := Ledger(map[], map[], map[]);
            && Accepts(fresh_, SHORT_TX)
            && Accepts(Accepted(fresh_, SHORT_TX), LONG_TX)
            && KeyOf(LONG_TX) == KeyOf(SHORT_TX)
            && LONG_TX.vin != SHORT_TX.vin && LONG_TX.vout != SHORT_TX.vout
  {
    var fresh_ := Ledger(map[], map[], map[]);
    assert Accepts(fresh_, SHORT_TX);
    assert TxRowOf(SHORT_TX) == TxRowOf(LONG_TX);
    assert SHORT_TX.vin <= LONG_TX.vin;
    assert OutputPairs(SHORT_TX.vout) == [];
    ResubmissionAccepted(fresh_, SHORT_TX, LONG_TX);
  }

  /** Which first submissions are accepted, condition by condition. */
  lemma FirstSubmission(tx: RpcTransaction)
    ensures Accepts(Ledger(map[], map[], map[]), tx) <==>
            && (tx.scalars.version >= 5 ==> tx.authDigest.Some?)
            && 1 <= tx.scalars.size < 0x8000_0000_0000_0000
            && tx.scalars.lockTime < 0x8000_0000_0000_0000
            && tx.scalars.expiryHeight < 0x8000_0000_0000_0000
            && tx.scalars.saplingSpends < 0x8000_0000 && tx.scalars.saplingOutputs < 0x8000_0000
            && tx.scalars.orchardActions < 0x8000_0000 && tx.scalars.ironwoodActions < 0x8000_0000
            && |tx.vin| <= 0x8000_0000
            && (forall input :: input in tx.vin ==>
                  && (input.coinbase.Some? <==> input.previousTxid.None?)
                  && (input.coinbase.Some? <==> input.previousIndex.None?)
                  && (input.previousIndex.Some? ==> input.previousIndex.value < 0x8000_0000)
                  && (input.sequence.Some? ==> input.sequence.value < 0x1_0000_0000))
            && (forall output :: output in tx.vout ==>
                  output.n < 0x8000_0000 && 0 <= output.value < 0x8000_0000_0000_0000)
            && (forall i, j :: 0 <= i < j < |tx.vout| ==> tx.vout[i].n < tx.vout[j].n)
  {
    assert (forall i :: 0 <= i < |tx.vin| ==> InputFits(tx.vin[i])) <==>
           forall input :: input in tx.vin ==> InputFits(input);
    assert (forall i :: 0 <= i < |tx.vout| ==> OutputFits(tx.vout[i])) <==>
           forall output :: output in tx.vout ==> OutputFits(output);
    if TxFits(tx) {
      assert forall i :: 0 <= i < |tx.vout| ==> OutputPairs(tx.vout)[i].0 == tx.vout[i].n;
      assert |OutputPairs(tx.vout)| == |tx.vout|;
    }
  }

  const COINBASE_TX := SHORT_TX.(vin := [Input(None, None, Some("00"), None)])

  /** A coinbase transaction is accepted, and its row says that it is one; any
      other input of an accepted transaction names a whole outpoint. */
  lemma CoinbaseAccepted()
    ensures var fresh_ := Ledger(map[], map[], map[]);
            && Accepts(fresh_, COINBASE_TX)
            && Accepted(fresh_, COINBASE_TX).transactions[KeyOf(COINBASE_TX)].isCoinbase
    ensures forall s, tx, input :: Accepts(s, tx) && input in tx.vin && input.coinbase.None? ==>
              input.previousTxid.Some? && input.previousIndex.Some?
  {
    var fresh_ := Ledger(map[], map[], map[]);
    assert COINBASE_TX.vin[0].coinbase.Some?;
    assert Accepts(fresh_, COINBASE_TX);
  }

  // ---- the transactions of one block ----

  ghost function AcceptAll(s: Ledger, txs: seq<RpcTransaction>): Option<Ledger> {
    if txs == [] then Some(s)
    else
      match AcceptAll(s, txs[..|txs| - 1])
      case None => None
      case Some(m) =>
        if Accepts(m, txs[|txs| - 1]) then Some(Accepted(m, txs[|txs| - 1])) else None
  }

  // Keys of transactions that have one.
  function Keys(txs: seq<RpcTransaction>): (keys: seq<TxKey>)
    requires forall i :: 0 <= i < |txs| ==> HasDigest(txs[i])
    ensures |keys| == |txs|
    ensures forall i :: 0 <= i < |txs| ==> keys[i] == KeyOf(txs[i])
  {
    seq(|txs|, i requires 0 <= i < |txs| => assert HasDigest(txs[i]); KeyOf(txs[i]))
  }

  // One position: ON CONFLICT DO NOTHING on the position and the comparison
  // after it, UNIQUE on the transaction.
  ghost function Place(rows: map<Index, TxKey>, position: Index, key: TxKey): Option<map<Index, TxKey>> {
    if position in rows then
      if rows[position] == key then Some(rows) else None
    else if exists p :: p in rows && rows[p] == key then None
    else Some(rows[position := key])
  }

  ghost function PlaceAll(rows: map<Index, TxKey>, keys: seq<TxKey>): Option<map<Index, TxKey>>
    requires |keys| <= I32_MAX
  {
    if keys == [] then Some(rows)
    else
      match PlaceAll(rows, keys[..|keys| - 1])
      case None => None
      case Some(m) => Place(m, |keys| - 1, keys[|keys| - 1])
  }

  ghost predicate Injective<K, V>(rows: map<K, V>) {
    forall i, j :: i in rows && j in rows && rows[i] == rows[j] ==> i == j
  }

  // `after` has the rows of `before` and `keys` at positions 0..|keys|-1.
  ghost predicate Placed(before: map<Index, TxKey>, keys: seq<TxKey>, after: map<Index, TxKey>) {
    && (forall i: Index :: i in after <==> i in before || i < |keys|)
    && Submap(before, after)
    && (forall i: Index :: i < |keys| ==> after[i] == keys[i])
    && Injective(after)
  }

  lemma {:induction false} PlaceAllPlaces(rows: map<Index, TxKey>, keys: seq<TxKey>,
                                          after: map<Index, TxKey>)
    requires |keys| <= I32_MAX && Injective(rows) && PlaceAll(rows, keys) == Some(after)
    ensures Placed(rows, keys, after)
  {
    if keys != [] {
      var n: Index := |keys| - 1;
      PlaceAllPlaces(rows, keys[..n], PlaceAll(rows, keys[..n]).value);
    }
  }

  /** Positions are accepted exactly when they agree with the stored ones and
      the result lists no transaction twice. */
  lemma {:induction false} PlaceAllAccepts(rows: map<Index, TxKey>, keys: seq<TxKey>,
                                           after: map<Index, TxKey>)
    requires |keys| <= I32_MAX && Placed(rows, keys, after)
    ensures PlaceAll(rows, keys) == Some(after)
  {
    if keys == [] {
      assert rows == after;
    } else {
      var n: Index := |keys| - 1;
      var before := if n in rows then after else after - {n};
      assert Placed(rows, keys[..n], before);
      PlaceAllAccepts(rows, keys[..n], before);
      assert after[n] == keys[n];
      if n !in rows {
        assert forall p :: p in before ==> p in after && before[p] == after[p] && p != n;
        assert before[n := keys[n]] == after;
      }
    }
  }

  // What accepting `tx` leaves stored under its key.
  ghost predicate StoredAs(s: Ledger, tx: RpcTransaction) {
    && TxFits(tx) && Increasing(OutputPairs(tx.vout))
    && KeyOf(tx) in s.transactions && s.transactions[KeyOf(tx)] == TxRowOf(tx)
    && RowsOf(s.inputs, KeyOf(tx)) == FromPairs(InputPairs(tx.vin))
    && RowsOf(s.outputs, KeyOf(tx)) == FromPairs(OutputPairs(tx.vout))
  }

  lemma {:induction false} AcceptAllFits(s: Ledger, txs: seq<RpcTransaction>)
    requires AcceptAll(s, txs).Some?
    ensures forall i :: 0 <= i < |txs| ==> TxFits(txs[i]) && HasDigest(txs[i])
  {
    if txs != [] {
      var n := |txs| - 1;
      AcceptAllFits(s, txs[..n]);
      assert forall i :: 0 <= i < n ==> txs[i] == txs[..n][i];
    }
  }

  lemma StoredColumns(s: Ledger, tx: RpcTransaction)
    requires StoredAs(s, tx)
    ensures RowsAreOf(s, KeyOf(tx), tx)
  {
    RowColumns(tx);
    StoredRows(tx);
  }

  /** With pairwise different keys, every transaction of the block is stored as
      supplied. */
  lemma {:induction false} AcceptAllStores(s: Ledger, txs: seq<RpcTransaction>, t: Ledger, i: nat)
    requires AcceptAll(s, txs) == Some(t) && i < |txs|
    requires forall j :: 0 <= j < |txs| ==> HasDigest(txs[j])
    requires forall j :: i < j < |txs| ==> KeyOf(txs[j]) != KeyOf(txs[i])
    ensures StoredAs(t, txs[i])
  {
    var n := |txs| - 1;
    if i < n {
      assert forall j :: 0 <= j < n ==> txs[..n][j] == txs[j];
      AcceptAllStores(s, txs[..n], AcceptAll(s, txs[..n]).value, i);
    }
  }
}
