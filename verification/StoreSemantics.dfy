/** The effect of every database transaction of src/db.rs on the tables, as
    functions; `None` is a transaction that aborts. */
module StoreSemantics {
  import opened Wrappers
  import opened OrderedRows
  import opened Schema
  import opened Transactions
  import opened ParentEvidence

  // ---- facts of one block ----

  function BlockRowOf(b: RpcBlock): BlockRow {
    BlockRow(b.height, b.previous, b.facts, |b.txs|, b.difficulty)
  }

  predicate SameFacts(a: BlockRow, b: BlockRow) {
    a.(difficulty := b.difficulty) == b
  }

  predicate BlockFits(b: RpcBlock) {
    b.height <= I64_MAX && 0 < b.facts.size <= I64_MAX && |b.txs| <= I32_MAX
  }

  predicate EvidenceFits(aux: Option<VerifiedAuxPow>) {
    aux.Some? ==>
      forall i :: 0 <= i < |aux.value.observations| ==>
        aux.value.observations[i].parent.Some? ==>
          aux.value.observations[i].parent.value.height <= I64_MAX
  }

  function WitnessRowOf(b: IndexedBlock): WitnessRow {
    match b.auxpow
    case Some(aux) => WitnessRow(aux.witnessState, aux.confirmations, AuxPowVerified)
    case None =>
      var confirmations := b.block.confirmations;
      WitnessRow(NativeGenesis, Some(if confirmations < 0 then 0 else confirmations), Genesis)
  }

  function PutBlock(blocks: map<Hash, BlockRow>, b: RpcBlock): map<Hash, BlockRow> {
    if b.hash in blocks then blocks else blocks[b.hash := BlockRowOf(b)]
  }

  // A stored witness keeps its local validation state.
  function PutWitness(witnesses: map<WitnessKey, WitnessRow>, b: IndexedBlock): map<WitnessKey, WitnessRow> {
    var row := WitnessRowOf(b);
    witnesses[b.Key() := if b.Key() in witnesses
                         then row.(localState := witnesses[b.Key()].localState) else row]
  }

  // A stored proof keeps its parent header facts.
  function PutLink(links: map<WitnessKey, AuxLink>, k: WitnessKey, aux: VerifiedAuxPow,
                   verifiedAt: int): map<WitnessKey, AuxLink>
  {
    links[k := if k in links
               then links[k].(lookupState := aux.lookupState, sourcesAgree := aux.sourcesAgree,
                              verifiedAt := verifiedAt)
               else AuxLink(aux.parentBits, aux.meetsTarget, aux.lookupState, aux.sourcesAgree,
                            verifiedAt)]
  }

  function LinksAfter(links: map<WitnessKey, AuxLink>, b: IndexedBlock): map<WitnessKey, AuxLink> {
    if b.auxpow.None? then links else PutLink(links, b.Key(), b.auxpow.value, b.fetchedAt)
  }

  function ObservationsAfter(observations: map<WitnessKey, map<string, ObservationRow>>,
                             b: IndexedBlock): map<WitnessKey, map<string, ObservationRow>>
  {
    if b.auxpow.None? then observations
    else observations[b.Key() := RowsFrom(b.auxpow.value.observations)]
  }

  // ---- the rows of one block, column by column ----

  // The row that is there, or else one with the columns of the block.
  ghost predicate BlockColumns(blocks: map<Hash, BlockRow>, b: RpcBlock) {
    && b.hash in blocks
    && var row := blocks[b.hash];
       && row.height == b.height && row.previous == b.previous && row.facts == b.facts
       && row.transactionCount == |b.txs|
  }

  // Nothing changed but at `k`.
  ghost predicate SameBut<K(!new), V>(k: K, before: map<K, V>, after: map<K, V>) {
    forall j :: j != k ==> (j in after <==> j in before) && (j in before ==> after[j] == before[j])
  }

  /** The witness row shows the present status of the block; whether it was
      verified locally is what its first insertion said. */
  ghost predicate WitnessWritten(before: map<WitnessKey, WitnessRow>, after: map<WitnessKey, WitnessRow>,
                                 b: IndexedBlock)
  {
    && SameBut(b.Key(), before, after) && b.Key() in after
    && var row := after[b.Key()];
       && (b.Key() in before ==> row.localState == before[b.Key()].localState)
       && (b.Key() !in before ==> (row.localState == AuxPowVerified <==> b.auxpow.Some?))
       && (b.auxpow.Some? ==>
             row.exactState == b.auxpow.value.witnessState && row.confirmations == b.auxpow.value.confirmations)
       && (b.auxpow.None? ==>
             && row.exactState == NativeGenesis && row.confirmations.Some?
             && (b.block.confirmations >= 0 ==> row.confirmations.value == b.block.confirmations)
             && (b.block.confirmations < 0 ==> row.confirmations.value == 0))
  }

  /** The proof row has the time and the classification of this verification and
      the header facts of the first one. */
  ghost predicate LinkWritten(before: map<WitnessKey, AuxLink>, after: map<WitnessKey, AuxLink>,
                              k: WitnessKey, aux: VerifiedAuxPow, fetchedAt: int)
  {
    && SameBut(k, before, after) && k in after
    && after[k].verifiedAt == fetchedAt
    && after[k].lookupState == aux.lookupState && after[k].sourcesAgree == aux.sourcesAgree
    && (k in before ==>
          after[k].parentBits == before[k].parentBits && after[k].meetsTarget == before[k].meetsTarget)
    && (k !in before ==>
          after[k].parentBits == aux.parentBits && after[k].meetsTarget == aux.meetsTarget)
  }

  /** The proof row and, from this verification alone, the observation rows. */
  ghost predicate EvidenceWritten(before: map<WitnessKey, AuxLink>, after: map<WitnessKey, AuxLink>,
                                  rowsBefore: map<WitnessKey, map<string, ObservationRow>>,
                                  rowsAfter: map<WitnessKey, map<string, ObservationRow>>,
                                  b: IndexedBlock)
  {
    && (b.auxpow.None? ==> after == before && rowsAfter == rowsBefore)
    && (b.auxpow.Some? ==>
          && LinkWritten(before, after, b.Key(), b.auxpow.value, b.fetchedAt)
          && SameBut(b.Key(), rowsBefore, rowsAfter) && b.Key() in rowsAfter
          && RowsShow(rowsAfter[b.Key()], b.auxpow.value.observations))
  }

  // What an insertion writes for the block itself.
  ghost predicate BlockWritten(s: Store, t: Store, b: IndexedBlock) {
    && BlockColumns(t.blocks, b.block)
    && SameBut(b.block.hash, s.blocks, t.blocks)
    && (b.block.hash !in s.blocks ==> t.blocks[b.block.hash].difficulty == b.block.difficulty)
    && WitnessWritten(s.witnesses, t.witnesses, b)
    && EvidenceWritten(s.links, t.links, s.observations, t.observations, b)
  }

  lemma LinkIsWritten(links: map<WitnessKey, AuxLink>, k: WitnessKey, aux: VerifiedAuxPow, fetchedAt: int)
    ensures LinkWritten(links, PutLink(links, k, aux, fetchedAt), k, aux, fetchedAt)
  {
  }

  lemma EvidenceIsWritten(links: map<WitnessKey, AuxLink>,
                          observations: map<WitnessKey, map<string, ObservationRow>>, b: IndexedBlock)
    ensures EvidenceWritten(links, LinksAfter(links, b), observations, ObservationsAfter(observations, b), b)
  {
    hide LinkWritten, PutLink, RowsShow, RowsFrom;
    if b.auxpow.Some? {
      LinkIsWritten(links, b.Key(), b.auxpow.value, b.fetchedAt);
      RowsFromShow(b.auxpow.value.observations);
    }
  }

  lemma BlockIsWritten(s: Store, b: IndexedBlock, t: Store)
    requires InsertBlock(s, b) == Some(t)
    ensures BlockWritten(s, t, b)
  {
    EvidenceIsWritten(s.links, s.observations, b);
  }

  // The blocks row that the insertion finds equals the supplied facts.
  predicate BlockAccepted(blocks: map<Hash, BlockRow>, b: RpcBlock) {
    b.hash in blocks ==> SameFacts(blocks[b.hash], BlockRowOf(b))
  }

  // The transactions of a block and their positions, put on `ledger` and `rows`.
  ghost predicate Puttable(ledger: Ledger, rows: map<Index, TxKey>, txs: seq<RpcTransaction>) {
    && |txs| <= I32_MAX
    && AcceptAll(ledger, txs).Some?
    && (forall i :: 0 <= i < |txs| ==> HasDigest(txs[i]))
    && PlaceAll(rows, Keys(txs)).Some?
  }

  ghost predicate Insertable(s: Store, b: IndexedBlock) {
    && BlockFits(b.block)
    && BlockAccepted(s.blocks, b.block)
    && Puttable(s.ledger, RowsOf(s.positions, b.Key()), b.block.txs)
    && EvidenceFits(b.auxpow)
  }

  /** Which first blocks without transactions are accepted, condition by condition. */
  lemma FirstBlock(b: IndexedBlock)
    requires b.block.txs == []
    ensures InsertBlock(EMPTY_STORE, b).Some? <==>
            && b.block.height < 0x8000_0000_0000_0000
            && 1 <= b.block.facts.size < 0x8000_0000_0000_0000
            && (b.auxpow.Some? ==>
                  forall o :: o in b.auxpow.value.observations && o.parent.Some? ==>
                    o.parent.value.height < 0x8000_0000_0000_0000)
  {
    assert Keys(b.block.txs) == [];
    if b.auxpow.Some? && forall o :: o in b.auxpow.value.observations && o.parent.Some? ==>
                           o.parent.value.height < 0x8000_0000_0000_0000 {
      var os := b.auxpow.value.observations;
      assert forall i :: 0 <= i < |os| ==> os[i] in os;
    }
  }

  /** `insert_block`: `positions` has an entry, possibly empty, for each witness. */
  ghost function Inserted(s: Store, b: IndexedBlock): Store
    requires Insertable(s, b)
  {
    s.(blocks := PutBlock(s.blocks, b.block),
       witnesses := PutWitness(s.witnesses, b),
       positions := s.positions[b.Key() :=
                      PlaceAll(RowsOf(s.positions, b.Key()), Keys(b.block.txs)).value],
       ledger := AcceptAll(s.ledger, b.block.txs).value,
       links := LinksAfter(s.links, b),
       observations := ObservationsAfter(s.observations, b))
  }

  ghost function InsertBlock(s: Store, b: IndexedBlock): Option<Store> {
    if Insertable(s, b) then Some(Inserted(s, b)) else None
  }

  // ---- canonical selection ----

  predicate SelectsBlock(c: map<nat, WitnessKey>, hash: Hash) {
    exists h :: h in c && c[h].block == hash
  }

  // A taken height is silently left alone; UNIQUE and FOREIGN KEY abort.
  ghost function PutSelector(c: map<nat, WitnessKey>, witnesses: map<WitnessKey, WitnessRow>,
                             b: IndexedBlock): Option<map<nat, WitnessKey>>
  {
    if b.block.height in c then Some(c)
    else if SelectsBlock(c, b.block.hash) || b.Key() !in witnesses then None
    else Some(c[b.block.height := b.Key()])
  }

  function TipState(cs: ChainState, b: IndexedBlock): ChainState {
    cs.(indexedHeight := Some(b.block.height), indexedHash := Some(b.block.hash),
        indexedWitness := Some(b.witnessHash), status := Syncing, lastError := None)
  }

  ghost function CommitBlock(s: Store, b: IndexedBlock): Option<Store> {
    match InsertBlock(s, b)
    case None => None
    case Some(t) =>
      match PutSelector(t.canonical, t.witnesses, b)
      case None => None
      case Some(c) =>
        if c[b.block.height] != b.Key() then None
        else Some(t.(canonical := c, chainState := TipState(t.chainState, b)))
  }

  /** What a commit selects: exactly the block, at its height, as the recorded tip. */
  ghost predicate BlockSelected(s: Store, t: Store, b: IndexedBlock) {
    && b.block.height in t.canonical && t.canonical[b.block.height] == b.Key()
    && SameBut(b.block.height, s.canonical, t.canonical)
    && (b.block.height in s.canonical ==> s.canonical[b.block.height] == b.Key())
    && t.chainState.indexedHeight == Some(b.block.height) && t.chainState.indexedHash == Some(b.block.hash)
    && t.chainState.indexedWitness == Some(b.witnessHash)
    && t.chainState.nodeHeight == s.chainState.nodeHeight && t.chainState.nodeHash == s.chainState.nodeHash
    && t.chainState.status == Syncing && t.chainState.lastError.None?
    && t.reorgEvents == s.reorgEvents
  }

  lemma CommitIsSelected(s: Store, b: IndexedBlock, t: Store)
    requires CommitBlock(s, b) == Some(t)
    ensures BlockWritten(s, t, b) && BlockSelected(s, t, b)
  {
    BlockIsWritten(s, b, InsertBlock(s, b).value);
  }

  // ---- replacing a branch ----

  function SaturatingNext(h: nat): nat {
    if h >= U64_MAX then U64_MAX else h + 1
  }

  function StartAfter(ancestor: Option<(nat, Hash)>): nat {
    if ancestor.Some? then SaturatingNext(ancestor.value.0) else 0
  }

  // `validate_replacement_branch`: what it accepts.
  ghost predicate Contiguous(ancestor: Option<(nat, Hash)>, branch: seq<IndexedBlock>) {
    && (branch != [] ==>
          && branch[0].block.height == StartAfter(ancestor)
          && branch[0].block.previous ==
               (if ancestor.Some? then Some(ancestor.value.1) else None))
    && (forall i :: 0 < i < |branch| ==>
          && branch[i].block.height == SaturatingNext(branch[i-1].block.height)
          && branch[i].block.previous == Some(branch[i-1].block.hash))
  }

  ghost function InsertBlocks(s: Store, branch: seq<IndexedBlock>): Option<Store> {
    if branch == [] then Some(s)
    else
      match InsertBlocks(s, branch[..|branch| - 1])
      case None => None
      case Some(m) => InsertBlock(m, branch[|branch| - 1])
  }

  ghost function PutSelectors(c: map<nat, WitnessKey>, witnesses: map<WitnessKey, WitnessRow>,
                              branch: seq<IndexedBlock>): Option<map<nat, WitnessKey>>
  {
    if branch == [] then Some(c)
    else
      match PutSelectors(c, witnesses, branch[..|branch| - 1])
      case None => None
      case Some(m) => PutSelector(m, witnesses, branch[|branch| - 1])
  }

  ghost function Prefix(canonical: map<nat, WitnessKey>, ancestor: Option<(nat, Hash)>): map<nat, WitnessKey> {
    map h | h in canonical && ancestor.Some? && h <= ancestor.value.0 :: canonical[h]
  }

  function Publication(cs: ChainState, ancestor: Option<(nat, Hash)>,
                       branch: seq<IndexedBlock>): ChainState
  {
    var updated :=
      if branch != [] then
        var tip := branch[|branch| - 1];
        cs.(indexedHeight := Some(tip.block.height), indexedHash := Some(tip.block.hash),
            indexedWitness := Some(tip.witnessHash))
      else if ancestor.Some? then
        cs.(indexedHeight := Some(ancestor.value.0), indexedHash := Some(ancestor.value.1),
            indexedWitness := None)
      else
        cs.(indexedHeight := None, indexedHash := None, indexedWitness := None);
    updated.(status := Syncing, lastError := None)
  }

  predicate TipLocked(cs: ChainState, tip: ChainTip) {
    cs.indexedHeight == Some(tip.height) && cs.indexedHash == Some(tip.hash)
  }

  ghost function ReplaceBranch(s: Store, tip: ChainTip, ancestor: Option<(nat, Hash)>,
                               branch: seq<IndexedBlock>): Option<Store>
  {
    if tip.height > I64_MAX || (ancestor.Some? && ancestor.value.0 > I64_MAX) then None
    else if !TipLocked(s.chainState, tip) || !Contiguous(ancestor, branch) then None
    else
      match InsertBlocks(s, branch)
      case None => None
      case Some(t) =>
        match PutSelectors(Prefix(t.canonical, ancestor), t.witnesses, branch)
        case None => None
        case Some(c) =>
          Some(t.(canonical := c, chainState := Publication(t.chainState, ancestor, branch),
                  reorgEvents := t.reorgEvents + [EventOf(tip, ancestor)]))
  }

  // The completed event a replacement leaves.
  function EventOf(tip: ChainTip, ancestor: Option<(nat, Hash)>): ReorgEvent {
    ReorgEvent(tip.height, tip.hash, ancestor, true)
  }

  // ---- node tip and status ----

  ghost function ObserveTip(s: Store, height: nat, hash: Hash): Option<Store> {
    if height > I64_MAX then None
    else
      var cs := s.chainState;
      var same := cs.indexedHeight == Some(height) && cs.indexedHash == Some(hash);
      Some(s.(chainState := cs.(nodeHeight := Some(height), nodeHash := Some(hash),
                                status := if same then cs.status else Syncing)))
  }

  ghost function UpdateTip(s: Store, height: nat, hash: Hash, status: Status): Option<Store> {
    if height > I64_MAX then None
    else Some(s.(chainState := s.chainState.(nodeHeight := Some(height), nodeHash := Some(hash),
                                             status := status, lastError := None)))
  }

  function Truncate(text: string, limit: nat): string {
    if |text| <= limit then text else text[..limit]
  }

  ghost function MarkError(s: Store, text: string): Store {
    s.(chainState := s.chainState.(status := Failed, lastError := Some(Truncate(text, 1000))))
  }

  // The index part of the status row is the same.
  ghost predicate SameIndexTip(before: ChainState, after: ChainState) {
    && after.indexedHeight == before.indexedHeight && after.indexedHash == before.indexedHash
    && after.indexedWitness == before.indexedWitness
  }

  // What observing the node's tip leaves in the status row.
  ghost predicate TipObserved(before: ChainState, after: ChainState, height: nat, hash: Hash) {
    && SameIndexTip(before, after) && after.lastError == before.lastError
    && after.nodeHeight == Some(height) && after.nodeHash == Some(hash)
    && after.status == if (before.indexedHeight, before.indexedHash) == (Some(height), Some(hash))
                       then before.status else Syncing
  }

  // What a failure leaves there: the beginning of its text, cut at 1000 characters only.
  ghost predicate ErrorMarked(before: ChainState, after: ChainState, text: string) {
    && SameIndexTip(before, after) && after.status == Failed
    && after.nodeHeight == before.nodeHeight && after.nodeHash == before.nodeHash
    && after.lastError.Some? && after.lastError.value <= text
    && (after.lastError.value == text || |after.lastError.value| == 1000)
    && |after.lastError.value| <= 1000
  }

  // ---- what no transaction takes away ----

  /** Facts are write-once: a later store has every earlier row of blocks,
      transactions, inputs, outputs, block positions and reorg events unchanged,
      and the immutable columns of every earlier witness and proof. */
  ghost predicate Grows(s: Store, t: Store) {
    && Submap(s.blocks, t.blocks)
    && LedgerGrows(s.ledger, t.ledger)
    && RowsGrow(s.positions, t.positions)
    && WitnessesKept(s.witnesses, t.witnesses)
    && LinksKept(s.links, t.links)
    && s.reorgEvents <= t.reorgEvents
  }

  ghost predicate LedgerGrows(a: Ledger, b: Ledger) {
    && Submap(a.transactions, b.transactions)
    && RowsGrow(a.inputs, b.inputs)
    && RowsGrow(a.outputs, b.outputs)
  }

  ghost predicate RowsGrow<K(!new), V>(a: map<K, map<Index, V>>, b: map<K, map<Index, V>>) {
    forall k {:trigger RowsOf(a, k)} {:trigger RowsOf(b, k)} :: Submap(RowsOf(a, k), RowsOf(b, k))
  }

  ghost predicate WitnessesKept(a: map<WitnessKey, WitnessRow>, b: map<WitnessKey, WitnessRow>) {
    forall k :: k in a ==> k in b && b[k].localState == a[k].localState
  }

  ghost predicate LinksKept(a: map<WitnessKey, AuxLink>, b: map<WitnessKey, AuxLink>) {
    forall k :: k in a ==>
      k in b && b[k].parentBits == a[k].parentBits && b[k].meetsTarget == a[k].meetsTarget
  }

  lemma RowsGrowTransitive<K(!new), V>(a: map<K, map<Index, V>>, b: map<K, map<Index, V>>,
                                       c: map<K, map<Index, V>>)
    requires RowsGrow(a, b) && RowsGrow(b, c)
    ensures RowsGrow(a, c)
  {
    forall k
      ensures Submap(RowsOf(a, k), RowsOf(c, k))
    {
      assert Submap(RowsOf(a, k), RowsOf(b, k)) && Submap(RowsOf(b, k), RowsOf(c, k));
    }
  }

  lemma RowsGrowAt<K(!new), V>(a: map<K, map<Index, V>>, key: K, rows: map<Index, V>)
    requires Submap(RowsOf(a, key), rows)
    ensures RowsGrow(a, a[key := rows])
  {
  }

  lemma LedgerGrowsTransitive(a: Ledger, b: Ledger, c: Ledger)
    requires LedgerGrows(a, b) && LedgerGrows(b, c)
    ensures LedgerGrows(a, c)
  {
    RowsGrowTransitive(a.inputs, b.inputs, c.inputs);
    RowsGrowTransitive(a.outputs, b.outputs, c.outputs);
  }

  lemma GrowsTransitive(a: Store, b: Store, c: Store)
    requires Grows(a, b) && Grows(b, c)
    ensures Grows(a, c)
  {
    LedgerGrowsTransitive(a.ledger, b.ledger, c.ledger);
    RowsGrowTransitive(a.positions, b.positions, c.positions);
  }

  // Inserting facts touches neither selection, nor status, nor the audit log.
  ghost predicate SameSelection(s: Store, t: Store) {
    s.canonical == t.canonical && s.chainState == t.chainState && s.reorgEvents == t.reorgEvents
  }

  lemma {:induction false} AcceptAllGrows(s: Ledger, txs: seq<RpcTransaction>, t: Ledger)
    requires AcceptAll(s, txs) == Some(t)
    ensures LedgerGrows(s, t)
  {
    if txs != [] {
      var n := |txs| - 1;
      var m := AcceptAll(s, txs[..n]).value;
      AcceptAllGrows(s, txs[..n], m);
      RowsGrowAt(m.inputs, KeyOf(txs[n]), FromPairs(InputPairs(txs[n].vin)));
      RowsGrowAt(m.outputs, KeyOf(txs[n]), FromPairs(OutputPairs(txs[n].vout)));
      LedgerGrowsTransitive(s, m, t);
    }
  }

  lemma {:induction false} PlaceAllGrows(rows: map<Index, TxKey>, keys: seq<TxKey>,
                                         after: map<Index, TxKey>)
    requires |keys| <= I32_MAX && PlaceAll(rows, keys) == Some(after)
    ensures Submap(rows, after)
  {
    if keys != [] {
      PlaceAllGrows(rows, keys[..|keys| - 1], PlaceAll(rows, keys[..|keys| - 1]).value);
    }
  }

  ghost predicate Holds(s: Store, b: IndexedBlock) {
    && BlockFits(b.block)
    && b.block.hash in s.blocks && SameFacts(s.blocks[b.block.hash], BlockRowOf(b.block))
    && b.Key() in s.witnesses
  }

  lemma HoldsStays(s: Store, t: Store, b: IndexedBlock)
    requires Holds(s, b) && Grows(s, t)
    ensures Holds(t, b)
  {
  }

  lemma InsertBlockGrows(s: Store, b: IndexedBlock, t: Store)
    requires InsertBlock(s, b) == Some(t)
    ensures Grows(s, t) && SameSelection(s, t) && Holds(t, b)
  {
    var rows := RowsOf(s.positions, b.Key());
    AcceptAllGrows(s.ledger, b.block.txs, t.ledger);
    PlaceAllGrows(rows, Keys(b.block.txs), RowsOf(t.positions, b.Key()));
    RowsGrowAt(s.positions, b.Key(), RowsOf(t.positions, b.Key()));
    assert LinksKept(s.links, t.links);
  }

  lemma {:induction false} InsertBlocksGrows(s: Store, branch: seq<IndexedBlock>, t: Store)
    requires InsertBlocks(s, branch) == Some(t)
    ensures Grows(s, t) && SameSelection(s, t)
  {
    if branch != [] {
      var n := |branch| - 1;
      var m := InsertBlocks(s, branch[..n]).value;
      InsertBlocksGrows(s, branch[..n], m);
      InsertBlockGrows(m, branch[n], t);
      GrowsTransitive(s, m, t);
    }
  }

  lemma LastInsertedHolds(s: Store, branch: seq<IndexedBlock>, t: Store)
    requires branch != [] && InsertBlocks(s, branch) == Some(t)
    ensures Holds(t, branch[|branch| - 1])
  {
    var n := |branch| - 1;
    InsertBlockGrows(InsertBlocks(s, branch[..n]).value, branch[n], t);
  }

  lemma {:induction false} InsertBlocksHolds(s: Store, branch: seq<IndexedBlock>, t: Store, i: nat)
    requires InsertBlocks(s, branch) == Some(t) && i < |branch|
    ensures Holds(t, branch[i])
    decreases |branch|
  {
    if i < |branch| - 1 {
      var n := |branch| - 1;
      var m := InsertBlocks(s, branch[..n]).value;
      InsertBlocksHolds(s, branch[..n], m, i);
      assert Holds(m, branch[i]);
      assert Grows(m, t) by {
        InsertBlockGrows(m, branch[n], t);
      }
      HoldsStays(m, t, branch[i]);
    } else {
      LastInsertedHolds(s, branch, t);
    }
  }

  lemma CommitBlockGrows(s: Store, b: IndexedBlock, t: Store)
    requires CommitBlock(s, b) == Some(t)
    ensures Grows(s, t) && t.reorgEvents == s.reorgEvents
  {
    var s1 := InsertBlock(s, b).value;
    InsertBlockGrows(s, b, s1);
    assert Grows(s, t) by { assert Grows(s, s1); }
  }

  lemma ReplaceBranchGrows(s: Store, tip: ChainTip, ancestor: Option<(nat, Hash)>,
                           branch: seq<IndexedBlock>, t: Store)
    requires ReplaceBranch(s, tip, ancestor, branch) == Some(t)
    ensures Grows(s, t)
  {
    InsertBlocksGrows(s, branch, InsertBlocks(s, branch).value);
  }

  // ---- a prefix that aborts aborts the whole ----

  lemma {:induction false} AcceptAllPrefix(s: Ledger, txs: seq<RpcTransaction>, n: nat)
    requires n <= |txs| && AcceptAll(s, txs).Some?
    ensures AcceptAll(s, txs[..n]).Some?
    decreases |txs|
  {
    if n < |txs| {
      AcceptAllPrefix(s, txs[..|txs| - 1], n);
      assert txs[..|txs| - 1][..n] == txs[..n];
    } else {
      assert txs[..n] == txs;
    }
  }

  lemma {:induction false} PlaceAllPrefix(rows: map<Index, TxKey>, keys: seq<TxKey>, n: nat)
    requires n <= |keys| <= I32_MAX && PlaceAll(rows, keys).Some?
    ensures PlaceAll(rows, keys[..n]).Some?
    decreases |keys|
  {
    if n < |keys| {
      PlaceAllPrefix(rows, keys[..|keys| - 1], n);
      assert keys[..|keys| - 1][..n] == keys[..n];
    } else {
      assert keys[..n] == keys;
    }
  }

  lemma {:induction false} InsertBlocksPrefix(s: Store, branch: seq<IndexedBlock>, n: nat)
    requires n <= |branch| && InsertBlocks(s, branch).Some?
    ensures InsertBlocks(s, branch[..n]).Some?
    decreases |branch|
  {
    if n < |branch| {
      InsertBlocksPrefix(s, branch[..|branch| - 1], n);
      assert branch[..|branch| - 1][..n] == branch[..n];
    } else {
      assert branch[..n] == branch;
    }
  }

  lemma {:induction false} PutSelectorsPrefix(c: map<nat, WitnessKey>,
                                              witnesses: map<WitnessKey, WitnessRow>,
                                              branch: seq<IndexedBlock>, n: nat)
    requires n <= |branch| && PutSelectors(c, witnesses, branch).Some?
    ensures PutSelectors(c, witnesses, branch[..n]).Some?
    decreases |branch|
  {
    if n < |branch| {
      PutSelectorsPrefix(c, witnesses, branch[..|branch| - 1], n);
      assert branch[..|branch| - 1][..n] == branch[..n];
    } else {
      assert branch[..n] == branch;
    }
  }

  // After the first `n` transactions of a block.
  ghost predicate PutUpTo(ledger: Ledger, rows: map<Index, TxKey>, txs: seq<RpcTransaction>, n: nat,
                          ledger': Ledger, rows': map<Index, TxKey>)
    requires n <= |txs|
  {
    && Puttable(ledger, rows, txs[..n])
    && AcceptAll(ledger, txs[..n]) == Some(ledger')
    && PlaceAll(rows, Keys(txs[..n])) == Some(rows')
  }

  ghost predicate AllDigests(txs: seq<RpcTransaction>) {
    forall i :: 0 <= i < |txs| ==> HasDigest(txs[i])
  }

  // The keys of the transactions before the last one.
  lemma KeysNext(txs: seq<RpcTransaction>, n: nat)
    requires n < |txs| && forall i :: 0 <= i < n ==> HasDigest(txs[..n][i])
    ensures AllDigests(txs[..n + 1]) <==> HasDigest(txs[n])
    ensures HasDigest(txs[n]) ==>
              Keys(txs[..n + 1])[..n] == Keys(txs[..n]) && Keys(txs[..n + 1])[n] == KeyOf(txs[n])
  {
    var next := txs[..n + 1];
    assert next[n] == txs[n];
    if HasDigest(txs[n]) {
      forall i | 0 <= i < |next|
        ensures HasDigest(next[i])
      {
        assert i < n ==> txs[..n][i] == next[i];
      }
      assert forall i :: 0 <= i < n ==> txs[..n][i] == next[i];
    }
  }

  lemma PutNext(ledger: Ledger, rows: map<Index, TxKey>, txs: seq<RpcTransaction>, n: nat,
                ledger': Ledger, rows': map<Index, TxKey>)
    requires n < |txs| <= I32_MAX && PutUpTo(ledger, rows, txs, n, ledger', rows')
    ensures Puttable(ledger, rows, txs[..n + 1]) <==>
            Accepts(ledger', txs[n]) && Place(rows', n, KeyOf(txs[n])).Some?
    ensures Puttable(ledger, rows, txs[..n + 1]) ==>
              PutUpTo(ledger, rows, txs, n + 1, Accepted(ledger', txs[n]),
                      Place(rows', n, KeyOf(txs[n])).value)
  {
    hide Accepted, Place, HasDigest, KeyOf;
    assert txs[..n + 1][..n] == txs[..n];
    KeysNext(txs, n);
    assert Accepts(ledger', txs[n]) ==> HasDigest(txs[n]);
  }

  lemma PutFails(ledger: Ledger, rows: map<Index, TxKey>, txs: seq<RpcTransaction>, n: nat)
    requires n <= |txs| && Puttable(ledger, rows, txs)
    ensures Puttable(ledger, rows, txs[..n])
  {
    AcceptAllPrefix(ledger, txs, n);
    PlaceAllPrefix(rows, Keys(txs), n);
    assert Keys(txs)[..n] == Keys(txs[..n]);
  }
}
