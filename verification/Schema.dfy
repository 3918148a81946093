/** Node answers (src/models.rs) and the rows they are stored as
    (migrations/0001_initial.sql, 0004_transaction_instance_integrity.sql). */
module Schema {
  import opened Wrappers
  import opened OrderedRows

  const I32_MAX: nat := 0x7fff_ffff
  const U32_MAX: nat := 0xffff_ffff
  const I64_MAX: nat := 0x7fff_ffff_ffff_ffff
  const U64_MAX: nat := 0xffff_ffff_ffff_ffff

  // A 32-byte identifier, opaque but for equality and the all-zero value.
  datatype Hash = Hash(id: nat)

  const ZERO_HASH := Hash(0)

  datatype Error = NotReady | Config | InvalidNodeResponse | InvalidAuxPow | Rpc | Database

  type Outcome<+T> = Result<T, Error>

  // ---- node answers ----

  datatype Input = Input(previousTxid: Option<Hash>, previousIndex: Option<nat>,
                         coinbase: Option<string>, sequence: Option<nat>)

  datatype ScriptPubKey = ScriptPubKey(address: Option<string>, addresses: seq<string>,
                                       scriptType: Option<string>, scriptHex: Option<string>)
  {
    function PrimaryAddress(): Option<string> {
      if address.Some? then address
      else if |addresses| == 1 then Some(addresses[0])
      else None
    }
  }

  datatype RpcOutput = RpcOutput(n: nat, value: int, script: ScriptPubKey)

  datatype TxScalars = TxScalars(version: int, size: nat, lockTime: nat, expiryHeight: nat,
                                 valueBalance: Option<int>, saplingSpends: nat,
                                 saplingOutputs: nat, orchardActions: nat, ironwoodActions: nat)

  datatype RpcTransaction = RpcTransaction(txid: Hash, authDigest: Option<Hash>, rawHash: Hash,
                                           scalars: TxScalars, vin: seq<Input>,
                                           vout: seq<RpcOutput>)

  datatype BlockFacts = BlockFacts(merkleRoot: Hash, commitments: Option<Hash>, time: int,
                                   size: nat, bits: string, nonce: string, supply: Option<int>)

  datatype RpcBlock = RpcBlock(hash: Hash, height: nat, previous: Option<Hash>,
                               facts: BlockFacts, difficulty: string, confirmations: int,
                               txs: seq<RpcTransaction>)

  datatype ParentLookupState =
    | Canonical | Orphaned | NotFound | Unavailable | NotConfigured | Disagreement

  datatype ParentBlock = ParentBlock(height: nat, confirmations: int, bits: string)

  datatype ParentObservation = ParentObservation(source: string, state: ParentLookupState,
                                                 parent: Option<ParentBlock>,
                                                 headerMatches: Option<bool>, checkedAt: int)

  datatype WitnessState =
    | BestChain | SideChain | ConflictingWitness | Pending | Unknown | NativeGenesis

  datatype VerifiedAuxPow = VerifiedAuxPow(parentBits: string, meetsTarget: bool,
                                           witnessState: WitnessState,
                                           confirmations: Option<nat>,
                                           observations: seq<ParentObservation>,
                                           lookupState: ParentLookupState, sourcesAgree: bool)

  // `witnessHash` is the domain-separated hash of the raw block.
  datatype IndexedBlock = IndexedBlock(block: RpcBlock, witnessHash: Hash,
                                       auxpow: Option<VerifiedAuxPow>, fetchedAt: int)
  {
    function Key(): WitnessKey {
      WitnessKey(block.hash, witnessHash)
    }
  }

  // ---- rows ----

  datatype WitnessKey = WitnessKey(block: Hash, witnessHash: Hash)

  // The UNIQUE pair of transaction_instances; it stands for the surrogate id.
  datatype TxKey = TxKey(txid: Hash, digest: Hash)

  // `difficulty` is stored once and never compared.
  datatype BlockRow = BlockRow(height: nat, previous: Option<Hash>, facts: BlockFacts,
                               transactionCount: nat, difficulty: string)

  datatype LocalState = AuxPowVerified | Genesis

  datatype WitnessRow = WitnessRow(exactState: WitnessState, confirmations: Option<nat>,
                                   localState: LocalState)

  datatype TxRow = TxRow(authDigest: Option<Hash>, rawHash: Hash, scalars: TxScalars,
                         isCoinbase: bool)

  datatype OutputRow = OutputRow(value: int, address: Option<string>,
                                 scriptType: Option<string>, scriptHex: Option<string>)

  datatype AuxLink = AuxLink(parentBits: string, meetsTarget: bool,
                             lookupState: ParentLookupState, sourcesAgree: bool,
                             verifiedAt: int)

  datatype ObservationRow = ObservationRow(state: ParentLookupState, parentHeight: Option<nat>,
                                           parentConfirmations: Option<int>,
                                           parentBits: Option<string>,
                                           headerMatches: Option<bool>, checkedAt: int)

  datatype Status = Starting | Syncing | Ready | Failed

  datatype ChainState = ChainState(indexedHeight: Option<nat>, indexedHash: Option<Hash>,
                                   indexedWitness: Option<Hash>, nodeHeight: Option<nat>,
                                   nodeHash: Option<Hash>, status: Status,
                                   lastError: Option<string>)

  datatype ReorgEvent = ReorgEvent(oldHeight: nat, oldHash: Hash,
                                   ancestor: Option<(nat, Hash)>, completed: bool)

  datatype ChainTip = ChainTip(height: nat, hash: Hash, witnessHash: Hash)

  // transaction_instances, transparent_inputs and transparent_outputs.
  datatype Ledger = Ledger(transactions: map<TxKey, TxRow>,
                           inputs: map<TxKey, map<Index, Input>>,
                           outputs: map<TxKey, map<Index, OutputRow>>)

  /** All tables of one network. `chain_state` has its row from initialization on. */
  datatype Store = Store(blocks: map<Hash, BlockRow>,
                         witnesses: map<WitnessKey, WitnessRow>,
                         positions: map<WitnessKey, map<Index, TxKey>>,
                         ledger: Ledger,
                         links: map<WitnessKey, AuxLink>,
                         observations: map<WitnessKey, map<string, ObservationRow>>,
                         canonical: map<nat, WitnessKey>,
                         chainState: ChainState,
                         reorgEvents: seq<ReorgEvent>)

  const EMPTY_STORE := Store(map[], map[], map[], Ledger(map[], map[], map[]), map[], map[], map[],
                             ChainState(None, None, None, None, None, Starting, None), [])
}
