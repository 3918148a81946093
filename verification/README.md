# Reorg-safe canonical index

A Dafny model of the Wcash explorer's index. An indexer follows a node that may
change its chain at any time and writes atomic database transactions; views over
the canonical chain are computed from the tables by independent queries. The
project proves that every run keeps a valid, hash-linked canonical chain over
write-once facts, that a pass against a stable node converges on its chain
exactly when the fork lies within the search bound, and that the views agree with
each other and with a plain replay of the canonical history.

`dafny verify dfyconfig.toml` checks everything. The parts build on each other:

- `Schema`, `OrderedRows`, `Transactions`, `ParentEvidence`: node answers, rows,
  and what the insert-then-compare statements accept.
- `StoreSemantics`: the effect of each database transaction as a function of the
  tables. `Database`: the tables as fields of a class whose methods do what
  `src/db.rs` does, each proved equal to its function, or to change nothing.
- `CanonicalChain`, `StoredFacts`, `Protocol`: what every transaction keeps, and
  every run of transactions, crashes included.
- `Universe`, `Node`, `GenuineRuns`, `Convergence`, `Indexer`: an oracle for every
  node call, the synchronization pass as methods that record each transaction in a
  ghost log, and its convergence.
- `Readiness`, `Freshness`: the readiness answer over one reachable state, during
  a pass, and after a refresh of evidence.
- `History`, `Sums`, `AddressViews`, `RunningBalance`, `EarlySpend`, `Replay`, `AddressStats`,
  `MergeMining`, `Paging`: the views over the history of a valid store.
- `OutputRows`, `ActivityRows`: what the views of addresses report, in terms of the
  output and input rows of the history alone.
- `Bytes`, `Cursors`, `AuxPow`, `Amounts`: exact encodings.

Assumptions. One writer: the lease of `src/indexer.rs:55-107` is taken as given,
so transactions of one indexer follow each other. Transactions are atomic and the
declared constraints hold. Safety assumes nothing about node answers. Convergence
assumes that a hash fixes a block and a key fixes a transaction, that the node
serves one linked chain on the calls of the pass, whatever it answered before or
answers later, and that these calls and verifications succeed. Parent sources have
distinct labels, as `src/config.rs:81-84` and `src/config.rs:231-232` make sure.

Three properties do not hold as one might first state them, and are proved in
their exact form: stored lists can be appended to by a resubmission
(`Transactions.ResubmissionAccepted`, with an example in `LongerListAccepted`), the
balance column is right exactly for orderly histories
(`RunningBalance.ColumnIsBalance`, with a run in `EarlySpend`), and the `ready`
status alone does not mean equal hashes: a successful pass ends with equal hashes
if and only if the call that named the block it ends on got the same answer as the
call that first named the node's tip (`Indexers.Indexer.SyncOnce`, with a run in
`Readiness.StatusAloneIsNotEnough`).

The compact target follows section 7.7.4 (nBits conversion) and the solution
offset section 7.6 of the Zcash Protocol Specification.

## Model

| member | source | states |
|---|---|---|
| Databases.Database.InsertTransaction | src/db.rs:733-983 | succeeds exactly for submissions whose columns fit, whose stored instance has the same facts and whose lists contain every stored row; then, under the transaction's own id and its digest, every column, every input at its place and every output at its number is stored as supplied, and no other row |
| Databases.Database.InsertInputs | src/db.rs:812-908 | the loop and the comparison accept exactly lists in range that extend the stored inputs, and store them as supplied |
| Databases.Database.InsertOutputs | src/db.rs:909-982 | the loop and the comparison accept exactly lists in range with increasing numbers that contain the stored outputs, and store them as supplied |
| OrderedRows.ReadBackAccepts | src/db.rs:812-983 | inserting with conflicts ignored and comparing what is read back accepts a list exactly when its numbers strictly increase and every earlier row is in it |
| Transactions.AcceptedReadsBack | src/db.rs:735-983 | after acceptance id, digest, coinbase mark and all other columns, all inputs in order from 0 and all outputs in order of their numbers read back as supplied |
| Transactions.FirstSubmission | src/db.rs:733-983 | which first submissions are accepted, column by column |
| Transactions.ResubmissionAccepted | src/db.rs:733-983 | a resubmission is accepted if and only if the scalar facts agree, the stored inputs are a prefix and the stored outputs are among the supplied ones: lists can be appended to, never changed |
| Transactions.LongerListAccepted | src/db.rs:733-983 | one transaction accepted with one input and then again with two inputs and an output |
| Transactions.CoinbaseAccepted | src/db.rs:757-760 | a coinbase transaction is accepted and marked as one; any other input accepted names a whole outpoint |
| Transactions.PlaceAllPlaces | src/db.rs:562-598 | accepted positions are the earlier ones plus 0..n-1 with the supplied transactions, none listed twice |
| Transactions.PlaceAllAccepts | src/db.rs:562-598 | positions that agree with the stored ones and list no transaction twice are always accepted |
| Transactions.AcceptAllStores | src/db.rs:545-598 | every transaction of an accepted block with distinct keys is stored as supplied, whatever follows it in the block |
| Databases.Database.InsertBlock | src/db.rs:445-731 | succeeds exactly when all facts of the block are acceptable; then block, witness, proof and observation rows have the supplied columns, and all tables are those of the specification |
| Databases.Database.InsertBlockRow | src/db.rs:459-560 | refuses a block whose stored facts differ from the supplied ones; the witness row shows the present status and keeps its first validation state |
| Databases.Database.InsertTransactions | src/db.rs:562-598 | the loop accepts exactly when every transaction and every position is acceptable in turn |
| Databases.Database.InsertEvidence | src/db.rs:620-728 | the proof row has the time, state and agreement flag of this verification and the header facts of the first one; there is one observation row for each source asked, showing its last answer, and none of an earlier verification |
| StoreSemantics.FirstBlock | src/db.rs:459-500 | which first blocks without transactions are accepted, condition by condition |
| ParentEvidence.RowsFromShow | src/db.rs:673-727 | whatever the list of observations, the upserts leave one row for each source, with the columns of its last observation |
| StoredFacts.InsertBlockStores | src/db.rs:459-598 | success means the compared facts equal the supplied ones, positions are exactly 0..n-1 and at each of them every column of the transaction and of its lists is stored as supplied |
| StoredFacts.InsertBlockKeepsFacts | src/db.rs:545-598 | positions of every stored witness stay exactly 0..count-1, each a different stored transaction, and stored lists stay well formed |
| StoreSemantics.InsertBlockGrows | src/db.rs:459-598 | no earlier row of blocks, instances, inputs, outputs or positions changes or disappears, and selection, status and audit log are untouched |
| Databases.Database.CommitBlock | src/db.rs:252-259 | commits exactly when facts and selection are accepted, and then writes the block, selects it at its height and records it as the tip with the status syncing; or changes no table |
| CanonicalChain.CommitSucceeds | src/db.rs:987-1046 | on a valid chain a block that follows the tip is refused only for its facts: height, unique hash and witness key never get in the way, and one selector is added |
| CanonicalChain.CommitKeepsChain | src/db.rs:987-1046 | a committed following block is the recorded tip, witness included, of a chain that is still contiguous, stored and linked; the status is syncing, the error cleared and the node tip kept |
| Databases.Database.CanonicalTip | src/db.rs:178-200 | the selector of greatest height, or none exactly when nothing is selected |
| Databases.Database.CanonicalHash | src/db.rs:202-212 | the block selected at a height in the database range, if any |
| Databases.Database.InsertCanonicalSelector | src/db.rs:1029-1046 | a taken height is left alone, a block hash selected at another height or a missing witness aborts, otherwise exactly this selector is added |
| Databases.Database.EvidenceRefreshCandidate | src/db.rs:214-250 | a stale tip first, otherwise the recent proof with the oldest evidence; nothing exactly when no recent proof is stale |
| Databases.Database.RefreshBlockEvidence | src/db.rs:261-271 | writes time, state, flag and observations of this verification for its proof alone, or changes no table |
| Freshness.RefreshExact | src/db.rs:214-271 | after a refresh the proof is due again exactly when the refresh is more than 30 seconds old and in the window; no other height is affected |
| Freshness.RefreshShrinksStale | src/db.rs:214-271 | a recent refresh takes exactly its height from those that are due |
| Freshness.RefreshOpensGate | src/api.rs:188-223 | after a refresh of a selected block above genesis the evidence gate depends on the new verification alone: two or more sources, all of which found the parent of the stored proof canonical, recently, and a proof that met its target |
| Databases.Database.ValidateReplacementBranch | src/db.rs:1048-1066 | the loop accepts exactly the branches that continue the ancestor without a gap in height or parent |
| Databases.Database.InsertBranch | src/db.rs:299-302 | the facts of all blocks of a branch, in order, or a failure where the first one is refused |
| Databases.Database.PublishBranch | src/db.rs:309-372 | records the event, keeps the selectors up to the ancestor, selects the branch, records its tip and completes the event |
| Databases.Database.ReplaceCanonicalBranch | src/db.rs:273-375 | commits exactly when the locked tip, the contiguity and all facts are accepted; a moved tip is `NotReady`; any failure leaves every table as it was |
| Databases.Database.ObserveNodeTip | src/db.rs:391-413 | records the node tip and makes the status syncing unless the recorded index tip is that very block; the index tip and the error stay |
| Databases.Database.MarkIndexerError | src/db.rs:377-388 | the failed status with the text or its first 1000 characters; index tip and node tip stay |
| CanonicalChain.ReplacementExact | src/db.rs:281-342 | from a fork point on a valid chain, replacement fails exactly for a moved tip, a broken branch or refused facts; otherwise the chain is the old prefix followed by the branch, height for height |
| CanonicalChain.SelectorsExact | src/db.rs:320-342 | publishing the branch meets no taken height that would be silently ignored, no block hash selected twice and no missing witness |
| CanonicalChain.ReplacementKeepsChain | src/db.rs:298-375 | the published chain is contiguous, stored, linked and recorded, with the witness of the last block of the branch, or none if the branch is empty; the status is syncing, the error cleared and the node tip kept |
| ParentEvidence.ClassifyIsAggregate | src/auxpow.rs:215-244 | the classification loop over a list is a function of the set of states and their number |
| ParentEvidence.ClassifyIgnoresOrder | src/auxpow.rs:215-244 | the order in which sources answer does not matter |
| ParentEvidence.ClassifyStoredRows | src/db.rs:659-728 | with one label per source, classifying the answers and classifying the stored rows agree |
| StoredFacts.InsertBlockKeepsEvidence | src/db.rs:620-728 | parent state and agreement flag of every stored proof stay those of exactly its stored observations |
| Nodes.VerifyProof | src/auxpow.rs:43-122 | passes exactly best-chain witnesses, without a proof at height 0 only; target, bits and confirmations are as reported, and each configured source has, in order, one observation whose state is fixed by its own answer: disagreement, orphaned, canonical, not found or unavailable |
| CanonicalChain.HashDeterminesPrefix | src/db.rs:281-296 | two valid states that share one selected hash select it at the same height and agree at every lower one |
| CanonicalChain.TipDeterminesChain | src/db.rs:281-296 | the same tip hash means the same chain at every height |
| CanonicalChain.LockedTipKeepsForkPoint | src/db.rs:281-296 | an ancestor found earlier is still selected whenever the locked-tip comparison passes |
| CanonicalChain.WalkBackSelected | src/db.rs:309-318 | walking stored parents from a selected block reaches the selected block that many heights lower |
| Protocol.StepKeepsValid | src/indexer.rs:110-247 | every transaction of a pass keeps the whole store valid and only adds facts |
| Protocol.StatusKeepsValid | src/db.rs:378-442 | recording node tip, status or error keeps the store valid as long as `ready` is recorded for equal heights only |
| Protocol.RunKeepsValid | src/indexer.rs:110-247 | every run, with arbitrary node answers, keeps heights 0..tip, stored heights, parent links, tip record, status, audit log, facts and evidence, and every fact it started from |
| Protocol.SelectedIsProved | src/auxpow.rs:66-94 | in every reachable store each selected block above genesis has a proof, was verified locally and is the exact witness on the best chain |
| Protocol.EmptyIsValid | migrations/0001_initial.sql:187-198 | an initialized empty store is valid, so the safety of runs covers runs from the start |
| Protocol.PrefixRuns | src/indexer.rs:110-247 | a crash between two transactions leaves a run |
| Protocol.SameTipSameChain | src/indexer.rs:122-150 | two moments of one run with the same canonical tip hash select the same block at every height |
| Protocol.ReorgStaysReconstructible | src/db.rs:309-375 | the event of a replacement is complete, names the tip before it and in every later state still reaches its ancestor by stored parents in the recorded number of steps |
| Protocol.GenesisStays | src/indexer.rs:337-341 | no run removes or exchanges a selected genesis block |
| Protocol.AppendOnlyKeepsSelection | src/indexer.rs:172-185 | a run without a replacement keeps every selector |
| Universes.InsertGenuine | src/db.rs:459-598 | where a hash fixes a block, a genuine block is always insertable and no stored fact is ever refused |
| Universes.AgreeDownward | src/indexer.rs:122-127 | where index and node chain agree at one height they agree at every lower one |
| GenuineRuns.GenuineRun | src/indexer.rs:110-247 | runs fed by honest answers, from whatever chains, hold only genuine facts |
| GenuineRuns.GenuineFromEmpty | src/indexer.rs:110-247 | from an empty database, a run fed by honest answers holds a valid store of genuine facts |
| Indexers.Indexer.ValidateIdentity | src/indexer.rs:250-269 | accepts exactly the configured genesis and chain name, which is `main` for mainnet, `test` for testnet and the identifier itself for any other network |
| Indexers.Indexer.FetchIndexedBlock | src/indexer.rs:271-313 | a fetched block is what its five calls answered: the asked height, the expected parent, for each configured source the observation its own answer means, without proof at genesis only, named by the node before and after, with the time after the last call; a served chain is fetched without fail |
| Indexers.Indexer.FindCommonAncestor | src/indexer.rs:315-345 | at most max_reorg_depth+1 comparisons, from the top down to the first that agrees; the result is selected, and against a served chain it is the greatest agreeing height, failure meaning that no examined height agrees |
| Indexers.Indexer.AppendBlocks | src/indexer.rs:172-185 | extends the tip to the node's height with one commit per block; against a served chain it never fails and ends in agreement |
| Indexers.Indexer.StageReplacement | src/indexer.rs:138-149 | staging never yields a branch that the database would find broken |
| Indexers.Indexer.Recheck | src/indexer.rs:150-162 | passes exactly when the node still names the same tip and ancestor |
| Indexers.Indexer.StageDivergence | src/indexer.rs:128-162 | search, staging and rechecks touch no table; a result is a contiguous verified branch on a selected ancestor that the node confirmed |
| Indexers.Indexer.PublishReplacement | src/indexer.rs:163-165 | from genuine tables, a locked tip and a contiguous genuine branch the publication cannot fail |
| Convergence.ReplacementMirrors | src/indexer.rs:128-169 | publishing the node's chain above a shared block leaves exactly that chain, also when it is shorter |
| Convergence.MirrorMeets | src/indexer.rs:315-345 | from an index that is one chain, another is in reach exactly when the two share a block within the bound below their common top |
| Indexers.Indexer.ReplaceDivergent | src/indexer.rs:128-169 | changes nothing on failure; success is one replacement after the node confirmed tip and ancestor; against a served chain it fails exactly when no examined height agrees and otherwise leaves that chain |
| Indexers.Indexer.TipMatches | src/indexer.rs:122-127 | the stored tip is still on the node exactly when it is not above the node's tip and the node names the same block there |
| Indexers.Indexer.Advance | src/indexer.rs:119-185 | a diverging index gets one replacement, any other one commit per missing block; which call named the block it ends on; a chain served on its calls is reached exactly when it is in reach |
| Indexers.Indexer.RefreshEvidence | src/indexer.rs:187-203 | none only if no recent proof is stale; otherwise one refresh of the candidate, which leaves the time and the answers of this verification and, when the node still has the selected block, a proof that is no longer due; it alters no selector, chain state or reorg event |
| Indexers.Indexer.OpenPass | src/indexer.rs:111-117 | a pass starts from the tip the node named on the configured network and the tip selected then; afterwards the node tip is recorded and the status is syncing unless the index is on that block; nothing else changes |
| Indexers.Indexer.ClosePass | src/indexer.rs:205-224 | a pass that reached the node's height ends ready with that node tip and no error |
| Indexers.Indexer.SyncOnce | src/indexer.rs:110-248 | every transaction is a step of the protocol, and a successful pass is exactly: the node's tip observed, one commit per indexed block or one replacement of the reported depth, at most one refresh, the ready status at the node's height; its index and node hashes are equal if and only if the call that named its last block got the answer of its second call; against a chain served on the calls of this pass it succeeds exactly when the fork is in reach and leaves that chain; a second pass indexes nothing and changes no selector |
| Indexers.Indexer.Tick | src/indexer.rs:81-103 | a failed pass ends with the failed status and the text of its error on a still valid store and the same selection against a served chain; a chain served on its calls is reached exactly when in reach |
| Indexers.Indexer.TwoTicks | src/indexer.rs:73-105 | around a reorganization of the node from one served chain to another, the index follows exactly when the two chains meet within the bound, and else stays |
| Readiness.EvidenceGate | src/api.rs:188-223 | above genesis the evidence gate opens exactly when the proof meets its target and two or more sources all found its parent canonical, recently; the witness columns and the stored aggregate add nothing |
| Readiness.ReadyMeansSameTip | src/api.rs:117-186 | in every reachable state the answer is ready exactly when the status is, the heartbeat is recent, the node tip is the canonical tip in height and hash, and the tip is well evidenced where asked |
| Readiness.NotReadyUntilFinished | src/db.rs:391-413 | in every run, from the moment the node is seen on another block than the recorded tip until some pass ends, no state is ready, whatever commits, replacements, refreshes, failures or later passes happen; the node tip seen stays recorded until the next observation |
| Readiness.StatusAloneIsNotEnough | src/api.rs:129-131 | a run stores `ready` for a block other than the node's, at equal heights, and the answer is then not ready; `SyncOnce` says exactly when that happens |
| History.HistoryExact | src/api.rs:2676-2689 | the joined rows of the canonical chain, each once, by height and position |
| History.HistoryOfValid | src/api.rs:2676-2689 | in a valid store the history is ordered, complete and priced in non-negative amounts |
| History.CommitAppends | src/db.rs:252-259 | committing a genuine block appends exactly its transactions to the history, in block order, each under its own id with its inputs and outputs column by column as supplied |
| History.GenuineEvents | src/api.rs:2676-2689 | in a genuine store the rows of a witness are the transactions of the block its hash means |
| History.HistoryIsChain | src/api.rs:2676-2689 | the history of a genuine store has exactly one row for each position of each canonical block and shows that transaction, after replacements too |
| History.ExtensionAppends | src/indexer.rs:172-185 | while blocks are only appended, the history only grows at its end |
| AddressViews.SpendCountIsProduct | src/api.rs:2691-2706 | the joined spend count is the number of inputs times the number of equal outpoints, zero exactly when nothing spends the output |
| OutputRows.SpendsExact | src/api.rs:2691-2700 | a spend is listed once for each input row that names its transaction and output number |
| OutputRows.CoinsExact | src/api.rs:2676-2689 | a coin is listed once for each output row with its number, value, address and transaction |
| OutputRows.PageOverRows | src/api.rs:2735-2749 | received, spent, balance and output count as sums over the output rows of the history: an output of the address is unspent exactly when no input row names its transaction and number |
| OutputRows.MaturityOverRows | src/api.rs:2739-2748 | immature, mature and other unspent value over those rows, by coinbase mark and confirmations |
| OutputRows.AnomaliesOverRows | src/api.rs:2763-2764 | the reported anomalies are, for each output row, its joined input rows beyond one |
| AddressViews.PageAddsUp | src/api.rs:2735-2764 | received is sent plus unspent; unspent is immature plus mature plus non-coinbase |
| AddressViews.RichListAgrees | src/analytics.rs:826-850 | rich list and address page report the same balance, received total, sent total and output count for every address |
| AddressViews.TransactionCountsAgree | src/analytics.rs:851-880 | rich list and address page count the same transactions under different keys |
| AddressViews.SeenHeightsAgree | src/api.rs:2755-2758 | first and last row in page order carry the least and the greatest height |
| AddressViews.GrandTotal | src/analytics.rs:975-983 | balances grouped by funded address add up to the flat sum over unspent addressed outputs |
| ActivityRows.TotalOverRows | src/analytics.rs:975-983 | the flat total is the value of the output rows that have an address and that no input row names |
| AddressViews.FundedIsPositive | src/analytics.rs:842-850 | an address is funded exactly when its page shows a positive balance |
| AddressViews.StatisticsAgree | src/analytics.rs:876-983 | the inner join drops no funded address, and rich list and current statistics report the same addresses, number and total, which is the flat one |
| RunningBalance.ActivityIsRunning | src/api.rs:2816-2828 | each row's balance is the sum of all deltas up to its event, rows without delta left out |
| ActivityRows.ActivityOverRows | src/api.rs:2784-2828 | received is what the output rows of the event pay, spent what its input rows draw, and the balance what all events up to it have paid less what they have drawn |
| ActivityRows.ActivityEvents | src/api.rs:2779-2815 | there is a row for exactly the events with an output row that pays the address or an input row that names such a row |
| ActivityRows.ColumnTotals | src/api.rs:2779-2815 | the received column adds up to the page's received total, the spent column to the value of its outputs once for each input row that names them |
| RunningBalance.GapIdentity | src/api.rs:2784-2828 | the page's balance of the truncated history exceeds the running balance by exactly the value of surplus spends and of spends before receipt |
| RunningBalance.ColumnIsBalance | src/api.rs:2767-2837 | every row shows the balance of the history truncated there if and only if no positive output of the address is spent twice or before it is received; then no row is negative |
| ActivityRows.OrderlyIsRows | src/api.rs:2767-2837 | the order condition over rows: no positive output of the address is named by two input rows, or by one of an earlier event |
| RunningBalance.LastRowIsUnspent | src/api.rs:2763-2828 | the last balance is the unspent total exactly when no positive output is spent twice; no reported anomaly is enough |
| EarlySpend.EarlySpendGoesNegative | src/api.rs:2823-2828 | a run of one commit whose history has a negative row and no anomaly, so the order condition is needed in reachable stores |
| Replay.LiveIsUntaken | src/api.rs:2676-2765 | replaying events on a list of live coins leaves the coins that no later input names |
| OutputRows.ReplayOverRows | src/api.rs:2676-2765 | the replayed balance is the value of the output rows that no input row of their own or a later event names |
| Replay.ReplayRefinesPage | src/api.rs:2676-2765 | the replayed balance exceeds the page's by exactly the coins that only earlier inputs name |
| Replay.OrderlyBalancesAgree | src/api.rs:2676-2837 | in an orderly history the replay, the page and the last activity row agree |
| AddressStats.TotalIsSeen | src/analytics.rs:931-945 | the running total of first appearances is the number of distinct addresses with an event up to that height |
| AddressStats.TotalIsMonotone | src/analytics.rs:931-945 | the total never falls |
| AddressStats.NewAreActive | src/analytics.rs:924-930 | new addresses are active ones, so never more |
| AddressStats.TotalAtTip | src/analytics.rs:967-980 | at the tip the total is the separately computed count of seen addresses |
| ActivityRows.StatisticsOverRows | src/analytics.rs:907-983 | an address is active at a height exactly when an event there pays it or draws on it, new exactly when none does below, and seen exactly when some output pays it |
| MergeMining.Partition | src/analytics.rs:743-813 | under three-valued logic, in every reachable store, fully verified, locally verified only and anomaly blocks are disjoint and add up to the child blocks |
| MergeMining.FullyVerifiedExact | src/analytics.rs:781-789 | in every reachable store a block above genesis is fully verified exactly when its proof meets the target and two or more sources all found the parent canonical |
| MergeMining.LocallyOnlyExact | src/analytics.rs:790-803 | in every reachable store a block is only locally verified exactly when it is above genesis without a stored observation, and an anomaly exactly when it has observations that do not verify it fully |
| Paging.PageExact | src/api.rs:296-312 | a page holds the greatest rows below the cursor and names a next cursor exactly when more remain |
| Paging.WalkListsAll | src/api.rs:290-313 | following the cursor ends for any limits and lists every row once in order, also while rows are appended |
| Paging.BlockPages | src/api.rs:290-313 | the block pages list every selected block once |
| Paging.TransactionPages | src/api.rs:393-424 | the transaction pages list every canonical transaction once, by descending height and position, while the history grows at its end |
| Paging.PagesOfRun | src/api.rs:290-424 | along a genuine run without a replacement, block pages and transaction pages list the chain of the first request exactly once, whatever is appended between requests |
| Paging.BoundedLimit | src/api.rs:1847-1849 | a limit from 1 to 100 is kept, zero becomes 1, a greater one 100, and none 20 |
| Cursors.BlockCursorInverse | src/api.rs:1851-1863 | bytes decode to a height exactly when they encode it and it fits the database |
| Cursors.EncodeTxCursor | src/api.rs:1865-1870 | the filled buffer is the only one that decodes to its height and position |
| Cursors.TxCursorDecodes | src/api.rs:1872-1889 | exactly the encodings of a height and a non-negative position decode |
| AuxPow.CompactTarget | src/auxpow.rs:353-385 | rejected are exactly malformed, zero, negative and too wide words; the 32 bytes denote mantissa times 256^(size-3), rounded down, below 2^256 |
| AuxPow.BitsFit | src/auxpow.rs:354-361 | eight hexadecimal digits always fit the word they are read into |
| AuxPow.HexExact | src/auxpow.rs:354-361 | a text reads as a word exactly when it prints that word in base 16, in either case of the letters |
| AuxPow.CompactParts | src/auxpow.rs:362-364 | size, sign and mantissa are the only parts that make up the word |
| AuxPow.CompactSizeExact | src/auxpow.rs:279-337 | decoding inverts encoding for every 64-bit value and accepts canonical forms only |
| AuxPow.SolutionExact | src/auxpow.rs:254-277 | a solution is read exactly from 140 header bytes, a canonical length within the bound, that many bytes and any rest |
| Amounts.TextViewExact | src/api.rs:1803-1836 | a text has a view exactly when it is a signed integer, and it is the view of that integer if and only if there is at least one decimal |
| Amounts.ViewsAgree | src/api.rs:1785-1836 | the text of an integer and the integer have the same view |
| Amounts.ViewReadsBack | src/api.rs:1785-1801 | both texts of a view read back to the exact integer |

## Left out

- Networks: one store holds one network; network initialization and the halving arithmetic are not modelled.
- Writers: overlapping writers and the lease monitor are not modelled; one writer is assumed.
- Surrogate keys: the generated transaction id is replaced by the UNIQUE pair of transaction id and instance digest; event ids are positions in the audit log.
- Texts and raw data: hashes are opaque values, so hash formats and their CHECK constraints, raw bytes, raw JSON, witness hashing and the derived raw-transaction hash are not modelled.
- Value pools: `value_pool_snapshots` is upserted with each block and read by no modelled property.
- Block times: stored and compared as a fact, without the timestamp range check; views that report times are left out.
- Proof checks: Equihash, Merkle branches, coinbase rules and the target library are an oracle that may answer anything.
- Parent lookups: the calls to all parents of one proof count as one numbered call, with independent answers per source.
- Concurrent node calls: two calls of one fetch that the program joins are numbered in sequence.
- Clock: times are parameters, and the heartbeat time of the status row is a parameter of the readiness answer.
- Error texts: messages are reduced to their kind; statements about errors name a kind only where the indexer or a caller depends on it.
- Databases.Database.EvidenceRefreshCandidate: among proofs with equally old evidence any one may be returned, as in the query.
- Sums: 64-bit casts of aggregates are not modelled; amounts are unbounded integers.
- Amounts.ViewReadsBack: stated for at least one decimal; with none the fraction shown is a single zero that is not part of the amount.
- Ranking: rank numbers and the top 1, 10 and 100 sums of the rich list, percentages, and the 100-row cut of the activity after its balances are computed.
- Unassigned balance, value-pool history and network history: plain subtraction and column selection.
- Paging under reorganization: pages are compared with appended blocks only; after a replacement a cursor may skip or repeat rows.
- Cursor text: the Base64 text over the cursor bytes is library code.
- Display order of hashes: reversing the bytes of a hash for display.
- Server, RPC transport, configuration, tracing, user interface, deployment and the one-off data migration.
