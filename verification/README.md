# A model of a Taproot Assets node

This project models the parts of the Rust Taproot Assets node whose correctness spans several operations, and proves
what those parts promise. It is written in Dafny; `dafny verify dfyconfig.toml` checks all of it.

The five parts, and what is proved about each:

- **Wallet transfers** (`AssetStore`, `CoinSelection`, `WalletSend`, `SendProperties`, `SendPipeline`, `WalletLedger`,
  `ChangeCommitment`). The asset store is a class over a map from (outpoint, asset id, script key) to rows. A send
  selects coins largest first, collects the passive assets that share a consumed outpoint, marks everything it
  consumes as spent and re-creates the change and the passives at the change outpoint. Selection is optimal in the
  number of coins. Each balance after a send is known exactly: what a send loses is the total of the created rows that
  a later one overwrites, so it conserves *if and only if* those are worth nothing. No unspent row is ever left at a
  consumed outpoint, over every run. The rebuilt commitment loses in the same way, but under a different condition.
- **Supply commitments and the confirmation watcher** (`SupplyTree`, `SupplyRoot`, `SupplyHeadroom`, `SupplyStores`,
  `SupplyPipeline`, `SupplyInvariant`, `SupplySafety`, `SupplyPayloads`, `SupplyPreCommits`, `SupplyAcceptance`,
  `SupplyReplay`, `SupplyLate`, `SupplySqlite`, `SupplyWitnesses`, `SupplyNode`, `AnchorWatcher`). Staging, committing,
  finishing and restarting form a state machine in which every persistence step may fail. Over every run the stored
  trees are the fold of the confirmed batches, the latest stored commitment carries their root, the stored commitments
  form one chain, every marked pre-commitment is an input of the commitment it names, and no staged key vanishes;
  trees, roots, chain and keys are covered over the SQLite tree store as well, whose tree step may fail after any single
  write. Stated as *if and only if*:
  when a confirmation is accepted the first time, after a failure, and from torn trees; when a commitment names a spent
  input; whether the newest *payload* of a key is kept; when a replay that comes late, or a commitment that overlaps the
  one in flight, does harm. Each way of getting stuck is proved permanent and reachable. An anchor that reached the
  durable mirror is never lost, over every interleaving of registration, ticks and crashes; one that only reached memory
  is watched *if and only if* no restart came since.
- **The pending-anchor codec** (`Bytes`, `Fields`, `AnchorLayouts`, `AnchorPayloads`, `AnchorCodec`). Payload layouts
  are put together from fields, each with a writing, a reading and a condition on what fits. A payload decodes to a
  value *if and only if* it is the value's encoding and every length and count is below 2^32.
- **The negative cache over the ignore table** (`IgnoreStore`). For every capacity and every sequence of operations on
  one handle the cached store answers like the uncached one.
- **Paging, wire text and the mailbox** (`ByteFields`, `LeafKeyWire`, `LeafPaging`, `Mailbox`). Base64 decoding accepts
  exactly the texts that spell bytes, and the hex walk is followed over every text, up to the ones it panics on; the
  paged listing reaches the client exactly once per key *if and only if* there are fewer than 2^31 keys; the mailbox
  cursor never moves back, and what it skips or repeats is characterised exactly.

`Prelude`, `Sums`, `Listings` and `Replacement` hold shared datatypes and facts about finite sums, enumerations and
lists written into a map one by one.

Objects the node updates in place are classes whose methods are proved against functions on values; loops are methods
with invariants; the theorems are lemmas about those functions and about whole runs. Integer widths are explicit: 64-bit
sums wrap (`Wrap64`), tree sums refuse to overflow, lengths written as 32-bit counts are truncated, page offsets
saturate at 2^31 - 1.

## Where the code and its documentation differ

- `tap-node/src/supply.rs:30-37` and `382-388` call replaying a confirmation harmless. The trees are indeed unchanged by
  it, but when storing the commitment fails after the trees were written, the replay is verified against trees that
  already hold the batch. `SupplyReplay.ReplayAcceptedIff` gives the exact condition for it to be accepted,
  `StuckForever` what happens otherwise, and `StuckIsReachable` a run that gets there; over the SQLite store the same
  happens inside the tree step (`SupplySqlite.TornRetryAcceptedIff`, `TornStuckForever`).
- `tap-node/src/supply.rs:28-29` says that updates staged while a commitment is in flight stay queued for the next one.
  They do (`SupplyPayloads.StaysQueued`), unless the in-flight batch already holds their key: then the confirmation
  unstages the newer payload together with the older one. `NewestKeptIff` says exactly when the newest payload of a key
  is kept, and `SupplyWitnesses.PayloadLost` is a run that loses one.
- `tap-node/src/send.rs:112-117` says passives are re-anchored instead of dropped. Two passives with one asset id and
  script key at different outpoints both move to the same identity and the store overwrites the first
  (`SendProperties.SendConservesIff`, `ClashWitness`). The commitment the send rebuilds is keyed by tap key instead,
  which is the asset id or the group key, so it drops more: two passives of one asset under different script keys keep
  every stored balance, and only one of them is committed (`ChangeCommitment.SendCommitsIff`,
  `StoredButNotCommitted`).
- `tap-node/src/send.rs:621-624` and `tap-node/src/anchor_codec.rs:13-17` say that a restart between broadcast and
  confirmation loses nothing. The anchor goes to memory first and to the durable store afterwards, and both come after
  the broadcast; a crash in between leaves it in neither. `AnchorWatcher.WatchedIff` says exactly which unfinished
  anchors are watched, and `LostBetweenWrites` is the run.
- `tap-node/src/mint.rs:704-705` calls storing a pre-commitment idempotent by outpoint. The memory store adds another
  unspent row (`tap-persist/src/supply_store.rs:369-378`). If the first one is unspent, as for two assets of one group in
  one batch, every later commitment of the group lists an output twice and cannot be signed
  (`SupplyAcceptance.RepeatedForever`). If it is spent, because finishing the mint is retried after its commitment was
  finished, the next commitment names a spent output (`SupplyPreCommits.NamesSpentIff`,
  `SupplyWitnesses.InputNamedTwice`).
- `tap-node/src/supply.rs:30-37` has the node verify its own commitment before anything is persisted. A pre-commitment
  stored between broadcast and confirmation counts against it, so a valid commitment may never be accepted although no
  write fails (`SupplyAcceptance.FirstAcceptedIff`, `BlockedForever`, `BlockedIsReachable`).
- `tap-node/src/tasks.rs:228-233` calls it harmless that the durable row of a finished anchor cannot be removed. It is
  exactly when no other commitment of the group is stored before the restart that replays it; otherwise the replay makes
  a spent commitment the latest one (`SupplyLate.LateReplayIff`, `SupplyWitnesses.LateReplayHappens`).
- `tap-node/src/supply.rs:79-80` promises whether a commitment of the group is awaiting confirmation. While the watcher
  polls it holds the anchors itself, and the answer is no. `SupplyLate.OverlapIff` says exactly when a second commitment
  made then spends nothing that is spent already, and `SupplyWitnesses.OverlapHappens` is such a state.
- `tap-node/src/receive.rs:369-371` says a later poll retries a message whose proof is not available. It does so exactly
  when no later message was imported in the same poll (`Mailbox.SkippedIsRetriedIff`); otherwise never
  (`PassedOverForever`, `SkippedForGood`). A poll that ends with an error has imported messages without storing the
  cursor, and they are imported again (`ImportedAgainIff`, `ImportedTwice`).
- `tap-server/src/json.rs:110-137` returns an error for text that is neither hex nor base64. The hex walk slices the text
  every two bytes and panics when it cuts a character (`ByteFields.HexWalkPanicsIff`, `PanicWitness`).
- The leaf-key listing promises every key; from 2^31 keys on the saturated offset repeats a key or never ends
  (`LeafPaging.PagingExactIff`).

## Model

| member | source | states |
|---|---|---|
| `AssetStore.MemoryAssetStore.constructor` | tap-persist/src/asset_store.rs:166-176 | a new store is empty |
| `AssetStore.MemoryAssetStore.InsertAsset` | tap-persist/src/asset_store.rs:178-184 | the row goes under its identity, replacing what was there; rows stay keyed by their identity |
| `AssetStore.MemoryAssetStore.MarkRowSpent` | tap-persist/src/asset_store.rs:186-199 | succeeds exactly for stored identities, changes only the spent flag of that row, and an error changes nothing |
| `AssetStore.MemoryAssetStore.SetAnchorBlockHeight` | tap-persist/src/asset_store.rs:209-220 | sets the height of exactly the rows at the outpoint |
| `AssetStore.MemoryAssetStore.UnspentAtOutpoint` | tap-persist/src/asset_store.rs:201-207 | lists each unspent row at the outpoint once |
| `AssetStore.MemoryAssetStore.GetUnspent` | tap-persist/src/asset_store.rs:222-228 | lists each unspent row of the asset once |
| `AssetStore.MemoryAssetStore.ReportBalance` | tap-persist/src/asset_store.rs:234-240 | the 64-bit wrapped sum of the unspent rows of the asset, whatever the iteration order |
| `AssetStore.BalanceUpdate` | tap-persist/src/asset_store.rs:178-199 | replacing one row changes a balance by the difference of the two contributions |
| `AssetStore.SetHeightKeepsBalance` | tap-persist/src/asset_store.rs:209-220 | recording a confirmation height changes no balance |
| `AssetStore.BalanceIsUnspentTotal` | tap-persist/src/asset_store.rs:222-240 | the balance is the total of the coins the unspent query returns |
| `CoinSelection.SortByAmount` | tap-node/src/send.rs:909-915 | the same coins, each once, by descending amount |
| `CoinSelection.TakeUntil` | tap-node/src/send.rs:916-929 | the shortest prefix whose 64-bit running total reaches the target, or everything |
| `CoinSelection.CoinSelect` | tap-node/src/send.rs:897-930 | fails exactly when the asset has no unspent coin, and otherwise returns a largest-first selection |
| `CoinSelection.LargestCoinsDominate` | tap-node/src/send.rs:909-929 | of all sets of n unspent coins the n largest have the greatest total |
| `CoinSelection.SelectionIsOptimal` | tap-node/src/send.rs:909-929 | while holdings fit in 64 bits, no smaller set of coins reaches the target, and dropping the last selected coin falls short |
| `CoinSelection.ShortfallReportsBalance` | tap-node/src/send.rs:101-110 | a selection that misses the target holds every coin, so the reported available amount is the whole balance |
| `CoinSelection.SelectionIsLargest` | tap-node/src/send.rs:909-929 | no coin passed over is larger than a selected one |
| `Replacement.KeyedTotal` | tap-persist/src/asset_store.rs:178-184 | a list written into a map one by one leaves its total less the total of the entries a later one replaced |
| `Replacement.ReplacedIff` | tap-persist/src/asset_store.rs:178-184 | nothing is replaced exactly when no two entries share a key |
| `WalletSend.SpendAllEffect` | tap-node/src/send.rs:391-410 | marking the consumed rows flips exactly their spent flags |
| `WalletSend.SpendAllBalance` | tap-node/src/send.rs:391-410 | marking distinct unspent rows lowers each balance by their total |
| `WalletSend.InsertAllEffect` | tap-node/src/send.rs:412-469 | inserting rows changes exactly the listed identities |
| `WalletSend.InsertAllBalance` | tap-node/src/send.rs:412-469 | inserting rows at fresh identities raises a balance by their total less the total of those that a later one overwrites |
| `WalletSend.NoneReplacedIff` | tap-persist/src/asset_store.rs:178-184 | no row is overwritten exactly when no two share an identity |
| `SendProperties.SpentRows` | tap-node/src/send.rs:118-139 | what a send marks spent is exactly what is unspent at the consumed outpoints, each row once |
| `SendProperties.CreatedTotals` | tap-node/src/send.rs:412-469 | per asset, what is consumed less what is sent equals what is created, whatever goes into the change |
| `SendProperties.CreatedDistinctIff` | tap-node/src/send.rs:412-469 | the created rows have distinct identities exactly when the passives' (asset, key) pairs differ and the change row clashes with none |
| `SendProperties.SendBalance` | tap-node/src/send.rs:391-469 | every balance after a send with any change: what it was, less what left the wallet, less the total of the created rows that were overwritten |
| `SendProperties.OverwritesIff` | tap-node/src/send.rs:412-469 | a send overwrites nothing exactly when its destinations do not clash |
| `SendProperties.SendConservesIff` | tap-node/src/send.rs:391-469 | a send lowers the sent asset by the amount and keeps every other balance if and only if every overwritten row is worth nothing |
| `SendProperties.SendConserves` | tap-node/src/send.rs:391-469 | so every send without a clash conserves |
| `SendProperties.ClashingSendLoses` | tap-node/src/send.rs:443-469 | and with a clash among passives that are worth something it does not |
| `SendProperties.ClashWitness` | tap-node/src/send.rs:443-469 | concrete holdings for which a send changes a balance it should not |
| `SendProperties.SendLeavesNoOrphans` | tap-node/src/send.rs:402-469 | for any change, wrapped ones included, nothing unspent is left at a consumed outpoint, other rows are untouched, new rows are unspent at the change outpoint |
| `SendProperties.SendReAnchors` | tap-node/src/send.rs:443-469 | every unspent sibling of a spent input reappears at the change outpoint with its id, key, amount, descriptor and genesis |
| `SendPipeline.CollectPassives` | tap-node/src/send.rs:118-139 | every other unspent row at the inputs' outpoints, each once |
| `SendPipeline.CheckPassives` | tap-node/src/send.rs:235-248 | accepts exactly when every passive has a key descriptor and a genesis |
| `SendPipeline.SumAmounts` | tap-node/src/send.rs:102-102 | the wrapped 64-bit total of the selected amounts |
| `SendPipeline.MarkAllSpent` | tap-node/src/send.rs:391-410 | the store with all consumed identities spent |
| `SendPipeline.PersistPassives` | tap-node/src/send.rs:443-469 | the store with every passive at the change outpoint |
| `SendPipeline.MoveRows` | tap-node/src/send.rs:391-469 | spending, change and passives in the order of the code |
| `SendPipeline.Send` | tap-node/src/send.rs:79-665 | goes through exactly when the coins reach the amount, the genesis reproduces the asset id, every passive can be re-anchored and the backends located the outputs; it then does exactly the move, also when a total wraps; otherwise the store is left alone, even when a transaction went out whose outputs were not found; unknown assets and shortfalls are reported exactly then, with the whole balance as available |
| `SendPipeline.SelectionBalance` | tap-node/src/send.rs:101-110 | while the holdings fit the selected total is exact, and a shortfall is the whole balance |
| `WalletLedger.StepBalance` | tap-node/src/send.rs:391-469 | each mint, receive, send or height step changes a balance by what it says, less what a send overwrites |
| `WalletLedger.RunBalance` | tap-node/src/send.rs:391-469 | over every run, with clashing sends and wrapped totals, a balance is minted plus received less sent less overwritten |
| `WalletLedger.LosslessRunBalance` | tap-node/src/send.rs:391-469 | over every run whose sends neither clash nor wrap a balance is minted plus received less sent |
| `WalletLedger.RunKeepsAnchors` | tap-node/src/send.rs:118-139 | over every run, with clashing sends and wrapped totals, no unspent row sits at an outpoint an earlier anchor transaction consumed |
| `WalletLedger.ImportAgain` | tap-node/src/receive.rs:561-652 | importing a coin keeps that invariant exactly when its outpoint is unconsumed; importing a spent coin again brings its value back |
| `ChangeCommitment.RebuildCommitment` | tap-onchain/src/send/transfer.rs:186-252 | the commitment of the root asset and the passives, upserted in turn |
| `ChangeCommitment.LastOfKeyStays` | tap-primitives/src/commitment/tree.rs:271-310 | each tap key commits to the last asset upserted under it |
| `ChangeCommitment.CommittedValue` | tap-onchain/src/send/transfer.rs:186-252 | the value the change output commits to is what the send created less what a later tap key replaced |
| `ChangeCommitment.SendCommits` | tap-onchain/src/send/transfer.rs:186-252 | per asset, the change output commits to what was consumed less what was sent less what was replaced |
| `ChangeCommitment.SendCommitsIff` | tap-onchain/src/send/transfer.rs:212-228 | the change output commits to everything that stays in the wallet if and only if what was replaced is worth nothing |
| `ChangeCommitment.AllCommittedIff` | tap-onchain/src/send/transfer.rs:212-228 | no created row is left out exactly when their tap keys are pairwise distinct, and then each is committed |
| `ChangeCommitment.StoredButNotCommitted` | tap-onchain/src/send/transfer.rs:212-228 | concrete holdings for which a send keeps every stored balance and commits to half of another asset |
| `SupplyTree.ApplyConcat` | tap-universe/src/supply/mod.rs:209-236 | applying a batch and then another is applying the two in one go, overflow included |
| `SupplyTree.WriteTwice` | tap-universe/src/supply/mod.rs:209-236 | writing a batch twice is writing it once |
| `SupplyTree.WriteEffect` | tap-universe/src/supply/mod.rs:209-236 | every place holds the last leaf the batch writes to it, or what it held before |
| `SupplyTree.ReplayIff` | tap-primitives/src/mssmt/compacted_tree.rs:46-58 | replaying a batch already in the trees changes nothing and succeeds exactly when its leaves fit once more |
| `SupplyTree.ApplyByType` | tap-universe/src/supply/mod.rs:209-236 | a batch acts on each sub-tree through that sub-tree's own updates |
| `SupplyTree.GroupedApplies` | tap-universe/src/supply/mod.rs:322-340 | grouping a batch by type, as the verifier does, changes neither result nor overflow |
| `SupplyTree.NodeSum` | tap-primitives/src/mssmt/tree.rs:52-61 | the root sum is the total of the leaves |
| `SupplyRoot.UpsertEffect` | tap-universe/src/supply/mod.rs:239-266 | an upsert sets exactly the listed non-empty sub-tree roots |
| `SupplyRoot.MemoryTracks` | tap-persist/src/supply_store.rs:291-309 | the memory store leaves a current root behind, over the sub-trees with the batch written |
| `SupplyRoot.UntouchedUnchanged` | tap-persist/src/supply_store.rs:646-728 | a sub-tree without updates in the batch is unchanged |
| `SupplyRoot.StoresAgree` | tap-persist/src/supply_store.rs:646-728 | whenever both stores accept a batch they end with the same sub-trees, root map and root sum |
| `SupplyRoot.ReplayOutcome` | tap-persist/src/supply_store.rs:291-309 | replaying an applied batch never changes what is stored, and the exact condition for it to succeed |
| `SupplyHeadroom.ApplyFits` | tap-universe/src/supply/mod.rs:209-236 | a batch is applied while all sums together fit in 64 bits |
| `SupplyHeadroom.BothStoresAccept` | tap-persist/src/supply_store.rs:646-728 | while four times everything fits in 64 bits both stores accept a batch and agree on it |
| `SupplyHeadroom.UpsertOkIff` | tap-universe/src/supply/mod.rs:239-266 | the upserts succeed exactly when each finds room beside the sums at the time, the replaced one included |
| `SupplyHeadroom.StoresAcceptIff` | tap-persist/src/supply_store.rs:646-728 | exactly when each of the two stores accepts a batch, in terms of the sums before and after |
| `SupplyHeadroom.StoresDiffer` | tap-persist/src/supply_store.rs:291-309 | a batch that the SQLite store accepts and the memory store refuses |
| `SupplyStores.ApplyTreeUpdates` | tap-universe/src/supply/mod.rs:209-236 | the insert loop computes the batch application, overflow included |
| `SupplyStores.UpdateRootTree` | tap-universe/src/supply/mod.rs:239-266 | the upsert loop, stopping at the first overflow |
| `SupplyStores.MemorySupplyTreeStore.ApplySupplyUpdates` | tap-persist/src/supply_store.rs:291-309 | the group's trees after a batch, the root hash and sum returned, other groups untouched |
| `SupplyStores.SqliteSupplyTreeStore.ApplySupplyUpdates` | tap-persist/src/supply_store.rs:646-728 | the same with only touched sub-trees upserted and earlier inserts kept on failure |
| `SupplyStores.MemorySupplyStagingStore.StageUpdate` | tap-persist/src/supply_store.rs:431-453 | an update replaces the staged one of its place or is appended; other groups untouched |
| `SupplyStores.MemorySupplyStagingStore.StagedUpdates` | tap-persist/src/supply_store.rs:455-467 | the group's staged updates in order |
| `SupplyStores.MemorySupplyStagingStore.RemoveStagedUpdates` | tap-persist/src/supply_store.rs:482-497 | removes exactly the places of the batch, whatever the payload; other groups untouched |
| `SupplySafety.StagedPlaces` | tap-persist/src/supply_store.rs:431-453 | staging keeps one update per place and the place is staged |
| `SupplySafety.UnstagedPlaces` | tap-persist/src/supply_store.rs:482-497 | unstaging removes exactly the places of the batch |
| `SupplyPipeline.RootAfterIs` | tap-universe/src/supply/verifier.rs:271-320 | the verifier reconstructs the root the author computed |
| `SupplyInvariant.ReplayLast` | tap-node/src/supply.rs:463-496 | replaying the last batch leaves the trees as they are, whether or not it succeeds |
| `SupplyInvariant.ChainLast` | tap-node/src/supply.rs:144-166 | the last commitment of a chain carries the root of the trees the chain is about |
| `SupplyInvariant.ChainLinks` | tap-node/src/supply.rs:308-336 | in a chain the first spends nothing and each other spends or repeats the one before |
| `SupplyInvariant.LatestUnspent` | tap-node/src/supply.rs:308-336 | no stored commitment spends the latest one, and each spends a stored one or none |
| `SupplyInvariant.ChainSamePoint` | tap-node/src/supply.rs:463-477 | stored commitments with one commit point are replays of one another |
| `SupplySafety.StepKeeps` | tap-node/src/supply.rs:389-507 | every step, with failure at any persistence point, keeps the invariant |
| `SupplySafety.RunKeeps` | tap-node/src/supply.rs:107-507 | the invariant holds after every run |
| `SupplySafety.RootsAgree` | tap-node/src/supply.rs:144-166 | in every reachable state the trees are the fold of the applied batches and, unless a finish is half done, the latest commitment carries their root hash and sum |
| `SupplySafety.NothingVanishes` | tap-node/src/supply.rs:131-139 | every place ever staged is still staged or in the trees |
| `SupplyPayloads.StagedStays` | tap-persist/src/supply_store.rs:482-497 | a queued update stays queued with its payload through every step that neither stages its place nor finishes an anchor that froze it |
| `SupplyPayloads.StaysQueued` | tap-node/src/supply.rs:28-29 | so it does over every such run from every state the invariant allows, restarts and failed finishes included |
| `SupplyPayloads.RunKeepsPayloads` | tap-node/src/supply.rs:107-507 | over every run the queue holds only newest payloads, a batch in flight differs from them only at overtaken places, and so do the trees at places no longer queued |
| `SupplyPayloads.NewestKeptIff` | tap-node/src/supply.rs:492-497 | after every run the newest payload of a place is staged or in the trees if and only if the place was not overtaken in flight or is staged |
| `SupplyWitnesses.PayloadLost` | tap-node/src/supply.rs:492-497 | a reachable state and a confirmation that loses the newer payload of a key |
| `SupplyPreCommits.MarkEachEffect` | tap-persist/src/supply_store.rs:396-410 | each listed outpoint marks its first row and no other row changes |
| `SupplyPreCommits.LeftUnspentIff` | tap-node/src/supply.rs:478-490 | a complete marking loop leaves a spent input unspent exactly when an earlier row has its outpoint |
| `SupplyPreCommits.RunKeepsRows` | tap-node/src/supply.rs:463-490 | over every run a mark names a stored commitment that spends the row, what a stored commitment spends is marked unless it is still being finished, and what one in flight spends stays unspent, before all rows added since |
| `SupplyPreCommits.MarkedIsSpent` | tap-node/src/supply.rs:478-490 | in every reachable state a marked pre-commitment is an input of the stored commitment it names |
| `SupplyPreCommits.SpentIsMarked` | tap-node/src/supply.rs:478-490 | with nothing in flight every pre-commitment a stored commitment spends is marked |
| `SupplyPreCommits.UnspentIsNoInput` | tap-node/src/supply.rs:478-490 | with nothing in flight an unspent pre-commitment stored once is an input of no stored commitment |
| `SupplyPreCommits.NamesSpentIff` | tap-node/src/supply.rs:171-264 | over every run, with nothing in flight, the next commitment names an input that a stored one has spent exactly when an unspent row has the outpoint of a marked one |
| `SupplyPreCommits.NoInputTwice` | tap-node/src/supply.rs:171-190 | while outpoints are stored once, a new commitment shares no input with any stored one |
| `SupplyWitnesses.InputNamedTwice` | tap-node/src/mint.rs:698-765 | a run in which a pre-commitment is stored again after its commitment was finished, and the next commitment names it |
| `SupplyAcceptance.MatchedIff` | tap-universe/src/supply/verifier.rs:215-267 | the verifier's count of matched inputs comes out even exactly when every unspent row up to the height is an input and no two of them have one outpoint |
| `SupplyAcceptance.FirstAcceptedIff` | tap-universe/src/supply/verifier.rs:156-267 | in every reachable state a commitment that nothing is stored of is accepted exactly when there is a row for each of its mints and every unspent row up to the height is one of its inputs, none twice |
| `SupplyAcceptance.UndisturbedAcceptedIff` | tap-universe/src/supply/verifier.rs:182-191 | if no row was stored since the broadcast, exactly when it has a row for each of its mints |
| `SupplyAcceptance.ShortNeverAccepted` | tap-universe/src/supply/verifier.rs:182-191 | a commitment with more mints than rows is not accepted in any reachable state, as long as no row is of a later block |
| `SupplyAcceptance.LateRowBlocks` | tap-universe/src/supply/verifier.rs:215-267 | a row stored between broadcast and confirmation, of a block up to the confirmation's, blocks the commitment |
| `SupplyAcceptance.BlockedForever` | tap-node/src/supply.rs:389-461 | from there no run accepts it or stores another commitment of the group, without any write failing |
| `SupplyAcceptance.BlockedIsReachable` | tap-node/src/mint.rs:698-765 | a concrete run gets there: a second mint of the group confirms in between |
| `SupplyAcceptance.RepeatedForever` | tap-onchain/src/supply_commit.rs:163-205 | with two unspent rows of one outpoint no run ever makes another commitment of the group |
| `SupplyAcceptance.RepeatedIsReachable` | tap-persist/src/supply_store.rs:369-378 | storing a pre-commitment twice gets there |
| `SupplySafety.SingleChain` | tap-node/src/supply.rs:121-126 | at most one commitment is in flight, it is durable, and the stored commitments are one chain |
| `SupplyReplay.FirstVerificationAccepts` | tap-universe/src/supply/verifier.rs:156-210 | a commitment the node authored passes its own root checks when it first confirms, so that its pre-commitments alone decide |
| `SupplyReplay.ReplayAcceptedIff` | tap-universe/src/supply/verifier.rs:324-400 | after a failure between trees and commitment the replay is accepted, its pre-commitments aside, exactly for a first commitment, or an unchanged root that still fits |
| `SupplyReplay.FailedWriteSticks` | tap-node/src/supply.rs:463-496 | one failed commitment write reaches the stuck state from any follow-up that changes the root |
| `SupplyReplay.StuckForever` | tap-node/src/supply.rs:389-507 | from the stuck state no run stores another commitment of the group |
| `SupplyReplay.StuckIsReachable` | tap-node/src/supply.rs:107-507 | a concrete run reaches the stuck state |
| `SupplySqlite.WriteResumes` | tap-persist/src/supply_store.rs:646-728 | writing a batch over any beginning of itself is writing it once |
| `SupplySqlite.PartStays` | tap-persist/src/supply_store.rs:646-728 | however often the tree step is tried and after whichever write it fails, the store holds a beginning of the batch and root entries that are old or already new |
| `SupplySqlite.RetryCompletes` | tap-persist/src/supply_store.rs:646-728 | from any such part a step that succeeds leaves what the memory store would have left without a failure |
| `SupplySqlite.PreviewAgrees` | tap-universe/src/supply/verifier.rs:271-320 | from any such part the verifier reconstructs the root the author computed |
| `SupplySqlite.SqliteRunKeeps` | tap-node/src/supply.rs:107-507 | over every run with failures after any write of any tree step, the memory store's invariant holds but for a part of the batch in flight |
| `SupplySqlite.SqliteRootsAgree` | tap-node/src/supply.rs:144-166 | over every such run the commitments are one chain, and with nothing in flight the trees are the fold of the batches and carry the latest root |
| `SupplySqlite.SqliteNothingVanishes` | tap-node/src/supply.rs:131-139 | over every such run a place once staged is staged or in the stored trees |
| `SupplySqlite.TornRetryAcceptedIff` | tap-universe/src/supply/verifier.rs:324-400 | in every such state a commitment not stored yet is accepted, its pre-commitments aside, exactly for a first one, or when the root hash has not moved and the batch fits |
| `SupplySqlite.TornInsertsRetried` | tap-universe/src/supply/verifier.rs:324-400 | so failures before the first root upsert are retried while the sums fit |
| `SupplySqlite.FailedUpsertSticks` | tap-persist/src/supply_store.rs:646-728 | one failed write after an upsert that changes the root hash reaches the stuck state |
| `SupplySqlite.TornStuckForever` | tap-node/src/supply.rs:389-507 | from it no run stores another commitment of the group |
| `SupplyWitnesses.TornStuckIsReachable` | tap-persist/src/supply_store.rs:646-728 | a concrete run reaches it |
| `SupplyLate.LateRunKeeps` | tap-node/src/tasks.rs:224-240 | over every run in which durable rows may stay, up to the restart that reloads one, the invariant holds and each anchor left behind is stored |
| `SupplyLate.LateReplayIff` | tap-node/src/tasks.rs:224-240 | replaying a row that stayed keeps the chain exactly when its commitment is still the latest, otherwise the commitment to be spent next is spent; the sub-trees stay exactly when nothing it wrote was overwritten |
| `SupplyWitnesses.LateReplayHappens` | tap-node/src/tasks.rs:224-240 | a concrete run in which it breaks the chain |
| `SupplyLate.OverlapIff` | tap-node/src/supply.rs:81-103 | in every reachable state, a second commitment made while the watcher holds the first spends nothing spent already exactly when the first is stored, its rows marked and none stored again |
| `SupplyWitnesses.OverlapHappens` | tap-node/src/supply.rs:81-103 | a reachable state in which it does, and the commit goes through |
| `SupplyNode.SupplyNode.CommitInFlight` | tap-node/src/supply.rs:81-103 | true exactly when the group has an anchor in flight |
| `SupplyNode.SupplyNode.UnspentInputs` | tap-persist/src/supply_store.rs:380-394 | the outpoints of the group's unspent pre-commitments, one for each row |
| `SupplyNode.SupplyNode.AttachWitnesses` | tap-onchain/src/supply_commit.rs:163-205 | locating each input by its outpoint leaves none without its spent output exactly when no outpoint is repeated |
| `SupplyNode.SupplyNode.InsertPreCommit` | tap-persist/src/supply_store.rs:369-378 | adds an unspent row whether or not the outpoint is stored; other groups untouched |
| `SupplyNode.SupplyNode.Preview` | tap-node/src/supply.rs:144-166 | the root a batch would produce, computed on copies |
| `SupplyNode.SupplyNode.Commit` | tap-node/src/supply.rs:107-346 | freezes and registers exactly when nothing is in flight, something is staged, the batch fits the trees, there is an input and none twice, and the broadcast goes out; when the durable write fails the anchor is in memory only; other groups untouched |
| `SupplyNode.SupplyNode.Register` | tap-node/src/supply.rs:327-336 | appends the anchor to the watch list and, if the store takes it, to the durable store |
| `SupplyNode.SupplyNode.MatchInputs` | tap-universe/src/supply/verifier.rs:241-254 | the loop over the inputs collects each eligible outpoint among them once |
| `SupplyNode.SupplyNode.VerifyPreCommits` | tap-universe/src/supply/verifier.rs:182-267 | accepts exactly under the verifier's checks against the pre-commitments |
| `SupplyNode.SupplyNode.Verify` | tap-universe/src/supply/verifier.rs:156-210 | accepts exactly what is stored already or passes the checks against pre-commitments, commitments and trees |
| `SupplyNode.SupplyNode.VerifyRoots` | tap-universe/src/supply/verifier.rs:271-400 | accepts exactly under the initial or incremental root checks |
| `SupplyNode.SupplyNode.MarkOne` | tap-persist/src/supply_store.rs:396-410 | marks the first row with the outpoint |
| `SupplyNode.SupplyNode.MarkRows` | tap-node/src/supply.rs:482-490 | the marking loop over the unspent rows, broken off after any number of marks |
| `SupplyNode.SupplyNode.RecordCommitment` | tap-persist/src/supply_store.rs:327-337 | stores the commitment with its block and marks what it spent |
| `SupplyNode.SupplyNode.FinishCommit` | tap-node/src/supply.rs:389-507 | the whole finish with a failure at any step is the state machine's step; other groups untouched |
| `SupplyNode.SupplyNode.Confirm` | tap-node/src/tasks.rs:205-262 | finishing an anchor and removing it from the list and the durable store is the state machine's complete finish, and the durable row stays where it cannot be removed; other groups untouched |
| `SupplyNode.SupplyNode.Drop` | tap-node/src/tasks.rs:240-262 | removes exactly that anchor from the list and, where the store lets it, its row from the durable store; other groups untouched |
| `SupplyNode.SupplyNode.Restart` | tap-node/src/builder.rs:651-676 | the list becomes the durable anchors of every group, and nothing else changes |
| `SupplyNode.SupplyNode.Stage` | tap-node/src/supply.rs:630-650 | staging is the state machine's step |
| `AnchorWatcher.StepKeeps` | tap-node/src/tasks.rs:189-275 | every step of registration, tick and restart keeps the watcher's invariant |
| `AnchorWatcher.RunKeeps` | tap-node/src/tasks.rs:189-275 | the invariant holds after every run |
| `AnchorWatcher.NoAnchorLost` | tap-node/src/tasks.rs:189-275 | an anchor whose registration completed is finished, or in the mirror and in memory exactly once |
| `AnchorWatcher.WatchedIff` | tap-node/src/send.rs:643-652 | after every run an unfinished anchor is watched if and only if its registration completed or it was pushed since the last restart |
| `AnchorWatcher.LostBetweenWrites` | tap-node/src/send.rs:643-652 | every anchor has a run after which it is unfinished and in neither memory nor mirror |
| `AnchorWatcher.LeavesOnlyFinished` | tap-node/src/tasks.rs:205-262 | an anchor leaves memory only when its finish returned Ok or the process dies |
| `AnchorWatcher.RestartReloads` | tap-node/src/builder.rs:651-676 | a restart watches every unfinished registered anchor once, and besides exactly the leftovers |
| `AnchorWatcher.TickBalances` | tap-node/src/tasks.rs:189-275 | confirmed plus pending is what the tick found plus what arrived |
| `AnchorWatcher.LateWriteIsReloaded` | tap-node/src/supply.rs:327-336 | a mirror row written after its anchor finished is reloaded, with no failure involved |
| `AnchorWatcher.TapNode.Register` | tap-node/src/send.rs:643-652 | the list and then the mirror |
| `AnchorWatcher.TapNode.PollConfirmations` | tap-node/src/tasks.rs:189-275 | the list after a tick is what was not finished followed by the arrivals; exactly the removed rows leave the mirror; the counts add up |
| `AnchorWatcher.TickResult` | tap-node/src/tasks.rs:189-275 | a tick polled step by step, with any anchors pushed by other threads in between, ends with the list and mirror the node's tick computes for those arrivals |
| `AnchorWatcher.TickExists` | tap-node/src/tasks.rs:189-275 | and such a run exists for every list and all answers |
| `AnchorWatcher.FirstsCover` | tap-node/src/builder.rs:651-676 | the rows reloaded cover every transaction once |
| `AnchorWatcher.RestorePending` | tap-node/src/builder.rs:651-676 | reloads the first row of each transaction in order, and fails exactly when one does not decode |
| `Bytes.ValueOfBigEndian` | tap-node/src/anchor_codec.rs:534-540 | a number that fits its width is read back |
| `Bytes.BigEndianOfValue` | tap-node/src/anchor_codec.rs:591-607 | every byte string is the writing of its value |
| `Fields.VarBytesRoundTrip` | tap-node/src/anchor_codec.rs:542-545 | length-prefixed bytes shorter than 2^32 are read back, whatever follows |
| `Fields.VarBytesOnly` | tap-node/src/anchor_codec.rs:623-626 | length-prefixed bytes that are read were written there |
| `Fields.ThenField` | tap-node/src/anchor_codec.rs:410-453 | two exact fields in a row are exact |
| `Fields.OptField` | tap-node/src/anchor_codec.rs:554-566 | an optional exact field is exact; any flag but 0 and 1 is rejected |
| `Fields.ManyField` | tap-node/src/anchor_codec.rs:439-450 | a counted list of exact fields is exact while the count is below 2^32 |
| `AnchorLayouts.TransferExact` | tap-node/src/anchor_codec.rs:410-510 | the transfer layout reads back what it writes and reads only what it writes |
| `AnchorLayouts.SupplyExact` | tap-node/src/anchor_codec.rs:308-387 | the same for the supply-commitment layout |
| `AnchorLayouts.EventExact` | tap-node/src/anchor_codec.rs:333-404 | the same for a typed event; unknown type bytes are rejected |
| `AnchorLayouts.BaseExact` | tap-node/src/anchor_codec.rs:132-232 | the same for the fields both mint versions have |
| `AnchorLayouts.LaterExact` | tap-node/src/anchor_codec.rs:165-178 | the same for the fields mint version 2 adds |
| `AnchorPayloads.TransferRoundTrip` | tap-node/src/anchor_codec.rs:410-510 | decoding an encoded transfer gives it back when its lengths fit |
| `AnchorPayloads.TransferDecodesIff` | tap-node/src/anchor_codec.rs:455-510 | a payload decodes to a transfer exactly when it is its encoding and its lengths fit |
| `AnchorPayloads.TransfersPrefixFree` | tap-node/src/anchor_codec.rs:662-670 | no accepted transfer payload is a proper prefix of another |
| `AnchorPayloads.SupplyRoundTrip` | tap-node/src/anchor_codec.rs:308-387 | a supply commitment comes back without its block and otherwise unchanged |
| `AnchorPayloads.SupplyDecodesIff` | tap-node/src/anchor_codec.rs:341-387 | a payload decodes to a commitment exactly when it is its encoding, its lengths fit and it has no block |
| `AnchorPayloads.SuppliesPrefixFree` | tap-node/src/anchor_codec.rs:662-670 | no accepted supply-commitment payload is a proper prefix of another |
| `AnchorPayloads.MintRoundTrip` | tap-node/src/anchor_codec.rs:132-251 | mint fields come back from version 2, and from version 1 when the later fields are at their defaults |
| `AnchorPayloads.MintDecodesIff` | tap-node/src/anchor_codec.rs:183-251 | exactly those payloads decode to the fields |
| `AnchorPayloads.OverlayOf` | tap-node/src/anchor_codec.rs:290-294 | a restored meta is the encoded one where there is one, and the stored one elsewhere |
| `AnchorPayloads.MintAnchorRestoredIff` | tap-node/src/anchor_codec.rs:253-301 | the anchor comes back exactly when the batch store kept its part and the commitment rebuilds to what it was |
| `AnchorPayloads.PayloadRoundTripsIff` | tap-node/src/anchor_codec.rs:82-126 | a row gives the payload it stores back exactly when its lengths fit |
| `AnchorPayloads.RowsTellPayloadsApart` | tap-node/src/anchor_codec.rs:82-126 | different payloads have different rows |
| `AnchorPayloads.AnchorRestoredIff` | tap-node/src/anchor_codec.rs:82-126 | a whole anchor that fits its row comes back from it: a transfer or a supply commitment always, a mint exactly when the batch store kept its part and the commitment rebuilds to what it was |
| `AnchorCodec.Reader.Take` | tap-node/src/anchor_codec.rs:579-590 | advances inside the buffer by n bytes or reports truncation |
| `AnchorCodec.Reader.TakeNumber` | tap-node/src/anchor_codec.rs:591-607 | the big-endian number at the cursor |
| `AnchorCodec.Reader.TakeVarBytes` | tap-node/src/anchor_codec.rs:623-626 | the length-prefixed bytes at the cursor |
| `AnchorCodec.Reader.TakeFlag` | tap-node/src/anchor_codec.rs:635-647 | the presence flag, with the invalid-flag error |
| `AnchorCodec.Reader.ExpectVersion` | tap-node/src/anchor_codec.rs:650-659 | passes exactly the known version byte |
| `AnchorCodec.Reader.ExpectEnd` | tap-node/src/anchor_codec.rs:662-670 | passes exactly at the end of the buffer |
| `AnchorCodec.TakePassives` | tap-node/src/anchor_codec.rs:480-493 | the counted loop over passives reads the list or its first error |
| `AnchorCodec.DecodeTransferPayload` | tap-node/src/anchor_codec.rs:455-510 | computes the transfer decoding, errors included |
| `AnchorCodec.DecodeSupplyCommitPayload` | tap-node/src/anchor_codec.rs:341-387 | computes the supply-commitment decoding, errors included |
| `AnchorCodec.TakeMint` | tap-node/src/anchor_codec.rs:183-251 | computes the mint payload decoding of both versions |
| `AnchorCodec.OverlayMetas` | tap-node/src/anchor_codec.rs:290-294 | the overlay loop |
| `AnchorCodec.DecodeMint` | tap-node/src/anchor_codec.rs:183-302 | decoding, loading, rebuilding and overlaying, with each failure |
| `AnchorCodec.EncodeTransferPayload` | tap-node/src/anchor_codec.rs:410-453 | the buffer filled field by field is the transfer's encoding |
| `AnchorCodec.EncodeSupplyCommitPayload` | tap-node/src/anchor_codec.rs:308-339 | the buffer is the commitment's encoding |
| `AnchorCodec.EncodeMint` | tap-node/src/anchor_codec.rs:132-181 | the buffer is the encoding of the anchor's transient fields |
| `IgnoreStore.NegativeCache.Insert` | tap-persist/src/ignore_store.rs:106-119 | remembers the point, evicting oldest first and only to make room; set and deque stay in step |
| `IgnoreStore.NegativeCache.Remove` | tap-persist/src/ignore_store.rs:121-125 | forgets exactly that point |
| `IgnoreStore.NegativeCache.Contains` | tap-persist/src/ignore_store.rs:102-104 | membership in the deque |
| `IgnoreStore.RememberEffect` | tap-persist/src/ignore_store.rs:106-119 | stays within capacity without duplicates and forgets at most the oldest point, only when full |
| `IgnoreStore.SqliteIgnoreStore.InsertIgnoreTuples` | tap-persist/src/ignore_store.rs:297-346 | writes the rows and invalidates exactly their points |
| `IgnoreStore.SqliteIgnoreStore.IsPointIgnored` | tap-persist/src/ignore_store.rs:377-421 | answers from the cache, then the table, and remembers a miss |
| `IgnoreStore.MemoryIgnoreStore.InsertIgnoreTuples` | tap-persist/src/ignore_store.rs:146-156 | adds exactly the group's points |
| `IgnoreStore.MemoryIgnoreStore.IsPointIgnored` | tap-persist/src/ignore_store.rs:169-178 | group-scoped membership |
| `IgnoreStore.RunKeeps` | tap-persist/src/ignore_store.rs:297-421 | over every run the cache is within capacity, duplicate-free and disjoint from the table |
| `IgnoreStore.AnswersAreExact` | tap-persist/src/ignore_store.rs:377-421 | after any operations, with any capacity, a point is reported ignored exactly when it was inserted for that group |
| `IgnoreStore.SecondHandleIsSeenIff` | tap-persist/src/ignore_store.rs:377-421 | a second handle's writes are seen exactly for points this handle has not cached |
| `ByteFields.HexRoundTrip` | tap-server/src/json.rs:55-70 | hex text gives the bytes back |
| `ByteFields.HexPairsIff` | tap-server/src/json.rs:59-70 | hex decodes exactly to what its pairs of characters stand for, a leading plus sign included |
| `ByteFields.HexAsReadIff` | tap-server/src/json.rs:59-70 | on every text, beyond ASCII too, the walk over two bytes at a time yields bytes exactly when the pairs of characters do |
| `ByteFields.HexWalkPanicsIff` | tap-server/src/json.rs:62-67 | the walk panics exactly when a run of hex pairs is followed by a character that the next two bytes cut |
| `ByteFields.PanicWitness` | tap-server/src/json.rs:62-67 | a text of four bytes on which it does |
| `ByteFields.FedIsDecoded` | tap-server/src/json.rs:86-97 | between characters at most six bits are held back, and bytes and bits together spell the text |
| `ByteFields.Base64Decode` | tap-server/src/json.rs:73-105 | accepts a text exactly when it spells bytes after its padding is dropped: alphabet, possible length and zero trailing bits |
| `ByteFields.SpellsOne` | tap-server/src/json.rs:73-105 | a text spells at most one byte string |
| `ByteFields.Base64RoundTrip` | tap-server/src/json.rs:73-105 | both alphabets of RFC 4648, sections 4 and 5, with any padding, give every byte string back |
| `ByteFields.DecodeBytesField` | tap-server/src/json.rs:110-137 | on every text: panics exactly when the hex walk does, and otherwise returns a reading of the expected length, hex first, failing exactly when there is none |
| `ByteFields.OneReading` | tap-server/src/json.rs:110-137 | for two bytes or more no text is hex and base64 for the same number of bytes |
| `ByteFields.FieldRecovers` | tap-server/src/json.rs:110-137 | a field of known length other than one has exactly the bytes that were written as its reading |
| `ByteFields.OneByteClashIff` | tap-server/src/json.rs:110-137 | text that is hex for one byte is also base64 for one exactly when it ends in A |
| `ByteFields.ClashWitness` | tap-server/src/json.rs:110-137 | the text AA has two readings of one byte |
| `LeafKeyWire.TxidRoundTrip` | tap-grpc/src/convert.rs:257-292 | a transaction id in display order is parsed back |
| `LeafKeyWire.DecimalSpells` | tap-grpc/src/convert.rs:267-282 | a printed output index spells its value |
| `LeafKeyWire.SplitsAtColon` | tap-grpc/src/convert.rs:306-320 | the printed outpoint splits where it was joined |
| `LeafKeyWire.LeafKeyTravels` | tap-grpc/src/convert.rs:267-335 | a leaf key comes back with parity byte 0x02, and doing so again changes nothing |
| `LeafKeyWire.LeafKeyRoundTripsIff` | tap-grpc/src/convert.rs:267-335 | it comes back as it was exactly when its parity is even |
| `LeafKeyWire.AcceptedKeysAreWellFormed` | tap-grpc/src/convert.rs:294-335 | keys accepted in any wire form are well formed and travel |
| `LeafPaging.LexLessIsValueLess` | tap-server/src/service.rs:160-168 | byte arrays of one length are ordered as the numbers they spell |
| `LeafPaging.SortedIsUnique` | tap-server/src/service.rs:160-168 | a set of keys has one sorted listing, so pages do not depend on the backend's order |
| `LeafPaging.SortKeys` | tap-server/src/service.rs:160-168 | the same keys in strictly increasing order |
| `LeafPaging.AssetLeafKeys` | tap-server/src/grpc.rs:302-328 | the page of the sorted listing, or the error for a bad offset or limit |
| `LeafPaging.PagesInOrder` | tap-grpc/src/universe_client.rs:433-462 | while under way the walk has received exactly the first full pages |
| `LeafPaging.WalkReceivesAll` | tap-grpc/src/universe_client.rs:423-465 | below 2^31 keys every key is received once in sorted order, in exactly n / 512 + 1 requests |
| `LeafPaging.SaturatedOffsetRepeats` | tap-grpc/src/universe_client.rs:436-437 | from 2^31 keys on one key is received twice |
| `LeafPaging.FullPagesForever` | tap-grpc/src/universe_client.rs:433-462 | with a full page left at the last offset the walk never ends |
| `LeafPaging.PagingExactIff` | tap-grpc/src/universe_client.rs:423-465 | the client receives exactly the server's keys if and only if there are fewer than 2^31 |
| `LeafPaging.OnePage` | tap-grpc/src/universe_client.rs:428-457 | a query with a limit is one page, or an error above the largest page size |
| `LeafPaging.UniverseLeafKeys` | tap-grpc/src/universe_client.rs:423-465 | the client's loop computes the walk, whatever order the backend lists the keys in at each request |
| `LeafPaging.ReceiveAll` | tap-grpc/src/universe_client.rs:448-451 | each key of a page makes the trip over the wire |
| `Mailbox.TakenIff` | tap-node/src/receive.rs:327-399 | the outputs of a message pass exactly when each of them checks out |
| `Mailbox.ProcessAdvances` | tap-node/src/receive.rs:463-467 | the new cursor is the greatest of the old one and what was imported |
| `Mailbox.ImportsAreTaken` | tap-node/src/receive.rs:300-468 | a poll that ran to its end imported exactly the fetched messages that were taken; every imported message has outputs and all of them were stored |
| `Mailbox.AllOrNothing` | tap-node/src/receive.rs:400-467 | a message is imported in part only when a store write fails, and then the poll ends |
| `Mailbox.RunKeeps` | tap-node/src/receive.rs:283-495 | over every run, with ids in any order and listings in any order, what arrived is on the server or imported for good, and the cursor is past the latter |
| `Mailbox.CursorNeverDecreases` | tap-node/src/receive.rs:463-477 | the cursor never moves back |
| `Mailbox.NothingDropped` | tap-node/src/receive.rs:481-495 | a message not imported for good is still on the server |
| `Mailbox.ImportedForGood` | tap-node/src/receive.rs:283-295 | what a completed poll imported is not imported again |
| `Mailbox.ImportedOnce` | tap-node/src/receive.rs:283-477 | over every run without an early end no message is imported twice |
| `Mailbox.ImportedAgainIff` | tap-node/src/receive.rs:377-382 | a message just imported is imported again by the next complete poll exactly when its poll ended early |
| `Mailbox.SkippedIsRetriedIff` | tap-node/src/receive.rs:364-374 | a skipped message is fetched again exactly when every imported one came before it |
| `Mailbox.PassedOverForever` | tap-node/src/receive.rs:283-295 | a message the cursor has passed is never imported later |
| `Mailbox.ImportedTwice` | tap-node/src/receive.rs:317-320 | for any two messages with one output a run that hands the first one's output to the stores twice |
| `Mailbox.SkippedForGood` | tap-node/src/receive.rs:463-467 | for any two messages with one output a run in which the first, whose proof was late, is on the server behind the cursor and only the second was stored |
| `Mailbox.Receiver.CheckOutputs` | tap-node/src/receive.rs:327-399 | the output loop reaches the verdict, and collects all outputs exactly when it is to import |
| `Mailbox.Receiver.CheckMessage` | tap-node/src/receive.rs:300-399 | decryption, fragment limits, chain check and outputs reach the verdict on a message |
| `Mailbox.ImportAll` | tap-node/src/receive.rs:400-462 | stores the outputs in order up to the first write that fails |
| `Mailbox.Receiver.PollMailbox` | tap-node/src/receive.rs:297-499 | stores all outputs of the taken messages, of the one a write failed on those before the failure, and no others; fails exactly when a check, an output or the moved cursor could not be dealt with, and then keeps the old cursor |

## Left out

- Hashing, signatures, tweaks, encryption, proof verification and transaction building: hashes are parameters, the rest are answers the outside gives.
- The supply verifier's leaf and chain checks: an oracle that may reject at will; its checks of pre-commitments, commitments and roots are modelled.
- Pre-commitment rows: those of the memory store, one group at a time; the SQLite store keeps one row per outpoint and clears its mark when it is stored again. A pre-commitment is taken not to be a commitment's output, and the wallet's fee inputs not to be pre-commitments.
- Supply runs take the supply steps one after the other; SupplyLate.OverlapIff says when a commitment overlaps the one the watcher holds, and what follows in such a run is not traced further than LateReplayIff.
- Supply runs register the anchor in memory and in the durable store together; SupplyNode.SupplyNode.Commit has the failing write, and AnchorWatcher what comes of it.
- SupplyNode.SupplyNode.Drop: a transaction id is taken to belong to one group.
- SupplyNode.SupplyNode.Confirm: the same; a finish that fails is FinishCommit's.
- SupplySqlite: the theorems on payloads and pre-commitments are stated for runs over the memory tree store.
- SupplyRoot.StoresAgree: stated for batches both stores accept; SupplyHeadroom.StoresAcceptIff says exactly when each does.
- SendPipeline.Send: failures before the broadcast are one outcome, and so are those after the rows were moved; which step failed is not distinguished.
- AnchorCodec.Reader.Take: the length-overflow error is not modelled; on 64-bit machines it cannot occur, since a buffer is shorter than 2^63 and a length below 2^32.
- The allocation a decoder makes for an announced count before reading its items.
- Nested codecs (proofs, files, transactions, assets, metas, reveals, events, UTF-8): parameters; round-trip and canonicity are assumed where a theorem names them.
- LeafKeyWire: its conversions take hex text as pairs of characters; that the walk panics on some text beyond ASCII is stated in ByteFields only.
- Mailboxes of several receivers: the model has one; with several, a poll that ends early leaves the remaining receivers unpolled.
- Mailbox.ImportedTwice: stated on what is handed to the stores; imported assets are kept as a list in order of import; that the asset store keeps one row per identity, and that a proof is written just before its asset, is not followed here (WalletLedger.ImportAgain is about the row).
- LeafPaging.UniverseLeafKeys: the loop is followed for as many requests as there are listings, since it need not end.
- Paging of universe roots, whose response is a map; Postgres; SQL text and migrations; the event bus, timers, transports and command line: they would add plumbing or easy members.
- Deletion of tree leaves: no update removes a leaf.
