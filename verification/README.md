# Verification of tBTC v2 off-chain logic

A Dafny model of four parts of the repository, with proofs of what they promise. `dafny verify dfyconfig.toml`
checks everything.

- **SPV proofs** (`Spv`, `MerkleProof`, `MerkleTree`, `HeaderChain`, `Header`, `Target`, `Transaction`, `TxReader`). A
  proof that a Bitcoin transaction is in a block with enough confirmations is assembled from the answers of a client
  and checked. Against an arbitrary client an accepted proof is shown to be sound; against an honest client the
  accepted transactions are characterized. SHA-256 is an arbitrary function: where soundness needs collision
  resistance, an executable function computes the two colliding strings from the proof and the block.
- **Monitoring manager** (`SystemEvents`, `RunReports`, `Delivery`, `Coverage`, `SupplyMonitor`,
  `SupplyDelivery`). Each run examines a window of blocks, dispatches the events of the monitors to receivers behind
  deduplicators, and persists a log and a checkpoint. Any store, monitor or receiver may fail in any run. The results
  are about all sequences of runs: what the windows cover, that no event is missed, and how often an event is handled.
- **Wallet simulation** (`Wallets`, `WalletPayments`, `WalletClosing`, `WalletIndexes`, `OperatorSchedule`, `Balances`,
  `RandomSample`, `WalletExamples`). Wallets and operators are created, leave and close day after day. Which wallets
  close is exact; conservation of the balances, agreement of the indexes, the heartbeat, the split of the operators and
  the two results, the biggest balance ever and the number of transfers, hold at every day boundary, for all random
  choices.
- **Batched event pulls** (`EventBatches`). The fallback by batches gives what the single query would have given.

`Results`, `HexBytes`, `Hashing`, `Sequences` and `Arithmetic` hold what the parts share. Where the source changes
state the model has classes and methods; each is proved against functions of the values, and the lemmas are about
those functions. A `hide` statement keeps definitions out of a proof that does not need them.

Functions that a method and its specification share are themselves tied to something else: bytes are read back by
a reader of the published layout (`TxReader`, `Header.HeaderLayout`), conditions are repeated in plain numbers (lemmas
named `...InNumbers`), and small cases are written out.

Byte layouts follow the Bitcoin developer reference (sections "Block Headers", "Merkle Trees", "Target nBits",
"Raw Transaction Format" and "CompactSize Unsigned Integers") and BIP 141, section "Transaction ID".

## What the proofs show about the code

- The check that the coinbase branch is as long as the transaction branch (`typescript/src/lib/bitcoin/spv.ts:197-202`)
  is what fixes the length of an accepted branch. Without a 64-byte coinbase transaction or a collision no other
  length passes (`MerkleTree.FirstLeafFixesLength`), so `Spv.AcceptedProofIsSound` assumes nothing about lengths.
- Indexes of 2^31 and above are not halved by `>>` (`MerkleTree.ShiftHalvesExactly`). Soundness is stated for every
  integer index; completeness is stated for indexes below 2^31.
- Confirmations and tip are two readings (`typescript/src/lib/bitcoin/spv.ts:81-96`). A block that arrives between them
  shifts the height by one. A good transaction is accepted exactly when none does (`Spv.TipGrowthVerdict`, with a
  concrete rejection in `Spv.TipGrowthExample`).
- `monitoring/README.adoc:87-97` says that a failed range is covered again. Before the first successful run there is
  no checkpoint and the next run starts from its own tip; `Coverage.RetryCoversExactly` gives the exact condition, and
  `Coverage.MissedBeforeFirstSuccess` an event that is missed. From the first success on nothing is missed that monitors
  report when it is due (`Coverage.NoMissedEvents`); for stale redemptions and orphaned mintings that is when their
  timeout ends (`Coverage.NoMissedAlerts`).
- `monitoring/README.adoc:97-101` says that duplicates are filtered out. Equal events within one run are not
  (`Delivery.RunDeliversOnce`, `Delivery.TwiceInOneRun`), and neither is what was handled but not stored
  (`Delivery.FailedStoreRepeats`, `Delivery.TwiceInTwoRuns`). `Delivery.DuplicatesFilteredExactly` says that nothing
  else goes wrong.
- `SupplyMonitor` persists its own block before the alert is dispatched. An alert is delivered exactly when the run
  that raised it dispatches it (`SupplyDelivery.AlertDeliveredExactly`); otherwise it is lost, as in
  `SupplyDelivery.AlertIsLost`. Such a monitor does not meet the hypothesis `Coverage.Faithful` under which no event is
  missed (`SupplyDelivery.AlertBreaksFaithful`).
- A wallet that falls below 70 staking operators closes, but not while it is the newest. Once superseded it stays open
  below 70 until it loses another operator (`Wallets.Simulation.NewDay`, `WalletExamples.HeartbeatOutlived`).
- The loop of `dailyWithdraw` has no bound. Balances that were lost because a closing wallet found no eligible wallet
  stay counted in `btcInSystem`, and a withdrawal that reaches them never ends (`Wallets.WithdrawalsEndExactly`);
  `WalletExamples.BalanceIsLost` reaches such a state in nine days.
  `Wallets.Simulation.DailyWithdraw` stops at `walletIndex`, beyond which the source changes nothing, and returns what
  is unserved.
- A comment in `typescript/src/lib/electrum/client.ts:473-479` calls the initial `Math.min()` the minimum 32-bit
  value; it is positive infinity. Either way it only marks a height that was not found.

## Model

| member | source | states |
|---|---|---|
| MerkleTree.ShiftHalvesExactly | typescript/src/lib/bitcoin/spv.ts:350-352 | `idx >> 1` halves a non-negative index if and only if the index fits in 31 bits |
| MerkleTree.ShiftInNumbers | typescript/src/lib/bitcoin/spv.ts:350-352 | for every integer index, negative ones and those beyond 32 bits included, twice the shifted index plus the lost bit is the index less a multiple of 2^32, and the shifted index has 31 bits |
| MerkleTree.BranchFoldsToRoot | typescript/src/lib/bitcoin/spv.ts:329-353 | the sibling branch of any node of any tree, folded in the order given by its index, is the root |
| MerkleTree.SmallTrees | typescript/src/lib/bitcoin/spv.ts:329-353 | the roots of blocks of one, two and three transactions, written with the hash function: left before right, the last one doubled |
| MerkleTree.SmallBranches | typescript/src/lib/bitcoin/spv.ts:329-353 | what branches of one and two hashes fold to at small indexes, written with the hash function |
| MerkleTree.ReachedInRange | typescript/src/lib/bitcoin/spv.ts:318-323 | descending by the bits of the index of an existing node reaches that node |
| MerkleTree.FoldIsSound | typescript/src/lib/bitcoin/spv.ts:288-362 | for any hash function, tree, index and hash: a branch as long as the tree is high that folds to the root starts at the node that the index reaches, or a SHA-256 collision is computed |
| MerkleTree.FirstLeafFixesLength | typescript/src/lib/bitcoin/spv.ts:197-202 | the branch of the coinbase at index 0 has exactly the height of the tree and starts at the coinbase; otherwise a 64-byte transaction or a computed collision is at hand |
| MerkleProof.CreateMerkleProof | typescript/src/lib/bitcoin/spv.ts:154-160 | the proof is the concatenation of the byte-reversed branch |
| MerkleProof.SplitMerkleProof | typescript/src/lib/bitcoin/spv.ts:371-383 | accepts exactly the multiples of 32 bytes, and the hashes concatenate to the proof |
| MerkleProof.ValidateMerkleTree | typescript/src/lib/bitcoin/spv.ts:248-269 | accepts exactly the branches that fold to the root, an empty one only at index 0; which error otherwise |
| MerkleProof.ValidateMerkleTreeHashes | typescript/src/lib/bitcoin/spv.ts:288-362 | the loop computes the fold, and rejects an empty branch |
| MerkleProof.SplitAfterCreate | typescript/src/lib/bitcoin/spv.ts:154-160 | splitting a created proof is the element-wise reversed branch, whose length is that of the branch |
| MerkleProof.MemberIsAccepted | typescript/src/lib/bitcoin/spv.ts:248-383 | for every block and every transaction in it: its branch in display order, concatenated, cut and folded, is accepted |
| MerkleProof.AcceptedIsMember | typescript/src/lib/bitcoin/spv.ts:248-362 | whatever is accepted with a branch of the height of the tree is the leaf that the index reaches, and is leaf number index when there is one, or a collision is computed |
| Header.SerializeHeader | typescript/src/lib/bitcoin/header.ts:52-61 | the six writes into the buffer give the 80-byte form |
| Header.HeaderLayout | typescript/src/lib/bitcoin/header.ts:52-61 | where the fields are in the 80 bytes, the numbers read as little-endian |
| Header.DeserializeHeadersChain | typescript/src/lib/bitcoin/header.ts:92-104 | accepts exactly the multiples of 80 bytes, and the headers serialize back to the input |
| Header.DecodeOfEncode | typescript/src/lib/bitcoin/header.ts:52-85 | deserializing a serialized header gives the header |
| Header.EncodeOfDecode | typescript/src/lib/bitcoin/header.ts:52-85 | serializing a deserialized 80-byte string gives the string |
| Header.EncodeChainInjective | typescript/src/lib/bitcoin/header.ts:92-104 | two lists of headers with one raw chain are equal, so deserializing inverts concatenation for every list |
| HexBytes.ToNatLEAppend | typescript/src/lib/bitcoin/hash.ts:34 | a byte of a hash counts for the power of 256 of its position: the first byte is the least significant |
| HexBytes.HighBytesZero | typescript/src/lib/bitcoin/hash.ts:34 | a hash is below a power of 256 if and only if all its bytes from that position on are zero |
| Target.KnownTargets | typescript/src/lib/bitcoin/header.ts:211-263 | targets and difficulties of real headers as numbers: the target of difficulty 1, the documented one and its difficulty, and the error cases |
| Target.BitsOrderIsTargetOrder | typescript/src/lib/bitcoin/header.ts:211-251 | on normalized bits the order of the 4-byte numbers is the order of the targets, and equal targets have equal bits |
| Target.DifficultyIsAntitone | typescript/src/lib/bitcoin/header.ts:258-263 | a larger target is never more difficult, in spite of the rounding |
| Target.WorkBound | typescript/src/lib/bitcoin/header.ts:155-176 | a hash at most its target, times the difficulty, is at most the target of difficulty 1 |
| HeaderChain.ValidateBitcoinHeadersChain | typescript/src/lib/bitcoin/header.ts:132-204 | accepts exactly the chains with all links, work and allowed difficulties; otherwise the error is the fault of the first header that spoils an accepted prefix |
| HeaderChain.AcceptedInNumbers | typescript/src/lib/bitcoin/header.ts:132-204 | what is accepted, written with double hashes, little-endian numbers and the two difficulties only |
| HeaderChain.FaultInNumbers | typescript/src/lib/bitcoin/header.ts:137-203 | which error a header causes after good ones, in the order of the checks, written the same way |
| HeaderChain.AcceptedHashEndsInZeros | typescript/src/lib/bitcoin/header.ts:162-176 | the bytes of the hash of an accepted header are zero from the position on that the first byte of its bits names |
| HeaderChain.HashIsLittleEndian | typescript/src/lib/bitcoin/header.ts:162-176 | a header with target 1 is accepted with a hash of 1 followed by 31 zeros, and lacks work with 31 zeros followed by 1 |
| HeaderChain.AtMostOneSwitch | typescript/src/lib/bitcoin/header.ts:193-202 | the local rule on difficulties holds if and only if the headers are a run at the previous difficulty followed by a run at the current one |
| HeaderChain.ConcatenationLaw | typescript/src/lib/bitcoin/header.ts:137-203 | a concatenation is accepted if and only if both parts are, the boundary links, and after an end at current difficulty everything is at current difficulty |
| HeaderChain.SubChainAccepted | typescript/src/lib/bitcoin/header.ts:137-203 | every contiguous part of an accepted chain is accepted |
| HeaderChain.AcceptedWork | typescript/src/lib/bitcoin/header.ts:155-191 | each accepted header carries the work that its difficulty names, and that difficulty is one of the two |
| Transaction.ExtractBitcoinRawTxVectors | typescript/src/lib/bitcoin/tx.ts:133-184 | the four vectors written by the loops concatenate to the serialization that the transaction hash covers; a reader of the published layout gets version, inputs, outputs and locktime back from them |
| Transaction.LegacyIsRead | typescript/src/lib/bitcoin/tx.ts:133-184 | reading the serialization by the published layout gives the transaction without its witnesses, and leaves no byte over |
| Transaction.CompactSizeIsShortest | typescript/src/lib/bitcoin/tx.ts:140-160 | a count has one byte up to 252, three up to 65535 and five above |
| Transaction.OneTransaction | typescript/src/lib/bitcoin/tx.ts:133-184 | the bytes of a transaction with one input and one output of 1000 satoshi |
| Transaction.LegacyDeterminesTx | typescript/src/lib/bitcoin/tx.ts:133-184 | two transactions have the same vectors if and only if they differ at most in their witnesses |
| Spv.AssembleBitcoinSpvProof | typescript/src/lib/bitcoin/spv.ts:75-146 | the proof is made of the answers of the client at the computed height, or is the first failure |
| Spv.ValidateBitcoinSpvProof | typescript/src/lib/bitcoin/spv.ts:180-231 | accepts exactly the proofs that pass all checks together; otherwise the error is that of the first failing step or check, in the order of the source |
| Spv.AcceptedProofIsSound | typescript/src/lib/bitcoin/spv.ts:197-230 | an accepted proof of any branch length shows the transaction that the index reaches and the true coinbase, or a coinbase of 64 bytes, or a computed collision |
| Spv.AcceptedValidationIsSound | typescript/src/lib/bitcoin/spv.ts:180-231 | the same for a validation against an arbitrary, possibly lying client, with exactly the required number of headers in an accepted chain |
| Spv.GetTransactionConfirmations | typescript/src/lib/electrum/client.ts:479-531 | the first entry that lists the transaction decides; a height of 0 or less or above the tip gives 0 confirmations, any other counts up to the tip; without an entry it fails |
| Spv.UnconfirmedNeverAccepted | typescript/src/lib/electrum/client.ts:517-529 | a transaction in the mempool or above the tip is accepted for no required count, whatever else the client answers; the error names 0 confirmations |
| Spv.HeightRecovered | typescript/src/lib/bitcoin/spv.ts:95-96 | with true histories, tip and confirmations give back the height, off by exactly the number of blocks that arrived between the two readings |
| Spv.HonestEvidence | typescript/src/lib/bitcoin/spv.ts:98-145 | an honest client leads to exactly the required headers, all inside the tip, and to two branches that pass every check; only the headers decide |
| Spv.HonestVerdict | typescript/src/lib/bitcoin/spv.ts:180-231 | against an honest client a transaction is accepted if and only if it has enough confirmations and its headers form an accepted chain |
| Spv.TipGrowthVerdict | typescript/src/lib/bitcoin/spv.ts:81-111 | against a client that answers from one chain but whose tip grows between the two readings, a transaction is accepted if and only if the tip did not grow and it would be accepted by an honest client |
| Spv.TipGrowthExample | typescript/src/lib/bitcoin/spv.ts:81-111 | a concrete transaction that is accepted with both readings at one tip and rejected when one block arrives between them |
| EventBatches.GetEvents | typescript/src/lib/ethereum/adapter.ts:244-303 | whenever it resolves, the events are those of one query over the whole range, in order; it resolves exactly if that query works or the tag resolves, the loop ends and no batch fails; which error otherwise; which ranges are queried, also with a negative interval |
| EventBatches.MatchingIsExact | typescript/src/lib/ethereum/adapter.ts:272-296 | the events of a range are exactly those of the chain with a block in it, each as often as on the chain |
| EventBatches.MatchingKeepsOrder | typescript/src/lib/ethereum/adapter.ts:272-296 | they come in the order of the chain, and a range over all of it gives the chain |
| EventBatches.MatchingSplits | typescript/src/lib/ethereum/adapter.ts:272-296 | the events of two adjacent ranges concatenate to those of both |
| EventBatches.BatchesPartition | typescript/src/lib/ethereum/adapter.ts:272-296 | the batches start and end with the range, follow one another without gap or overlap, and all but the last have interval + 1 blocks |
| EventBatches.EveryBlockInOneBatch | typescript/src/lib/ethereum/adapter.ts:272-296 | every block of the range is in exactly one batch |
| EventBatches.LoopEndsExactly | typescript/src/lib/ethereum/adapter.ts:275-295 | over any number of turns, the loop gets past the end if and only if the range is empty or the interval is not negative; else only a failing query leaves it |
| SystemEvents.Deduplicator.constructor | monitoring/src/system-event.ts:74-88 | the cache holds exactly the events handled before |
| SystemEvents.Deduplicator.Receive | monitoring/src/system-event.ts:94-104 | an event in the cache is ignored, any other goes to the receiver |
| SystemEvents.GroupByReceiver | monitoring/src/system-event.ts:171-184 | the groups are the events of the acks, receiver by receiver, in order |
| SystemEvents.Persistence.StoreHandledSystemEvents | monitoring/src/file-persistence.ts:50-61 | each group is appended to the list of its receiver, other lists stay; a failure changes nothing |
| SystemEvents.Manager.Check | monitoring/src/system-event.ts:212-266 | the acks of all dispatches and the errors of monitors and dispatches, in order; it fails only when the log cannot be read |
| SystemEvents.Manager.Trigger | monitoring/src/system-event.ts:146-210 | the stored state after a run, the window, the errors and the success of the report, as a function of the state before and of what failed |
| SystemEvents.WindowInNumbers | monitoring/README.adoc:72-86 | a window starts 12 blocks before the checkpoint, or before the tip without a valid one, never below 0; the documented runs start at 88, 138 and 143 |
| SystemEvents.GatheredInOrder | monitoring/src/system-event.ts:226-237 | events and errors come monitor by monitor |
| RunReports.OutcomeAt | monitoring/src/system-event.ts:241-245 | the outcome at each position: receiver by receiver and event by event, which are ignored, fail or are handled |
| RunReports.OutcomesInOrder | monitoring/src/system-event.ts:247-260 | handled events and failures keep the order of the dispatches |
| RunReports.SucceedsExactly | monitoring/src/system-event.ts:146-205 | a run succeeds if and only if every outside call that it makes succeeds; which dispatches are made, and that the log is written, depends on what receivers have not logged and support |
| RunReports.ErrorsInOrder | monitoring/src/system-event.ts:165-196 | the report has one error for each failed monitor, then for each failed dispatch, then for a log or a checkpoint that could not be written |
| Delivery.LogOnlyGrows | monitoring/src/file-persistence.ts:50-61 | the log of a receiver only grows, whatever fails in any sequence of runs |
| Delivery.LogIsHistory | monitoring/src/system-event.ts:165-188 | when no store fails, the log is the history of what the receiver handled, in order |
| Delivery.DeliveredExactly | monitoring/src/system-event.ts:239-260 | a delivery of a run is the handled outcome of some receiver and some event of the run, and every such outcome is one |
| Delivery.RunDeliversOnce | monitoring/src/system-event.ts:241-245 | a run hands no event twice to a receiver if and only if it does not have an event twice that the receiver supports, has not logged, and does not fail to handle |
| Delivery.TwiceInOneRun | monitoring/src/system-event.ts:241-245 | a concrete run without any failure that delivers one event twice |
| Delivery.DistinctEventsOnce | monitoring/src/system-event.ts:241-245 | in particular not when all events of the run differ |
| Delivery.HandledOnceExactly | monitoring/README.adoc:97-101 | for any runs and any failures: nothing is handled twice over all runs if and only if no single run does so and nothing delivered by a run whose store failed is delivered by a later one |
| Delivery.DuplicatesFilteredExactly | monitoring/README.adoc:97-101 | the same on the inputs of the runs: events, supported kinds, log before the run, failed dispatches and failed stores |
| Delivery.HandledOnceOverRuns | monitoring/src/system-event.ts:94-104 | in particular, when no store fails, an event is handled twice by a receiver over all runs if and only if that happens within one run |
| Delivery.FailedStoreRepeats | monitoring/src/system-event.ts:182-187 | what was handled but not stored is handled a second time by the next run that finds it |
| Delivery.TwiceInTwoRuns | monitoring/src/system-event.ts:182-187 | a concrete pair of runs that delivers one event twice because the first store fails |
| Coverage.WindowsCover | monitoring/README.adoc:87-97 | once a run succeeded, every block from the initial checkpoint, or without one from the window of the first success, up to the current checkpoint is in the window of a successful run, for any tips and failures |
| Coverage.RetryCoversExactly | monitoring/README.adoc:87-97 | the next successful run covers the window of a failed one if and only if the checkpoint was positive and not above the failed tip, or the tip did not move forward, or the next window goes back to block 0 |
| Coverage.MissedBeforeFirstSuccess | monitoring/README.adoc:87-101 | two concrete runs without a checkpoint, the first failing, after which an event on the chain is missing in the log although everything else is as promised |
| Coverage.GatheredIsLogged | monitoring/src/system-event.ts:165-196 | what a successful run gathers is in the log of every receiver that supports it |
| Coverage.NoMissedEvents | monitoring/README.adoc:72-101 | for any block at which each event is due: no event of the chain that is due from the initial checkpoint, or without one from the window of the first success, to the tip of a successful run is missing in the log of a receiver that supports it, for any failures before and any reorganization at most 12 blocks deep |
| Coverage.NoMissedAlerts | monitoring/src/redemption-monitor.ts:134-143 | the same for monitors that shift their windows back by a timeout together with those that do not, from what each reports of its own window |
| Coverage.NotDueAtItsBlock | monitoring/src/redemption-monitor.ts:134-175 | taken as due at its block, the same alert cannot meet the hypotheses, whatever the first run sees |
| Coverage.DelayedAlertIsLogged | monitoring/src/redemption-monitor.ts:134-175 | a concrete stale redemption that is not reported when its block is examined, meets the hypotheses and is logged |
| Coverage.ExactlyOnce | monitoring/README.adoc:97-101 | under the exact condition of `DuplicatesFilteredExactly` each of these events, delayed or not, is handled exactly once over all runs |
| Coverage.RewoundWindowsCover | monitoring/src/redemption-monitor.ts:134-143 | the shifted windows inherit the coverage, also without a checkpoint: each block whose timeout ended is in the shifted window of a successful run whose tip is the timeout past it |
| SupplyMonitor.Monitor.Check | monitoring/src/supply-monitor.ts:51-119 | an alert is returned if and only if the calls succeed and 100 times the supply leaves the band between 90 and 110, or 95 and 105, times the reference; sign, whole percents, threshold and blocks of it, and the new persisted block; what a failed read, a zero supply or a failed update does |
| SupplyMonitor.StepInNumbers | monitoring/src/supply-monitor.ts:64-113 | the same for the specification of a check: reference block, threshold, rise and fall in numbers |
| SupplyMonitor.FallsAreReported | monitoring/src/supply-monitor.ts:64-113 | a concrete fall by half is reported with its percentage, a later one of 4 percent is not, and one of 6 percent is |
| SupplyMonitor.RoundedDownComparison | monitoring/src/supply-monitor.ts:93-101 | comparing the rounded percentage with the threshold is comparing the exact change |
| SupplyMonitor.NoAlertAgainstItself | monitoring/src/supply-monitor.ts:82-101 | a check that compares a block with itself raises nothing |
| SupplyMonitor.AlertsAreDisjoint | monitoring/src/supply-monitor.ts:66-113 | over any checks whose blocks do not go back, whatever fails and however supplies are reorganized in between, the alert windows are disjoint, follow one another and span at most 3600 blocks |
| SupplyMonitor.RaisedOnce | monitoring/src/supply-monitor.ts:66-113 | two alerts of different checks have different blocks, the later one the larger |
| SupplyDelivery.AlertDeliveredExactly | monitoring/src/supply-monitor.ts:99-113 | in any sequence of runs, a raised alert is handled by a receiver in some run if and only if the run that raised it dispatches it to that receiver |
| SupplyDelivery.AlertBreaksFaithful | monitoring/src/supply-monitor.ts:99-113 | a later successful run whose window holds the block at which the alert is due does not gather it, so the hypothesis of `NoMissedEvents` fails |
| SupplyDelivery.AlertIsLost | monitoring/src/supply-monitor.ts:99-113 | two concrete runs: the first raises an alert and fails to dispatch it, the second succeeds over its block, and the receiver never gets it |
| SupplyDelivery.DecimalIsRead | monitoring/src/supply-monitor.ts:22-26 | the text of a number is its decimal digits without a leading zero |
| SupplyDelivery.AlertTexts | monitoring/src/supply-monitor.ts:13-28 | the text of a fall and of a rise |
| RandomSample.GetRandomSample | simulation/wallets.js:59-91 | the array is restored exactly for all random choices; the sample is read at as many different places as asked for, or at all places when more is asked for |
| RandomSample.ApplyThroughPermutation | simulation/wallets.js:66-73 | the in-place swaps read the array through a permutation |
| Balances.RemainingIsWhatExceeds | simulation/wallets.js:394-406 | after visiting the wallets below n the loop has exactly what exceeds their sum left to withdraw |
| Balances.LoopEndsExactly | simulation/wallets.js:394-406 | the withdrawal loop ends if and only if the wallets together hold the request |
| WalletClosing.DrainedInNumbers | simulation/wallets.js:394-435 | a wallet is drained if and only if it is not the newest, holds something, the older ones hold less than the request, and it leaves at most 1 coin |
| WalletClosing.AfterMorningInNumbers | simulation/wallets.js:156-203 | which wallets are open after the morning, and with which operators: age of 180 days, 70 staking operators and the newest wallet in numbers |
| Wallets.WithdrawalsEndExactly | simulation/wallets.js:381-407 | every withdrawal ends if and only if no balance was ever lost |
| WalletIndexes.ClosingKeepsAgreement | simulation/wallets.js:367-373 | closing a wallet keeps the two indexes in agreement |
| WalletIndexes.OpeningKeepsAgreement | simulation/wallets.js:245-253 | so does opening one |
| WalletIndexes.LeavingOneWallet | simulation/wallets.js:195-198 | so does an operator that leaves one of its wallets |
| WalletIndexes.ClosingWhileLeaving | simulation/wallets.js:195-202 | so does a wallet that closes while an operator goes through its list |
| OperatorSchedule.QuittersMoveToSchedule | simulation/wallets.js:187-208 | operators that quit move from staking to the schedule, none twice |
| OperatorSchedule.ScheduledDayLeaves | simulation/wallets.js:211-219 | on its day a scheduled list leaves the live operators, and nobody else does |
| Wallets.Simulation.RandomTransfer | simulation/wallets.js:292-326 | the balance is split evenly over different eligible wallets: over all of them, or over the fewest for which a part is at most 200; nothing else changes; the biggest balance ever and the number of transfers are exact; the total grows by the balance, or by nothing without an eligible wallet |
| WalletPayments.TallyNext | simulation/wallets.js:318-323 | one more payment keeps the two results of the simulation exact: the biggest balance is that of some payment and no payment has a larger one, and the number of transfers counts the payments between wallets |
| Wallets.Simulation.CloseWallet | simulation/wallets.js:361-376 | books and maps stay right; the wallet leaves all of them; its balance is split over eligible wallets as above and nothing else changes, or it is lost exactly when there is none |
| Wallets.Simulation.Withdraw | simulation/wallets.js:419-435 | the amount leaves the wallet and the count; at most dust left closes the wallet, and then what is left of it is split as above and nothing else changes |
| Wallets.Simulation.DailyWithdraw | simulation/wallets.js:381-407 | the count drops by the request, or by all that is held when that is less, and what is unserved is what is missing to the request or to the count; it is taken from the oldest wallets on, the last of them keeping the rest, and no other wallet has less; exactly the older wallets close that the withdrawal leaves with dust; nothing is unserved while nothing was lost |
| Wallets.Simulation.DailyDeposit | simulation/wallets.js:409-417 | the newest wallet and the count grow by the amount, books kept and the biggest balance ever exact |
| Wallets.Simulation.NewWallet | simulation/wallets.js:242-257 | the new wallet has 100 different staking operators, or all of them when there are fewer, and the indexes agree |
| WalletClosing.OneMoreLeaves | simulation/wallets.js:187-206 | which wallets survive and with which operators does not depend on the order in which operators leave |
| WalletClosing.LeavingOneOfAll | simulation/wallets.js:193-203 | nor on the order in which an operator leaves its wallets |
| Wallets.Simulation.LeaveWallet | simulation/wallets.js:195-201 | the operator leaves the wallet, which closes if and only if it is not the newest and fewer than 70 staking operators are left |
| Wallets.Simulation.LeaveWallets | simulation/wallets.js:193-203 | an operator that quits leaves every wallet it lists; exactly the ones close that are not the newest and fall below 70, the others keep their other operators; books and indexes stay right |
| Wallets.Simulation.BeginUnstakingOperators | simulation/wallets.js:187-208 | exactly the staking operators that quit leave the staking ones and are scheduled in ascending order; exactly the wallets close that lose some of them, are not the newest and fall below 70; books and indexes kept |
| Wallets.Simulation.UnstakeOperators | simulation/wallets.js:211-219 | exactly the operators scheduled for the day stop living, and the day leaves the schedule |
| Wallets.Simulation.RegisterNewOperators | simulation/wallets.js:222-229 | fresh numbers are added to live and staking operators |
| Wallets.Simulation.CloseOldWallets | simulation/wallets.js:156-163 | exactly the wallets that are too old and not the newest close, and the others keep their operators and at least their balances |
| Wallets.Simulation.constructor | simulation/wallets.js:477-495 | 2000 operators stake and live, there is no wallet, and every invariant holds |
| Wallets.Simulation.NewDay | simulation/wallets.js:166-180 | a day keeps conservation, the agreement of the indexes, the split of the operators, the weekly wallets, the maximal age and the heartbeat (a superseded wallet is below 70 if and only if it was when superseded and lost nobody since); exactly the wallets are left that survive the morning and are not drained, with what the withdrawal from the oldest on leaves them; who quits is scheduled to leave 60 days later; the count moves by deposit and withdrawal |
| WalletExamples.HeartbeatOutlived | simulation/wallets.js:187-206 | a concrete simulation after which a superseded wallet without any staking operator is still open |
| WalletExamples.BalanceIsLost | simulation/wallets.js:361-407 | a concrete simulation after which a deposit is counted that no wallet holds, so that withdrawing it never ends |
| Wallets.Simulation.Run | simulation/wallets.js:497-499 | every run keeps all of this, with the biggest balance ever and the number of transfers exact, and goes on while nothing is unserved and a wallet can be created |

## Left out

- Spv.HonestVerdict: for indexes below 2^31 only, because the source wraps larger ones to 32 bits; no block has as many transactions.
- Spv.GetTransactionConfirmations: the histories of the output scripts are parameters; script hashing and the Electrum calls are not modelled.
- Transaction.ExtractBitcoinRawTxVectors: the parser of the source is bitcoinjs-lib and not modelled, `TxReader` only reads back what is written; the version is its unsigned bit pattern, and the nine-byte form of a count cannot occur for lists shorter than 2^32.
- Header.SerializeHeader: hashes are 32 bytes long, as the interface says; longer ones, which would overwrite other fields, are not modelled.
- HeaderChain.ValidateBitcoinHeadersChain: difficulties are integers; the error text is replaced by its kind.
- EventBatches.GetEvents: requires a failing query when the loop is entered with a negative interval, because otherwise the source loops for ever (`LoopEndsExactly`), and events in block order, as a node returns them.
- SystemEvents.Manager.Trigger: the concurrency of monitors and dispatches is not modelled; their results are settled in list order, and no dispatch sees what another one of the run did, which holds in the source because the caches are only read.
- SystemEvents.Persistence.StoreHandledSystemEvents: a failing store leaves the file as it was; a write that fails halfway is not modelled.
- SystemEvents.Deduplicator.Receive: the JSON text used as key is taken to determine the event.
- Coverage.NoMissedEvents: assumes positive tips and monitors that report all events of their window when they succeed.
- Coverage.NoMissedAlerts: the finalization timeout of the minting monitor is a whole number of blocks and the same in all runs. An alert that only begins to hold more than 12 blocks after its timeout, as that of a minting request cancelled later, is not meant: no window holds it any more.
- SupplyDelivery.AlertDeliveredExactly: assumes tips that do not go back and a positive supply at the checked blocks.
- Wallets.Simulation.NewDay: requires a staking operator when a wallet is created; without one the source puts `undefined` in the indexes. Of `walletLiveOperators`, which the source only writes, and of the wallet lists of operators that have quit, which it does not read again, a day keeps the keys only; what opening and closing a wallet do to them is exact.
- Wallets.Simulation.DailyWithdraw: bounded by the number of wallets, where the source would spin; amounts are real numbers, so the rounding of floating point is not modelled.
- Wallets.Simulation.RandomTransfer: the only transfer the source selects; `randomTransferWithoutCap` and `transferToActive` are not modelled.
- The Poisson generators, averages over iterations and logging of the simulation: amounts are arbitrary non-negative numbers.
- `calculateLocktime` and `locktimeToNumber`: fixed-width conversions that no modelled part depends on.
- The contents of the deposit, minting, redemption and wallet monitors beyond their windows: filters over chain data.
- Receivers (Discord, Sentry), Electrum connections and retries, contract handles and deployment: input and output.
- SHA-256, RIPEMD-160, addresses and signatures: foreign code; hashing is a parameter.
