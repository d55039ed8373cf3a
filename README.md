# parallel-signer: the packing engine, modelled in Dafny

`parallel-signer` lets an Ethereum-compatible client send many logical requests
through a single signing account without nonce conflicts. Callers submit requests
to an ordered request store. A repack cycle packs a batch of them into one
*attempt*, a transaction signed at the account's current ledger nonce, and
records it. When an attempt at a nonce is stuck, it is replaced by a new attempt
at the same nonce. The replacement carries escalated fees and possibly more
requests. A reconciliation cycle walks the recorded attempts against the ledger's
receipts. It marks the requests of every attempt that reached the confirmation
threshold with that attempt's hash.

This project models:
- the store the engine consumes;
- the fee rules for a replacement;
- the batch selector and its backward walk over earlier attempts;
- the assembly and recording of one attempt;
- the `repacking` exclusion flag;
- the reconciliation cycle;
- the two timeout/confirmation tables.

The modules follow the program:

- `Records` (records.dfy): the `Request` and `PackedTransaction` rows, plus `Math.max`/`Math.min`.
- `RequestStore` (store.dfy): the `IOrderedRequestStore` contract as a `Store` class with two tables.
  - The queries are functions of the tables. They follow the SQL reference store.
  - The mutators are methods that reassign the tables.
- `Fees` (fees.dfy): `getFinalPrice`, the ten-percent bump and the fee part of `buildTransactionRequest`.
- `Selection` (selection.dfy): what the batch selector may decide, and facts about the store's selection used by the repack rules.
- `Reconcile` (reconcile.dfy): what `checkRecipt`/`checkConfirmations` decide at one nonce, and the safety invariant `Justified` their writes keep.
- `Signer` (signer.dfy): the options and the `ParallelSigner` class (flag, store, timer table). Its methods are the repack and reconciliation cycles, with the source's loops.
- `Timer` and `Confirmation` (timer.dfy, confirmation.dfy): the per-chain tables of src/timer.ts and src/confirmation.ts.

The environment is passed in:
- The ledger is the nonce and a receipt map from hash to confirmation depth. A hash that is absent has no receipt.
- The clock is a `now` parameter, in milliseconds.
- Signing is a function `txHashOf` from the built transaction to its hash.
- The caller's encoding callback is a function `populateFun`.

In three places the model follows what the code does over what its comments and names suggest:
- The default check interval is 60 seconds (line 146). The option's comment says 15.
- A receipt below the threshold does not persist a confirmation (lines 587-600). It also does not stop the backward walk: `checkConfirmations` then returns the smallest sibling id and the walk goes on below it.
- `getUnconfirmedTransactionsWithSameNonce` takes the nonces below the given one whose group has a confirmation sum of 0, and returns their attempts with confirmation 0. This is the query written at lines 75-99, not what the method's name suggests.

## Model

| member | source | states |
|---|---|---|
| Records.Max | src/ParallelSigner.ts:321 | `Math.max` of a non-empty id list is an element and bounds every element |
| Records.Min | src/ParallelSigner.ts:615 | `Math.min` of a non-empty id list is an element and is below every element |
| RequestStore.RequestsFrom | src/ParallelSigner.ts:41-46 | `getRequests`: at most `limit` rows, each with id ≥ `minimalId`; when fewer than `limit` come back, every such row is included |
| RequestStore.RequestsFromValid | src/ParallelSigner.ts:41-46 | a selection from a table with increasing ids again has present, positive, increasing ids |
| RequestStore.RequestsFromLowest | src/ParallelSigner.ts:41-46 | on a table with increasing ids, every selected row has a smaller id than every qualifying row left out, so `getRequests` returns the lowest qualifying ids |
| RequestStore.Highest | src/ParallelSigner.ts:54-71 | `getLatestPackedTransaction` (any / at a nonce) and `getMaxIDPackedTransaction`: the matching attempt with the largest id, `None` exactly when none matches |
| RequestStore.Siblings | src/ParallelSigner.ts:60-64 | `getPackedTransaction(nonce)`: exactly the attempts at that nonce |
| RequestStore.Unconfirmed | src/ParallelSigner.ts:75-103 | an attempt is returned iff its confirmation is 0, its nonce is below the bound, and no attempt at its nonce has a confirmation |
| RequestStore.AllZeroAtDecided | src/ParallelSigner.ts:86-87 | the `SUM(confirmation) = 0` group test decides `AllZeroAt` |
| RequestStore.WithTxId | src/ParallelSigner.ts:48-49 | `updateRequestBatch`: exactly the rows whose id is in `ids` take the hash; all others are unchanged |
| RequestStore.WithConfirmation | src/ParallelSigner.ts:73 | `setPackedTransactionConfirmation`: exactly the row with that id takes the new confirmation |
| RequestStore.NewRows | src/ParallelSigner.ts:38-39 | the rows `setRequests` inserts: consecutive ids from the next free one, no `txId`, as submitted |
| RequestStore.Store.SetRequests | src/ParallelSigner.ts:38-39 | appends the new rows, returns their ids in input order, keeps the attempts and the store's validity |
| RequestStore.Store.UpdateRequestBatch | src/ParallelSigner.ts:48-49 | the requests table becomes `WithTxId` of the old one; the attempts are unchanged |
| RequestStore.Store.SetPackedTransaction | src/ParallelSigner.ts:51-52 | appends exactly one attempt with the next id and the creation time; the requests are unchanged |
| RequestStore.Store.SetPackedTransactionConfirmation | src/ParallelSigner.ts:73 | the attempts become `WithConfirmation` of the old ones; the requests are unchanged |
| Fees.FinalPrice | src/ParallelSigner.ts:558-569 | the price is the proposal when the bumped price is not higher, exactly the bumped price when that lies above the proposal and within four times it, and four times the proposal above that; so it is always between the proposal and four times it |
| Fees.Bumped | src/ParallelSigner.ts:531-532 | `previous * 110 / 100` with truncating division, bounded on both sides |
| Fees.FirstAttemptFeesAsWritten | src/ParallelSigner.ts:515-527 | the first attempt's fees as written: exactly the proposed dynamic pair and no gas price when both are proposed; otherwise no dynamic field and exactly the proposed gas price, even when none was proposed |
| Fees.FirstAttemptErrorUnreachable | src/ParallelSigner.ts:521-524 | every proposal with no scheme gets, as written, fees with no field at all and no error, while the corrected rule returns the gas-price error for it |
| Fees.FirstAttemptFees | src/ParallelSigner.ts:515-527 | corrected first attempt: an error iff the proposal has no scheme; otherwise it agrees with the as-written branch and carries exactly one scheme |
| Fees.RepackFees | src/ParallelSigner.ts:529-556 | a replacement fails, with the gas-price error, iff the proposal has no scheme; a dynamic proposal gets each of its two fields as `FinalPrice` of the proposed value against the bumped previous field and no gas price; otherwise it gets only the gas price, `FinalPrice` of the proposed one against the bumped previous gas price |
| Fees.EscalateFees | src/ParallelSigner.ts:515-556 | an error iff no scheme; otherwise exactly the proposed scheme, every field within one to four times its proposal, the proposal kept on a first attempt; on a replacement every set field equals `FinalPrice` of its proposal against the bumped previous field, so it clears the ten-percent bump iff the cap allows it |
| Fees.BuildTransactionRequest | src/ParallelSigner.ts:486-557 | the built request copies `to`, `data`, `value`, `gasLimit`, the nonce and the chain id, with the fees `EscalateFees` decides; an error iff no scheme |
| Fees.GasWithMargin | src/ParallelSigner.ts:438 | the gas limit widened by 1.5 in BigInt arithmetic, never below the input |
| Selection.RequestsFromPrefix | src/ParallelSigner.ts:409-413 | a smaller limit selects a prefix of a larger limit's selection, and the same selection when it comes back short |
| Selection.IdsPrefix | src/ParallelSigner.ts:442-447 | the ids of a prefix are a prefix of the ids |
| Selection.RepackCarriesPrevious | src/ParallelSigner.ts:409-413 | repacking from `min(requestIds) - 1` re-selects the previous attempt's requests first, in order |
| Selection.FeeBumpKeepsSet | src/ParallelSigner.ts:328-352 | a repack with no new data selects exactly the previous attempt's requests, so it is a pure fee bump |
| Selection.SelectionStopsAtMax | src/ParallelSigner.ts:409-413 | a selection with increasing ids that starts with `ids` and holds nothing above their maximum is no longer than `ids` |
| Selection.SkipKeepsNoLanding | src/ParallelSigner.ts:377-380 | skipping an attempt at or above the ledger nonce keeps "nothing landed from the cursor up" |
| Selection.ScanKeepsNoLanding | src/ParallelSigner.ts:388-401 | a sibling scan with no receipt that lowers the cursor to a sibling id keeps that invariant |
| Selection.FoundIsNewest | src/ParallelSigner.ts:394-399 | a receipt found while that invariant holds is the newest landing below the ledger nonce |
| Selection.ExhaustedMeansNone | src/ParallelSigner.ts:372-375 | a walk that runs out of attempts found no landing below the ledger nonce |
| Selection.SiblingIdsPositive | src/ParallelSigner.ts:382-390 | siblings fetched from a valid table have positive ids |
| Selection.FoundFloor | src/ParallelSigner.ts:394-404 | the first sibling with a receipt, in table order, yields a floor taken from that landed attempt (`FloorFromFirstLanded`), the newest landing when nonces are monotone |
| Selection.ScanFloor | src/ParallelSigner.ts:388-405 | a scan with no receipt lowers the cursor strictly and keeps the invariant |
| Selection.SameSelection | src/ParallelSigner.ts:409-413 | thresholds that admit the same rows select the same rows |
| Selection.StartAtFirst | src/ParallelSigner.ts:409-413 | re-selecting from the first selected id gives the same selection |
| Selection.MinIsFirst | src/ParallelSigner.ts:334 | in a list with increasing ids, `Math.min` of the ids is the first id |
| Selection.NewBatchContiguous | src/ParallelSigner.ts:409-413 | a fresh selection's ids are exactly the first `|ids|` requests from its lowest id on |
| Selection.SelectionAppend | src/ParallelSigner.ts:38-46 | rows appended behind the table do not change a selection that already came back full |
| Selection.SelectionSameIds | src/ParallelSigner.ts:41-49 | two tables with the same id in every row select rows with the same ids, so setting `txId` does not change what a selection's ids are |
| Selection.AppendKeepsContiguous | src/ParallelSigner.ts:38-39 | `setRequests` keeps every recorded attempt a contiguous run of the requests table |
| Selection.SameIdsKeepContiguous | src/ParallelSigner.ts:48-49 | rewriting rows without touching their ids, and attempts without touching their request lists, keeps every attempt contiguous |
| Reconcile.ReceiptOutcome | src/ParallelSigner.ts:570-605 | `checkRecipt` stops the scan iff a receipt exists; the cursor becomes 0 exactly when the receipt is final and is otherwise unchanged |
| Reconcile.FirstVerdict | src/ParallelSigner.ts:616-626 | the scan finds nothing iff every sibling is below the threshold and has no receipt; `AlreadyFinal` names a sibling at the threshold; `Found` names a landed sibling below it, with its depth |
| Reconcile.VerdictAt | src/ParallelSigner.ts:616-626 | at a position, a sibling at the threshold decides `AlreadyFinal`, a landed one below it decides `Found`, and any other is passed over |
| Reconcile.Cursor | src/ParallelSigner.ts:606-628 | `checkConfirmations`' result is 0 or a sibling id, and is at most every sibling id |
| Reconcile.CursorStopsIff | src/ParallelSigner.ts:606-628 | with positive ids the result is 0 iff there are no siblings or the verdict finalizes, so the walk stops exactly then |
| Reconcile.JustifiedRefl | src/ParallelSigner.ts:637-705 | no write is a justified change |
| Reconcile.JustifiedKeepsShapes | src/ParallelSigner.ts:589-599 | justified writes change no attempt except its confirmation, and no request id |
| Reconcile.JustifiedTrans | src/ParallelSigner.ts:659-693 | a run of justified writes is justified against the starting tables |
| Reconcile.AfterReceiptJustified | src/ParallelSigner.ts:587-600 | one `checkRecipt` write on a row of a valid table is justified: requests take only the hash of a final attempt that carries them, and the attempt records its own depth |
| Reconcile.JustifiedKeepsValid | src/ParallelSigner.ts:587-600 | justified writes keep the store's id invariants |
| Reconcile.VerdictJustified | src/ParallelSigner.ts:606-628 | the writes of one `checkConfirmations` are justified |
| Reconcile.ReceiptKeepsJustified | src/ParallelSigner.ts:684-693 | a `checkRecipt` on an attempt of the starting table extends a justified run |
| Reconcile.VerdictKeepsJustified | src/ParallelSigner.ts:659-676 | a `checkConfirmations` call extends a justified run |
| Reconcile.JustifiedRowsFromStart | src/ParallelSigner.ts:678-682 | any attempt read after justified writes is, up to its confirmation, a row of the starting table |
| Reconcile.JustifiedKeepsBatches | src/ParallelSigner.ts:587-599 | reconciliation writes keep every attempt contiguous in the requests table and within the batch limit |
| Reconcile.UnconfirmedFromStart | src/ParallelSigner.ts:678-682 | every attempt re-checked after the walk has confirmation 0 and is, up to its confirmation, a row of the starting table |
| Reconcile.NonFinalizingWritesNothing | src/ParallelSigner.ts:616-626 | a scan whose verdict does not finalize leaves both tables as they were |
| Reconcile.FinalizingVerdictMarks | src/ParallelSigner.ts:587-599 | a final receipt found in a scan gives every request of that attempt the attempt's hash and records the depth on the attempt's row |
| Reconcile.AfterReceipts | src/ParallelSigner.ts:684-693 | the probes of the closing loop keep both tables' lengths and every request id |
| Reconcile.AfterReceiptsMarks | src/ParallelSigner.ts:684-693 | after the closing loop, a request carried by some probed attempt with a final receipt holds the hash of such an attempt |
| Reconcile.SkipKeepsNothingFinal | src/ParallelSigner.ts:669-672 | skipping an attempt at or above the ledger nonce keeps "no final nonce between the cursor and the start" |
| Reconcile.ScanKeepsNothingFinal | src/ParallelSigner.ts:674-675 | with monotone nonces, moving the cursor past a nonce that does not finalize keeps that invariant |
| Reconcile.StopIsNewestFinal | src/ParallelSigner.ts:659-676 | with monotone nonces, no nonce between the one the walk stops at and the ledger's finalizes |
| Reconcile.WalkVisit | src/ParallelSigner.ts:674 | each visit lowers the cursor strictly, to 0 exactly when the verdict at that nonce finalizes |
| Reconcile.WalkPass | src/ParallelSigner.ts:674-675 | a visit whose verdict does not finalize writes nothing and moves the invariant down to the new cursor |
| Reconcile.WalkStop | src/ParallelSigner.ts:674-676 | a visit whose verdict finalizes writes only justified changes, and the walk ends there as `WalkEnded` says: with monotone nonces no newer nonce up to the start finalizes |
| Reconcile.WalkExhausted | src/ParallelSigner.ts:665-668 | a walk that runs out of attempts met no final nonce among the attempts up to its start |
| Reconcile.LowestBelow | src/ParallelSigner.ts:659-676 | the attempt with the lowest id in a range whose nonce is below the ledger's, at most every such id; `None` exactly when every attempt in the range is at or above the ledger nonce |
| Reconcile.SkipKeepsLowest | src/ParallelSigner.ts:669-672 | skipping an attempt at or above the ledger nonce leaves the lowest attempt below it, between the cursor and the start, unchanged |
| Reconcile.PassSetsLowest | src/ParallelSigner.ts:674-675 | after a visit whose verdict does not finalize, the lowest attempt below the ledger nonce from the new cursor up is at the nonce just checked, so `lastCheckedNonce` is its nonce |
| Reconcile.ExhaustedKeepsLowest | src/ParallelSigner.ts:659-668 | a walk that runs out of attempts ends, as `WalkEnded` says, at the nonce of the lowest-id attempt up to the start below the ledger nonce, or at the start's nonce when there is none |
| Reconcile.WalkStart | src/ParallelSigner.ts:642-654 | the walk starts from the latest attempt at the nonce below the ledger's, else from the latest attempt of all; there is one iff the table is non-empty |
| Signer.ResolveOptions | src/ParallelSigner.ts:139-150 | a missing or zero `layer1ChainId` is refused with the chain-id error; otherwise every option left out takes its default and every given option is kept |
| Signer.DefaultsApply | src/ParallelSigner.ts:143-150 | with only a chain id: a limit of 10, no delay, a 60-second interval, a threshold of 64 |
| Signer.AssignedIds | src/ParallelSigner.ts:442-447 | an error iff some request has a missing or zero id; otherwise exactly the ids in batch order, all non-zero |
| Signer.AttemptRecord | src/ParallelSigner.ts:450-461 | the recorded row has the nonce, the hash, the ids, confirmation 0 and the fee fields of the built transaction |
| Signer.SelectedContiguous | src/ParallelSigner.ts:409-413 | a non-empty batch the selector returns carries exactly the first `|batch|` requests from its lowest id on |
| Signer.SameNonceRepack | src/ParallelSigner.ts:318-352 | with the latest attempt at the ledger nonce: on new data its requests are re-selected first, in order; after a timeout with no new data exactly its requests again; otherwise nothing |
| Signer.RecordKeepsBatches | src/ParallelSigner.ts:450-461 | appending one contiguous attempt within the limit keeps every attempt contiguous and within the limit |
| Signer.StoredIdsAssigned | src/ParallelSigner.ts:442-447 | requests drawn from a valid table all have assigned ids, so the id check of `sendPackedTransaction` never fails on a selected batch |
| Signer.ParallelSigner.PackedTx | src/ParallelSigner.ts:426-438 | the transaction `sendPackedTransaction` broadcasts, at the given nonce and the signer's chain id, fails iff the proposal has no fee scheme |
| Signer.ParallelSigner.SentRecord | src/ParallelSigner.ts:450-462 | the row recorded for a sent transaction: the next attempt id, its nonce and hash, the batch's ids, confirmation 0 and the creation time |
| Signer.ParallelSigner.GetRepackRequests | src/ParallelSigner.ts:310-415 | the selection of `SelectBatch`; a non-empty batch is a contiguous run of the requests table; with the latest attempt at the ledger nonce, new data keeps its requests first, a timeout with no new data re-selects exactly them, and otherwise nothing is selected |
| Signer.ParallelSigner.SelectBatch | src/ParallelSigner.ts:310-415 | the decision meets `FloorSpec`: from id 1 with no attempt; on the same nonce, a repack from the lowest id on new data or timeout, otherwise wait; once the nonce moved, a floor from a landed attempt that is the newest such when nonces are monotone. The batch is the store's selection above the floor, or empty on wait |
| Signer.ParallelSigner.SameNonceFloor | src/ParallelSigner.ts:318-352 | re-select from `min(requestIds) - 1` when newer requests arrived and the attempt has room, or else when it timed out; otherwise wait |
| Signer.ParallelSigner.Walk | src/ParallelSigner.ts:363-405 | the backward walk's floor is 0 or the highest request id of a landed attempt below the ledger nonce, the first sibling with a receipt in table order at its nonce; with monotone nonces it is the newest landing |
| Signer.ParallelSigner.ScanSiblings | src/ParallelSigner.ts:388-401 | a found sibling is the first one, in table order, with a receipt; with none found no sibling landed, and the cursor is at most every sibling id and either unchanged or a sibling id |
| Signer.ParallelSigner.SendPackedTransaction | src/ParallelSigner.ts:423-484 | empty input does nothing; a build error or an unassigned id records nothing; otherwise exactly one attempt is appended, with the escalated fees, the widened gas limit, the hash, the ids in batch order and confirmation 0 |
| Signer.ParallelSigner.RePackedTransaction | src/ParallelSigner.ts:293-309 | a call that finds the flag set does nothing; otherwise the flag is released afterwards and the batch meets the selector's promise; an empty batch sends nothing, and a non-empty one fails with the build's error exactly when `PackedTx` fails, and otherwise sends `PackedTx` and appends exactly its `SentRecord`, a contiguous row; with the latest attempt at the ledger nonce, new data keeps its requests first and a timeout with no new data re-sends exactly them |
| Signer.ParallelSigner.RepackCycle | src/ParallelSigner.ts:297-300 | the cycle under the flag: never `Busy`, with the same promises on the batch, the outcome (`Failed` exactly on a build error of a non-empty batch) and the new attempt |
| Signer.ParallelSigner.SubmitBatch | src/ParallelSigner.ts:300 | `sendPackedTransaction` on a selected batch keeps every attempt contiguous and within the limit; an empty batch records nothing; a non-empty one returns the build's error and records nothing when `PackedTx` fails, and otherwise returns `PackedTx` and appends exactly its `SentRecord` (the id check cannot fail on it) |
| Signer.ParallelSigner.SendTransactions | src/ParallelSigner.ts:256-290 | an empty submission does nothing; otherwise the rows are stored with consecutive new ids, returned in order, and a repack runs iff there is no packing delay; that repack is `Busy` iff the flag was held, and otherwise selects from the tables after the insert; a non-empty batch then fails exactly on a build error, and otherwise sends `PackedTx` and records exactly its `SentRecord`, a contiguous row |
| Signer.ParallelSigner.CheckReceipt | src/ParallelSigner.ts:570-605 | the outcome is `ReceiptOutcome`; the tables change only on a final receipt, as `AfterReceipt` says |
| Signer.ParallelSigner.CheckConfirmations | src/ParallelSigner.ts:606-628 | the result is `Cursor` of the siblings and the tables change only as the first verdict of the scan says |
| Signer.ParallelSigner.CheckPackedTransaction | src/ParallelSigner.ts:637-705 | ledger nonce 0 or no attempt does nothing; otherwise the walk starts at `WalkStart` and ends as `WalkEnded` says (after running out, the last checked nonce is that of the lowest-id attempt up to the start below the ledger nonce, else the start's); the rechecked attempts are exactly `Unconfirmed` of the tables after the walk at the last checked nonce, and the final tables are those probes applied to them; every write is justified; the anomaly is reported iff some attempts were rechecked and none landed |
| Signer.ParallelSigner.WalkConfirmations | src/ParallelSigner.ts:656-676 | the walk either runs out of attempts and writes nothing, ending at the nonce of the lowest-id attempt up to the start below the ledger nonce (the start's when there is none), or stops at a nonce below the ledger's whose verdict finalizes and writes exactly that verdict; with monotone nonces no newer nonce up to the start finalizes, and none at all when it ran out |
| Signer.ParallelSigner.ReconcileFrom | src/ParallelSigner.ts:656-693 | from a given start: the walk's promises, then the probes of `Unconfirmed` at the last checked nonce applied in order, all justified, with the anomaly reported iff some were probed and none landed |
| Signer.ParallelSigner.Recheck | src/ParallelSigner.ts:683-693 | the tables become the writes of `checkRecipt` on each probed attempt in order (`AfterReceipts`), all justified, and the result is true iff some probed attempt had a receipt |
| Timer.TimeoutMs | src/timer.ts:9-17 | the table's seconds for a listed chain, otherwise 60, in milliseconds |
| Timer.TimeoutTable.GetTimeout | src/timer.ts:9-17 | `getTimeout` on the current table |
| Timer.TimeoutTable.SetTimeoutConfig | src/timer.ts:19-21 | one chain's entry is overwritten; every other chain's timeout is unchanged |
| Confirmation.GetConfirmation | src/confirmation.ts:15-20 | 60 on chains 1 and 4, 200 on any other or an undefined chain |
| Confirmation.ConfirmationConfig.GetTimeout | src/confirmation.ts:23-31 | the module's own timeout table, looked up with the 60-second default |
| Confirmation.ConfirmationConfig.SetTimeoutConfig | src/confirmation.ts:33-35 | one entry of that table is overwritten; every other chain's timeout is unchanged |

## Left out

- Signing, `keccak256` and broadcast (lines 440-441, 479-483) are not modelled. The hash is the parameter `txHashOf`, and a rejected broadcast has no effect on the store, as in the source.
- The wallet's `populateTransaction` (line 432) is treated as the identity. It fills in defaults and can throw; neither is modelled.
- The `populateFun` callback is a total function. A callback that throws, or resolves asynchronously, is not modelled.
- Receipts and the ledger nonce are a snapshot passed into each cycle. The model does not capture the ledger changing during a cycle, or concurrent cycles other than through the `repacking` flag.
- `init`, `clearTimeHandler`, the interval timers (lines 212-243) and `__rePack`/`__checkPackedTx` are not modelled. They only schedule the two cycles.
- The loggers, `printLayer1ChainId`, the `checkConfirmation` callback (lines 576-585) and `mockProvider` (lines 159-197) are not modelled. They have no effect on the store.
- Each table row's `chainId` column is not modelled: the store serves one chain, the signer's own.
- The `requestStore === undefined` check (lines 152-154) is not modelled: a Dafny `Store` reference cannot be undefined.
- The signer's `__setTimeout` (lines 253-255) just calls `Timer.TimeoutTable.SetTimeoutConfig`, so it has no separate member.
- `sendTransactions` returns `undefined` for an empty submission. The model returns the empty list.
- Request ids are assumed to be present and positive. The store assigns them this way, and `RequestStore.RequestsValid` and `RequestStore.AttemptsValid` hold them as invariants.
- RequestStore.Store.SetPackedTransaction: requires a non-empty list of positive request ids. The interface does not demand this, but the signer only records batches that meet it.
- Signer.ParallelSigner.SendPackedTransaction: requires request ids to be non-negative when present. The source accepts any list, but its only caller passes a selection from the store.
- The walk's start `latestPackedTx.id ? id + 1 : 0` (lines 364-366) is modelled as `id + 1`, because store-assigned ids are positive.
- Signer.ParallelSigner.GetRepackRequests: the floor is proved to be the *newest* landed attempt below the ledger nonce only when nonces never decrease with ids (`Selection.NoncesMonotone`). Without that, the model proves only that the floor comes from some landed attempt. The same holds for `Signer.ParallelSigner.SelectBatch` and `Signer.ParallelSigner.Walk`.
- Signer.ParallelSigner.WalkConfirmations: that no nonce newer than the one the walk stops at finalizes, and that none finalizes when it runs out, is proved only under `Selection.NoncesMonotone`; without it the model does not say which final nonce the walk stops at. The same holds for `Signer.ParallelSigner.ReconcileFrom` and `Signer.ParallelSigner.CheckPackedTransaction`.
- Signer.ParallelSigner.SelectBatch: `FloorSpec` says the floor comes from a landed attempt; that this attempt is the first sibling with a receipt, in table order, at its nonce is stated by `Signer.ParallelSigner.Walk` (`Selection.FloorFromFirstLanded`) and not carried into `FloorSpec`. The same holds for `Signer.ParallelSigner.GetRepackRequests`.
- `Signer.ParallelSigner.Walk`, `ScanSiblings`, `SameNonceFloor`, `SelectBatch`, `RepackCycle`, `SubmitBatch`, `WalkConfirmations`, `ReconcileFrom` and `Recheck` are loops and branches that the source writes inline. They are split out as methods with the same behaviour.
- The fee-scheme errors are one error value, `GasPriceError`. The text of each thrown `Error` is not modelled.
- Stored fee fields are strings in the source. An empty string, meaning absent, reads as 0 through `BigInt("")`. The model uses `Option<nat>` and reads `None` as 0.
- Fees.EscalateFees: a first attempt whose proposal has no fee field is refused with `GasPriceError`, the corrected rule `Fees.FirstAttemptFees`. As written (line 521), the source builds it with no fee at all; `Fees.FirstAttemptFeesAsWritten` models that.
- Fees.BuildTransactionRequest: for the same proposal it returns `GasPriceError`, where the source as written builds a request with no fee field.
- Signer.ParallelSigner.SendPackedTransaction: for the same proposal it records nothing and reports `GasPriceError`, where the source as written records and broadcasts an attempt with no fee field.
- Signer.ParallelSigner.Valid: every cycle requires it, and every cycle keeps it. It says the store's id invariants hold, and every recorded attempt is a contiguous run of at most `requestCountLimit` requests. The constructor takes the store as given and does not establish it, because attempts recorded before the signer existed are outside the model.

## Findings

| source | as written | input that shows it | evidently intended | confidence | as-written member | corrected member |
|---|---|---|---|---|---|---|
| src/ParallelSigner.ts:521 | `else if (notNil(gasPrice) != null)` compares a boolean with `null`, so it is always true and the "gas price error" branch at line 524 is unreachable | a first attempt at a nonce whose `populateFun` result has no `maxFeePerGas`, no `maxPriorityFeePerGas` and no `gasPrice`: the transaction is built with no fee field at all instead of failing | `else if (notNil(gasPrice))`, as on line 547: a proposal with neither scheme is the "gas price error" | not executed | Fees.FirstAttemptFeesAsWritten, Fees.FirstAttemptErrorUnreachable | Fees.FirstAttemptFees |
