# Avail Rust client: verified model

A Dafny model of the parts of the Avail Rust client that hold state or do arithmetic, with proofs of
what they promise: block subscriptions and their adapters, receipt search, block states, storage keys
and paged storage iteration, the extrinsic and batch codec, mortality, the bytes a wallet signs, and the
payload recovery map.

`dafny verify dfyconfig.toml` checks everything.

## How it is organised

| file | what it models |
|---|---|
| `Prelude.dfy`, `Rpc.dfy` | integer widths, options and results; the node as an environment |
| `Subscription.dfy`, `SubscriptionRuns.dfy` | `Sub` with its finalised and best-block cursors; properties of whole runs |
| `Adapters.dfy`, `TypedExtrinsics.dfy` | the extrinsic, event, header and legacy-block subscriptions; which listed extrinsics can be read |
| `Receipts.dfy`, `ReceiptWindow.dfy` | range scan, nonce search, and how the search window relates to mortality |
| `BlockState.dfy` | `block_state` |
| `StorageKeys.dfy`, `StorageIterator.dfy`, `StorageMaps.dfy` | hashers, storage keys, the paged iterators, and both together |
| `Scale.dfy`, `Extrinsics.dfy`, `Calls.dfy` | SCALE building blocks, the extrinsic envelope, runtime calls and batches |
| `WireLayout.dfy`, `CallLayout.dfy` | where every byte of an extrinsic, a call and a multisig stands, written out on its own |
| `Mortality.dfy` | eras, birth blocks, and the era's wire form |
| `Hex.dfy`, `SigningData.dfy` | hexadecimal text; the payload's signing bytes and the wallet's re-encoding of them |
| `Base58.dfy`, `RecoveryMap.dfy`, `Custody.dfy` | base-58 decoding; lookup ranges, grid, custody slots, cells, and the whole mapping |

Objects the client updates in place (`Sub`, its two cursors, the adapters, the iterator, `Batch`, a
codec input) are classes. Their methods are specified by relations on an abstract state (`NextStep`,
`BestStep`, `SkipStep`, `IterStep`), and the results about whole runs are lemmas about every sequence of
such steps. Codecs, era arithmetic and storage keys are functions, as they are expressions in the
source.

## The environment

A node is a finite `run` of moments. Each RPC consumes one moment: it is answered from the finalised and
best chain of that moment, or fails if the moment is not up. So the chain may grow and the best chain may
reorganise between any two calls, any call may fail, and after the run every call fails. Retries of one
RPC are part of whether it was answered.

Progress is stated on the same run. `Asked` says of a call that every RPC it made was answered but
perhaps the last, and that it fails exactly when that one was not; `Pending` and `Idle` say that it waited
only while the block it wanted was not there. Together they bound the RPCs a call makes once its block is
available (`CursorPace`, `TipPace`, `SkipPace`, `Paced`), so a client that polled without delivering would
not meet its contract.

What is assumed, and where:

- `Sane`: chains are not empty and a height plus one fits 32 bits.
- `AppendOnly`: finalisation only appends and the best chain extends the finalised one. Best-block
  subscriptions used on their own do not assume it; `Sub` does.
- `Sound`, for the three RPCs of one `block_state` call: the same between them, and no hash twice on the best
  chain. `KeepsFinalized`: the node has the height of every finalised block on record. `Still`, only for the
  two rows that say so: nothing changed between the RPCs and every best block is on record.
  `RecordsAgree`, only for the row on discarded blocks: a hash is finalised at no height but its recorded one.
- `ForkFree`: only for comparing the two cursors, and for saying that a best-block error is a failed RPC.
- `HashFixesHeight`: only for "no block is delivered twice".
- What a node holds about a block (extrinsics, events, nonces) is a map from block hash. The items a filter lists
  need not decode: a block that holds one that does not is unreadable, and its call fails.
- `CountsOrReaped` and `Names`: only for the step from "the nonce moved" to "the transaction is included". The state
  nonce counts the account's transactions of a block on top of the nonce before it, or is 0 because the account
  was reaped by the end of that block (not in the middle of it); a hash is of one account and nonce. `UsedOnce`,
  that the nonce is not used again after a reaping, is implied for an account that is never reaped.
- Hash functions are uninterpreted apart from their output lengths; collisions are allowed. Key codecs are
  any codec that reads back what it wrote, whatever follows.
- Storage is a fixed snapshot: sorted keys, each with a value.

Integer widths are explicit. Where arithmetic can leave its range the model takes the release build's
behaviour: a batch length wraps at 2^32, `next_power_of_two` wraps to 0 past 2^31, the extrinsic length
prefix and the mortality period are cut to 32 bits.

## Where the code departs from its documentation

The model follows the code.

- A failed `prev` has already moved the cursor (`client/src/subscription/sub.rs:281-287`, `:394-396`),
  although `:78-80` says it has not. It holds only for a fresh cursor at genesis (`FailedPrevKeepsPlaceIff`,
  `FailedBestPrevKeepsPlaceIff`), and a repeated `prev` asks for the same block only when that is the genesis
  block (`RetriedPrevIsSameIff`, `RetriedBestPrevIsSameIff`). `FailedPrevsKeepMoving` and
  `FailedBestPrevsKeepMoving` say how far repeated failures move the cursor. On `LegacyBlockSub` and
  `BlockHeaderSub` too it is `next` that retries a failed `prev`.
- `from_hash` advances its slice only for Identity (`core/src/substrate/storage.rs:51`, `:57`), so the
  double-map decoder (`:302-303`) reads the second key at the wrong place: `ShippedDecoderReads` says
  where, `ShippedDecoderRightIff` when it is right all the same, `SameHasherReturnsFirstKeyTwice` and
  `EraValidatorKeyReads` what comes out. A hashed key with no bytes of its own cannot be read back at all.
- `RuntimeCall::encode` writes no header (`core/src/types/pallets.rs:74-139`), and `AsMulti::decode` relies
  on it (`:2546-2554`), after reading past a call that may have swallowed what follows it:
  `MultisigCallIsNeverRecovered`. Everywhere else the encoder used is `to_call`.
- `RefinedMortality.period` keeps the unrounded period (`client/src/transaction_options.rs:209`), so a receipt
  search can stop before the transaction expires: `SearchCoversValidityIff` says exactly when,
  `PeriodOf33IsNotCovered` gives a case.
- `from_range` names a block by hash and reads it by height (`client/src/submission/submitted.rs:190-192`). Following
  best blocks, a fork switch in between gives a receipt for a block that does not hold the transaction:
  `ReadsNamedBlockIff`, `BestReceiptMayNameAnotherBlock`. Finalised blocks cannot be switched.
- `computed_grid_rows` is one row count short when a saturated sum meets a power of two, and wraps for
  more than 2^31 rows of one column: `GridRowsLeastIff`, with a case of each in `GridRowsFallShort`. The band
  count saturates too: `VirtualRowBoundIff`, `WidestGridLeavesBands`. Slots stay distinct all the same.
- `json_numeric_hex_*` accepts upper-case digits and a leading `+` in place of a digit:
  `ParsedTextIsPrintedIff`, with a case of each in `OtherSpellingsAreAccepted`.
- `Discarded` is final exactly when the block's height was finalised already: `DiscardedIsForeverIff`, with a
  case in `DiscardedCanComeBack`.
- A block with a listed extrinsic that does not decode makes `ExtrinsicSub` and `EncodedExtrinsicSub` rewind
  (`client/src/subscription/extrinsic.rs:141-148`) and fail on every retry: `UnreadableBlockIsNeverPassed`. A filter that
  lists calls of another type does it, and so does a multisig around a batch: `ReadableIffAllOfType`,
  `MultisigReadableIff`. In a double map an entry the shipped decoder cannot read holds the iterator up the same
  way: `DoubleMapIterationYields`.

## Model

| member | source | states |
|---|---|---|
| Subscription.FinalizedBlockSub.Next | client/src/subscription/sub.rs:262-274 | Delivers the finalised block at the cursor, already finalised by then, and moves past it, within three RPCs of its being finalised; fails exactly when its last RPC did, and then the cursor stays |
| Subscription.FinalizedBlockSub.Prev | client/src/subscription/sub.rs:280-288 | Steps back one block, two if one was just delivered, stopping at genesis, at the same pace; on failure the cursor is left on the block it wanted |
| Subscription.FinalizedBlockSub.FetchLatestFinalizedHeight | client/src/subscription/sub.rs:291-300 | Asks once, caches the height of the finalised head then, and from then on answers that without asking |
| Subscription.FinalizedBlockSub.RunHistorical | client/src/subscription/sub.rs:303-314 | Below the cached height one by-height lookup on the best chain gives the finalised block, unless it is not answered |
| Subscription.FinalizedBlockSub.RunHead | client/src/subscription/sub.rs:318-343 | Polls only while the finalised head is below the cursor; then delivers the block there with at most one more RPC, or fails if an RPC does |
| Subscription.BestBlockSub.Next | client/src/subscription/sub.rs:365-387 | Under any reorganisation the height stays or goes up by one, a block at the same height is a new one, and the processed list is kept in step; it waits only while the head is below the cursor or delivered already; it fails on a failed RPC or a chain that receded, and changes nothing |
| Subscription.BestBlockSub.Prev | client/src/subscription/sub.rs:393-397 | Drops one height and the processed list, then behaves as `Next` from there, also when it fails |
| Subscription.BestBlockSub.RunHead | client/src/subscription/sub.rs:431-474 | Polls only while the best head is below the cursor or already delivered; then delivers a block of the best chain not yet delivered, at the cursor or just above, with at most one more RPC |
| Subscription.Sub.Build | client/src/subscription/sub.rs:211-240 | The chosen kind starts at the set height, or at the head of its own chain when none was set; a failed lookup leaves the subscription unopened |
| Subscription.Sub.Next | client/src/subscription/sub.rs:60-71 | One step of whichever cursor the subscription is, or becomes on this call |
| Subscription.Sub.Prev | client/src/subscription/sub.rs:81-92 | The same one step back |
| Subscription.Sub.SetBlockHeight | client/src/subscription/sub.rs:125-137 | Jumps to the height with nothing delivered there, whatever the kind |
| Subscription.Sub.UseBestBlock | client/src/subscription/sub.rs:114-118 | Has an effect only before the subscription is opened |
| SubscriptionRuns.GapFreeStep | client/src/subscription/sub.rs:365-387 | Each delivered block keeps the invariant: no gap, no repeat, processed list equal to the hashes delivered at the current height |
| SubscriptionRuns.BestRunIsGapFree | client/src/subscription/sub.rs:365-387 | After any number of `next` calls against a reorganising, failing node: heights start at the cursor and never skip, no block is delivered twice, the processed list is exactly what was delivered at its height |
| SubscriptionRuns.TipEventIsCursorEvent | client/src/subscription/sub.rs:365-397 | On a fork-free chain every call on the best-block cursor is that call on the abstract cursor |
| SubscriptionRuns.SubscriptionsAgree | client/src/subscription/sub.rs:262-288 | On a fork-free chain the finalised and the best-block subscription give equal answers for every sequence of next, prev, jumps and failures |
| SubscriptionRuns.FailedPrevsKeepMoving | client/src/subscription/sub.rs:280-288 | After k failed `prev` calls the next block delivered is k heights back, one more if a block had been delivered |
| SubscriptionRuns.FailedBestPrevsKeepMoving | client/src/subscription/sub.rs:393-397 | For best blocks, under any reorganisation, k heights back |
| SubscriptionRuns.FailedPrevKeepsPlaceIff | client/src/subscription/sub.rs:78-80 | The documented "left at the same position" holds exactly for a fresh cursor at genesis |
| SubscriptionRuns.FailedBestPrevKeepsPlaceIff | client/src/subscription/sub.rs:78-80 | The same for best blocks |
| SubscriptionRuns.RetriedPrevIsSameIff | client/src/subscription/sub.rs:78-80 | The documented retry gives the block first wanted exactly when that is the genesis block |
| SubscriptionRuns.RetriedBestPrevIsSameIff | client/src/subscription/sub.rs:78-80 | The same for best blocks |
| SubscriptionRuns.ReachedHeightIsDelivered | client/src/subscription/sub.rs:318-343 | Once the finalised chain reaches the cursor and the next three RPCs are answered, the call has delivered the block |
| SubscriptionRuns.NewHeadEndsWait | client/src/subscription/sub.rs:431-474 | Once the best head is one not delivered yet, the call is over within two answered RPCs, and fails only if the chain receded |
| Adapters.MatchSub.Next | client/src/subscription/extrinsic.rs:135-160 | In either mode: block after block that can be read and has no matches, then one with, or one whose RPC or reading fails. In finalised mode: the first block at or after the cursor with matches, finalised by then; nothing unreadable and nothing with matches is passed over; at most four RPCs a height once it is finalised |
| Adapters.MatchSub.NextStep | client/src/subscription/extrinsic.rs:262-282 | One step of the subscription and one RPC about its block, matching or not; answered exactly when the RPC is and the block can be read, else the subscription is back on the block |
| Adapters.MatchSub.AllOrRewind | client/src/subscription/extrinsic.rs:262-275 | All the block's listed items decoded in order; a failed RPC or one item that does not decode rewinds the cursor to the block |
| Adapters.ReadIff | client/src/block/extrinsic.rs:122-132 | A block can be read exactly when each of its listed items can, and then item by item |
| Adapters.FetchSub.Next | client/src/subscription/block.rs:41-61 | What the block at the cursor holds, or an error that leaves the cursor on it |
| Adapters.FetchSub.Prev | client/src/subscription/block.rs:391-410 | What the block before holds, or an error that leaves the cursor on that block |
| Adapters.FetchSubDeliversEveryBlock | client/src/subscription/block.rs:367-386 | Whatever fails, successive calls deliver what the blocks from the start on hold, each in turn and none twice |
| Adapters.NextRetriesPrev | client/src/subscription/block.rs:72-92 | After a failed `prev`, `next` delivers what the block it wanted holds |
| Adapters.ReachedBlockIsFetched | client/src/subscription/block.rs:41-92 | Once the block wanted is finalised and four RPCs are answered it is delivered |
| Adapters.MatchSubDeliversEveryMatch | client/src/subscription/extrinsic.rs:238-247 | For every schedule of failures and head growth, from a set height or from the first head seen, the successful answers are exactly the blocks with matches from the start height to the cursor, in order, each once, each finalised when delivered |
| Adapters.FinalizedMatchIsDelivered | client/src/subscription/extrinsic.rs:135-160 | A block with matches and no unreadable block before it: once it is finalised and the RPCs it takes are answered, the call has delivered it or one before it |
| Adapters.DeliversIffDeliverable | client/src/subscription/extrinsic.rs:135-160 | Once the blocks up to a height are finalised and the RPCs answered, a call delivers one of them exactly when one has matches and no unreadable block before it |
| Adapters.UnreadableBlockIsNeverPassed | client/src/subscription/extrinsic.rs:141-148 | From a cursor at or below an unreadable block no sequence of calls passes it, and only blocks below it are delivered |
| TypedExtrinsics.TypedIff | client/src/block/extrinsic.rs:304-319 | A listed extrinsic is read as a call type exactly when it is of that type, and comes back itself |
| TypedExtrinsics.ReadableIffAllOfType | client/src/block/extrinsic.rs:122-132 | A typed subscription reads a block exactly when everything its filter lists there is of its call type, and then reads exactly that |
| TypedExtrinsics.MultisigReadableIff | core/src/types/pallets.rs:2541-2557 | A multisig is read exactly when its inner call has a body of two bytes and is no batch or proxy, and never as the one sent |
| Adapters.TurnsSkip | client/src/subscription/block.rs:267-275 | In finalised mode such a sequence of steps is a skip to the first block with matches |
| Adapters.MatchingEntry | client/src/subscription/block.rs:267-275 | Every block in that list is of the range, has matches, carries its own items, and is above the one before |
| Adapters.MatchingIsComplete | client/src/subscription/extrinsic.rs:135-160 | Every block of the range with matches is in that list |
| Receipts.FirstWith | client/src/submission/submitted.rs:195-206 | The first extrinsic of the block with the hash, or none has it |
| Receipts.FromRange | client/src/submission/submitted.rs:174-212 | In finalised mode: the least height of the range whose block holds the hash, None exactly when none does; at most end - start + 1 blocks inspected, each in four RPCs once finalised; Ok whenever the range is finalised and the RPCs are answered. In either mode: one look after the other, each below the end and without the hash, until one settles it. Refuses an empty range |
| Receipts.ScannedIsLowest | client/src/submission/submitted.rs:186-211 | The scan returns exactly the receipt of the first extrinsic with the hash in the lowest block of the range that lists one |
| Receipts.ScanRunReads | client/src/submission/submitted.rs:190-206 | In either mode a receipt is for an extrinsic with the hash in a block the best chain had at its height |
| Receipts.AvailableReceiptIsFound | client/src/submission/submitted.rs:190-206 | A transaction in the range is found once its own block is finalised, whether or not the rest of the range is |
| Receipts.ReadsNamedBlockIff | client/src/submission/submitted.rs:190-205 | The scan reads a block by height after it was named by hash: it reads the named one exactly when that still stands there |
| Receipts.BestReceiptMayNameAnotherBlock | client/src/submission/submitted.rs:190-205 | Following best blocks, a run whose receipt names a block without the transaction |
| Receipts.InspectBlock | client/src/submission/submitted.rs:190-206 | One block of the scan, and the receipt if it lists the hash |
| Receipts.FindCorrectBlockInfo | client/src/submission/submitted.rs:261-314 | In finalised mode: the least height of [birth, birth + period + 1] that settles the search, None when there is none; each height in at most five RPCs once finalised, and an error only when the last RPC failed. In either mode: one look after the other until one settles it or is past the window |
| Receipts.SettlesIff | client/src/submission/submitted.rs:294-307 | A block settles it exactly when its state nonce is above n, or is 0 or missing and an extrinsic of the block has the hash |
| Receipts.FoundIsLowest | client/src/submission/submitted.rs:261-314 | The search returns exactly the lowest such block of its window, in terms of what the node holds |
| Receipts.InspectNonce | client/src/submission/submitted.rs:292-308 | Whether the block at the cursor settles the search |
| Receipts.TransactionReceipt | client/src/submission/submitted.rs:224-249 | A receipt for the settling block if it holds the hash, None if it does not or there is none; one RPC more than the search, in either mode |
| Receipts.AvailableReceiptIsAnswered | client/src/submission/submitted.rs:224-249 | Once the settling block, or the whole window, is finalised and the RPCs are answered, the call is answered: with a receipt exactly when the settling block holds the hash |
| Receipts.NonceIncludedWhereCounted | client/src/submission/submitted.rs:261-314 | A block includes nonce n exactly when its transactions take the nonce past n |
| Receipts.SettledBlockIncludesNonce | client/src/submission/submitted.rs:261-314 | If the nonce was at most n before birth, the settling block included nonce n, whether the account was reaped there or not |
| Receipts.HoldingBlockSettles | client/src/submission/submitted.rs:299-307 | A block that holds the transaction settles the search, also when the account is reaped in it |
| Receipts.ReapedAccountIsFound | client/src/submission/submitted.rs:299-307 | An account reaped by its own transaction: the nonce never passes n and the block is found all the same |
| Receipts.ReceiptIffNotOvertaken | client/src/submission/submitted.rs:224-249 | A receipt is found exactly when a block of the window holds the transaction and no earlier one took the nonce past n |
| Receipts.ReceiptIffIncluded | client/src/submission/submitted.rs:224-249 | With the nonce used once from birth on: found if and only if the transaction is in a block of the inspected window, and it names that one block |
| Receipts.NeverReapedUsesOnce | client/src/submission/submitted.rs:292-298 | An account that is never reaped uses every nonce once |
| ReceiptWindow.SearchCoversValidityIff | client/src/submission/submitted.rs:269 | The inspected window contains the validity window exactly when rounding added at most two blocks to the period (or the heights run out) |
| ReceiptWindow.PeriodOf33IsNotCovered | client/src/transaction_options.rs:209 | A period of 33 ends the search at 34 and the validity at 63 |
| ReceiptWindow.ReceiptIffIncludedInTime | client/src/submission/submitted.rs:224-314 | For a transaction that only enters blocks of its validity window: found if and only if included at or before the last inspected height, and if and only if included at all when the window is covered |
| BlockState.FinalizedIffOnFinalizedChain | client/src/chain/chain.rs:304-343 | Whatever the best chain does between the RPCs, a hash is reported Finalized exactly when it is on the finalised chain |
| BlockState.StatesOfStillChain | client/src/chain/chain.rs:304-343 | When nothing changes between the RPCs: Included exactly on the best chain above finality, Discarded exactly for a recorded block off it at a height it reaches |
| BlockState.HashAndHeightAgree | client/src/chain/chain.rs:331-342 | Then a best block has the same state by hash and by height |
| BlockState.StateOfNumber | client/src/chain/chain.rs:331-342 | For a height: the four outcomes by the heads of the first RPC alone |
| BlockState.StateOfHash | client/src/chain/chain.rs:308-330 | For a hash: an error exactly when an RPC that is needed fails, and every outcome by what the RPCs answered |
| BlockState.FinalizedIsForever | client/src/chain/chain.rs:304-343 | Once Finalized, every later call that answers says Finalized |
| BlockState.DiscardedBelowFinalityIsForever | client/src/chain/chain.rs:326-328 | Discarded at an already finalised height is never Finalized later |
| BlockState.DiscardedIsForeverIff | client/src/chain/chain.rs:326-328 | No later call reports a discarded block Finalized exactly when its height was already finalised; otherwise some later call does |
| BlockState.DiscardedCanComeBack | client/src/chain/chain.rs:326-328 | A concrete pair of calls for the other case: Discarded, then Finalized |
| StorageKeys.MapKeyRoundTripIff | core/src/substrate/storage.rs:145-183 | A map key is read back exactly for the concatenating and Identity hashers with, for the former, a key of at least one byte |
| StorageKeys.RefusedMapKeys | core/src/substrate/storage.rs:46-62 | Keys too short for the prefix and the hash, and hashers that keep no key |
| StorageKeys.MapKeyLayout | core/src/substrate/storage.rs:25-45 | What a map key consists of for each of the seven hashers: prefix, which hash, and the key's own bytes, by position |
| StorageKeys.DoubleMapKeyLayout | core/src/substrate/storage.rs:243-263 | A double-map key is the first key's map key followed by what the second key's has after the prefix |
| StorageKeys.MapKeyInjective | core/src/substrate/storage.rs:145-153 | Different keys have different storage keys, even when their hashes collide |
| StorageKeys.DoubleMapKeyInjective | core/src/substrate/storage.rs:257-263 | The same for pairs of keys |
| StorageKeys.AdvancingDoubleMapRoundTripIff | core/src/substrate/storage.rs:293-305 | With a `from_hash` that advances, both keys come back exactly when neither is only a hash |
| StorageKeys.ShippedDecoderReads | core/src/substrate/storage.rs:293-305 | Which bytes the shipped decoder hands to the second key |
| StorageKeys.ShippedDecoderRightIff | core/src/substrate/storage.rs:293-305 | When it gives both keys back: after Identity whenever there are key bytes; after a hashed key exactly when the second key is what its decoder reads at its own hash's width into the first key's hash |
| StorageKeys.SameHasherReturnsFirstKeyTwice | core/src/substrate/storage.rs:46-62 | With one concatenating hasher and one key type it returns the first key twice, right only when they are equal |
| StorageKeys.EraValidatorKeyReads | client/examples/storage_double_map.rs:6-15 | For the era-and-validator map the account read is the era, 8 hash bytes and the account's first 20 bytes |
| StorageIterator.AfterKey | core/src/substrate/storage.rs:431-439 | Asking for the keys after the p-th of a sorted list skips exactly the first p |
| StorageIterator.PageIs | core/src/substrate/storage.rs:431-439 | Resuming after the last yielded key gives the next page, no key lost or repeated |
| StorageIterator.StorageMapIterator.FetchNewKeys | core/src/substrate/storage.rs:431-447 | The reversed buffer holds the next keys; an empty page ends iteration; a failed call changes nothing |
| StorageIterator.StorageMapIterator.Next | core/src/substrate/storage.rs:407-429 | Yields the next key's value, or None at the end and ever after, or fails without moving; at most two RPCs, none after the end |
| StorageIterator.StorageMapIterator.NextKeyValue | core/src/substrate/storage.rs:379-405 | The same with the decoded key; a key that does not decode stays where it is |
| StorageIterator.IteratorYieldsEveryKeyOnce | core/src/substrate/storage.rs:379-459 | For every mix of the two calls and every pattern of failures the i-th yielding call yields the i-th key's value, or its decoded key and value; after the first None there is only None |
| StorageIterator.ValuesComeInKeyOrder | core/src/substrate/storage.rs:379-459 | So the values come in key order, each key's once, by whichever call |
| StorageIterator.ValuesAndPairsAgree | core/src/substrate/storage.rs:379-429 | `next` and `next_key_value` give the same value at a key, as the row above asks |
| StorageIterator.UndecodableKeyIsNeverPassed | core/src/substrate/storage.rs:396-402 | Calls that decode keys never get past one that does not decode |
| StorageMaps.MapIterationYieldsEveryEntry | core/src/substrate/storage.rs:379-459 | Iterating a map whose keys can be read back yields each logical key with its value exactly once, in storage order, under every mix of calls and failures |
| StorageMaps.DoubleKeyDecoded | core/src/substrate/storage.rs:293-305 | A double-map entry decodes exactly when its second key does as the shipped decoder reads it |
| StorageMaps.DoubleMapIterationYields | core/src/substrate/storage.rs:487-544 | Iterating a double map yields the first key, each second key as the shipped decoder reads it, and the value; an entry it cannot read is never passed |
| StorageIterator.FaultFreeRunIsPlainIteration | core/src/substrate/storage.rs:379-447 | Without failures n calls yield the first n keys, then only None |
| StorageIterator.AnsweredCallSucceeds | core/src/substrate/storage.rs:379-429 | A call whose two RPCs are answered does not report a failed one |
| Scale.CompactRoundTrip | core/src/decoded_extrinsics.rs:162 | Compact integers of any width decode to themselves and leave what follows |
| Scale.CompactCanonical | core/src/decoded_extrinsics.rs:162 | Only the canonical form is accepted |
| Scale.CompactLayout | core/src/types/substrate.rs:37-42 | The four modes of a compact integer byte by byte (section A.2.2 of the Polkadot Protocol Specification) |
| Scale.LEByte | core/src/types/pallets.rs:2300-2306 | Byte i of a fixed-width integer is its i-th base-256 digit |
| Scale.BlobRoundTrip | core/src/types/pallets.rs:600-616 | Byte vectors decode to themselves and leave what follows |
| Extrinsics.AddressRoundTrip | core/src/types/substrate.rs:78-91 | Every address variant decodes to itself and leaves what follows |
| Extrinsics.AddressCanonical | core/src/types/substrate.rs:78-91 | Accepted bytes are the encoding of the address read |
| Extrinsics.ExtraRoundTrip | core/src/types/substrate.rs:34-43 | Era, nonce, tip and app id decode to themselves and leave what follows |
| Extrinsics.SignatureRoundTrip | core/src/types/substrate.rs:51-65 | The signed part decodes to itself and leaves what follows |
| Extrinsics.SignatureCanonical | core/src/types/substrate.rs:58-65 | Accepted bytes are the encoding of the signed part read |
| WireLayout.EncodedIsLaidOut | core/src/decoded_extrinsics.rs:189-207 | Every byte of an encoded extrinsic: length, 0x84 or 0x04, address and signature with their tags and widths, era, nonce, tip, app id, call |
| WireLayout.AcceptedIsLaidOut | core/src/decoded_extrinsics.rs:157-187 | The same layout of everything the decoder accepts |
| WireLayout.GenericIsLaidOut | core/src/substrate/extrinsic.rs:188-205 | And of generic extrinsics, whose call begins with pallet and variant id |
| WireLayout.AddressIsLaidOut | core/src/types/substrate.rs:78-91 | Tags 0 to 4 and the body of every address variant |
| WireLayout.SignatureIsLaidOut | core/src/types/substrate.rs:67-76 | Tags 0, 1 and 2 with 64, 64 and 65 bytes for Ed25519, Sr25519 and Ecdsa |
| WireLayout.ExtraIsLaidOut | core/src/types/substrate.rs:34-43 | Era, nonce, tip and app id at their positions |
| Extrinsics.ExtrinsicRoundTripIff | core/src/decoded_extrinsics.rs:157-207 | Decoding gives back what was encoded exactly when the inner length is below 2^32 |
| Extrinsics.AcceptedIsEncoding | core/src/decoded_extrinsics.rs:157-187 | Every accepted byte string is the encoding of the value it is accepted as |
| Extrinsics.TruncatedOrExtendedIsRejected | core/src/decoded_extrinsics.rs:176-183 | No accepted byte string is a proper prefix of another |
| Extrinsics.GenericDecodesBothWaysIff | core/src/substrate/extrinsic.rs:188-205 | A generic extrinsic's encoding decodes, by either decoder, to the same signature and call bytes, exactly when the inner length is below 2^32 |
| Extrinsics.GenericAcceptedIsEncoding | core/src/substrate/extrinsic.rs:230-260 | Every byte string accepted as a generic extrinsic is its encoding |
| Extrinsics.DecodeAlreadyDecoded | core/src/utils.rs:5-16 | Returns everything left of the input and leaves nothing |
| Extrinsics.DecodeEncodedExtrinsic | core/src/decoded_extrinsics.rs:157-187 | The decoder that consumes its input accepts exactly what the decoding function accepts, and then leaves nothing |
| Calls.CallRoundTrip | core/src/types/pallets.rs:140-467 | Every modelled call decodes to itself and leaves exactly what follows it, unless its body runs to the end of the input |
| Calls.GreedyLeavesNothing | core/src/types/pallets.rs:1293-1299 | A batch or proxy call swallows whatever follows |
| CallLayout.CallIsLaidOut | core/src/types/pallets.rs:577-616 | The pallet and variant id and every field of each modelled call, by position |
| CallLayout.DecodedCallIsItsBytes | core/src/types/pallets.rs:140-467 | Whatever bytes are decoded as a call are that call's bytes, with what is left after them |
| CallLayout.DecodedCallsIff | core/src/types/pallets.rs:1234-1251 | A batch decodes to a list exactly when it is as long as the length says, only its last call runs to the end, and the bytes are the calls' in order; to none for length zero |
| CallLayout.MultiIsLaidOut | core/src/types/pallets.rs:2532-2540 | Every field of a multisig, by position |
| Calls.LeniencyOfTypedReading | core/src/decoded_extrinsics.rs:38-59 | Bytes after a self-delimiting body are ignored; an unsigned extrinsic is not a signed one |
| Calls.Batch.AddCall | core/src/types/pallets.rs:1259-1262 | Counts the call and appends its bytes |
| Calls.Batch.AddCalls | core/src/types/pallets.rs:1253-1257 | Counts all the calls and appends their bytes in order |
| Calls.Batch.DecodeCalls | core/src/types/pallets.rs:1234-1251 | As many calls as the length says, with nothing left over; none for length zero |
| Calls.DecodeManyOfWire | core/src/types/pallets.rs:1234-1251 | The calls' bytes in order decode to the calls if only the last runs to the end, and fail otherwise |
| Calls.BatchRoundTripIff | core/src/types/pallets.rs:1234-1262 | Building a batch call by call and decoding it gives the same list exactly when there are fewer than 2^32 calls and only the last runs to the end |
| Calls.SignedCallRoundTripIff | core/src/decoded_extrinsics.rs:298-306 | A signed call comes back from the wire exactly when the inner length is below 2^32, as the same signature and call, and as no other call type |
| Calls.MultisigCallIsNeverRecovered | core/src/types/pallets.rs:2532-2557 | Decoding a multisig never gives its inner call back, whatever the call and whatever follows: it fails for batches, proxies and bodies under two bytes, and else cuts a call from the body; every other field is read right |
| Mortality.NextPow2IsLeast | client/src/transaction_options.rs:142 | Rounding gives a power of two that holds the period, and no smaller one does |
| Mortality.MortalEraIs | client/src/transaction_options.rs:142 | The era's period is the least power of two from 4 to 65536 that covers the period asked for, or 65536; the phase is the last quantised one at or before the height |
| Mortality.MortalityWindow | client/src/transaction_options.rs:193-210 | birth <= current < birth + rounded period; the era rebuilt at birth is the same era; every height of the window maps back to that birth block, by the specification's formula too |
| Mortality.MortalEraIsValid | client/src/transaction_options.rs:140-150 | Every era built is one that exists: power-of-two period from 4 to 65536, quantised phase below it |
| Mortality.EraRoundTrip | core/src/types/substrate.rs:34-43 | Every such era decodes to itself and leaves what follows |
| Mortality.EraCanonical | core/src/types/substrate.rs:34-43 | Accepted bytes are the encoding of such an era |
| Mortality.EraCode | client/src/transaction_options.rs:142 | The 16-bit code of a mortal era: exponent less one, and the phase in its units |
| SigningData.WalletSigningData | client/examples/wallet_submit_data_via_rpc.rs:198-249 | The two loops over one buffer compute the two passes in list order, and fail exactly on a missing, malformed or unknown part |
| SigningData.SigningBytesLayout | core/src/substrate/extrinsic.rs:162-171 | Every byte of the signing data: call, extra, two versions, genesis hash, mortality hash |
| SigningData.KnownNames | client/examples/wallet_submit_data_via_rpc.rs:214-246 | The ten extension names known, and what each stands for |
| SigningData.FirstPassNeeds | client/examples/wallet_submit_data_via_rpc.rs:213-233 | The first pass fails at an extension exactly when its part of the JSON is missing or not of its form |
| SigningData.SecondPassNeeds | client/examples/wallet_submit_data_via_rpc.rs:234-247 | The same for the second pass |
| SigningData.PassIsOwnPieces | client/examples/wallet_submit_data_via_rpc.rs:213-247 | Over the prepared JSON a pass is the payload's own pieces for the byte-carrying extensions in list order |
| SigningData.WalletSignsSameBytes | core/src/substrate/extrinsic.rs:162-171 | For every payload and every extension list that keeps the byte-carrying extensions in order, the wallet signs exactly the payload's signing bytes |
| SigningData.WalletAgreesIffOrderKept | client/examples/wallet_submit_data_via_rpc.rs:198-249 | And no other list will do: it agrees on every payload exactly when the order is kept |
| SigningData.PreparedKinds | client/examples/wallet_submit_data_via_rpc.rs:293-303 | The nine names of the list sent, in order, and what each contributes |
| SigningData.PreparedSelfCheckPasses | client/examples/wallet_submit_data_via_rpc.rs:293-327 | The self-check of `prepare` never fails |
| Hex.NumericHexRoundTrip | client/examples/wallet_submit_data_via_rpc.rs:61-67 | Printing then parsing gives every number that fits the width |
| Hex.NumericHexDigits | client/examples/wallet_submit_data_via_rpc.rs:61-67 | The printed text: "0x", then the base-16 digits from the highest on, lower-case |
| Hex.ParsedTextIsPrintedIff | client/examples/wallet_submit_data_via_rpc.rs:176-196 | Parsing then printing gives the text back exactly when it was lower-case digits |
| Hex.OtherSpellingsAreAccepted | client/examples/wallet_submit_data_via_rpc.rs:176-196 | A plus sign and an upper-case digit are accepted and never printed |
| Hex.PrefixedRoundTrip | client/examples/wallet_submit_data_via_rpc.rs:53-59 | Byte strings come back from their prefixed text |
| Hex.EncodedDigits | client/examples/wallet_submit_data_via_rpc.rs:57-59 | Two lower-case digits a byte, the high half first |
| Hex.PrefixesAreIgnored | client/examples/wallet_submit_data_via_rpc.rs:53-55 | A leading "0x" is ignored, however often |
| Base58.MulAddValue | client/examples/build_payload_recovery_map_native.rs:417-421 | One digit multiplies the value by 58 and adds the digit; the carry out never exceeds 57 |
| Base58.PushDigit | client/examples/build_payload_recovery_map_native.rs:416-425 | The inner loops do that in place, and grow the buffer by at most one byte |
| Base58.DecodeBase58 | client/examples/build_payload_recovery_map_native.rs:409-432 | Succeeds exactly on base-58 strings, with the minimal big-endian bytes of the value behind one zero per leading '1' |
| Base58.DigitIsCharsBelow | client/examples/build_payload_recovery_map_native.rs:23 | The alphabet is the ASCII digits and letters but 0, I, O and l, and a character's digit is the number of them below it |
| Base58.ValueIsPositional | client/examples/build_payload_recovery_map_native.rs:411-426 | The value of a digit string is positional |
| Base58.ConvertRoundTrip | client/examples/build_payload_recovery_map_native.rs:409-432 | Changing base and back, leading zeros kept one for one, is the identity |
| Base58.DecodeInvertsEncode | client/examples/build_payload_recovery_map_native.rs:409-432 | Decoding inverts the standard encoder (section 3 of draft-msporny-base58) on all byte strings |
| Base58.EncodeInvertsDecode | client/examples/build_payload_recovery_map_native.rs:409-432 | And the encoder inverts decoding on all base-58 strings |
| RecoveryMap.ExpandLookup | client/examples/build_payload_recovery_map_native.rs:238-264 | The loop produces the range before each item and the one after the last |
| RecoveryMap.ExpansionEntries | client/examples/build_payload_recovery_map_native.rs:238-264 | App, start, end and count of every range, for well-formed and other lookups |
| RecoveryMap.LookupTilesBlock | client/examples/build_payload_recovery_map_native.rs:238-264 | For a non-decreasing lookup within the size the ranges tile it without gap, counts sum to the size, and each scalar's range carries the app of the last item at or before it |
| RecoveryMap.GridRowsLeastIff | client/examples/build_payload_recovery_map_native.rs:266-276 | The row count is the least power of two with room for all scalars, except in exactly two arithmetic cases, and what it is in those |
| RecoveryMap.GridRowsFallShort | client/examples/build_payload_recovery_map_native.rs:270-276 | An input for each case: one row too few, and no rows |
| Custody.SupportedColsAre | client/examples/build_payload_recovery_map_native.rs:283-285 | 8, 16 and 32 store columns are supported |
| Custody.CustodyColIs | client/examples/build_payload_recovery_map_native.rs:376-378 | The store column is the column modulo the store columns, also when doubling wraps |
| Custody.ExtendedIs | client/examples/build_payload_recovery_map_native.rs:700-701 | Extended coordinates are twice the original, on 32 bits |
| Custody.BandsAreLeast | client/examples/build_payload_recovery_map_native.rs:381 | The band count is the least that holds every column |
| Custody.SaturatedBands | client/examples/build_payload_recovery_map_native.rs:381 | And what it is where the sum saturates |
| Custody.VirtualRowSteps | client/examples/build_payload_recovery_map_native.rs:380-383 | 0 for the first band, one more a band to the right, the number of bands more a row down |
| Custody.SecondRowOf256 | client/examples/build_payload_recovery_map_native.rs:380-383 | Three cells of a grid of 256 columns |
| Custody.StoreColumnTakesEveryRow | client/examples/build_payload_recovery_map_native.rs:380-383 | The first store column takes every virtual row below rows times bands |
| Custody.StoreColumnInScalarOrder | client/examples/build_payload_recovery_map_native.rs:694-703 | In scalar order |
| Custody.SlotDeterminesCell | client/examples/build_payload_recovery_map_native.rs:376-383 | Custody column and virtual row determine the cell, by an explicit inverse |
| Custody.ScalarsDoNotShareSlots | client/examples/build_payload_recovery_map_native.rs:694-703 | No two scalars of the grid share a slot |
| Custody.ScalarInGrid | client/examples/build_payload_recovery_map_native.rs:696-697 | Row and column of a scalar, row by row |
| Custody.VirtualRowBoundIff | client/examples/build_payload_recovery_map_native.rs:380-383 | Virtual rows stay below rows times bands exactly when the band count did not saturate, and always fit 32 bits |
| Custody.WidestGridLeavesBands | client/examples/build_payload_recovery_map_native.rs:380-383 | An input beyond the bound |
| Custody.ChunkRoundTrip | client/examples/build_payload_recovery_map_native.rs:385-393 | A full chunk comes back from its cell |
| Custody.CellLayout | client/examples/build_payload_recovery_map_native.rs:385-393 | All 32 bytes of a cell for chunks up to 31 bytes: the chunk backwards from the end, zeros in front; longer chunks are refused |
| Custody.PaddedStream | client/examples/build_payload_recovery_map_native.rs:395-407 | The stream filled up with zeros to 31 bytes a scalar, or refused |
| Custody.BuildCells | client/examples/build_payload_recovery_map_native.rs:692-738 | One cell per scalar in order with its slot and chunk, every slice in bounds; fails exactly when some needed store column has no owner |
| Custody.CellsGiveStream | client/examples/build_payload_recovery_map_native.rs:685-738 | Undoing the cells and concatenating in scalar order gives the padded stream |
| Custody.SelectedIsFirst | client/examples/build_payload_recovery_map_native.rs:656-661 | The range mapped is the app's first with scalars; failing that, its first |
| Custody.AppStreamDecodes | client/examples/build_payload_recovery_map_native.rs:685-686 | The padded stream decodes to exactly the one transaction and leaves the padding |
| Custody.BuildMap | client/examples/build_payload_recovery_map_native.rs:651-738 | Succeeds exactly when lookup, grid, stream and owners allow it, and then reading the cells back and decoding gives exactly the transaction |
| Custody.MappableIff | client/examples/build_payload_recovery_map_native.rs:651-738 | What the mapping needs, in numbers: rows, capacity, 31 bytes a scalar, an owner for each store column |
| Custody.NotMappable | client/examples/build_payload_recovery_map_native.rs:651-660 | Without columns or without a range of the app it is refused |
| Custody.MappedScalarsAreTheApps | client/examples/build_payload_recovery_map_native.rs:655-661 | For a well-formed lookup the mapped scalars are the app's own, inside the block |

## Left out

- `ExtrinsicSub`, `EncodedExtrinsicSub` and `BlockEventsSub` are one class, `MatchSub`, over any kind of item; `LegacyBlockSub` and `BlockHeaderSub` are one class, `FetchSub`. Changing the filter in the middle of a run is not modelled.
- `StorageDoubleMapIterator` is not a class of its own: both its calls decode the key, so each is `NextKeyValue` over the double map's partial key as prefix (`DoubleMapIterationYields`).
- A stored key without a value, which ends a call with None in the iterators without ending the iteration: a fixed snapshot has none.
- `GrandpaJustificationSub` and `BlockSub`: the same wrapper once more.
- The retry loops, polling interval and sleeping; dropping a call half way.
- The RPC transport, JSON parsing, environment and CSV files, owner selection, the recovery report, tracing, the FFI crate.
- Answers the client cannot parse other than listed extrinsics, map keys and map values; hash text that is not a hash; the panic of `from_hash` for hashers that keep no key, here an error.
- Hashing, signing, signature formats, SS58, the wallet's signature type guessing.
- The remaining calls of the runtime (field-by-field codecs of the same kinds as those modelled). `DecodeRuntimeCall` refuses their headers, where the client decodes them.
- `multisig_for`.
- The option enumeration whose empty variant is written with one tag and read with another (`core/src/types/pallets.rs:1566`, `:1579`): settled by reading the two lines.
- Overflow panics of a debug build, and `usize` narrower than 64 bits.
- Text is a sequence of characters; the client compares bytes. Neither decoder accepts anything but ASCII, so the answers are the same.
