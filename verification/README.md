# Verified model of the block analyser

The analyser fetches a range of Solana slots, decodes every block into account locks and token
balance changes, schedules each block by its lock conflicts, stores rows and steps in a relational
database, and aggregates the stored balance changes into candles. This project models that path in
Dafny and proves what each stage keeps and what the stages achieve together.

`dafny verify dfyconfig.toml` checks everything. Code that updates state in the repository is
imperative here: `BuildSchedule`, the limiter, the retry loop, the worker pool, the repository and the
candle table are methods and classes with loops, proved against definitions that do not mention how
they work. The concurrent parts are transition systems: any task, any caller and any slot may take the
next step, and completion order, time, jitter, errors and failing flushes are chosen by the environment.

The files, in the order in which data flows:

| file | part of the system |
|---|---|
| `Numbers`, `Options`, `Sequences`, `Strings` | machine integers, optional values, shared notions about collections and the order of strings |
| `RateLimiter`, `Retry`, `FetchAttempts`, `BlockFetch`, `Pipeline` | the ingest engine |
| `AccountResolution`, `TokenNetting`, `TokenDeltas`, `Decoding` | from a parsed response to a decoded block |
| `Contention`, `SerialEquivalence`, `ConflictEvents` | the scheduler of one block |
| `Tables`, `Storage`, `Repetition`, `Parsing`, `Flushing`, `EndToEnd` | storing blocks, and what the stored data means |
| `IngestRun`, `RunCommits`, `CleanRun` | a whole ingest, from the worker pool to the database |
| `Trades`, `Candles`, `CandleRollUp`, `CandleWindows`, `CandleOrder`, `Snapshots`, `CandleStore` | trades and candles |

## Main results
- **Scheduler.** The schedule built from the last write and the readers since it is the pointwise least one
  over the whole conflict relation; its depth is the longest conflict chain; running it step by step, in any
  order inside a step, ends in the same account store as running the block in order, and for transactions that
  can write, only those without conflict commute. The reported events are exactly the write locks on accounts
  locked before, each charged to its own transaction and step.
- **Ingest engine.** Over any interleaving, grants in any window never exceed burst + rate * window, and the
  fetch attempts since the start never exceed (retries + 1) * (burst + rate * elapsed time), a bound that is
  attained; a burst is served at once, one token per grant. The two-channel pipeline loses, duplicates and
  reorders nothing, cannot deadlock, always ends, and accounts for every slot.
- **Storage.** Over any run of batches the database is a map from slots to their last committed data. When a
  committed batch can be repeated is decided by the batch alone.
- **End to end.** Whatever flushes were attempted and whichever of them failed, every slot holds exactly the
  last decoded block committed for it, row by row, with each transaction's step in that block's schedule. So
  the queried depth is the longest chain (the maximum over a range), the queried lock counts are the conflict
  events plus at most one per account and block, also over a range, and the stored token rows are exactly the
  balance changes of the transactions that did not fail. Every block of a successful flush stays in the
  database. The slots that hold a block are exactly those the worker pool delivered with one if and only if
  the flushed data are compatible: keys distinct within every block and between any two, and values that fit
  their columns. Unique signatures, messages that list no key twice and fitting amounts are enough.
- **Candles.** The trades of a range are exactly the swaps of the balance table, with prices and volumes
  stated in raw amounts, and each stored candle is that of exactly the trades in its window. The five-minute
  series is the roll-up of the minute series, volume is conserved, and no failed transaction reaches a candle.
  A series is independent of the hash map's order exactly when, in each window, the earliest trades agree in
  price and the latest trades agree in price.

Some results differ from what one might expect:

- Repeating a committed batch never changes the database, but the repetition itself can fail. It succeeds
  exactly when no element shares a key with what the batch leaves in a slot that comes up only later
  (`RepeatSucceedsIff`), which holds when the slots are distinct. `RepetitionCanFail` is a batch that
  cannot be repeated: slot 1 with a transaction, slot 1 empty, slot 2 with the same transaction.
- Token conservation holds exactly when nothing is misattributed (`ConservationIff`): an account that holds
  another mint afterwards has its old amount charged to the new mint. Keeping the mints is sufficient and not
  necessary (`MintsMayChangeHarmlessly`); `ReopenedAccountBreaksConservation` is an input that loses a change.
- A flush that fails drops its whole batch, whose blocks stay counted as ingested; a single amount of 2^63 is
  enough (`FlushCanFail`).
- Coalescing is idempotent exactly when no non-zero net is a multiple of 2^64; such a net is cast to a row
  of two zeros that a second pass drops (`IdempotenceCanFail`).
- All transactions of a block share its time, so trades of one mint in one block tie. When they are the first
  or the last of a window and differ in price, the stored open or close depends on the hash map
  (`HashMapIrrelevantIff`); `TiedTradesShow` is an input.
- The end-to-end statements need no assumption about distinct signatures or slots (the primary keys
  enforce what is needed), the lock layout holds for malformed headers too, and the accounting of conflict
  events holds for transactions that lock an account twice.

Every lemma carries `{:induction false}`: inductions are written out as recursive calls.

## Model

| member | source | states |
|---|---|---|
| Contention.BuildSchedule | crates/contention/src/lib.rs:83-146 | the steps are the pointwise least assignment that keeps every conflicting pair in order; depth is the longest conflict chain; the used steps are exactly 0..depth-1, with their widths; the events are those that `ConflictsAreWriteLocks` characterises |
| Contention.AssignSteps | crates/contention/src/lib.rs:88-137 | every processed transaction comes after all earlier ones it conflicts with and directly after one of them or at step 0, although only the last write and the readers since it are remembered |
| Contention.EarliestStep | crates/contention/src/lib.rs:91-109 | the step from the per-account summary is above every earlier conflicting transaction of the whole block, and not higher than needed |
| Contention.BlockingStep | crates/contention/src/lib.rs:94-105 | the step a lock waits for: the latest of the last write and, for a write, of all readers since it |
| Contention.RecordLocks | crates/contention/src/lib.rs:116-136 | every account's state keeps summarising all accesses so far, and the events of the transaction are those that `ConflictsAreWriteLocks` characterises |
| Contention.CountWidths | crates/contention/src/lib.rs:139-142 | each used step is mapped to how many transactions run at it |
| Contention.DepthOf | crates/contention/src/lib.rs:143 | one more than the largest step, 0 for an empty block |
| Contention.TightIsLeast | crates/contention/src/lib.rs:88-112 | a conflict-respecting schedule without slack is below every other one |
| Contention.LeastIsTight | crates/contention/src/lib.rs:88-112 | the least schedule leaves no slack |
| Contention.DepthIsLongestChain | crates/contention/src/lib.rs:143 | the depth of the least schedule is the length of the longest chain of successively conflicting transactions |
| Contention.StepsAreGapless | crates/contention/src/lib.rs:139-143 | every step below the depth is used |
| Contention.WidthsPartitionTheBlock | crates/contention/src/lib.rs:139-142 | the widths sum to the number of transactions |
| SerialEquivalence.ScheduleIsSeriallyEquivalent | crates/contention/src/lib.rs:78-137 | for all transaction effects confined to their locks and all account stores, any step-by-step execution ends in the store of the in-order execution |
| SerialEquivalence.ConflictOrderSuffices | crates/contention/src/lib.rs:78-137 | every order that keeps conflicting pairs in block order is equivalent to block order |
| SerialEquivalence.Commute | crates/contention/src/lib.rs:94-105 | transactions that do not conflict commute on every store |
| SerialEquivalence.ConflictMatters | crates/contention/src/lib.rs:94-105 | conversely, for two conflicting transactions that can write there are confined effects and a store for which their order matters |
| ConflictEvents.EventsCountWriteLocks | crates/contention/src/lib.rs:116-136 | per account, events equal write locks, less one exactly when the block's first lock on the account is a write |
| ConflictEvents.EventIffEarlierTransaction | crates/contention/src/lib.rs:116-136 | without duplicate locks in a transaction, a write lock is reported once exactly when an earlier transaction locked the account, and otherwise not at all |
| ConflictEvents.ConflictsAreWriteLocks | crates/contention/src/lib.rs:116-136 | the events of a schedule are, in block order and each once, the write locks on accounts that an earlier lock of the block names, each with the signature, the programs and the step of the transaction that takes the lock and with the write flag |
| RateLimiter.TokenBucketLimiter.constructor | crates/ingest-core/src/rate_limiter.rs:32-38 | the bucket starts full |
| RateLimiter.TokenBucketLimiter.Poll | crates/ingest-core/src/rate_limiter.rs:43-57 | one critical section, for every rate: what flowed in since the last poll is added up to the burst; with at least one token there exactly one is taken, otherwise the call reports the time in which the deficit flows in, or panics exactly when that time is not a representable duration |
| RateLimiter.TokenBucketLimiter.AcquireAlone | crates/ingest-core/src/rate_limiter.rs:41-64 | with burst at least 1 a lone caller returns after at most one sleep, which lasts exactly the deficit, unless that sleep is no representable duration |
| RateLimiter.RateBound | crates/ingest-core/src/rate_limiter.rs:41-64 | in every run of polls by any callers, any window contains at most burst + rate * length grants |
| RateLimiter.TokensStayBounded | crates/ingest-core/src/rate_limiter.rs:47-51 | tokens stay between 0 and the burst |
| RateLimiter.InstantPolls | crates/ingest-core/src/rate_limiter.rs:46-51 | of j polls at one instant on a bucket of x tokens exactly min(j, floor(x)) are granted, leaving x minus that number: a burst is served at once |
| RateLimiter.TokensAccounted | crates/ingest-core/src/rate_limiter.rs:47-51 | in a run whose refills stay below the burst, tokens left plus tokens granted are the initial tokens plus what flowed in |
| RateLimiter.DeniedPollsOnlyRefill | crates/ingest-core/src/rate_limiter.rs:46-48 | denied polls do not change what a later poll finds: many small refills are one refill |
| RateLimiter.SomeoneIsGranted | crates/ingest-core/src/rate_limiter.rs:50-61 | by the time a denied caller wakes and polls, some caller has been granted |
| RateLimiter.LaterGrantIff | crates/ingest-core/src/rate_limiter.rs:46-51 | after any run there is a later time at which a poll is granted if and only if the burst is at least 1 and the rate is positive or a token is left |
| RateLimiter.GrantedEverIffBurstAtLeastOne | crates/ingest-core/src/rate_limiter.rs:46-51 | at a positive rate, with burst below 1 no poll of any run is granted; from 1 on every run can be continued by a poll at a later time that is granted |
| Retry.RetryWithBackoff | crates/ingest-core/src/retry.rs:34-64 | at most max_retries + 1 attempts; the result is the first success or the first error that is terminal or comes after the last retry; each sleep is the capped, jittered delay |
| Retry.CappedDoubles | crates/ingest-core/src/retry.rs:52-53 | the delay before jitter starts at the base and doubles with every retry, up to the maximum |
| Retry.DelayIsJittered | crates/ingest-core/src/retry.rs:54-56 | the slept milliseconds are the jittered delay without its fraction, 0 when it is negative, and within the jitter factor of the capped delay |
| Retry.DefaultDelays | crates/ingest-core/src/retry.rs:19-28 | the default configuration makes at most five retries, after 250, 500, 1000, 2000 and 4000 ms, 20 % more or less |
| Retry.CappedSumBound | crates/ingest-core/src/retry.rs:52-53 | the capped delays of k retries sum to at most min(base * (2^k - 1), k * max) |
| Retry.TotalDelayBound | crates/ingest-core/src/retry.rs:52-59 | the sleeps of one slot sum to at most (1 + jitter) * min(base * (2^k - 1), k * max) |
| FetchAttempts.AttemptBound | crates/ingest-core/src/block_fetch.rs:70-86 | in every state of every run of all workers, get_block attempts are at most (max_retries + 1) * (burst + rate * elapsed time) |
| FetchAttempts.AttemptBoundIsAttained | crates/ingest-core/src/block_fetch.rs:70-86 | the bound is attained: with a burst of n tokens some run makes (max_retries + 1) * n attempts before any time has passed |
| FetchAttempts.InvHolds | crates/ingest-core/src/block_fetch.rs:70-86 | every slot that attempts has been granted once, and no slot exceeds max_retries + 1 attempts |
| BlockFetch.FetchBlockRange | crates/ingest-core/src/block_fetch.rs:34-68 | under every completion order each slot is delivered exactly once (none when max_concurrency is 0), and outcome k belongs to a slot below start + max_concurrency + k |
| BlockFetch.PrimePool | crates/ingest-core/src/block_fetch.rs:49-60 | the first slots of the range are in flight, as many as allowed |
| Pipeline.InvHolds | crates/cli/src/main.rs:120-269 | in every reachable state each dispatched slot is in exactly one place, in order; both channels hold at most 2; the counters count; flushed and pending blocks are the ingested ones in order; batches are flushed when they are full and only the last may be smaller; the store pauses at most once, before the first outcome |
| Pipeline.PoolKept | crates/ingest-core/src/block_fetch.rs:49-68 | every step keeps the dispatched slots a prefix, each in flight or delivered once, at most max_concurrency in flight |
| Pipeline.ChannelsKept | crates/cli/src/main.rs:120-189 | every step keeps delivered = recorded + under way, in order |
| Pipeline.StoreKept | crates/cli/src/main.rs:192-268 | every step keeps counters, batches and pending blocks consistent with what was recorded |
| Pipeline.SendersWaitWhenFull | crates/cli/src/main.rs:120-189 | a sending task waits exactly when its channel holds two outcomes |
| Pipeline.NotStuck | crates/cli/src/main.rs:120-269 | a reachable state that is not final has an enabled step |
| Pipeline.BehavioursAreFinite | crates/cli/src/main.rs:120-269 | every run takes at most 10 steps per slot and 4 more |
| Pipeline.RunCompletes | crates/cli/src/main.rs:120-273 | a run that cannot go on is final: every slot was recorded once in delivery order, ingested + skipped + failed is the slot count (0 without workers), the flushed batches are the ingested blocks in order, and the run fails exactly when a last, partial batch does |
| AccountResolution.SplitFollowsLayout | crates/ingest-core/src/account_resolution.rs:33-62 | for every header, all slices are in bounds and key i is writable exactly when i < sig - roSigned or sig <= i < n - roUnsigned, order kept |
| AccountResolution.ResolveAccountLocks | crates/ingest-core/src/account_resolution.rs:67-85 | every account is write-locked as often as it stands at a writable position of the message or among the loaded writable keys, and read-locked as often as it stands at another position or among the loaded readonly keys |
| AccountResolution.LockOrder | crates/ingest-core/src/account_resolution.rs:78-83 | write locks come before read locks, static keys before loaded ones, and the static keys keep their order |
| AccountResolution.LocksArePermutation | crates/ingest-core/src/account_resolution.rs:67-85 | the locked accounts are a permutation of static, loaded-writable and loaded-readonly keys |
| AccountResolution.DistinctKeysLockOnce | crates/ingest-core/src/account_resolution.rs:67-85 | a transaction locks no account twice exactly when no key is listed twice |
| AccountResolution.ExtractProgramIds | crates/ingest-core/src/rpc_client.rs:200-223 | a strictly ascending list of exactly the keys the instructions refer to, indices out of range skipped |
| Strings.FirstDifferenceDecides | crates/ingest-core/src/rpc_client.rs:215-222 | strings are ordered by the first character in which they differ |
| Strings.PrefixComesFirst | crates/ingest-core/src/rpc_client.rs:215-222 | a proper prefix comes before its extensions |
| AccountResolution.ProgramIdsUnique | crates/ingest-core/src/rpc_client.rs:215-222 | two lists are equal exactly when the same keys are referred to, whatever the order and repetition |
| AccountResolution.ProgramsAreLocked | crates/ingest-core/src/rpc_client.rs:206-222 | every program id is a locked account although it indexes the unsplit order |
| TokenNetting.NetByKey | crates/ingest-core/src/rpc_client.rs:267-279 | per key the sum of its deltas and the decimals of its first row, keys in order of appearance |
| TokenNetting.Coalesce | crates/storage/src/repository.rs:371-395 | one row per key whose net is not zero, in the order of first appearance, with the decimals of the key's first row and the net, modulo 2^64, on the side of its sign; both crates run these loops |
| TokenNetting.CoalescedMeaning | crates/ingest-core/src/rpc_client.rs:267-290 | one row per key, none exactly when the net is zero; a net that fits is carried exactly, on one side |
| TokenNetting.CoalescingKeepsNets | crates/ingest-core/src/rpc_client.rs:267-290 | coalescing keeps every net that fits in u64 |
| TokenNetting.CoalescingIsCompositional | crates/storage/src/repository.rs:371-395 | netting coalesced pieces gives the nets of the concatenation |
| TokenNetting.CanonicalRowsAreFixed | crates/storage/src/repository.rs:371-395 | rows with distinct keys and one zero side each are returned unchanged, order included |
| TokenNetting.IdempotentIff | crates/storage/src/repository.rs:384-394 | coalescing twice is coalescing once exactly when no non-zero net is a multiple of 2^64 |
| TokenNetting.IdempotenceCanFail | crates/storage/src/repository.rs:384-394 | two deltas of 2^63 of one key are an input on which a second pass changes the rows |
| TokenNetting.TotalsThatFit | crates/ingest-core/src/rpc_client.rs:281-289 | no cast truncates when the totals before and after fit in u64 |
| TokenDeltas.BuildTokenDeltas | crates/ingest-core/src/rpc_client.rs:225-264 | a row for every account whose amount changed, compared with its first balance before, then one for every account that is gone and held something, each with the mint and decimals of its own balance and unparsable amounts as 0; these rows netted per mint |
| TokenDeltas.NetIsBalanceChange | crates/ingest-core/src/rpc_client.rs:225-264 | for all balances with distinct indices, the net of a mint is its total after minus its total before plus exactly what accounts that changed their mint misattribute |
| TokenDeltas.ConservationIff | crates/ingest-core/src/rpc_client.rs:225-290 | with distinct indices and nets that fit, the returned rows record the change of every mint's total, one-sided and with no other row, if and only if nothing is misattributed |
| TokenDeltas.TokenConservation | crates/ingest-core/src/rpc_client.rs:225-290 | when accounts keep their mints and totals fit, the returned rows record the changes |
| TokenDeltas.MintsMayChangeHarmlessly | crates/ingest-core/src/rpc_client.rs:230-247 | an account may change its mint without harm when its old amount is zero or unparsable |
| TokenDeltas.ReopenedAccountBreaksConservation | crates/ingest-core/src/rpc_client.rs:230-247 | an account reopened for another mint makes a balance change disappear |
| Decoding.DecodeTransaction | crates/ingest-core/src/rpc_client.rs:155-198 | slot and block time are passed on; the first signature or none; failed only with metadata that says so; locks and program ids of the message's keys and the loaded addresses, if any; netted token rows, none without metadata |
| Decoding.DecodeBlock | crates/ingest-core/src/rpc_client.rs:145-153 | every transaction is decoded, in order, none dropped |
| Decoding.DecodedRowsConserve | crates/ingest-core/src/rpc_client.rs:179-183 | when nothing is misattributed, the decoded token rows are canonical and record how each mint's total changed |
| Parsing.ParseBlock | crates/cli/src/main.rs:392-448 | slot and time of the block; one transaction row and one signature per transaction; in order, a row for every lock and, unless the transaction failed, for every balance change; and a schedule of exactly the block's locks |
| Parsing.OnlySucceededRows | crates/cli/src/main.rs:407-416 | exactly the token rows of transactions that did not fail are handed on |
| Parsing.SecondPassIsIdentity | crates/storage/src/repository.rs:122-136 | the second coalescing leaves a block's decoded rows unchanged when its signatures are distinct |
| Tables.AppendRows | crates/storage/src/repository.rs:102-137 | appending stops at the first primary-key violation and otherwise adds all rows |
| Tables.ReplaceSucceedsIff | crates/storage/src/schema.rs:18-47 | replacing a slot's rows succeeds exactly when the new keys are distinct and not taken by another slot |
| Tables.ReplaceMeaning | crates/storage/src/repository.rs:86-137 | afterwards the slot holds exactly the new rows and every other slot is untouched |
| Tables.ReplaceBySame | crates/storage/src/repository.rs:86-137 | replacing a slot by what it holds succeeds and changes nothing |
| Storage.Repository.constructor | crates/storage/src/schema.rs:9-47 | the tables start empty |
| Storage.Repository.ReplaceSlotDataInner | crates/storage/src/repository.rs:76-139 | succeeds exactly when no key is violated and every value fits its column, and then the state is that of the replaced slot |
| Storage.Repository.ReplaceSlotsBatch | crates/storage/src/repository.rs:145-167 | a batch is stored completely, or on any violation every table is as before |
| Storage.Repository.WriteScheduleSteps | crates/storage/src/repository.rs:172-184 | the steps are written to the stored signatures, pairwise up to the shorter list, with the i32 cast |
| Storage.Repository.QueryDepth | crates/storage/src/repository.rs:215-219 | one more than the largest step stored in the range, 0 when there is none |
| Numbers.AsI32Meaning | crates/storage/src/repository.rs:172-184 | the cast of a step keeps what is below 2^31 and changes anything else by a multiple of 2^32 |
| Numbers.AsI64Meaning | crates/storage/src/repository.rs:84 | the cast of a u64 keeps the lower half and takes 2^64 off the upper one |
| Storage.BetweenMeaning | crates/storage/src/repository.rs:215-225 | ranges below 2^63 contain exactly the slots between their ends; the cast moves larger slots below all others |
| Storage.ColumnsIff | crates/storage/src/schema.rs:38-47 | a row fits its columns exactly when its cast amounts are not negative and its decimals fit a signed byte |
| Storage.Repository.QueryContentionSummary | crates/storage/src/repository.rs:210-236 | the depth, and at most 20 accounts with their exact write-lock counts, descending, none larger left out |
| Storage.CountWriteLocks | crates/storage/src/repository.rs:221-225 | every account with write locks in the range, with how many |
| Storage.TopTwenty | crates/storage/src/repository.rs:226-234 | the list is descending and what is left out is no larger |
| Storage.ReplaceSlotMeaning | crates/storage/src/repository.rs:76-139 | one slot holds its new data in all tables, the others are untouched |
| Storage.BatchMeaning | crates/storage/src/repository.rs:145-167 | after a committed batch each of its slots holds its last data, every other slot what it held |
| Storage.StoreIsSlotMap | crates/storage/src/repository.rs:145-167 | over any run of batches, failed ones included, every slot holds the last data committed for it, token rows coalesced |
| Repetition.RepeatingChangesNothing | crates/storage/src/repository.rs:141-167 | repeating a batch never changes the database |
| Storage.ReplaceSlotSucceedsIff | crates/storage/src/schema.rs:18-47 | storing a slot succeeds exactly when its keys are distinct and not held by other slots and its values fit their columns |
| Repetition.RepeatSucceedsIff | crates/storage/src/repository.rs:145-167 | a committed batch can be repeated successfully if and only if no element shares a transaction, lock or token key with what the batch leaves in a slot that comes up only later |
| Repetition.RepeatSucceeds | crates/storage/src/repository.rs:145-167 | in particular a committed batch with distinct slots can be repeated successfully |
| Repetition.RepeatFailsWhenSignatureMoved | crates/storage/src/repository.rs:145-167 | in particular the repetition fails when a signature of any element is left in a slot that comes up only later |
| Repetition.RepetitionCanFail | crates/storage/src/repository.rs:145-167 | a batch of three elements that the empty database commits and that cannot be repeated |
| Flushing.FlushParsedBatch | crates/cli/src/main.rs:450-473 | a committed batch is stored and then its steps are written, block by block; a failed one leaves the database as it was and no step is written |
| Flushing.ParsedIsConsistent | crates/cli/src/main.rs:392-448 | a parsed block has one signature and one step per transaction, no step above its index, and no token row of a failed transaction |
| Flushing.FlushStores | crates/cli/src/main.rs:450-473 | after a committed flush, the last block of a slot is stored completely, each transaction with its own step |
| Flushing.FlushKeeps | crates/cli/src/main.rs:450-473 | slots outside the flush keep everything, steps included |
| Flushing.RunHoldsLastBlocks | crates/cli/src/main.rs:246-267 | after any run of flushes, failed ones included, every slot holds exactly its last committed block with the steps of that block's schedule |
| EndToEnd.QueriedDepthIsLongestChain | crates/storage/src/repository.rs:215-219 | the depth queried for a slot is its schedule's depth and the longest conflict chain of its block |
| EndToEnd.QueriedDepthIsMaximum | crates/storage/src/repository.rs:215-219 | over a range, compared after the casts to i64, it is the maximum depth of the stored blocks |
| EndToEnd.QueriedCountsNearEvents | crates/storage/src/repository.rs:221-234 | the queried write locks of an account in a block are its conflict events, plus one exactly when the first lock on it is a write |
| EndToEnd.QueriedRangeCounts | crates/storage/src/repository.rs:221-234 | over a range the queried write locks of an account are the sum, over the stored blocks, of its events and one per block whose first lock on it is a write; they exceed the events by at most one per block |
| EndToEnd.StoredRowsAreBalanceChanges | crates/cli/src/main.rs:407-416 | the stored token rows of a slot are exactly the mints whose totals its successful transactions changed, each with the change |
| EndToEnd.HeldBlock | crates/cli/src/main.rs:392-473 | a slot that holds a parsed block holds the decoded block: its transactions with their steps, its locks, read locks included, its netted balance changes with their decimals, and nothing else |
| IngestRun.StoreBatches | crates/cli/src/main.rs:246-267 | after parsing and flushing batch after batch, whichever flushes fail, the slot of each decoded block that was committed last holds that block with the steps of the least schedule of its locks, and slots without a committed block hold nothing; the state is that of the run of flushes |
| IngestRun.DecodedBlockIsHeld | crates/cli/src/main.rs:246-267 | for any run: a decoded block whose batch was committed, and that no later committed block of its slot replaces, is what its slot holds, row by row |
| IngestRun.StoredIffFlushedOk | crates/cli/src/main.rs:246-267 | a slot holds a block exactly when a successful flush of the run contained it |
| IngestRun.FlushedBlockStays | crates/cli/src/main.rs:246-267 | when every slot is flushed once, each block of a successful flush is the one its slot holds at the end |
| IngestRun.StoredAreIngested | crates/cli/src/main.rs:120-273 | at the end of every pipeline run, each block of a successful flush is the one its slot holds; and the slots that hold a block are exactly those delivered with one if and only if no flush failed |
| RunCommits.EveryFlushCommitsIff | crates/storage/src/repository.rs:145-167 | when slots are distinct, all batches of a run are committed if and only if keys are distinct within each block and between blocks and values fit their columns |
| RunCommits.IngestIsCompleteIff | crates/cli/src/main.rs:120-273 | at the end of every pipeline run, no flush has failed, and the slots that hold a block are those delivered with one, if and only if the flushed data are compatible in this sense |
| RunCommits.FlushCanFail | crates/cli/src/main.rs:246-257 | a block with an amount of 2^63 makes every flush that contains it fail on every database and store nothing |
| CleanRun.CleanBlockIsInsertable | crates/cli/src/main.rs:392-448 | the rows of a block with distinct signatures and distinct locks per transaction violate no key among themselves |
| CleanRun.DistinctKeysGiveDistinctLocks | crates/ingest-core/src/account_resolution.rs:67-85 | a decoded transaction has distinct locks exactly when its message lists no key twice |
| CleanRun.EveryBatchCommits | crates/storage/src/repository.rs:145-167 | every batch of a run is committed when its blocks are insertable and share no signature |
| CleanRun.IngestedBlocksAreStored | crates/cli/src/main.rs:120-273 | at the end of every pipeline run with clean blocks, no flush has failed, every flushed block is the one its slot holds, and the slots that hold a block are exactly those delivered with one |
| Trades.InferTrades | crates/ohlcv/src/lib.rs:72-111 | for any rows: the trades, in row order, are those of exactly the rows that swap against the first wSOL row, none without one |
| Trades.TradesAreSwaps | crates/ohlcv/src/lib.rs:72-111 | with one row per mint, exactly one trade per mint whose raw amount moves against a wSOL amount that changes by at least 0.0005 * 10^decimals; in raw amounts, volume * 10^decimals is what wSOL moved and price * tokens moved is the volume |
| Trades.RowOrderIrrelevant | crates/ohlcv/src/lib.rs:72-111 | the trades do not depend on the order of the rows |
| Trades.PricesAreFinite | crates/ohlcv/src/lib.rs:96-100 | every price is positive and within the range of finite doubles, for all amounts and decimals |
| Candles.BuildCandles | crates/ohlcv/src/lib.rs:127-163 | for every traded mint, and only those, an ascending series with one candle per non-empty window, each with the open, close, extremes and volume of exactly its trades |
| Candles.GroupByBucket | crates/ohlcv/src/lib.rs:137-141 | the trades of each window, in their order, windows rounded towards minus infinity |
| Candles.SortIsStableSort | crates/ohlcv/src/lib.rs:135 | the sort is a time-ordered permutation |
| CandleWindows.SeriesHoldsWindows | crates/ohlcv/src/lib.rs:127-163 | in terms of the trades as given: windows start at multiples of the width; the candle of a window opens and closes at the first and the last of exactly its trades, by time and then as given, has their extreme prices and the sum of their volumes; every trade of the mint is in one |
| CandleRollUp.WideSeriesIsRollUp | crates/cli/src/main.rs:491-492 | for widths that divide, the wide series is the narrow one folded by the wide window |
| CandleRollUp.RollUpsCompose | crates/ohlcv/src/lib.rs:139 | folding by a narrow and then by a wide window is folding by the wide one, negative times included |
| CandleRollUp.RollUpIsSeries | crates/ohlcv/src/lib.rs:127-163 | folding trades one by one gives the series |
| CandleRollUp.SeriesUnique | crates/ohlcv/src/lib.rs:127-163 | the trades determine the series |
| CandleRollUp.EveryTradeInOneCandle | crates/ohlcv/src/lib.rs:137-141 | every trade lies in exactly one candle's window |
| CandleRollUp.CandleShape | crates/ohlcv/src/lib.rs:151-158 | open and close lie between low and high |
| CandleRollUp.VolumeConserved | crates/ohlcv/src/lib.rs:150-157 | the candles of a mint carry all of its volume |
| CandleOrder.SortIsStable | crates/ohlcv/src/lib.rs:135 | trades of one instant keep their order |
| CandleOrder.SeriesOrderIndependent | crates/ohlcv/src/lib.rs:127-163 | permuting trades keeps windows, highs, lows and volumes; opens and closes too unless trades of different prices share the extreme instant |
| CandleOrder.OpenFixedIff | crates/ohlcv/src/lib.rs:135-153 | a window's open is the same for every order of the trades if and only if its earliest trades agree in price |
| CandleOrder.CloseFixedIff | crates/ohlcv/src/lib.rs:135-154 | a window's close is the same for every order of the trades if and only if its latest trades agree in price |
| CandleOrder.TiedTradesShow | crates/ohlcv/src/lib.rs:135-154 | two trades of one instant at different prices give another series in the other order |
| Snapshots.QueryBalanceChanges | crates/storage/src/repository.rs:266-291 | the rows are those stored for the range, once each with their amounts and decimals, ordered by slot and then by signature |
| Snapshots.SnapshotsFromBalanceRows | crates/cli/src/main.rs:510-529 | one snapshot per signature with a timed row, holding its timed rows in order; rows without a time are dropped |
| Snapshots.SnapshotsHoldRows | crates/cli/src/main.rs:510-529 | a snapshot holds the mints, amounts and decimals of exactly its transaction's timed rows, in row order, and the time of the first of them |
| Snapshots.TradesAreStoredSwaps | crates/cli/src/main.rs:483-489 | a transaction and a mint have a trade in the range if and only if their row in the table swaps against the transaction's wSOL row; they have only one, with the amounts of the two rows |
| Snapshots.SnapshotOrderIrrelevant | crates/cli/src/main.rs:528 | the hash map's order does not change which trades come out, nor how often |
| Snapshots.NoTradeFromFailed | crates/cli/src/main.rs:407-416 | after any run of flushes, every trade belongs to a stored transaction that did not fail |
| CandleStore.CandleTable.UpsertCandles | crates/storage/src/repository.rs:190-205 | each candle replaces the one of its mint, interval and window |
| CandleStore.CandleTable.BuildAndStoreCandles | crates/cli/src/main.rs:475-506 | for the intervals 60 and 300 and every mint, the windows with trades hold the candles of exactly these trades, and nothing else changes |
| CandleStore.FiveMinutesRollUpMinutes | crates/cli/src/main.rs:491-492 | the five-minute series of every mint is its minute series rolled up |
| CandleStore.StoredFiveMinutesRollUp | crates/cli/src/main.rs:491-496 | the stored five-minute candles are those of the rolled-up minute series |
| CandleStore.StoredSeriesOrderIndependent | crates/cli/src/main.rs:491-528 | two orders of the hash map lead to series that differ at most in tied opens and closes |
| CandleStore.HashMapIrrelevantIff | crates/cli/src/main.rs:491-528 | every order of the hash map leads to the same series of a mint if and only if in each window the earliest trades agree in price and the latest do |

## Left out

- Floating point: prices, volumes, delays, tokens and times are reals, so rounding is idealised.
- Database engine: statements, transactions and primary keys are taken to work as documented, and a value
  outside the range of its column (an amount of 2^63 or more, which the cast makes negative, or decimals above
  127) is taken to be refused. Other errors, and an error while steps are written after the commit, are not
  modelled.
- EndToEnd.QueriedDepthIsMaximum: requires blocks of at most 2^31 transactions; in larger ones the cast of a step to i32 wraps around.
- EndToEnd.QueriedDepthIsLongestChain: requires the same bound.
- CleanRun.IngestedBlocksAreStored: gives a sufficient condition on decoded blocks; the exact one on the flushed data is `IngestIsCompleteIff`.
- RateLimiter.TokenBucketLimiter.AcquireAlone: covers a caller that is alone; contended callers are covered by the statements about runs of polls, which do not promise that a particular caller is served.
- BlockFetch.FetchBlockRange: requires that start + count does not overflow u64, which the source's range expression needs.
- Candles.BuildCandles: requires a positive interval and finite prices; the windows of times near the i64 limits are unbounded integers here.
- Retry.RetryWithBackoff: the number of attempts is unbounded above in the model, so the i32 exponent cast is not visible.
- Worker panics, dropped receivers and failures to write the ingestion status, which end an ingest early.
- The ingestion status table, transaction counters and progress logging.
- HTTP transport, JSON decoding and the classification of error messages; amounts arrive parsed or as unparsable.
- Ties between accounts with equal counts in the contention summary are resolved arbitrarily.
- A claim that every conflict is reported: events exist for write locks only, although the field comment at
  crates/contention/src/lib.rs:64 reads more broadly.
- A claim that candles of separate ingests merge: a stored candle of the same window is overwritten.
- The HTTP API, the dashboard, memory statistics, command-line parsing and scripts.
