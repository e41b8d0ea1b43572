# Verified models of the fedimint client protocols

This project models, in Dafny, the stateful protocols a fedimint client is built from and proves
what they keep over every run:

- the strategies that merge the answers of a federation of `n` guardians, of which up to
  `(n - 1) / 3` may be faulty, together with the request loop that drives them
  (`Federation`, `QueryStrategies`, `QueryDriver`, `ConsensusRuns`, `AgreementRuns`,
  `QuorumAgreement`, `FilterRuns`);
- the deferred process reaper of the development tool: one mutex, one condition variable, a reaper
  thread, killers and barrier waiters, interleaved step by step (`ReaperQueue`, `ReaperProtocol`,
  `ReaperProgress`, `ReaperLiveness`, `ReaperFairness`, `ReaperCalls`);
- the operation log: key encoding and its byte order, reverse pagination by epochs, the cached
  oldest key, and the cache of operation outcomes (`Encoding`, `LogKeys`, `EpochRanges`,
  `OperationLog`, `LogPages`, `OldestKeyRace`, `OutcomeCache`);
- the migration of a client module's state machine tables (`MigrateState`, `Migration`,
  `MigrationRuns`);
- the gossip of API announcements and guardian metadata, from the fetch loop to the store
  (`Gossip`, `FetchLoop`);
- the life of an RPC request, its abort handle and its cancellation (`RpcLifecycle`);
- API version negotiation (`VersionDiscovery`);
- client backups: codec, padding, encryption, fallback to older parts (`OrderedMaps`,
  `BackupCodec`, `Backup`).

Objects that the source updates in place are classes, and its loops are methods, each proved equal
to a specification function; the main ones also state their result outright. The properties are lemmas about those functions, over every input,
every schedule or every reachable state. `dafny verify dfyconfig.toml` checks everything.

Time, randomness, network replies, thread schedules and database failures are parameters: a
schedule is a sequence of events, and every lemma about runs quantifies over all feasible
schedules. Signatures are an abstract predicate and encryption an abstract invertible cipher.

## Where the code falls short of a promise

Some expected properties hold only under a condition. For each there is a failing case at a concrete
input and a lemma that says exactly when the property holds.

- A request whose handle was removed by a cancel may still end in `End`, because removing the
  handle and raising the abort flag are two steps (`RpcLifecycle.LateAbortEnds`,
  `RpcLifecycle.AbortedExactly`).
- The handle table can lose a running request when ids are reused: a second request with an id in
  flight overwrites the first one's handle, and a cancelled request that cleans up late removes the
  handle of a later one with its id, since handles are removed by id
  (`RpcLifecycle.ReuseLosesHandle`, `RpcLifecycle.CleanUpTakesAnother`,
  `RpcLifecycle.TableExactExactly`).
- Paginating the operation log panics when a range of its walk starts before the Unix epoch
  (`EpochRanges.EpochClockPanics`, `EpochRanges.PanicsExactly`, `LogPages.FollowedExactly`,
  `LogPages.ListedExactly`).
- The cached oldest key can hide a committed key when a lookup overlaps an uncommitted back-dated
  add (`OldestKeyRace.OverlapHidesKey`, `OldestKeyRace.SafeExactly`, `OldestKeyRace.RunSafeExactly`).
- A rewrite that maps two states of a module to one makes the migration panic
  (`MigrationRuns.ForgettingPanics`, `MigrationRuns.FoldedExactly`).
- An oversized module backup part is kept exactly when the previous backup had it oversized
  already and no small new part replaces it (`Backup.OversizedStays`, `Backup.OversizedExactly`).
- A terminal outcome cached earlier is served for ever, even if the stream would end on another
  one (`OutcomeCache.StaleTerminalSticks`, `OutcomeCache.TransparentExactly`).
- The order of gossip matters when a peer reuses a nonce (`Gossip.ReusedNonceDiverges`,
  `Gossip.OrderMattersExactly`, `Gossip.SameStoreExactly`).

Where code and comments disagree the model follows the code: a page limit of 0 acts like 1, since
the loop pushes before it tests.

## Model

| member | source | states |
|---|---|---|
| Federation.MaxEvil | fedimint-core/src/peer_id.rs:79-81 | the largest number of faulty guardians that is below a third |
| Federation.Threshold | fedimint-core/src/peer_id.rs:97-99 | two thresholds overlap in more guardians than can be faulty, and a threshold exceeds twice the faulty ones |
| Federation.ThresholdValueUnique | fedimint-api-client/src/query.rs:134-136 | two different values cannot both be held by a threshold of the latest answers |
| QueryStrategies.ThresholdConsensus.constructor | fedimint-api-client/src/query.rs:121-127 | starts with no answers and nothing to retry |
| QueryStrategies.ThresholdConsensus.Process | fedimint-api-client/src/query.rs:131-145 | the latest answer of the peer is stored; success iff its value now has a threshold, else a crash iff the peer is already in the retry set, else a retry of everyone heard once they are a threshold; this is the transition of which `ConsensusRuns` proves every run sound |
| QueryStrategies.ThresholdAgreement.constructor | fedimint-api-client/src/query.rs:248-255 | starts with no answers and no errors |
| QueryStrategies.ThresholdAgreement.DivergedAnswers | fedimint-api-client/src/query.rs:259-272 | reports all answers, and empties the map, exactly when every peer is heard and at least a threshold answered |
| QueryStrategies.ThresholdAgreement.Process | fedimint-api-client/src/query.rs:276-284 | agreement iff the value now has a threshold, else all answers once everyone is heard and a threshold answered; the transition that `AgreementRuns` proves independent of arrival order |
| QueryStrategies.ThresholdAgreement.ProcessError | fedimint-api-client/src/query.rs:286-294 | the same for an error, which counts towards having heard everyone |
| QueryStrategies.FilterMapThreshold.constructor | fedimint-api-client/src/query.rs:81-90 | starts with nothing accepted |
| QueryStrategies.FilterMapThreshold.Process | fedimint-api-client/src/query.rs:94-107 | the filter's own error, or its value stored and the whole map returned at a threshold; the transition of which `FilterRuns` proves every run sound |
| QueryDriver.RequestWithStrategy | fedimint-api-client/src/api/mod.rs:177-260 | the request loop, for any strategy and any feasible schedule of completions, ends in the status of the run that the lemmas reason about |
| QueryDriver.TakeOutcome | fedimint-api-client/src/api/mod.rs:214-236 | what the loop does with each verdict on a response: crash, return, retry, record a failure, and give up at the error limit |
| QueryDriver.TakeError | fedimint-api-client/src/api/mod.rs:237-259 | what it does with an error: return if the strategy says so, else record it and give up at the limit |
| ConsensusRuns.AnswerWaits | fedimint-api-client/src/query.rs:138-142 | an answering peer moves from in flight to waiting, and a full retry set rejoins the ones in flight, without overlap |
| ConsensusRuns.ResponseStep | fedimint-api-client/src/query.rs:131-145 | a response keeps the partition of the peers and the bound on every value's support |
| ConsensusRuns.ErrorStep | fedimint-api-client/src/api/mod.rs:237-259 | an error keeps them too, moving the peer to the failed ones |
| ConsensusRuns.EveryRunIsSound | fedimint-api-client/src/query.rs:114-146 | in every run: the assertion on the retry set never fires; in flight, waiting and failed partition the peers, each in flight once; no value has a threshold before it is returned, so testing `== threshold` misses nothing |
| ConsensusRuns.RetryAsksTheIdle | fedimint-api-client/src/query.rs:131-145 | in every run a retry asks exactly the peers that neither failed nor have a request in flight |
| ConsensusRuns.NeverRunsOut | fedimint-api-client/src/query.rs:114-146 | while no result was returned and few enough peers failed, some request is in flight |
| ConsensusRuns.AgreementReturns | fedimint-api-client/src/query.rs:114-146 | progress: when the honest peers that have answered, all with `v`, are a threshold, the call has returned `v`, whatever the others did |
| AgreementRuns.OfferStep | fedimint-api-client/src/query.rs:276-294 | hearing one more peer either decides what all answers together decide, or leaves exactly the answers heard |
| AgreementRuns.DecidedUnique | fedimint-api-client/src/query.rs:259-284 | at most one verdict fits the answers of a federation |
| AgreementRuns.OrderIndependent | fedimint-api-client/src/query.rs:240-295 | for any answers and any permutation: `Ok(v)` iff a threshold sent `v`; `Err` with all answers iff a threshold answered without agreeing; no verdict iff fewer answered |
| AgreementRuns.AllHeard | fedimint-api-client/src/query.rs:259-272 | silence after everyone was heard means that more peers failed than can be faulty |
| AgreementRuns.SettledExactly | fedimint-api-client/src/query.rs:240-295 | what a returned call holds, by counting the answers of all peers: three equivalences |
| AgreementRuns.CallSettles | fedimint-api-client/src/api/mod.rs:177-260 | every run of the request loop that delivers what each peer has hears each peer at most once, has a request in flight until it returns, has returned when all are heard, and returns the agreed value, all answers or the peer errors by the equivalences above |
| QuorumAgreement.HonestBacking | fedimint-api-client/src/query.rs:134-136 | a value with a threshold of answers is backed by more honest peers than can be faulty |
| QuorumAgreement.AgreedIsBacked | fedimint-api-client/src/query.rs:131-136 | the same for a value returned by any run of either strategy through the request loop |
| QuorumAgreement.CallsAgree | fedimint-api-client/src/query.rs:276-281 | no two runs, of either strategy, return different agreed values while at most `(n - 1) / 3` peers are faulty |
| FilterRuns.FilterStep | fedimint-api-client/src/query.rs:94-107 | every completion keeps accepted, in flight and failed peers apart and accounted for |
| FilterRuns.EveryRunIsSound | fedimint-api-client/src/query.rs:74-108 | a returned map holds exactly a threshold of values, each made by the filter from an answer its peer sent in the run; an error return has one more failure than there can be faulty peers, each with the error its peer failed with or the filter gave its answer; otherwise a request is in flight |
| FilterRuns.CallSettles | fedimint-api-client/src/api/mod.rs:177-260 | every run that delivers what each peer has hears each peer at most once, has a request in flight until it returns, has returned when all are heard, and returns the filtered answers of a threshold iff at least a threshold pass the filter, peer errors iff fewer do |
| ReaperQueue.NextDeadline | devimint/src/process_reaper.rs:59-63 | the earliest deadline: a lower bound of all that one entry attains |
| ReaperQueue.PassSplits | devimint/src/process_reaper.rs:82-90 | a pass loses no entry, reaps only entries past their deadline and keeps only entries within it |
| ReaperQueue.PassShrinks | devimint/src/process_reaper.rs:58-90 | once the earliest deadline has passed, a pass strictly shrinks the queue |
| ReaperQueue.PushKeepsDeadline | devimint/src/process_reaper.rs:98-114 | a later kill never moves the earliest deadline, so a timed wait needs no new deadline |
| ReaperQueue.Reaper.Push | devimint/src/process_reaper.rs:98-114 | appends the kill with its time |
| ReaperQueue.Reaper.EarliestDeadline | devimint/src/process_reaper.rs:59-63 | computes the earliest deadline |
| ReaperQueue.Reaper.Retain | devimint/src/process_reaper.rs:82-90 | keeps the unexpired entries in order and returns the expired ones in order |
| ReaperProtocol.LockStep | devimint/src/process_reaper.rs:50-139 | every step keeps the mutex with the one thread whose program counter holds it |
| ReaperProtocol.SleepStep | devimint/src/process_reaper.rs:50-96 | every step keeps that a sleeping reaper will be woken or timed out when the queue needs it |
| ReaperProtocol.WaiterStep | devimint/src/process_reaper.rs:121-139 | every step keeps that a sleeping waiter has something left to wait for |
| ReaperProtocol.ConservationStep | devimint/src/process_reaper.rs:50-114 | every step keeps enqueued = queued + reaped |
| ReaperProtocol.BarrierStep | devimint/src/process_reaper.rs:121-139 | every step keeps that a returned wait has seen everything enqueued before it reaped |
| ReaperProtocol.PreservedByRun | devimint/src/process_reaper.rs:50-139 | every interleaving, with spurious wake-ups and timeouts, keeps the whole invariant |
| ReaperProtocol.NoLostWakeUp | devimint/src/process_reaper.rs:50-139 | in every reachable state: an untimed sleep over a non-empty queue has a killer about to notify; with the lock free and the queue empty no waiter sleeps; an overdue timed sleep has expired work |
| ReaperProtocol.KillsConserved | devimint/src/process_reaper.rs:58-114 | every enqueued kill is queued or reaped exactly once, none before its grace period ended |
| ReaperProtocol.WaitIsBarrier | devimint/src/process_reaper.rs:121-139 | when a wait returns, every kill enqueued before its call has been reaped |
| ReaperProtocol.TerminateReaps | devimint/src/util.rs:114-125 | when `terminate` returns, the very kill it enqueued has been carried out and waited for, also when a pid repeats |
| ReaperCalls.BarrierHolds | devimint/src/process_reaper.rs:121-139 | in every run, from the call of a wait to any later state in which it has returned: all kills enqueued at the call have been reaped by then |
| ReaperCalls.KillDelivers | devimint/src/process_reaper.rs:98-114 | in every run a kill call that has returned enqueued a kill of its pid after it was made, and if it was part of `terminate`, that kill and all before it have been reaped |
| ReaperCalls.TerminateHolds | devimint/src/util.rs:114-125 | in every run, from the push of a terminating caller to its return: the pushed kill and every kill enqueued before it have been reaped |
| ReaperCalls.CallsReturn | devimint/src/process_reaper.rs:98-139 | in every reachable state a new thread can make any call, and the protocol can then let it return without further calls |
| ReaperCalls.PassIsExact | devimint/src/process_reaper.rs:58-90 | from every reachable state, a pass that finds work, whatever other threads do meanwhile, either reaps all entries that had been queued for 250 ms when it took the time, or, if there were none, sleeps exactly as long as the earliest still had |
| ReaperCalls.SpuriousWakeUps | devimint/src/process_reaper.rs:121-139 | a waiter that wakes with work still queued goes back to sleep, and nothing has changed |
| ReaperProgress.InternalLowers | devimint/src/process_reaper.rs:50-139 | every step of the protocol itself lowers a well-founded rank |
| ReaperProgress.NextStep | devimint/src/process_reaper.rs:50-139 | no deadlock: a state with work left has an enabled step unless the reaper is on a timed wait |
| ReaperProgress.Drains | devimint/src/process_reaper.rs:50-139 | from every reachable state the protocol's own steps and the clock reach a state with every kill reaped and every caller returned |
| ReaperLiveness.StuckIsAtRest | devimint/src/process_reaper.rs:50-139 | a reachable state that can take no step of its own and is not on a timed wait has every kill reaped and every caller returned |
| ReaperLiveness.OnlyClock | devimint/src/process_reaper.rs:50-139 | every endless run without new calls takes only finitely many steps of the protocol itself |
| ReaperLiveness.Inevitable | devimint/src/process_reaper.rs:50-139 | every endless run without new calls or spurious wake-ups, in which the clock goes on and the protocol is not stopped for ever while it can go on, ends with every kill reaped and every caller returned, for good |
| ReaperFairness.LockIsFreed | devimint/src/process_reaper.rs:50-139 | in a run in which nobody is starved and no more work gets done, the lock becomes free again and again |
| ReaperFairness.InevitableDespiteWakeUps | devimint/src/process_reaper.rs:50-139 | every endless run without new calls in which nobody is starved ends with every kill reaped and every caller returned, for good, even if spurious wake-ups never stop |
| ReaperFairness.FairRunsExist | devimint/src/process_reaper.rs:50-72 | such runs exist, also with spurious wake-ups that never stop |
| Encoding.BigSizeRoundTrip | fedimint-core/src/encoding/btc.rs:324-346 | an encoded integer decodes to itself and leaves what follows |
| Encoding.BigSizeCanonical | fedimint-core/src/encoding/btc.rs:332-346 | only the shortest encoding decodes |
| Encoding.BigSizeOrder | fedimint-core/src/encoding/mod.rs:521-543 | smaller integers encode to lexicographically smaller bytes |
| Encoding.BytesRoundTrip | fedimint-core/src/encoding/collections.rs:31-60 | byte vectors round trip with a suffix |
| Encoding.BigSizeBytes | fedimint-core/src/encoding/btc.rs:324-346 | integers around the first two changes of width, byte by byte |
| LogKeys.KeyByteOrder | fedimint-client/src/db.rs:193-203 | the byte order of encoded chronological keys is the order by time, then operation id |
| LogKeys.FindsSlice | fedimint-client/src/oplog.rs:162-167 | a forward range query returns a contiguous slice of the sorted keys |
| LogKeys.NewestFirstExact | fedimint-client/src/oplog.rs:133-194 | the reference listing is exactly the keys below the start, each once, strictly descending |
| EpochRanges.RangePlaces | fedimint-client/src/oplog.rs:369-416 | range `i` is `i` epochs before the start |
| EpochRanges.RangesPartition | fedimint-client/src/oplog.rs:369-416 | for any positive epoch the ranges are finitely many, adjacent, descending and disjoint; each key from the last entry up to the start is in exactly one; none holds a key at or above the start |
| EpochRanges.PushEpoch | fedimint-client/src/oplog.rs:169-174 | the inner loop pushes an epoch's keys, newest first, until the page is full |
| EpochRanges.CollectPage | fedimint-client/src/oplog.rs:153-175 | the nested loops compute the walk that the lemmas reason about, for any keys and any end |
| EpochRanges.WalkExact | fedimint-client/src/oplog.rs:153-175 | with a lower bound of the log as its end, the walk returns the newest keys below the start up to the limit, or panics exactly when it reaches before the Unix epoch |
| EpochRanges.PanicsExactly | fedimint-core/src/encoding/mod.rs:283-291 | the panic condition in closed form: the last epoch stop is less than one epoch after the Unix epoch and the page is not full before it |
| EpochRanges.SafeAfterFirstEpoch | fedimint-client/src/oplog.rs:369-416 | no panic for a log whose oldest key is at least one epoch after the Unix epoch |
| EpochRanges.EpochClockPanics | fedimint-client/src/oplog.rs:369-416 | the first page of a log with one fresh entry panics if and only if the clock is within the first week less 30 s after the Unix epoch |
| EpochRanges.NextPage | fedimint-client/src/oplog.rs:133-154 | the reference page after a page's last key continues the listing |
| OperationLog.AddConsistent | fedimint-client/src/oplog.rs:84-120 | an add, back-dated or not, committed or rolled back, keeps the cached oldest key a lower bound |
| OperationLog.LookupConsistent | fedimint-client/src/oplog.rs:47-65 | a lookup keeps it and leaves the cache empty only for an empty log |
| OperationLog.TableIsCommitted | fedimint-client/src/oplog.rs:84-120 | the table holds exactly the committed keys of any history and an entry for exactly their operations |
| OperationLog.OnePage | fedimint-client/src/oplog.rs:133-175 | in a consistent log a page call is "sort descending and take", or panics exactly under the closed condition |
| OperationLog.CallIsNewest | fedimint-client/src/oplog.rs:133-175 | a page is the newest keys below the last one seen, or without one below now plus 30 s; whatever qualifies and is missing is older than the whole, full page |
| OperationLog.EntriesAreCommitted | fedimint-client/src/oplog.rs:84-120 | after any history the entry of an operation is the one its first committed add stored |
| OperationLog.HighCacheHides | fedimint-client/src/oplog.rs:148-160 | a cached key above a committed one makes a page miss it, so pages rest on the cached bound |
| LogPages.FollowedExactly | fedimint-client/src/oplog.rs:133-194 | passing last keys back in lists every key below the start, newest first, exactly unless one of the calls panics |
| LogPages.LateCacheIsSafe | fedimint-client/src/oplog.rs:133-194 | no call panics when the cached key is at least one epoch after the Unix epoch |
| LogPages.FollowPanicsExactly | fedimint-client/src/oplog.rs:133-194 | with the cache at the oldest key, listing panics if and only if that key is from the first epoch |
| LogPages.CacheIsOldest | fedimint-client/src/oplog.rs:47-120 | without rollbacks the cached key is the oldest committed one |
| LogPages.PagesRefineLog | fedimint-client/src/oplog.rs:133-194 | after any history of adds, back-dated, committed or rolled back: each page call as above, and following the calls lists exactly the committed keys below the start, each once and descending, or panics exactly when one of the calls does |
| LogPages.ListedExactly | fedimint-client/src/oplog.rs:133-194 | after any history without rollbacks, following the calls lists the log if and only if no committed key is from the first epoch |
| OperationLog.OperationLog.constructor | fedimint-client/src/oplog.rs:37-42 | starts empty with no cached key |
| OperationLog.OperationLog.GetOldestOperationLogKey | fedimint-client/src/oplog.rs:47-65 | returns and caches the oldest key, keeping consistency |
| OperationLog.OperationLog.AddOperationLogEntry | fedimint-client/src/oplog.rs:84-120 | panics, changing nothing, exactly for an operation already there or a time before the Unix epoch; else a commit adds just the key and the entry, and commit or not the cached key is lowered to a smaller one |
| OperationLog.OperationLog.FindEntries | fedimint-client/src/oplog.rs:182-191 | every key of a page is paired with its stored entry, in order, and none is missing |
| OperationLog.OperationLog.PaginateOperationsRev | fedimint-client/src/oplog.rs:133-194 | unless it panics: the newest keys, in descending order and up to the limit, among those before the last one seen, or without one before now plus 30 s; each with its entry, whose lookup cannot fail |
| OldestKeyRace.GuardedRunsAreSound | fedimint-client/src/oplog.rs:47-120 | with adds, lookups and transactions of several adds split into their steps, a run in which no lookup overlaps an older uncommitted add never hides a committed key |
| OldestKeyRace.UnguardedLosesKeys | fedimint-client/src/oplog.rs:47-120 | any overlapping step can be continued to a state whose cache hides a committed key |
| OldestKeyRace.SafeIffGuarded | fedimint-client/src/oplog.rs:47-120 | a step keeps the log safe if and only if it does not overlap |
| OldestKeyRace.RunSafeExactly | fedimint-client/src/oplog.rs:47-120 | over a whole run from a safe log every state is safe if and only if no step overlaps |
| OldestKeyRace.SafeExactly | fedimint-client/src/oplog.rs:47-120 | a log is safe if and only if, however the open adds and lookups finish, no committed key is hidden |
| OldestKeyRace.CommittedExactly | fedimint-client/src/oplog.rs:84-120 | after every run the committed keys are exactly those that a transaction inserted and whose next end was a commit |
| OldestKeyRace.CacheOnlyLowers | fedimint-client/src/oplog.rs:47-120 | once the cache is set and no lookup is under way, every run from there only lowers it |
| OldestKeyRace.LookupCachesOldest | fedimint-client/src/oplog.rs:52-62 | a lookup that found the cache empty and the table not reads and caches the oldest committed key |
| OldestKeyRace.EmptyLookupLeaves | fedimint-client/src/oplog.rs:52-62 | a lookup in an empty table leaves everything as it was |
| OldestKeyRace.RollbackLeaves | fedimint-client/src/oplog.rs:111-119 | a rolled-back add leaves nothing behind but a lowered cache |
| OldestKeyRace.OverlapHidesKey | fedimint-client/src/oplog.rs:47-120 | a concrete run from the empty log that hides a committed key |
| OutcomeCache.OperationLogEntry.constructor | fedimint-client-module/src/oplog.rs:137-147 | the outcome column as given |
| OutcomeCache.OperationLogEntry.SetOutcome | fedimint-client-module/src/oplog.rs:208-210 | overwrites the outcome |
| OutcomeCache.OperationLogEntry.CachingUpdateStream | fedimint-client/src/oplog.rs:426-463 | passes every update on unchanged and writes the last one exactly when it is terminal and the write succeeds |
| OutcomeCache.AwaitOutcome | fedimint-client-module/src/oplog.rs:248-259 | the cached outcome, or the last update of the stream |
| OutcomeCache.OnlyTerminalCached | fedimint-client/src/oplog.rs:426-463 | over any interleaving of subscribers the cache is its initial value or a terminal update |
| OutcomeCache.CacheIsTransparent | fedimint-client/src/oplog.rs:254-309 | if complete streams end on the terminal `v` and the cache starts absent, unreadable, non-terminal or `v`, it is ever only its initial value or `v`, and everyone who waited to the end got `v`, with streams abandoned and writes lost |
| OutcomeCache.TerminalIsCached | fedimint-client/src/oplog.rs:437-462 | in every run, when a subscriber's stream has ended on a terminal update and its write succeeds, however much later, the cache is that update |
| OutcomeCache.OtherEndsAreNotCached | fedimint-client/src/oplog.rs:444-459 | a stream that ends empty or on an update that is not terminal writes nothing |
| OutcomeCache.ServedFromCache | fedimint-client/src/oplog.rs:264-267 | a reader that finds a terminal value is done with it and opens no stream |
| OutcomeCache.StreamsEverything | fedimint-client/src/oplog.rs:426-463 | a reader that finds none can open a stream and sees all its updates in order |
| OutcomeCache.TerminalStreamIsCached | fedimint-client/src/oplog.rs:437-462 | the end of a stream on a terminal update and the write after it leave that update cached and delivered |
| OutcomeCache.OnlyWritesCache | fedimint-client/src/oplog.rs:437-462 | in a run without a successful write the cache stays as it was |
| OutcomeCache.AbandonStops | fedimint-client/src/oplog.rs:426-463 | a stream can be dropped whenever its subscriber is not done, and that subscriber then writes nothing |
| OutcomeCache.DoneStays | fedimint-client/src/oplog.rs:437-463 | a subscriber that is done keeps its result in every run |
| OutcomeCache.TransparentExactly | fedimint-client/src/oplog.rs:254-291 | everyone is always served `v` if and only if the cache does not start as another terminal outcome |
| OutcomeCache.StaleTerminalSticks | fedimint-client/src/oplog.rs:254-291 | a stale terminal outcome is served instead of the stream |
| MigrateState.MigrateOneKeeps | fedimint-client-module/src/db.rs:34-50 | a rewritten state keeps its instance prefix; a state that is not migrated stays byte for byte |
| MigrateState.MigrateAllPointwise | fedimint-client-module/src/db.rs:27-79 | length and order are kept, each state is rewritten on its own, and it fails iff one state fails |
| MigrateState.MigrationFailsExactly | fedimint-client-module/src/db.rs:32-53 | a rewrite of both tables fails iff the instance prefix of a state does not decode or the rewrite rejects a state |
| MigrateState.MigrateLoop | fedimint-client-module/src/db.rs:32-53 | one rewriting loop computes the pointwise rewrite |
| MigrateState.MigrateStateMachines | fedimint-client-module/src/db.rs:27-79 | both loops: an error iff one state fails, else the rewritten lists of both tables |
| MigrateState.FaithfulList | fedimint-client-module/src/db.rs:27-79 | an injective rewrite turns a duplicate-free list into a duplicate-free list of the image |
| Migration.RemoveOldAndPersistNew | fedimint-client/src/db.rs:988-1054 | the table with old rows replaced by new ones, or a panic exactly when a removed row is missing or an inserted one exists |
| Migration.GetStates | fedimint-client/src/db.rs:946-983 | exactly the module's states, each once |
| Migration.ApplyOne | fedimint-client/src/db.rs:876-928 | one turn of the loop: the step of the fold, with tables, lists in memory and module data kept equal |
| Migration.MigrationLoop | fedimint-client/src/db.rs:876-929 | the whole loop ends in the fold, the error or the panic; no removal misses its row |
| Migration.ApplyMigrations | fedimint-client/src/db.rs:812-939 | the call ends as specified from the database alone, whatever order the rows are read in; `MigrationRuns.MigrationIsFold` says what that is for each kind of database |
| Migration.ClientDatabase.ApplyMigrationsClientModule | fedimint-client/src/db.rs:795-810 | the database changes only on success |
| MigrationRuns.MigrationIsFold | fedimint-client/src/db.rs:843-930 | with confined migrations, from the stored version, else the legacy version, else the target for a new and 0 for an old database: an error iff that version is above the target or a step fails, and else the version is the target, the module's states and data are the plain fold of what was on disk, and those of all other modules are untouched |
| MigrationRuns.GapPanics | fedimint-core/src/db/mod.rs:2349-2361 | migrations with a gap between their versions make every call panic |
| MigrationRuns.CurrentIsBehindLast | fedimint-core/src/db/mod.rs:2349-2366 | the target is right behind the last migration, and 0 if there is none |
| MigrationRuns.PointwiseFold | fedimint-client/src/db.rs:876-928 | with injective per-state rewrites the fold is the image of the state sets under each rewrite in turn |
| MigrationRuns.CollisionPanics | fedimint-client/src/db.rs:988-1017 | a rewrite that merges two states panics |
| MigrationRuns.ForgettingPanics | fedimint-client/src/db.rs:988-1017 | a concrete database and rewrite on which the call panics |
| MigrationRuns.FoldedExactly | fedimint-client/src/db.rs:876-928 | a run of per-state rewrites succeeds if and only if each fails on no state and keeps the states of a table apart |
| MigrationRuns.TwoCallsAreOne | fedimint-client/src/db.rs:876-928 | migrating to `b` and later on from `b` leaves the same database as one call, whatever order rows are read in |
| Gossip.AnnouncementDb.StoreUpdates | fedimint-client/src/api_announcements.rs:193-222 | the store becomes the pointwise merge: a record is replaced only by a strictly newer nonce |
| Gossip.AnnouncementDb.StoreUpdatesFromPeers | fedimint-client/src/api_announcements.rs:76-83 | the responses of several peers are merged in turn |
| Gossip.StoredIsNewest | fedimint-client/src/api_announcements.rs:193-222 | the stored record is one of those seen and has the greatest nonce seen, whatever the order, batching or repetition |
| Gossip.Converges | fedimint-client/src/api_announcements.rs:76-83 | stores that saw the same records are equal, if no peer reuses a nonce for other content |
| Gossip.OrderMattersExactly | fedimint-client/src/api_announcements.rs:201-214 | two records of a peer give different stores in different orders if and only if they reuse a nonce that is newer than the stored one |
| Gossip.ReusedNonceDiverges | fedimint-client/src/api_announcements.rs:201-214 | a concrete reused nonce for which the order of arrival decides the store |
| Gossip.StoredWins | fedimint-client/src/api_announcements.rs:193-222 | the stored record is the earliest arrival among those with the greatest nonce |
| Gossip.SameStoreExactly | fedimint-client/src/api_announcements.rs:76-83 | any two histories leave the same store if and only if for every peer the same record wins in both |
| Gossip.MetadataDb.StoreUpdates | fedimint-client/src/guardian_metadata.rs:192-247 | merges exactly the records that verify under their guardian's key and are not stamped too far ahead |
| Gossip.MetadataDb.StoreUpdatesFromPeers | fedimint-client/src/guardian_metadata.rs:70-78 | the responses of several peers, each with the clock at its turn |
| Gossip.SeenIsVerified | fedimint-client/src/guardian_metadata.rs:205-226 | a record not there before came with a response and verified when it came |
| Gossip.VerifiesExactly | fedimint-core/src/net/guardian_metadata.rs:194-217 | a record verifies iff its guardian is known, the signature is by its key and the timestamp is at most an hour ahead, the sum saturating at 64 bits |
| Gossip.ValidNewerIsStored | fedimint-client/src/guardian_metadata.rs:192-247 | a record that is valid by those rules and newer than the stored one is what a batch leaves stored |
| Gossip.MetadataRuns | fedimint-core/src/net/guardian_metadata.rs:194-217 | over any responses timestamps never decrease, new records verified under their guardian's key, and none is stamped more than an hour after the latest clock |
| FetchLoop.AllPeers | fedimint-core/src/peer_id.rs:68-70 | the ids below the number of guardians, that many |
| FetchLoop.CheckReply | fedimint-client/src/api_announcements.rs:114-133 | a response is accepted iff the request succeeded and every entry is valid |
| FetchLoop.FetchFromAtLeast | fedimint-client/src/api_announcements.rs:138-191 | the loop, for any feasible schedule of replies and timeouts, computes the run the lemmas reason about |
| FetchLoop.EveryRunAccounts | fedimint-client/src/guardian_metadata.rs:137-190 | in every run each peer is pending or has exactly one accepted response, and both together number all peers |
| FetchLoop.FetchedEnough | fedimint-client/src/api_announcements.rs:149-191 | on return: at least the required number of responses (or all peers), at most one per peer, each sent by its peer and valid as a whole; all peers unless a timeout ended it |
| FetchLoop.ValidIsAccepted | fedimint-client/src/api_announcements.rs:114-133 | in every run a response all of whose entries are valid is among the results, as its peer's |
| FetchLoop.InvalidIsRetried | fedimint-client/src/api_announcements.rs:114-133 | a failed request, or a response with an invalid entry, changes nothing: the peer is asked again |
| FetchLoop.PendingExactly | fedimint-client/src/api_announcements.rs:138-191 | in every run a peer is pending iff no valid response of it has come in |
| FetchLoop.NextExactly | fedimint-client/src/api_announcements.rs:149-191 | in every run the loop goes on iff the wait is not over and some peer has sent no valid response; only such a peer can complete, and the wait can end only once the required number have |
| FetchLoop.RefreshIsGenuine | fedimint-client/src/api_announcements.rs:48-83 | fetching and then storing announcements moves every peer only to newer nonces, and every new record is signed with a known guardian's key, although the store checks nothing |
| FetchLoop.NewRecordWasAccepted | fedimint-client/src/api_announcements.rs:114-133 | for any check of entries: a record that a refresh put in passed the check in an accepted response |
| FetchLoop.RecheckSkipsNothing | fedimint-client/src/guardian_metadata.rs:70-135 | metadata that verified when it was fetched verifies when it is stored, each map at its own clock reading, so the second check skips none of it |
| RpcLifecycle.FinishedTraces | fedimint-client-rpc/src/lib.rs:527-573 | in every interleaving a finished trace is data, at most one error and exactly one end marker; `Aborted` means a cancel took the handle |
| RpcLifecycle.AbortedExactly | fedimint-client-rpc/src/lib.rs:518-523 | a request ends `Aborted` if and only if a cancel took its handle and no canceller is still between taking it and raising the flag |
| RpcLifecycle.LateAbortEnds | fedimint-client-rpc/src/lib.rs:518-523 | a concrete run in which the handle was taken and the trace ends in `End` |
| RpcLifecycle.OneGoAbortsExactly | fedimint-client-rpc/src/lib.rs:518-573 | if cancels take the handle and raise the flag in one go, `Aborted` iff a cancel removed the handle |
| RpcLifecycle.TableIsInFlight | fedimint-client-rpc/src/lib.rs:178-188 | with distinct ids in flight the handle table is exactly the uncancelled requests in flight |
| RpcLifecycle.TableStepExactly | fedimint-client-rpc/src/lib.rs:178-188 | a step keeps the table exact if and only if a request finds its id free and a clean-up finds its id gone or its own |
| RpcLifecycle.TableExactExactly | fedimint-client-rpc/src/lib.rs:518-573 | in any run, ids reused or not, the table is exact at every state if and only if every step meets that condition |
| RpcLifecycle.CleanUpTakesAnother | fedimint-client-rpc/src/lib.rs:560-561 | a concrete run in which a cancelled request removes the handle of a later one |
| RpcLifecycle.FinishedAnswers | fedimint-client-rpc/src/lib.rs:540-570 | in every interleaving a finished request has answered exactly the items polled from its stream, in order, and then its end marker |
| RpcLifecycle.AbortStopsPolling | fedimint-client-rpc/src/lib.rs:541-558 | in every run nothing is polled for a request once its abort flag is up |
| RpcLifecycle.AbortStopsAnswers | fedimint-client-rpc/src/lib.rs:541-570 | what such a request answers in all is what had been polled when the flag went up, and then `Aborted` |
| RpcLifecycle.RequestsAreAnswered | fedimint-client-rpc/src/lib.rs:527-573 | in every reachable state a request with any id and any stream of values, up to one error at its end, can be answered with all of it and `End` |
| RpcLifecycle.ReuseLosesHandle | fedimint-client-rpc/src/lib.rs:178-188 | a reused id leaves a running request without a handle |
| RpcLifecycle.RpcGlobalState.AddRpcHandle | fedimint-client-rpc/src/lib.rs:178-183 | registers the handle and reports an id in use |
| RpcLifecycle.RpcGlobalState.RemoveRpcHandle | fedimint-client-rpc/src/lib.rs:185-188 | removes and returns the handle, if any |
| RpcLifecycle.RpcGlobalState.RunTask | fedimint-client-rpc/src/lib.rs:540-570 | the responses to the polled items in order, then one end marker, with the handle gone |
| VersionDiscovery.BinarySearch | fedimint-core/src/module/version.rs:268-271 | where a major number is, or the only place it can go |
| VersionDiscovery.TryInsert | fedimint-core/src/module/version.rs:267-282 | adds a version iff its major number is new, keeping the list sorted and unique |
| VersionDiscovery.TryFromIter | fedimint-core/src/module/version.rs:351-361 | accepts a list iff no major number repeats, and keeps all of it |
| VersionDiscovery.GetByMajor | fedimint-core/src/module/version.rs:284-294 | the entry of a major number, if there is one |
| VersionDiscovery.OptimalUnique | fedimint-client-module/src/api_version_discovery.rs:11-52 | at most one version is served by the most peers, with the lowest major and then the highest minor number |
| VersionDiscovery.CountServers | fedimint-client-module/src/api_version_discovery.rs:20-27 | the number of peers that serve a version |
| VersionDiscovery.CoreServesExactly | fedimint-core/src/module/version.rs:426-439 | a peer serves a core version iff it has the client's core consensus major and offers that API major with at least that minor |
| VersionDiscovery.ModuleServesExactly | fedimint-core/src/module/version.rs:471-489 | the same for a module, with the core and the module consensus major of that instance |
| VersionDiscovery.SmallestMinor | fedimint-client-module/src/api_version_discovery.rs:42-49 | the greatest lower bound of the compatible peers' minor numbers; there is one whenever a peer is compatible |
| VersionDiscovery.Discover | fedimint-client-module/src/api_version_discovery.rs:11-52 | the optimal version, or `None` exactly when no peer serves any version the client can talk |
| VersionDiscovery.UselessPeer | fedimint-client-module/src/api_version_discovery.rs:169-211 | a peer that serves nothing the client can talk changes nothing |
| VersionDiscovery.DiscoverSet | fedimint-client-module/src/api_version_discovery.rs:213-256 | an error iff no core version is served; else the optimal core version and the optimal versions of exactly the served modules |
| OrderedMaps.EntriesExact | fedimint-core/src/encoding/collections.rs:180-193 | the entries in key order make up the map |
| OrderedMaps.EntriesUnique | fedimint-core/src/encoding/collections.rs:195-221 | an increasing list is how its map is walked |
| BackupCodec.ListRoundTrip | fedimint-core/src/encoding/collections.rs:180-221 | entries round trip with a suffix |
| BackupCodec.ListCanonical | fedimint-core/src/encoding/collections.rs:195-221 | what decodes is increasing and is the encoding of what it decodes to |
| BackupCodec.ModulesRoundTrip | fedimint-core/src/encoding/collections.rs:180-221 | the map of module backups round trips with a suffix |
| BackupCodec.ModulesThroughWindow | fedimint-core/src/encoding/mod.rs:258-266 | through the size-limited reader it decodes exactly if its encoding fits the limit |
| BackupCodec.BackupDecodes | fedimint-client/src/backup.rs:92-133 | a backup decodes from its encoding and anything after it, exactly within the decoding limits |
| BackupCodec.OldBackupDecodes | fedimint-client/src/backup.rs:111-133 | a backup whose old-style padding is filled decodes to the same backup; each part must be within 16 MB |
| BackupCodec.BackupBytes | fedimint-client/src/backup.rs:92-113 | one backup byte by byte, which fixes the order of the parts |
| Backup.AlignmentSize | fedimint-client/src/backup.rs:145-148 | the least positive multiple of 4096 that covers the length |
| Backup.EncryptRoundTrip | fedimint-client/src/backup.rs:151-166 | decrypting an encrypted backup returns it despite the padding, exactly within the decoding limits |
| Backup.EncryptsPadded | fedimint-client/src/backup.rs:151-158 | what is encrypted is the encoding followed by zeros, up to the least positive multiple of 4096 |
| Backup.KeepPart | fedimint-client/src/backup.rs:187-218 | the choice between new and previous part of one module |
| Backup.FallbackModules | fedimint-client/src/backup.rs:173-225 | the loop over the ids of both backups computes the pointwise choice |
| Backup.ValidateAndFallback | fedimint-client/src/backup.rs:173-230 | session count and metadata are the new ones; the modules are the fallback |
| Backup.FallbackKeeps | fedimint-client/src/backup.rs:173-225 | small new parts are taken, no previous id is dropped, and nothing else appears |
| Backup.FallbackExactly | fedimint-client/src/backup.rs:187-218 | the fallback is the one map with, for every id, the new part if it encodes to less than 32 KiB, else the previous part if there is one, else nothing |
| Backup.OversizedExactly | fedimint-client/src/backup.rs:187-218 | an oversized part is kept iff the previous backup had one and no small new part replaces it |
| Backup.OversizedStays | fedimint-client/src/backup.rs:187-218 | a concrete oversized stored part that is kept |
| Backup.StoredStep | fedimint-client/src/backup.rs:331-352 | one call keeps stored parts small and stored ids present |
| Backup.StoredRuns | fedimint-client/src/backup.rs:331-352 | over any series of calls from no stored backup, every stored part is below 32 KiB and every id stored earlier is kept |
| Backup.StoredExactly | fedimint-client/src/backup.rs:331-352 | a call stores that fallback, uploaded or not, exactly if no recovery is pending, the modules reported, it encrypts and the ciphertext is at most 128 KiB; else nothing changes |
| Backup.StoredIsRecoverable | fedimint-client/src/backup.rs:233-250 | whenever a run stores a new backup, what it uploads decrypts to exactly that backup |
| Backup.Client.BackupToFederation | fedimint-client/src/backup.rs:331-352 | the stored backup after a call, and exactly when the call succeeds; after a success it is the fallback of the new backup on the previous one |

## Left out

- ReaperFairness.InevitableDespiteWakeUps: runs in which new calls never stop are not covered; a barrier wait may then never see the queue empty, since it waits for all kills and not only for its own.
- Migration.GetStates: rows come in an arbitrary order rather than in key order, which is more general.
- VersionDiscovery.DiscoverSet: the two discovery loops of the source, equal up to how a peer is asked for a minor number, are one method with that lookup as a parameter; peers' version lists are assumed sorted, as their deserialisation checks.
- The creation and exit times in the value column of state machine rows.
- The typed decoding of module backups and of dynamic states by their modules; payloads are opaque bytes.
- Database internals: transactions are atomic steps and `autocommit` retries are not modelled, except where `OldestKeyRace` splits them.
- Cryptography: signatures are a predicate, encryption an invertible, non-shrinking cipher.
- The single-answer `FilterMap` strategy and `request_with_strategy_retry`, which only add easy members.
- `get_api_urls`, `InitState` and the other operation log accessors, which one branch settles.
- Backoff durations, logging and metrics.
- The rest of devimint, the command line, the web assembly bindings, connectors and bitcoin clients.
