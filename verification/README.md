# Time-off service: verified model

A Dafny model of the time-off microservice in `src/`: how requests are created, approved, rejected and
cancelled against balance records, how balances follow the human-capital-management system (HCM), and the
timing machinery around HCM calls. `dafny verify dfyconfig.toml` checks all of it.

The model has four linked cores.

1. **Requests and balances.** `Ledger` holds the tables (balances by employee, location and leave type;
   requests; idempotency rows) and each operation as a function from tables to tables: a transaction
   either commits or leaves the tables alone. `Coverage` says what the amounts mean in calendar days.
   `CreateProtocol` is `createRequest` with its idempotency checks, bounded transaction retry and recovery
   after a unique-key clash, first alone, then with any number of calls interleaved; `Replies` shows that
   comparing hashes is enough for replies to grant what was asked, and `Creation` says exactly when a create
   succeeds and what it leaves. `BalanceWindows` takes the balance methods
   apart into their read and their save. `Services` holds the objects whose fields the source updates in place,
   each method proved against those functions.
2. **The create lane.** `CreateLanes` is the per-key FIFO lock built from chained promises, step by step.
   `OverlapSafety` interleaves check, deduct, insert and commit of any number of creates with approvals,
   rejections and cancellations on the SQLite path, where no database lock is taken.
3. **HCM synchronisation.** `Reconciliation` is the nightly fold over the snapshot, `HcmSync` the job around
   it with its accounting, `RetryWorker` the bounded background retry.
4. **Resilience and time.** `Breaker`, `CircuitBreakerObject` and `TwinBreaker` (the two circuit breakers),
   `Resilience` (retry around the breaker), `RateLimiting`, `TokenBucket`, `Dates` and `DayRanges`;
   `CanonicalJson` is the key-sorted form behind the payload hash.

Clocks, HCM answers, database faults and schedules are inputs, and every result is for all of them. Day
numbers follow section 21.4.1 of ECMA-262. Code with mutable state is a class or a method; what it promises is
stated of the function its `ensures` names, and proved there, in terms of the rows, amounts and limits themselves
rather than of the model's own constants.

## Where the model shows a promise failing

- *A replay is not always answered from the store.* Input checks come before the idempotency lookup, so a
  request accepted on its start date and replayed after midnight, inside its key's 24 hours, is answered
  INVALID_DATE_RANGE (`ReplayAfterMidnight`). A replay with a live key and equal payload gets the stored answer
  exactly when it passes the input checks (`ReplayReturnsStored`).
- *Equal sorted forms do not always mean equal payloads.* `acc[key] = ...` with the key `__proto__` adds no
  member, so such members vanish from the hash (`ProtoMemberIsLost`). Equality holds exactly up to those members
  (`SortedFormsDecideEquality`), hence outright for payloads without them (`CanonicalForm`).
- *An expired key does not allow reprocessing*, although a comment says so (timeoff.service.js:419): the request
  row keeps its unique key, so when the days are free and funded the caller gets the old request back, whatever
  the new payload (`ExpiredKeyReturnsOldRequest`); no second request is ever created (`UsedKeyNeverCreatesAgain`).
- *The two breakers do not always agree.* Over a history of overlapping calls they show the same mode and failure
  count throughout if and only if no success settles while the first is OPEN (`TwinsAlikeIff`): such a success
  closes the second during the cooldown and leaves the first open (`OverlapSeparatesTwins`).
- *Client errors open the breaker.* A 4xx answer is not retried but counts as a failure of HCM: k of them in a row
  leave the breaker OPEN, for everybody's calls, if and only if k is what it still tolerates
  (`ClientErrorsTripTheBreaker`).
- *A logical HCM call can crash instead of yielding null*, if and only if the retry limit is below one
  (`CrashIffNoAttempts`): `withRetry` then throws `undefined` and the handler raises on reading its code.
- *Without a database lock a balance update can be lost.* The balance methods read a row and save whole amounts
  later. An approval that falls between a create's read and its save is undone, and both commit
  (`ApprovalIsLost`); available + pending + used does not show it (`TotalSurvives`). Nothing is lost if and only if
  every save still finds the amounts it read (`NothingLostIffFresh`), which is what the documented version check
  would enforce; windows that do not overlap are enough (`ApartLosesNothing`).

## Where code and documentation differ

The model follows the code.

- README.md:94-101 and balance.service.js:61-74 describe a conditional UPDATE with a version check; the code reads
  the row, checks it and saves it.
- hcm.service.js:18-20 calls the breaker the outermost layer; `withRetry` wraps the breaker (hcm.service.js:57-66,
  161-174).
- hcm-sync.service.js:30 says records omitted by HCM are left unchanged; lines 110-135 flag them.

## Model

| member | source | states |
|---|---|---|
| Ledger.LedgerAgreement | src/modules/timeoff/timeoff.service.js:89-360 | from agreeing tables, any sequence of creates, approvals, rejections, cancellations, upserts, HCM updates and sync bookkeeping (HCM totals not negative) keeps: pending and used are the sums of days over the pending and approved requests, available + pending + used = total, no part negative, active requests of an employee and place disjoint, requests and idempotency rows one-to-one by key |
| Ledger.EmptyTablesAgree | src/modules/timeoff/timeoff.service.js:52-65 | a fresh database satisfies that invariant |
| Ledger.OpKeepsInv | src/modules/balance/balance.service.js:75-282 | the same for one operation, which may also fail |
| Ledger.CreateKeepsInv | src/modules/timeoff/timeoff.service.js:142-190 | a committed create keeps the invariant |
| Ledger.TransitionsNeverUnderflow | src/modules/timeoff/timeoff.service.js:251-360 | approve, reject and cancel commit if and only if the request exists and is pending; otherwise the error is "not found" or "invalid transition"; the missing-balance and pending-underflow branches never fire |
| Ledger.PendingCovers | src/modules/balance/balance.service.js:136-149 | a pending request's days never exceed its balance's pending amount |
| Ledger.TransitionEffect | src/modules/balance/balance.service.js:151-193 | a committed transition moves exactly the request's days out of pending, into used on approval and back to available otherwise, records approver and reason, keeps the total and every other row and balance |
| Ledger.ApproveEffect | src/modules/timeoff/timeoff.service.js:251-286 | approving a pending request makes it APPROVED with the approver recorded and its reason kept, moves exactly its days from pending to used with available kept, and changes nothing else |
| Ledger.RejectEffect | src/modules/timeoff/timeoff.service.js:292-326 | rejecting makes it REJECTED with approver and reason recorded and its days back in available, and changes nothing else |
| Ledger.CancelEffect | src/modules/timeoff/timeoff.service.js:332-360 | cancelling makes it CANCELLED with the reason recorded, the approver kept and its days back in available, and changes nothing else |
| Ledger.SettledRequestsStay | src/modules/timeoff/timeoff.service.js:507-516 | a request that is not pending or not there is left alone by all three, with the error that says so, whatever the tables |
| Ledger.UpsertEffect | src/modules/balance/balance.service.js:200-224 | for an absent key total, available and hcmTotal are the argument, pending and used 0, no version, no discrepancy; an existing record and every other one stay |
| Ledger.SyncEffect | src/modules/timeoff/timeoff.service.js:518-638 | HCM bookkeeping changes three fields of one row |
| Ledger.BodyShowsRequest | src/modules/timeoff/timeoff.service.js:726-748 | the answer shows the request's status, approver, reason, notes and other fields as stored |
| Ledger.CreateEffect | src/modules/timeoff/timeoff.service.js:151-189 | a committed create appends one pending request, moves exactly its days from available to pending, stores one idempotency row describing it, and changes nothing else |
| Ledger.BalanceOpKeepsInv | src/modules/balance/balance.service.js:200-282 | upserts, real-time updates, reconciliations and flags keep the invariant, whatever total HCM reports |
| Ledger.BookkeepingKeepsInv | src/modules/timeoff/timeoff.service.js:518-638 | HCM bookkeeping on a request row (the async helpers' updates) keeps the invariant |
| Ledger.StatusesAreFinal | src/common/constants/index.js:55-65 | over any run no request's key, owner, dates or days change, no request is lost, and a status that has left pending never changes again |
| Coverage.CoverageHolds | src/modules/timeoff/timeoff.service.js:114-174 | after any run, pending + used summed over all leave types of an employee at a place is the number of distinct calendar days covered by their pending and approved requests |
| Coverage.WindowHoldsItsDays | src/modules/timeoff/timeoff.service.js:441-467 | after any run, active requests lying inside a window of n days total at most n days |
| Coverage.DisjointDaysAddUp | src/common/utils/date.util.js:14-22 | days of selected requests of one employee and place add up to the size of the set of days they cover |
| Coverage.LeaveTypesPartition | src/common/constants/index.js:3-10 | the days of active requests split over the six leave types |
| Coverage.OverlapMeansCovered | src/modules/timeoff/timeoff.service.js:441-467 | the overlap scan finds a conflict if and only if some wanted day is already covered by an active request of that employee and place |
| Coverage.CreateCommitsIff | src/modules/timeoff/timeoff.service.js:149-187 | the transaction commits if and only if no wanted day is covered, the balance exists and holds the days, and the key is unused; overlap, missing balance, insufficient balance and used key each if and only if its condition is the first to fail |
| Creation.CreateSucceedsIff | src/modules/timeoff/timeoff.service.js:89-245 | under a new key and without faults a create returns a new request if and only if the key is given, today <= start <= end, no pending or approved request of the employee and place has a wanted day, and the balance exists and holds the days; otherwise nothing changes and the error names the first of these to fail |
| Creation.CreatedContent | src/modules/timeoff/timeoff.service.js:151-189 | the tables and the answer after it, field by field: the caller's own content, status PENDING, days moved from available to pending, and the key good for exactly 24 hours |
| CreateProtocol.ChecksPassIff | src/modules/timeoff/timeoff.service.js:90-112 | a request passes the input checks if and only if it has a key and today <= start <= end; MISSING_IDEMPOTENCY_KEY exactly for the empty key, INVALID_DATE_RANGE otherwise |
| CreateProtocol.FatalFailureSurfaces | src/modules/timeoff/timeoff.service.js:672-685 | a database failure that is not transient surfaces on the attempt it strikes, not retried, with nothing changed |
| CreateProtocol.ClashIsExplained | src/modules/timeoff/timeoff.service.js:214-224 | after a unique-key clash the caller gets the request or stored answer of its key, or a conflict if a live payload differs; never the constraint error |
| CreateProtocol.ExactlyOnce | src/modules/timeoff/timeoff.service.js:117-244 | on every interleaving of any number of calls and other operations, with any clock and faults: the ledger invariant holds, each key has at most one request, every call that returned describes the one request of its key, and each request was inserted by one call of its key that returned |
| CreateProtocol.ThrownCallsCommittedNothing | src/modules/timeoff/timeoff.service.js:214-243 | on every interleaving, a call that threw inserted nothing |
| CreateProtocol.CommittersDiffer | src/modules/timeoff/entities/timeoff-request.entity.js:22-24 | on every interleaving, no two requests were inserted under one key |
| Replies.AnswerIsWhatWasAsked | src/modules/timeoff/timeoff.service.js:412-435 | while its key is new or live, a create that returns grants the employee, place, leave type and dates of the caller's own payload, although only hashes are compared |
| Replies.CachedRepliesAreWhatWasAsked | src/modules/timeoff/timeoff.service.js:118-138 | on every interleaving each stored answer is the leave its hashed payload asked for, and an answer found under a live key grants what the call that finds it asked for |
| Replies.SortingKeepsTheAsk | src/common/utils/hash.util.js:18-29 | the sorted form of a payload asks for the same leave as the payload |
| Replies.BodyIsReadByName | src/modules/timeoff/dto/create-timeoff-request.dto.js:6-31 | an object with members employeeId, locationId, leaveType, startDate and endDate, wherever they stand among others, asks for that leave |
| Replies.NewKeyAnswer | src/modules/timeoff/timeoff.service.js:130-213 | a create under a new key throws or returns the request it has just added |
| CreateProtocol.AloneIsOneSchedule | src/modules/timeoff/timeoff.service.js:89-245 | a create nobody interrupts is one schedule of the interleaved system, with the same tables and answer |
| CreateProtocol.AllSchedulesKeepInv | src/modules/timeoff/timeoff.service.js:130-244 | the invariant behind these is kept by every schedule from any state that has it |
| CreateProtocol.ThrowsChangeNothing | src/modules/timeoff/timeoff.service.js:89-245 | a create ends with the tables as they were or with this one request added and returned; a create that throws changes nothing; the invariant is kept |
| CreateProtocol.CreateThenReplay | src/modules/timeoff/timeoff.service.js:412-435 | a committed create, replayed up to 24 hours after its commit and after any other operations, changes nothing and gets the first answer, provided it passes the input checks |
| CreateProtocol.StoredAnswersStay | src/modules/timeoff/entities/idempotency-record.entity.js:11-29 | no operation changes or removes the row stored for a used key |
| CreateProtocol.ReplayReturnsStored | src/modules/timeoff/timeoff.service.js:97-125 | a replay with a live key and equal sorted payload changes nothing, and returns the stored answer if and only if it passes the input checks |
| CreateProtocol.ReplayAfterMidnight | src/modules/timeoff/timeoff.service.js:98-103 | such a replay made on a day after the start date is answered INVALID_DATE_RANGE |
| CreateProtocol.LiveKeyOtherPayload | src/modules/timeoff/timeoff.service.js:424-431 | a live key conflicts if and only if the payload is a different tree, `__proto__` members aside; without such members, if and only if it is a different tree |
| CreateProtocol.UsedKeyNeverCreatesAgain | src/modules/timeoff/entities/timeoff-request.entity.js:22-24 | a create under a used key, expired or not, never changes the tables |
| CreateProtocol.ExpiredKeyReturnsOldRequest | src/modules/timeoff/timeoff.service.js:709-724 | under an expired key and without database faults, the caller is handed the old request as it now stands, whatever the payload, if and only if the wanted days are free and funded |
| CreateProtocol.RetriesAreInvisible | src/modules/timeoff/timeoff.service.js:667-686 | one or two transient failures leave no trace: same tables and answer as without them |
| CreateProtocol.ThreeTransientFailures | src/modules/timeoff/timeoff.service.js:226-240 | a valid create under an unused key ends as BALANCE_CONFLICT, with nothing changed, if and only if each of its three runs is struck by a transient failure before it finds an error of its own |
| CreateProtocol.AttemptsCommitOnce | src/modules/timeoff/timeoff.service.js:667-686 | a retried transaction that succeeds is one transaction, and the retry gives up as transient if and only if every remaining attempt was struck so, at whichever statement |
| CreateProtocol.ValidatedDraft | src/modules/timeoff/timeoff.service.js:97-114 | a create that passes the input checks has an ordered range and a day count equal to its length |
| CreateProtocol.FindByKey | src/modules/timeoff/timeoff.service.js:715-721 | the request found has the key, and nothing is found only if no request has it |
| Services.BalanceService.DeductAtomically | src/modules/balance/balance.service.js:75-114 | assigns the balance as the ledger's deduction does; throws BALANCE_NOT_FOUND exactly when there is no record and INSUFFICIENT_BALANCE exactly when available is less than the days, and changes nothing then |
| Services.BalanceService.Release | src/modules/balance/balance.service.js:120-154 | the same for release from pending, with BALANCE_CONFLICT exactly on underflow |
| Services.BalanceService.Finalize | src/modules/balance/balance.service.js:160-194 | the same for finalising used days, with BALANCE_CONFLICT exactly on underflow |
| Services.BalanceService.Upsert | src/modules/balance/balance.service.js:200-224 | leaves an existing record alone, stores the new one field by field if absent, and returns the stored one |
| Services.BalanceService.ApplyRealTimeUpdate | src/modules/balance/balance.service.js:235-282 | updates an existing record as `Reconciliation.RealTimeSettles` describes; null and no change when absent |
| Services.TimeOffService.LookUpKey | src/modules/timeoff/timeoff.service.js:412-435 | absent, conflict or the stored answer, an expired row counting as absent |
| Services.TimeOffService.HasOverlap | src/modules/timeoff/timeoff.service.js:441-467 | the scan answers true exactly when some active request of the employee and place meets the range |
| Services.TimeOffService.CreateTransaction | src/modules/timeoff/timeoff.service.js:142-190 | the transaction commits all of its writes or, on any error of its own and any database failure at BEGIN, between its writes or at COMMIT, leaves every table as at BEGIN |
| Services.TimeOffService.RunCreateTransactionWithRetry | src/modules/timeoff/timeoff.service.js:667-686 | the loop computes the three-attempt policy the retry lemmas are about |
| Services.TimeOffService.RecoverAfterConstraint | src/modules/timeoff/timeoff.service.js:709-724 | the live stored answer, else a conflict, else the request holding the key |
| Services.TimeOffService.CreateInLane | src/modules/timeoff/timeoff.service.js:130-244 | new tables and answer are those of the lane body in `CreateProtocol` |
| Services.TimeOffService.CreateRequest | src/modules/timeoff/timeoff.service.js:89-245 | new tables and answer are those `CreateProtocol` proves its results about |
| Services.TimeOffService.ApproveRequest | src/modules/timeoff/timeoff.service.js:251-286 | commits the ledger's approval and answers APPROVED with the approver, the earlier reason and notes, or throws with every table restored |
| Services.TimeOffService.RejectRequest | src/modules/timeoff/timeoff.service.js:292-326 | commits the ledger's rejection and answers REJECTED with approver and reason, or throws with every table restored |
| Services.TimeOffService.CancelRequest | src/modules/timeoff/timeoff.service.js:332-360 | commits the ledger's cancellation and answers CANCELLED with the reason and the earlier approver, or throws with every table restored |
| OverlapSafety.NoDayIsBookedTwice | src/modules/timeoff/timeoff.service.js:127-190 | with no database lock and every interleaving of check, deduct, insert, commit, roll-back, approve, reject and cancel, no day is covered by two distinct pending or approved requests of one employee and place |
| OverlapSafety.AllSchedulesKeepInv | src/modules/timeoff/timeoff.service.js:127-244 | the invariant behind it: lanes sound, jobs aligned with lane callers, passed checks still standing, active rows disjoint |
| OverlapSafety.SameLaneExcludes | src/modules/timeoff/timeoff.service.js:688-707 | two creates with running bodies are never for the same employee and place |
| OverlapSafety.CheckPassesIff | src/modules/timeoff/timeoff.service.js:441-467 | the check lets a create on if and only if no pending or approved row of its employee and place has a day in common |
| OverlapSafety.RowsAfter | src/modules/timeoff/timeoff.service.js:142-360 | what each step does to the rows: insert adds a pending row with the claim's content, roll-back takes its own away, each transition sets the status it is named for |
| OverlapSafety.LaneIffSamePlace | src/modules/timeoff/timeoff.service.js:127 | for ids without `:`, creates share a lane if and only if they are for one employee and place |
| OverlapSafety.InsertKeepsInv | src/modules/timeoff/timeoff.service.js:160-174 | an insert keeps active rows disjoint and leaves every other passed check standing |
| OverlapSafety.ChecksAloneAreNotEnough | src/modules/timeoff/timeoff.service.js:473-480 | with bodies begun without the lane, any two creates of one employee and place that want a common day have a schedule in which both pass their checks and commit, and the day is booked twice |
| BalanceWindows.NothingLostIffFresh | src/modules/balance/balance.service.js:75-194 | on every schedule of reads and saves of one record, the record always holds what its saved movements add up to if and only if every save still finds the amounts it read |
| BalanceWindows.ApartLosesNothing | src/modules/balance/balance.service.js:75-194 | if nobody saves between a job's read and its save, nothing is lost |
| BalanceWindows.ApprovalIsLost | src/modules/balance/balance.service.js:160-194 | for any amounts: an approval between a create's read and save commits and leaves no trace in the record |
| BalanceWindows.TotalSurvives | src/modules/balance/balance.service.js:108-112 | available + pending + used stays the same on every schedule, lost updates or not |
| BalanceWindows.OneWindowIsTheLedgerOp | src/modules/balance/balance.service.js:91-112 | an undisturbed read and save is the ledger's operation, refusals included |
| CreateLanes.OneBodyPerKey | src/modules/timeoff/timeoff.service.js:688-707 | on every schedule at most one body of a key runs, and a body begins only after all earlier callers of its key are done |
| CreateLanes.LockMapIsExact | src/modules/timeoff/timeoff.service.js:696-705 | the lock map holds a key if and only if some caller of it is unfinished |
| CreateLanes.LanesAreQueues | src/modules/timeoff/timeoff.service.js:688-707 | the promise chain refines one FIFO queue per key: arrivals join the end, only the head begins or ends, ending pops it, other lanes are untouched |
| CreateLanes.HeadCanProceed | src/modules/timeoff/timeoff.service.js:698-705 | on every schedule the head of a non-empty lane can begin or end its body |
| CreateLanes.EverybodyIsServed | src/modules/timeoff/timeoff.service.js:698-706 | without new arrivals the number of steps still owed falls by one each step, and when none is owed the lock map is empty |
| CreateLanes.AllSchedulesKeepInv | src/modules/timeoff/timeoff.service.js:688-707 | the lane invariant is kept by every schedule, whether bodies return or throw |
| CreateLanes.CreateLocks.Arrive | src/modules/timeoff/timeoff.service.js:689-696 | the map update on arrival is the Enter step |
| CreateLanes.CreateLocks.BeginBody | src/modules/timeoff/timeoff.service.js:698-700 | the end of the wait is the Start step |
| CreateLanes.CreateLocks.Release | src/modules/timeoff/timeoff.service.js:701-706 | the finally clause is the Finish step |
| Reconciliation.ReconcilingTwiceIsOnce | src/modules/hcm/hcm-sync.service.js:85-108 | the same snapshot twice gives the balances, versions and discrepancy fields of once, duplicate keys included |
| Reconciliation.OrderDoesNotMatter | src/modules/hcm/hcm-sync.service.js:89-108 | with distinct keys the result does not depend on snapshot order |
| Reconciliation.SnapshotNeverTakesAway | src/modules/hcm/hcm-sync.service.js:230-259 | whatever the snapshot, pending and used never change, available never falls, no record disappears |
| Reconciliation.EachRecordSettles | src/modules/hcm/hcm-sync.service.js:185-271 | with distinct keys each local sum ends as HCM's total if that exceeds it by more than 0.01, otherwise as it was; flagged if and only if HCM's total falls short by more than 0.01, with the shortfall as amount; a new record is created whole |
| Reconciliation.KeysAreIndependent | src/modules/hcm/hcm-sync.service.js:189-191 | a balance after the fold depends only on its own earlier value and its own records in order |
| Reconciliation.FoldSaturates | src/modules/hcm/hcm-sync.service.js:230-247 | after its records a balance holds at least every one of their totals, up to the tolerance |
| Reconciliation.RealTimeSettles | src/modules/balance/balance.service.js:244-279 | the real-time update: the same policy with 0.001, version and amount stored or cleared, pending and used kept, available never lower, other records untouched, idempotent |
| HcmSync.HcmSyncService.ReconcileLocal | src/modules/hcm/hcm-sync.service.js:185-271 | one record's update, reported as an update if and only if the record is new or off by more than 0.01 |
| HcmSync.HcmSyncService.ReconcileSnapshot | src/modules/hcm/hcm-sync.service.js:89-108 | the loop's balances are the fold over the records that did not fail; processed, updated and failed count exactly, and the errors are those of the failing records in order |
| HcmSync.HcmSyncService.FlagOmitted | src/modules/hcm/hcm-sync.service.js:110-135 | the records flagged are exactly the omitted ones, counted and reported once each in table order; when an update throws, the ones listed before it |
| HcmSync.HcmSyncService.RunBatchSync | src/modules/hcm/hcm-sync.service.js:55-179 | skips and changes nothing while running; an invalid answer logs FAILED; a run that reaches its end leaves the balances `AfterBatch` and true accounts (failed = number of errors, updated + failed <= processed, COMPLETED, PARTIAL or FAILED exactly by none, some or all failed); one broken by a throwing update leaves exactly the omitted records listed before it flagged, and logs FAILED with the failing record counted and the collected errors dropped; the running flag is always cleared |
| HcmSync.AbsentRecordsAreFlagged | src/modules/hcm/hcm-sync.service.js:110-135 | a local record absent from the snapshot keeps its amounts and ends flagged with its earlier amount or zero; one mentioned ends as its own records leave it |
| HcmSync.ProcessedIsTableSize | src/modules/hcm/hcm-sync.service.js:89-122 | with distinct keys, ids without `\|` and no failing record, recordsProcessed is the size of the local table afterwards |
| HcmSync.UpdatesCountDrift | src/modules/hcm/hcm-sync.service.js:89-93 | with distinct keys recordsUpdated is the number of surviving records that are new or differ from the balance as it was before the run by more than 0.01 |
| HcmSync.BatchTwiceIsOnce | src/modules/hcm/hcm-sync.service.js:85-135 | the whole job over the same snapshot twice, failing on the same records, changes nothing the second time |
| HcmSync.OmittedRowsAreOmitted | src/modules/hcm/hcm-sync.service.js:111-119 | however the database lists the table, the rows not skipped are the omitted records, once each |
| HcmSync.OmittedMeansAbsent | src/modules/hcm/hcm-sync.service.js:115-119 | for ids without `\|` the joined-string lookup finds exactly the records absent from the snapshot |
| HcmSync.JoinedKeyIdentifies | src/modules/hcm/hcm-sync.service.js:85-87 | for ids without `\|` the joined string determines employee, location and leave type |
| HcmSync.BatchKeepsLedger | src/modules/hcm/hcm-sync.service.js:55-179 | a whole batch run keeps the ledger invariant |
| RetryWorker.EverythingLeavesPending | src/modules/hcm/hcm-sync.service.js:278-334 | after as many runs as the initial measure, no request is waiting, whatever HCM answers |
| RetryWorker.SettledInElevenRunsEach | src/modules/hcm/hcm-sync.service.js:278-334 | n waiting requests are all settled after at most 11 * n runs |
| RetryWorker.TenAttemptsAreMade | src/modules/hcm/hcm-sync.service.js:293-305 | while HCM is unavailable a request waits through ten attempts before the worker gives up |
| RetryWorker.RunLowersWeight | src/modules/hcm/hcm-sync.service.js:278-334 | each run lowers the sum of max(1, 11 - attempts) over waiting requests by at least min(50, n) |
| RetryWorker.AtMostTenAttempts | src/modules/hcm/hcm-sync.service.js:293-305 | over any runs the worker attempts a request at most ten times and counts each attempt |
| RetryWorker.SelectionIsRight | src/modules/hcm/hcm-sync.service.js:279-283 | a run picks min(50, n) distinct waiting requests, and nobody left out comes before one picked |
| RetryWorker.VisitVerdict | src/modules/hcm/hcm-sync.service.js:292-424 | exactly when a visit ends in success, failure, skip or another wait, and when the request counts as validated, from the request and HCM's answers; a fresh validation is lost if the approval call after it raises |
| RetryWorker.WorkerKeepsLedger | src/modules/hcm/hcm-sync.service.js:418-424 | a run keeps the ledger invariant |
| HcmSync.HcmSyncService.RetryPendingHcmSyncs | src/modules/hcm/hcm-sync.service.js:278-334 | the job leaves the requests as the run these results are about |
| Breaker.QuietPeriod | src/common/utils/circuit-breaker.util.js:70-79 | on every interleaving of overlapping calls, after a trip at time o no call is dispatched before o + cooldown |
| Breaker.ModeDiscipline | src/common/utils/circuit-breaker.util.js:105-127 | on every interleaving, OPEN is left only for HALF_OPEN by the start of a call, and CLOSED means fewer failures than the threshold and no opening time |
| Breaker.RunKeepsInv | src/common/utils/circuit-breaker.util.js:60-127 | the invariant behind these, late results of older calls included |
| Breaker.RemainingIsExact | src/common/utils/circuit-breaker.util.js:71-72 | the chain of `\|\|` fallbacks never misreads the clock: the cooldown is over if and only if now >= openedAt + cooldown, even at time 0 |
| Breaker.DispatchBound | src/common/utils/circuit-breaker.util.js:60-127 | from any reachable state, with calls one at a time and none succeeding, at most threshold + floor(T / cooldown) calls pass in any span T (cooldown positive) |
| Breaker.DispatchBoundIsTight | src/common/utils/circuit-breaker.util.js:70-79 | for every threshold f, positive cooldown d and k, some serial failing calls pass exactly f + k in a span of k * d |
| Breaker.DispatchCost | src/common/utils/circuit-breaker.util.js:119-127 | beyond the failures it may still take, every dispatch costs a full cooldown |
| Breaker.OpenIffTrailing | src/common/utils/circuit-breaker.util.js:105-127 | without overlap the failure count is the trailing run of dispatched failures, and the breaker is away from CLOSED if and only if that run has reached the threshold |
| TwinBreaker.TwinsAgree | src/common/utils/circuit-breaker-state.util.js:18-42 | with equal settings and no overlap both breakers dispatch the same calls and reach the same mode and count, away from CLOSED if and only if the trailing run has reached the threshold |
| TwinBreaker.TwinsStaySame | src/common/utils/circuit-breaker-state.util.js:18-42 | the same from any pair of corresponding states |
| TwinBreaker.TwinsAlikeIff | src/common/utils/circuit-breaker.util.js:105-117 | over every history of overlapping calls, from any pair of corresponding states, both breakers show the same mode and count after every event if and only if no success settles while the first is OPEN |
| TwinBreaker.AlikeDispatchAlike | src/common/utils/circuit-breaker-state.util.js:40-42 | over every such history they also admit the same calls |
| TwinBreaker.OverlapSeparatesTwins | src/common/utils/circuit-breaker-state.util.js:26-30 | the smallest history that separates them: afterwards the second admits a call the first refuses |
| TwinBreaker.CircuitBreakerStateMachine.constructor | src/common/utils/circuit-breaker-state.util.js:10-16 | absent or zero settings become 3 and 5000 |
| TwinBreaker.CircuitBreakerStateMachine.GetState | src/common/utils/circuit-breaker-state.util.js:18-24 | reading the state moves an expired OPEN on, as the machine above does |
| TwinBreaker.CircuitBreakerStateMachine.RecordSuccess | src/common/utils/circuit-breaker-state.util.js:26-30 | the machine's success step |
| TwinBreaker.CircuitBreakerStateMachine.RecordFailure | src/common/utils/circuit-breaker-state.util.js:32-38 | the machine's failure step |
| TwinBreaker.CircuitBreakerStateMachine.MayExecute | src/common/utils/circuit-breaker-state.util.js:40-42 | admits unless still OPEN after the look |
| CircuitBreakerObject.CircuitBreaker.constructor | src/common/utils/circuit-breaker.util.js:22-54 | starts closed, with 5 and 30000 for absent settings and zero kept |
| CircuitBreakerObject.CircuitBreaker.BeginCall | src/common/utils/circuit-breaker.util.js:70-80 | field updates and verdict are the state machine's start of a call |
| CircuitBreakerObject.CircuitBreaker.RecordSuccess | src/common/utils/circuit-breaker.util.js:105-117 | the state machine's success step; `failures` stays equal to `failureCount` |
| CircuitBreakerObject.CircuitBreaker.RecordFailure | src/common/utils/circuit-breaker.util.js:119-127 | the state machine's failure step |
| CircuitBreakerObject.CircuitBreaker.Reset | src/common/utils/circuit-breaker.util.js:129-135 | back to the initial state, success count kept |
| Resilience.OutageFromClosed | src/modules/hcm/hcm.service.js:161-194 | from CLOSED with c failures, all attempts ending in no response, 408, 429 or a status outside 400-499 with waits shorter than the cooldown, a logical call sends exactly min(maxAttempts, threshold - c) requests and yields null |
| Resilience.OutageSendsExactly | src/common/utils/retry.util.js:18-54 | the same from every breaker state and attempt, with the mode the breaker ends in |
| Resilience.AnswerIsTheLastRequest | src/modules/hcm/hcm.service.js:161-194 | whatever HCM does, at most maxAttempts requests go out, all but the last failed retryably, data is returned if and only if the last one sent returned it, and a call that gives up early was refused by the breaker or met an error that is not retried |
| Resilience.RetriesUntilData | src/common/utils/retry.util.js:5-54 | from CLOSED, k failures that are each no response, 408, 429 or a status outside 400-499, k below the retry limit and what the breaker tolerates, then a returned value: k + 1 requests go out, the value is handed back, the breaker ends closed with count 0 |
| Resilience.ClientErrorsTripTheBreaker | src/common/utils/circuit-breaker.util.js:82-89 | k logical calls in a row answered with 4xx other than 408 and 429 send exactly k requests and leave the breaker OPEN if and only if k is what it still tolerated, CLOSED for every smaller k |
| Resilience.CrashIffNoAttempts | src/common/utils/retry.util.js:27-53 | a logical call crashes if and only if the retry limit is below one; otherwise it ends in data or null |
| Resilience.DefaultWaitsAreQuick | src/common/utils/retry.util.js:39-43 | with the default cap of 10 s every jittered wait is between half of its delay and the delay, below the default 30 s cooldown; the first delay is the base and delays double, up to the cap |
| Resilience.HcmService.CallWithResilience | src/modules/hcm/hcm.service.js:161-194 | the loop over the shared breaker leaves the breaker, request count and answer these results are about, and crashes if and only if the configured limit is below one |
| RateLimiting.SlidingWindowRefinesHistory | src/common/utils/rate-limiter.util.js:25-55 | after any checks and resets with a non-decreasing clock, the pruned list allows a call if and only if the full history holds fewer than maxRequests allowed calls in the window |
| RateLimiting.EveryWindowIsBounded | src/common/utils/rate-limiter.util.js:25-55 | every window (t - windowMs, t] holds at most maxRequests allowed calls since the last reset |
| RateLimiting.RefusalNamesFirstSuccess | src/common/utils/rate-limiter.util.js:33-43 | after a refusal, however often the key is polled before resetTimeMs, the next check is allowed if and only if it comes at or after it |
| RateLimiting.ResetStartsAfresh | src/common/utils/rate-limiter.util.js:61-63 | after a reset the key's next check is allowed and is the only one counted |
| RateLimiting.ResetTimeIsNextExpiry | src/common/utils/rate-limiter.util.js:48-54 | resetTimeMs is the first time a counted call leaves the window, allowed or refused |
| RateLimiting.AnswerFromHistory | src/common/utils/rate-limiter.util.js:29-54 | allowed, total and remaining in terms of the full history |
| RateLimiting.CheckMeansHistory | src/common/utils/rate-limiter.util.js:25-55 | the same for the object, key by key |
| RateLimiting.RateLimiter.constructor | src/common/utils/rate-limiter.util.js:14-18 | absent or zero settings become 60000 and 100; the limiter is usable if and only if neither is negative |
| RateLimiting.RateLimiter.Check | src/common/utils/rate-limiter.util.js:25-55 | answers from the pruned list, appends to it, leaves other keys alone and keeps the invariant with the full history |
| RateLimiting.RateLimiter.PruneAndDecide | src/common/utils/rate-limiter.util.js:26-54 | the list and answer the refinement results are about |
| RateLimiting.RateLimiter.Reset | src/common/utils/rate-limiter.util.js:61-63 | forgets one key only |
| RateLimiting.RateLimiter.Clear | src/common/utils/rate-limiter.util.js:68-70 | forgets every key |
| TokenBucket.TokensStayInRange | src/common/utils/token-bucket-limiter.util.js:11-25 | with a non-decreasing clock tokens stay within [0, capacity] over any run |
| TokenBucket.BurstBound | src/common/utils/token-bucket-limiter.util.js:11-25 | in any span of T seconds of any run at most capacity + rate * T tokens are granted |
| TokenBucket.WhatFitsIsGranted | src/common/utils/token-bucket-limiter.util.js:18-25 | withdrawals that together ask for no more than the bucket holds are all granted |
| TokenBucket.PollingChangesNothing | src/common/utils/token-bucket-limiter.util.js:27-30 | dropping every poll of the level from a run leaves every decision as it was |
| TokenBucket.RefillTwice | src/common/utils/token-bucket-limiter.util.js:11-16 | refilling in two steps is refilling in one |
| TokenBucket.TokenBucketLimiter.constructor | src/common/utils/token-bucket-limiter.util.js:4-9 | starts full, with 10 and 5 for absent or zero settings |
| TokenBucket.TokenBucketLimiter.RefillNow | src/common/utils/token-bucket-limiter.util.js:11-16 | the refill the bounds are about |
| TokenBucket.TokenBucketLimiter.TryConsume | src/common/utils/token-bucket-limiter.util.js:18-25 | grants if and only if the amount is at most the capacity and at most what was left plus seconds times rate; pays then, else only refills |
| TokenBucket.TokenBucketLimiter.GetAvailableTokens | src/common/utils/token-bucket-limiter.util.js:27-30 | reports the refilled level to two decimals |
| TokenBucket.ToFixedIsNearest | src/common/utils/token-bucket-limiter.util.js:29 | the reported level is the hundredth nearest to the level, ties upward |
| CanonicalJson.SortedFormsDecideEquality | src/common/utils/hash.util.js:18-29 | two payloads have equal sorted forms if and only if they are the same tree with unordered keys and ordered arrays, `__proto__` members aside |
| CanonicalJson.CanonicalForm | src/common/utils/hash.util.js:12-29 | for payloads without such members, if and only if they are the same tree |
| CanonicalJson.ProtoMemberIsLost | src/common/utils/hash.util.js:22-26 | two different payloads with the same sorted form |
| CanonicalJson.SortingIsIdempotent | src/common/utils/hash.util.js:18-29 | sorting a sorted form changes nothing |
| CanonicalJson.SortKeepsVisible | src/common/utils/hash.util.js:18-29 | sorting keeps the unordered tree and yields a well-formed value |
| CanonicalJson.SortIsRender | src/common/utils/hash.util.js:21-26 | the sorted form is a function of the unordered tree alone |
| CanonicalJson.SortedContent | src/common/utils/hash.util.js:21-26 | a sorted object holds each key but `__proto__` exactly once, with its value sorted |
| CanonicalJson.SortSorts | src/common/utils/hash.util.js:21-22 | sorting keys gives an ascending list of the same keys |
| Dates.CivilRoundTrip | src/common/utils/date.util.js:73-80 | calendar date to day number and back is the identity on valid dates |
| Dates.MonthLengths | src/common/utils/date.util.js:17-18 | the months have 31, 28 or 29, 30 days as in the calendar |
| Dates.YearLength | src/common/utils/date.util.js:17-18 | years have 366 days exactly when divisible by 4 and not 100, or by 400 |
| Dates.Epoch | src/common/utils/date.util.js:73-74 | 1970-01-01 is day 0 |
| Dates.EpochIsThursday | src/common/utils/date.util.js:79 | day 0 is a Thursday, and weekdays follow one another from there |
| Dates.DateTextRoundTrip | src/common/utils/date.util.js:15-16 | a date written YYYY-MM-DD is read back as that date |
| Dates.DayRoundTrip | src/common/utils/date.util.js:80-84 | day number to calendar date and back is the identity |
| Dates.NextDayIsSuccessor | src/common/utils/date.util.js:84 | bumping the day of the month, past its end or not, is the next day |
| Dates.DaysRequestedCountsDays | src/common/utils/date.util.js:14-22 | the day count is the number of calendar days in the range, and 1 for a reversed one |
| Dates.NotInPastMeansTodayOrLater | src/common/utils/date.util.js:27-33 | a date passes if and only if its day is the current UTC day or later |
| Dates.OverlapIffSharedDay | src/common/utils/date.util.js:39-51 | for ordered ranges the two comparisons hold if and only if some day lies in both |
| Dates.CalculateWorkingDays | src/common/utils/date.util.js:70-87 | the loop counts exactly the days of the range that are neither weekend nor holiday |
| Dates.CountBusinessDays | src/common/utils/date-range-validator.util.js:16-35 | on date-only strings the other loop counts the same set for the default weekend |
| Dates.WorkingDaysWithinDaysRequested | src/common/utils/date.util.js:70-87 | never more working days than days requested |
| DayRanges.WorkingDaysAdditive | src/common/utils/date.util.js:78-85 | working days add up over adjacent ranges |
| DayRanges.WholeWeeks | src/common/utils/date.util.js:70-87 | any 7k consecutive days hold 5k working days with the default weekend and no holidays |

## Left out

Assumptions:

- Database transactions are atomic in `Ledger` and `CreateProtocol`; approve, reject and cancel are single steps in `OverlapSafety`, where only a create's steps interleave; `BalanceWindows` interleaves reads and saves of one balance record. TypeORM, SQLite internals and `SERIALIZABLE` are not modelled.
- `_reconcileRecord` and each flagging update read and write outside any transaction; each is one atomic step here, and nothing else writes during a batch run.
- `CreateProtocol` does not repeat the FIFO lane: it allows every interleaving, so its results hold with the lane too.
- SHA-256 after `JSON.stringify` is taken as injective: the hash is the sorted form.
- The stored answer is returned as the value stored; its passage through a JSON text column is not modelled.
- Amounts, tokens and jitter are exact numbers: floating point, NaN and decimal columns are out.
- The rate-limiter results are for settings that are not negative.
- Dates are well-formed YYYY-MM-DD with year 100 or later (`Date.UTC` remaps 0-99); no malformed strings.
- Ids contain no `|` where a result about the batch job's joined key says so, and no `:` where one about lanes does.
- Request ids are places in the table, not UUIDs, so creation order is id order.
- Strings are compared character by character, and payload members that are `undefined` do not occur. Where `Replies` speaks of what was asked, the fields of the request body are those of the hashed object.
- `IDEMPOTENCY_TTL_HOURS` and the retry worker's limits have their default values.

Not modelled:

- Timestamps and counters nothing reads back (`hcmLastSync`, `approvedAt`, `createdAt`, `updatedAt`, `version`).
- The asynchronous HCM notifications appear only as arbitrary bookkeeping updates of a request row; attempt counts across them are not monotone.
- Database errors outside the create transaction, and a first sync-log save that throws (it would leave the running flag set).
- The breaker's fallback, per-call timer, unused half-open flag, `getStatus` and `toJSON`; `retryWithBackoff`.
- Read paths (`getRequest`, `listRequests`, balance reads, staleness), cron wiring and the manual batch trigger.
- `DateRangeValidator.isOverlap`: the comparison of `datesOverlap` again, plus NaN checks.
- Controllers, DTO decorators, logging, metrics, health, roles, audit, tracing, the lock manager, request deduplicator, event bus, idempotency manager and exponential-backoff utilities, axios and the mock HCM server: framework code or not used by the services.

Weaker on purpose:

- Services.TimeOffService.CreateRequest: runs the lane body as soon as it is reached and sends no notification; a method cannot wait for other callers, so the lane is proved in `CreateLanes` and `OverlapSafety`, and interleaved calls in `CreateProtocol`.
- Resilience.DefaultWaitsAreQuick: the jitter factor is any number from one half to one.
