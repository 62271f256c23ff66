# Time-off requests: a verified model

The service keeps time-off balances next to an HR system (HCM). Approving a request takes its days
from the local balance and queues an outbound event in the same transaction; a worker submits the
event to HCM later and settles it, retries it, or reverses the request. Balances also change through
realtime deliveries, batches and reconciliation. Keyed POST requests are replayed from a table of
fingerprints.

`Tables.dfy` states what every operation does to the tables as a function on values. `Protocol.dfy`
combines these functions, the worker and HCM into one state machine: every synchronous segment of
the service is one step, and the worker gives way to other steps only while it awaits HCM. `Run`
folds any list of steps, so a lemma about `Run` speaks of every interleaving and of every sequence
of answers of HCM. The classes (`Database`, the repositories, the services, `HcmClient`,
`OutboundSyncWorker`, `IdempotencyService`) do the same work in place, with the source's loops, and
are proved equal to those functions; the worker is proved to be a run of the state machine whatever
API calls happen while it waits.

Main results:

- Requests and outbox events determine each other in every reachable state (`OutboxCoupling`),
  although the worker's updates check nothing; each request is consumed in HCM or refunded at most
  once in all (`ExactlyOnceSettlement`), retries and waits are bounded (`SubmissionBound`,
  `TotalWaitBound`, `WaitsIncrease`), and the outbox drains however HCM answers: every run without
  new approvals has drained it once as many submissions are settled as attempts were left
  (`OutboxDrains`), and the worker can always get there (`WorkerDrains`).
- The worker's answer to each kind of failure is exact (`AwaitOutcomes`), and requests are offered to
  HCM from the moment of their approval on, the first approved first (`FirstApprovedFirstServed`).
- Days are conserved on both sides (`LocalDaysConserved`, `HcmDaysConserved`); hence HCM and the
  service differ by exactly the approved days HCM has not acknowledged, if and only if HCM has given
  nothing away for another key with the same key text (`ParityExactly`, `AgreementExactly`), and HCM
  then covers a submission (`SubmissionAffordable`).
- In every run, replaying the ledger misses exactly what reversals, batches and reconciliations
  changed since the last absolute update (`LedgerExplainsBalance`).
- A realtime delivery is a duplicate if and only if the same JSON object was delivered before
  (`DedupeExact`, on top of `ObjectTextsSuffixFree`), it acts at most once (`AtMostOnce`), and it acts
  on the balance of the employee and location it names (`DeliveryOfObject`).
- Chunked ingestion is a fold in which the last valid row wins (`BatchSyncService.IngestBatch`).
  However often it is interrupted and resumed, a key that nobody else writes in between ends with
  the days of one uninterrupted ingestion (`ResumeCompletes`). Other writes to a key are safe if and
  only if no attempt writes the key again without a row still to come for it (`ResumesExactly`);
  otherwise they are lost (`UnsafeLosesUpdate`, `ReservationLost`).
- Two payloads share a fingerprint if and only if they are equal up to key order, `__proto__`
  members disregarded (`FingerprintDecidesSame`); a keyed POST runs its handler if and only if no
  call under its key succeeded within the TTL (`HandlerRunsExactly`).

Where the code and its documentation differ, the model follows the code:

- The documentation has failed requests pass through `FAILED_SYNC`; the code goes from `APPROVED` to
  `REVERSED` directly and never writes `FAILED_SYNC`.
- The documentation calls the ledger the stream of all balance changes; reversals, batches and
  reconciliations write no entry.
- The documentation has realtime updates applied transactionally; the inbound row stays when the
  balance is refused, so the same delivery is never applied later (`DeliveryOutcome`,
  `RedeliveryChangesNothing`).
- The documentation promises a safe restart from the last checkpoint; the rows of the half-done chunk
  are written again and can overwrite an approval or a delivery made since (`ReservationLost`).
- The documentation lets an interrupted batch restart from its checkpoint; resubmitting the identical
  payload is a no-op (`InterruptedJobLooksDone`), and only another checksum resumes the job.
- Canonicalization loses members named `__proto__` (`ProtoMembersAreLost`).

Assumptions:

- `days` is an exact real number. Inputs that reach a finiteness check may be infinite or NaN
  (`JsNumber`); a realtime `days` is a number, as its interface declares.
- There is one process and at most one worker run in flight. A submission that fails has no effect
  in HCM.
- Request and event ids are row positions: rows are never deleted, and fresh ids are distinct.
- Text is a sequence of UTF-16 code units. A JSON number is identified with its rendered token.
- Parity and ledger results for a key assume that no request or delivery of the run names another key
  with the same key text; employee ids without a colon guarantee it (`PlainIdsKeepApart`), and
  `KeyTextCollision` says exactly which ids make the texts collide.
- An interruption of a batch is a crash between two statements; other users write balances between
  two attempts, not within one, as ingestion is synchronous.
- Clocks are parameters, read once per step. The results about the idempotency table assume a clock
  that does not go back, and requests served one after the other.
- `System.history` records what HCM and the balances saw happen. It stands for observation, not for
  a table.

## Model

| member | source | states |
|---|---|---|
| Texts.KeyTextCollision | src/shared/types/balance.types.ts:27-29 | two employees can be given locations that make their composite keys equal exactly when one id followed by `::` is a prefix of the other one followed by `::` |
| Texts.KeyTextInjective | src/shared/types/balance.types.ts:27-29 | composite keys of employees without a colon are equal only for equal keys |
| JsonReader.ReadSerialized | src/modules/idempotency/fingerprint.ts:19-21 | reading a serialized value in front of any text yields the value and that text |
| JsonReader.RoundTrip | src/modules/idempotency/idempotency.service.ts:34-40 | parsing the text of a stored response body yields the body |
| JsonReader.SerializeInjective | src/modules/hcm-sync/services/realtime-sync.service.ts:28 | two values have the same text only if they are equal |
| JsonTexts.ObjectText | src/modules/hcm-sync/services/realtime-sync.service.ts:28 | an object, an array, literals and a number as compact text |
| JsonTexts.ShortEscapes | src/modules/idempotency/fingerprint.ts:19-21 | the seven short escapes of `JSON.stringify` |
| JsonTexts.HexEscapes | src/modules/idempotency/fingerprint.ts:19-21 | other control characters and lone surrogates as four lower-case hex digits |
| JsonTexts.NoEscape | src/modules/idempotency/fingerprint.ts:19-21 | every other code unit and every surrogate pair stands for itself |
| SuffixFree.ObjectTextsSuffixFree | src/modules/balances/balances.repository.ts:111-116 | no proper suffix of an object's text is an object's text |
| PropertyOrder.LexLessExactly | src/modules/idempotency/fingerprint.ts:8 | the sort compares code units at the first difference, a proper prefix first |
| PropertyOrder.IndicesFirst | src/modules/idempotency/fingerprint.ts:9-13 | assigned after `10`, `9` is listed before it, and both before `a` |
| PropertyOrder.ArrayIndexExactly | src/modules/idempotency/fingerprint.ts:9-13 | which keys are array indices |
| PropertyOrder.SortByKeySorts | src/modules/idempotency/fingerprint.ts:8 | the sorted keys are strictly increasing and belong to the same members |
| PropertyOrder.AssembleSorts | src/modules/idempotency/fingerprint.ts:9-13 | assigning sorted keys one by one lists array indices numerically, then the other keys in order, and loses only `__proto__` |
| PropertyOrder.SortedUnique | src/modules/idempotency/fingerprint.ts:8-13 | a list in that order is determined by its members alone |
| Fingerprint.CanonicalMembers | src/modules/idempotency/fingerprint.ts:6-14 | a canonical object lists, in key order, exactly the canonicalized members that are not named `__proto__` |
| Fingerprint.CanonicalIsSame | src/modules/idempotency/fingerprint.ts:1-17 | canonicalizing changes a payload in key order only, and doing it twice is the same as once |
| Fingerprint.FingerprintDecidesSame | src/modules/idempotency/fingerprint.ts:1-21 | fingerprints are equal if and only if the payloads are equal up to key order at every depth, `__proto__` members disregarded |
| Fingerprint.FingerprintDecidesKeyOrder | src/modules/idempotency/fingerprint.ts:1-21 | without `__proto__` members, fingerprints are equal if and only if the payloads are equal up to key order |
| Fingerprint.ProtoMembersAreLost | src/modules/idempotency/fingerprint.ts:9-12 | `{"__proto__":null}` and `{}` differ and share a fingerprint |
| Fingerprint.Canonicalize | src/modules/idempotency/fingerprint.ts:1-17 | the recursion computes the canonical value |
| Fingerprint.CanonicalizeItems | src/modules/idempotency/fingerprint.ts:2-4 | arrays are canonicalized item by item |
| Fingerprint.CanonicalizeObject | src/modules/idempotency/fingerprint.ts:6-14 | the loop that assigns sorted keys to a new object computes the canonical object |
| Approval.ApprovalIsAllOrNothing | src/modules/timeoff-requests/timeoff-requests.service.ts:76-147 | approval succeeds exactly for a pending and covered request, then with all four effects and no others, otherwise with none and with the error of its cause; the event asks HCM for the days of the request and is due from the moment of approval on |
| Approval.ClosingNeedsPending | src/modules/timeoff-requests/timeoff-requests.service.ts:158-178 | rejecting and cancelling succeed exactly for pending requests, which have no event, change nothing but the status and answer the changed request; which error is thrown otherwise |
| Approval.DeliveryOutcome | src/modules/hcm-sync/services/realtime-sync.service.ts:28-69 | a new delivery is refused exactly when it would leave a negative balance; its inbound row stays either way, only an accepted one reaches the days and the ledger and answers the new row, and a refused delta leaves a zero row behind where there was none |
| Approval.ReversalUndoesApproval | src/modules/timeoff-requests/timeoff-requests.repository.ts:256-282 | approval followed by reversal gives back exactly the days and leaves the request REVERSED |
| DueOrder.ApprovedIsOffered | src/modules/timeoff-requests/timeoff-requests.repository.ts:115-207 | from the moment of approval on every query without a limit returns the event, and no query returns it earlier |
| DueOrder.DueListLength | src/modules/timeoff-requests/timeoff-requests.repository.ts:171-184 | a due list holds as many events as are due, or as many as it may |
| DueOrder.FirstApprovedFirstServed | src/modules/timeoff-requests/timeoff-requests.repository.ts:171-184 | of two requests approved one after the other, whatever happens in between and later, every due list that offers the second offers the first before it while that is due |
| Outcomes.CreationOutcome | src/modules/timeoff-requests/timeoff-requests.service.ts:37-59 | a request is created exactly for positive finite days and non-empty ids, pending, with the key and days asked for; the days are checked first |
| Outcomes.DeliveryOfObject | src/modules/hcm-sync/services/realtime-sync.service.ts:20-69 | a new object sets the balance of its `employeeId` and `locationId` if its `updateType` is `ABSOLUTE` and else adds to it, enters the ledger under these two, and changes no other balance |
| Outcomes.InvalidDeliveryExactly | src/modules/hcm-sync/services/realtime-sync.service.ts:21-26 | a delivery is invalid exactly if its event id, employee or location is missing or empty, and then stores nothing |
| Outcomes.ReadingOutcome | src/modules/balances/balances.service.ts:8-13 | reading creates a missing row with zero days and version 1, touches no existing one and nothing else |
| Outcomes.ReconcileOutcome | src/modules/hcm-sync/services/batch-sync.service.ts:188-220 | which error each failing case throws, and that HCM's days are written exactly if the row read before differs or is missing |
| Coupling.ApiCoupled | src/modules/timeoff-requests/timeoff-requests.service.ts:37-178 | every step of the API keeps requests and events coupled and never touches an existing event or a request that is no longer pending |
| Coupling.ApiNonNegative | src/shared/domain/balance.policy.ts:9-16 | no step of the API, of a delivery, of a batch or of a reconciliation leaves a negative balance |
| Coupling.SettleCoupled | src/modules/hcm-sync/workers/outbound-sync.worker.ts:41-88 | settling a live event moves the event and its request together |
| Coupling.SettleNonNegative | src/modules/timeoff-requests/timeoff-requests.repository.ts:269-281 | settling never makes a balance negative |
| Coupling.StepKeepsInvariant | src/modules/hcm-sync/workers/outbound-sync.worker.ts:19-95 | every step keeps the coupled invariant, the due list live and balances non-negative |
| Coupling.OutboxCoupling | src/modules/timeoff-requests/timeoff-requests.repository.ts:209-282 | in every reachable state a request has an event exactly when it was approved, only one, and their statuses determine each other; a refund always finds a balance row |
| Settlement.ExactlyOnceSettlement | src/modules/hcm-sync/workers/outbound-sync.worker.ts:40-89 | each request is consumed in HCM at most once, refunded exactly its days at most once, never both, and which of them is determined by its status |
| Settlement.SubmissionBound | src/modules/hcm-sync/workers/outbound-sync.worker.ts:73-88 | an event is submitted at most maxAttempts times, and exactly that often if it failed on a transient error |
| Settlement.RetryDelayRange | src/modules/hcm-sync/workers/outbound-sync.worker.ts:97-102 | a delay lies between the doubled base and 99 ms more, below the cap |
| Settlement.DelaySchedule | src/modules/hcm-sync/workers/outbound-sync.worker.ts:97-102 | the delays of the first six attempts in milliseconds, and 30 seconds from the seventh on |
| Settlement.DelaysGrow | src/modules/hcm-sync/workers/outbound-sync.worker.ts:97-102 | a later attempt waits longer whatever the jitter, until the cap |
| Settlement.TotalWaitBound | src/modules/hcm-sync/workers/outbound-sync.worker.ts:73-82 | the waits of one event add up to at most 250 (2^N - 2) + 99 (N - 1) ms |
| Settlement.RetryDueAfterDelay | src/modules/hcm-sync/workers/outbound-sync.worker.ts:73-82 | a deferred event is due again exactly from the end of its delay on, with one attempt more, and nothing else changes |
| Settlement.WaitsIncrease | src/modules/hcm-sync/workers/outbound-sync.worker.ts:77-82 | in every run the delays of one event strictly increase until the cap |
| Transitions.StepFollowsTable | src/shared/domain/request-status.policy.ts:4-32 | every step, the worker's unguarded updates included, changes a status only along one of five edges of the table, none of them at `FAILED_SYNC`, and key and days never |
| Transitions.TableEdges | src/shared/domain/request-status.policy.ts:4-32 | the table has these five edges and two at `FAILED_SYNC`; four statuses are terminal |
| Transitions.AtMostTwoChanges | src/shared/domain/request-status.policy.ts:4-20 | in every run a request changes status at most twice |
| Transitions.TerminalStays | src/shared/domain/request-status.policy.ts:15-19 | a request in a terminal status never changes again |
| Versions.NoAba | src/modules/balances/balances.repository.ts:47-56 | along every run versions never decrease, and equal versions of a key mean equal days |
| Versions.ConsumeDetectsEveryWrite | src/modules/balances/balances.repository.ts:76-98 | consuming under a version read earlier succeeds exactly if the row is still the one read and covers the days, and then takes exactly these days |
| Drain.StepBudget | src/modules/hcm-sync/workers/outbound-sync.worker.ts:73-88 | settling uses up attempts left, an approval adds maxAttempts, nothing else changes them |
| Drain.SubmissionsBounded | src/modules/hcm-sync/workers/outbound-sync.worker.ts:23-92 | in every run the worker settles at most as often as attempts were left, plus maxAttempts per new approval |
| Drain.DrainedIsSettled | src/modules/timeoff-requests/timeoff-requests.repository.ts:171-245 | no attempt is left exactly when no request is APPROVED |
| Drain.OutboxDrains | src/modules/hcm-sync/workers/outbound-sync.worker.ts:23-92 | every run without new approvals in which the worker has settled as many submissions as attempts were left ends with no request APPROVED, and none can settle more |
| Drain.SomethingIsDue | src/modules/timeoff-requests/timeoff-requests.repository.ts:171-186 | while a request is APPROVED, from some moment on every query that may return an event returns one |
| Drain.WorkerDrains | src/modules/hcm-sync/workers/outbound-sync.worker.ts:19-95 | however HCM answers, the worker can drain the outbox within the attempts left, after which every approved request is SYNCED or REVERSED |
| Conservation.LocalDaysConserved | src/modules/timeoff-requests/timeoff-requests.service.ts:93-98 | in every run of lifecycle and worker steps the local days and the days of APPROVED and SYNCED requests add up to the days at the start |
| Conservation.NoOverspend | src/modules/timeoff-requests/timeoff-requests.service.ts:91-102 | however approvals interleave, requests never hold more days than the balance had |
| Conservation.HcmDaysConserved | src/modules/hcm-sync/clients/hcm.client.ts:76-79 | in every run HCM has given away under each key text exactly the days of SYNCED requests of all keys with that text and of a submission acknowledged but not yet marked |
| Conservation.PlainIdsKeepApart | src/shared/types/balance.types.ts:27-29 | runs over employee ids without a colon never bring two keys with one text into play |
| Parity.ParityExactly | src/modules/hcm-sync/workers/outbound-sync.worker.ts:40-89 | in every run of lifecycle and worker steps hcm = local + APPROVED days - days acknowledged but not yet marked, if and only if HCM has given nothing away for another key with the same text |
| Parity.ParityHolds | src/modules/hcm-sync/workers/outbound-sync.worker.ts:40-89 | hence the equation holds in every such run without requests of another key that shares the key text |
| Parity.HcmCovers | src/modules/hcm-sync/clients/hcm.client.ts:76-79 | HCM has at least the days of every approved request it has not accepted yet |
| Parity.SubmissionAffordable | src/modules/hcm-sync/clients/hcm.client.ts:41-80 | in runs that start in parity a submission never finds too few days in HCM, provided no request of another key shares its key text |
| Parity.AgreementExactly | src/modules/hcm-sync/services/batch-sync.service.ts:212-216 | HCM and the service agree on a key exactly when HCM has acknowledged every APPROVED request of that key |
| Parity.DrainedReconcilesToNothing | src/modules/hcm-sync/services/batch-sync.service.ts:188-259 | once the outbox is drained, reconciliation writes only if the key has no local row, and never changes the days |
| LedgerReplay.GapStep | src/modules/timeoff-requests/timeoff-requests.service.ts:111-119 | any step changes what the ledger leaves unexplained by its refund or by what a batch row or a reconciliation overwrites, or closes the gap by an absolute update |
| LedgerReplay.LedgerExplainsBalance | src/modules/balances/balances.repository.ts:121-138 | in every run, balance minus replayed ledger is exactly what reversals, batches and reconciliations changed since the last absolute update |
| LedgerReplay.LedgerExplainsExactly | src/modules/balances/balances.repository.ts:121-138 | without batches and reconciliations the ledger explains the balance if and only if nothing was reversed since the last absolute update |
| Deliveries.RowsClashExactly | src/modules/balances/balances.repository.ts:100-119 | two inbound rows exclude each other if and only if they stem from the same JSON object |
| Deliveries.DedupeExact | src/modules/hcm-sync/services/realtime-sync.service.ts:28-42 | in every run a delivery is treated as a duplicate if and only if the same object was delivered before |
| Deliveries.RedeliveryChangesNothing | src/modules/hcm-sync/services/realtime-sync.service.ts:28-42 | after its first delivery, applied or refused, and any further steps, delivering an object again changes nothing and is answered as a duplicate with the balance as it is by then |
| Deliveries.AtMostOnce | src/modules/hcm-sync/services/realtime-sync.service.ts:20-70 | every run ends in the same state as the run without its repeated deliveries |
| BatchFold.LastValidRowWins | src/modules/hcm-sync/services/batch-sync.service.ts:100-147 | a key ends with the days of its last valid row; without one its row is untouched |
| BatchFold.RowOutcome | src/modules/hcm-sync/services/batch-sync.service.ts:100-147 | a row with non-empty ids and finite days, zero included but not negative, gives its key these days; any other row is a dead letter and changes no balance; and which counter counts it |
| BatchFold.LastRowDecides | src/modules/hcm-sync/services/batch-sync.service.ts:100-147 | the last row of a key that is valid decides its days |
| BatchFold.CountersAddUp | src/modules/hcm-sync/services/batch-sync.service.ts:92-147 | every row is counted once, and the rejected ones are the invalid ones |
| BatchFold.InsertedCountsNewKeys | src/modules/hcm-sync/services/batch-sync.service.ts:126-134 | `inserted` is the number of distinct valid keys that were absent before |
| BatchFold.VersionsCountWrites | src/modules/hcm-sync/services/batch-sync.service.ts:126-146 | versions increase in all by inserted + updated |
| BatchFold.SecondIngestion | src/modules/hcm-sync/services/batch-sync.service.ts:136-139 | a second ingestion inserts nothing, and changes nothing if and only if no two valid rows of a key contradict each other |
| BatchResume.ReplayIsHarmlessExactly | src/modules/hcm-sync/services/batch-sync.service.ts:97-147 | writing rows again that were written before the interruption leaves a key as if they were not, if and only if a missing row sets it, no repeated row does, or the last of these agrees with the balance found |
| BatchResume.SafeOrStillToCome | src/modules/hcm-sync/services/batch-sync.service.ts:85-169 | after any number of attempts, and whatever others wrote in between, a safe key has the days it would have if no row were written twice, or a row still to come sets it |
| BatchResume.UnsafeLosesUpdate | src/modules/hcm-sync/services/batch-sync.service.ts:85-169 | for attempts that are not safe for a key there is a realtime update of the key that they lose |
| BatchResume.ResumesExactly | src/modules/hcm-sync/services/batch-sync.service.ts:85-169 | a job that got through has lost no write of others to a key, whatever these were, if and only if no attempt wrote the key again without a row still to come for it |
| BatchResume.QuietResume | src/modules/hcm-sync/services/batch-sync.service.ts:85-169 | after any number of interruptions, resuming to the end gives every key that nobody else writes the days of one uninterrupted ingestion |
| BatchResume.InterruptedTracks | src/modules/hcm-sync/services/batch-sync.service.ts:97-169 | every stored state of an interrupted ingestion is one more attempt of its job, after any writes of others |
| BatchResume.ResumeCompletes | src/modules/hcm-sync/services/batch-sync.service.ts:52-95 | resubmitting the rows under the same job id with another checksum, under any chunk sizes, is the last attempt: a safe key loses no write, a key that nobody else wrote has the days of one uninterrupted ingestion |
| BatchResume.InterruptedThenResumed | src/modules/hcm-sync/services/batch-sync.service.ts:52-169 | an ingestion interrupted after any row and then resubmitted leaves the days of the uninterrupted ingestion if nothing else happens in between |
| BatchResume.ResumedWithoutLossExactly | src/modules/hcm-sync/services/batch-sync.service.ts:52-169 | with anything written in between, the resubmission leaves a key as if only the missing rows were written, under the condition of `ReplayIsHarmlessExactly` and no other |
| BatchResume.ReservationLost | src/modules/hcm-sync/services/batch-sync.service.ts:97-169 | a job of one row, interrupted before its checkpoint, followed by an approval and resubmitted gives the reserved days back |
| BatchJobs.InterruptedJobLooksDone | src/modules/hcm-sync/services/batch-sync.service.ts:52-61 | resubmitting the interrupted payload itself is deduped and resumes nothing |
| BatchJobs.CheckpointsMarkChunks | src/modules/hcm-sync/services/batch-sync.service.ts:149-168 | one checkpoint per chunk, at the end of the chunk, the last one at the last row |
| BatchJobs.CheckpointCount | src/modules/hcm-sync/services/batch-sync.service.ts:97-169 | there are as many checkpoints as chunks |
| BatchJobs.JobOutcome | src/modules/hcm-sync/services/batch-sync.service.ts:35-186 | the error for a missing id or checksum, the answer to a repeat, and otherwise the job row, the chunk size used, the `resumed` flag, the rows ingested and the dead letters in their order |
| BatchJobs.ReportAddsUp | src/modules/hcm-sync/services/batch-sync.service.ts:178-185 | the four counters sum to max(0, length - startAt); dead letters, new keys and version increases match them |
| BatchJobs.BatchSetsLastRows | src/modules/hcm-sync/services/batch-sync.service.ts:85-147 | a batch sets every key to its last valid row behind the checkpoint and touches no other key |
| BatchJobs.ReingestUnderNewJob | src/modules/hcm-sync/services/batch-sync.service.ts:122-146 | the same rows under a new job id are reported unchanged and bump no version if and only if they do not contradict each other |
| BatchServices.BatchSyncService.IngestOne | src/modules/hcm-sync/services/batch-sync.service.ts:100-146 | one row: its days, or a dead letter and no change, in terms of the fields of the row; and its counter |
| BatchServices.BatchSyncService.IngestChunk | src/modules/hcm-sync/services/batch-sync.service.ts:97-169 | one chunk with its progress and checkpoint; every stored state is resumable |
| BatchServices.BatchSyncService.IngestBatch | src/modules/hcm-sync/services/batch-sync.service.ts:35-186 | chunked ingestion equals the fold over the rows behind the checkpoint for every chunk size; for every number of rows written a state stored on the way is recorded, and all of them are interrupted ingestions that can be resumed |
| BatchServices.BatchSyncService.FinishReconcile | src/modules/hcm-sync/services/batch-sync.service.ts:198-258 | what reconciliation writes once HCM has answered, error cases included |
| BatchServices.BatchSyncService.ReconcileOne | src/modules/hcm-sync/services/batch-sync.service.ts:188-259 | a successful reconciliation makes the local days equal to HCM's |
| BalancesRepositories.BalancesRepository.UpsertAbsolute | src/modules/balances/balances.repository.ts:39-59 | the row after an upsert, its bumped version, and the refusal of negative days |
| BalancesRepositories.BalancesRepository.ApplyDelta | src/modules/balances/balances.repository.ts:61-74 | the delta applied to the row or to a new zero row, which stays when the delta is refused |
| BalancesRepositories.BalancesRepository.ConsumeWithVersion | src/modules/balances/balances.repository.ts:76-98 | the compare-and-swap |
| BalancesRepositories.BalancesRepository.RecordInboundSyncEvent | src/modules/balances/balances.repository.ts:100-119 | the row is inserted exactly if it clashes with none |
| TimeOffRepositories.TimeOffRequestsRepository.ListDueOutboundSyncEvents | src/modules/timeoff-requests/timeoff-requests.repository.ts:171-207 | the due events, each once, oldest first, at most `limit`, and none older left out |
| TimeOffRepositories.TimeOffRequestsRepository.MarkRequestFailedAndReversed | src/modules/timeoff-requests/timeoff-requests.repository.ts:256-282 | the request becomes REVERSED and its days return to an existing row |
| TimeOffServices.TimeOffRequestsService.Create | src/modules/timeoff-requests/timeoff-requests.service.ts:37-59 | a new pending request, or the error for its days or dimensions |
| TimeOffServices.TimeOffRequestsService.ApproveOnce | src/modules/timeoff-requests/timeoff-requests.service.ts:78-146 | one transaction: all effects of approval or a rollback, and its compare-and-swap never misses |
| TimeOffServices.TimeOffRequestsService.Approve | src/modules/timeoff-requests/timeoff-requests.service.ts:76-156 | the first attempt decides, CONFLICT is never thrown, and an error leaves the tables unchanged |
| TimeOffServices.TimeOffRequestsService.Reject | src/modules/timeoff-requests/timeoff-requests.service.ts:158-167 | only a pending request is rejected, and nothing else changes |
| TimeOffServices.TimeOffRequestsService.Cancel | src/modules/timeoff-requests/timeoff-requests.service.ts:169-178 | only a pending request is cancelled, and nothing else changes |
| RealtimeServices.RealtimeSyncService.ProcessBalanceUpdate | src/modules/hcm-sync/services/realtime-sync.service.ts:20-70 | inbound row, balance and ledger after one delivery, and what is left behind when it is refused |
| HcmClients.HcmClient.GetBalance | src/modules/hcm-sync/clients/hcm.client.ts:34-38 | unavailable, unknown or the days; a key HCM does not know is unknown |
| HcmClients.HcmClient.SubmitApprovedUsage | src/modules/hcm-sync/clients/hcm.client.ts:64-79 | unavailable or failing for the moment is a transient failure, else a functional failure is one, else the submission is accepted; a failure consumes nothing, a success exactly the days of the key |
| OutboundWorkers.Api.GetBalance | src/modules/balances/balances.service.ts:8-13 | reading a balance creates a missing row with zero days |
| OutboundWorkers.OutboundSyncWorker.Conclude | src/modules/hcm-sync/workers/outbound-sync.worker.ts:46-88 | settle, retry or reverse, as one step of the state machine |
| OutboundWorkers.OutboundSyncWorker.ProcessRows | src/modules/hcm-sync/workers/outbound-sync.worker.ts:23-92 | the loop over the due events is one submission and one conclusion per event with any API steps in between |
| OutboundWorkers.OutboundSyncWorker.ProcessDueEvents | src/modules/hcm-sync/workers/outbound-sync.worker.ts:19-95 | a worker run is a run of the state machine over a correct due list, keeps the invariant, and reports the accepted submissions |
| WorkerOutcomes.ProcessedIsAccepted | src/modules/hcm-sync/workers/outbound-sync.worker.ts:21-95 | the number reported as processed is how often HCM accepted |
| WorkerOutcomes.AwaitOutcomes | src/modules/hcm-sync/workers/outbound-sync.worker.ts:40-92 | one submission with any API steps around it: a transient failure with attempts left keeps the request APPROVED and its event waiting, the last one and every functional failure end REVERSED at once, acceptance ends SYNCED and is the only case in which HCM consumes |
| WorkerRuns.DueListStaysLive | src/modules/hcm-sync/workers/outbound-sync.worker.ts:20-30 | the events read at the start of a run stay live with unchanged attempt counts across every await |
| WorkerRuns.RunSubmitsDueOnce | src/modules/hcm-sync/workers/outbound-sync.worker.ts:23-95 | a complete run submits every due event exactly once and no other |
| WorkerRuns.RunUsesBudget | src/modules/hcm-sync/workers/outbound-sync.worker.ts:73-88 | a complete run uses up at least one attempt per due event |
| Idempotency.GetAgreesWithHistory | src/modules/idempotency/idempotency.service.ts:13-70 | `get` answers the last record set under the key while it has not expired, and nothing otherwise |
| Idempotency.HandlerRunsExactly | src/modules/idempotency/idempotency.interceptor.ts:31-66 | a keyed POST runs its handler if and only if no call under its key succeeded within the TTL, and then answers what the handler answers |
| Idempotency.WithoutKeyNothingHappens | src/modules/idempotency/idempotency.interceptor.ts:31-38 | a request that is no POST or has no key is answered by its handler and leaves the table alone |
| Idempotency.KeyedCallLeaves | src/modules/idempotency/idempotency.interceptor.ts:40-66 | what a keyed call stores: the whole record after a success of its handler, none after a failure, the old one otherwise; no other key is affected except by expiry |
| Idempotency.WindowReplays | src/modules/idempotency/idempotency.interceptor.ts:46-54 | within the window an equivalent payload replays the stored body, any other conflicts, and neither runs the handler |
| Idempotency.SamePayload | src/modules/idempotency/idempotency.interceptor.ts:40-43 | payloads are equivalent exactly when the urls are equal and the bodies are equal up to key order |
| IdempotencyServices.IdempotencyService.Get | src/modules/idempotency/idempotency.service.ts:13-41 | expired records are deleted, then the key is looked up |
| IdempotencyServices.IdempotencyService.Set | src/modules/idempotency/idempotency.service.ts:43-63 | the record answers every lookup of its key until its expiry and none from then on; other keys answer as before |
| IdempotencyServices.IdempotencyInterceptor.InterceptCall | src/modules/idempotency/idempotency.interceptor.ts:18-67 | replay, conflict, or run the handler, answer what it answers and store its result; without a key the handler alone |

## Left out

- Controllers, dependency injection, RxJS and HTTP status mapping: plumbing around the modelled calls.
- The `fetch` branches and the admin calls of the HCM client: the network is a nondeterministic answer.
- SQL text and migrations: each statement is a map or sequence update; the CHECK on balances, the inbound primary key and the dedupe index are kept.
- The dedupe index for outbound events: a request never gets a second event, so the index has nothing to refuse.
- Logging, tracing, metrics and the `trace` part of the outbound payload: no effect on the modelled state.
- `sync_state`, `reason`, `drift_flag`, timestamps of rows, drift events and random ids: columns no decision reads.
- Overlapping worker runs and process crashes inside a worker run: the code has no claim on events; the once-only results are not claimed for them.
- A batch job resubmitted with other rows, and fractional chunk sizes.
- Members of a realtime event that are not of the declared types: strings are read as strings, and anything but `ABSOLUTE` is a delta, as in the code.
- Rounding of floating-point days.
- Duplicate keys and insignificant white space in JSON input: parsing the request body is not part of this model; the reader covers the compact text that the service writes.
