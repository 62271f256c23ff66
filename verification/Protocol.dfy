/** The service, the outbound worker and HCM as one state machine.  Every synchronous segment of
    the service is one step; the worker gives way to other steps only while it awaits HCM. */
module Protocol {
  import opened Results
  import opened Texts
  import opened Domain
  import opened Tables

  // -------------------------------------------------------------------- backoff

  function Pow2(n: nat): nat {
    if n == 0 then 1 else 2 * Pow2(n - 1)
  }

  type Jitter = j: nat | j < 100

  const BASE_MS: nat := 250
  const MAX_DELAY_MS: nat := 30_000

  /** Milliseconds until the next attempt. */
  function RetryDelay(attempt: nat, jitter: Jitter): nat {
    var delay := BASE_MS * Pow2(attempt) + jitter;
    if delay < MAX_DELAY_MS then delay else MAX_DELAY_MS
  }

  // ---------------------------------------------------------------------- state

  datatype HcmOutcome = Accepted | Rejected(error: HcmError)

  /** A row of the due list as it was read. */
  datatype DueEvent = DueEvent(id: nat, requestId: nat, usage: Usage, attemptCount: nat)

  /** `reply` is the effect of the submission in HCM, which the worker has yet to act upon. */
  datatype Worker =
    | Idle
    | Awaiting(current: DueEvent, rest: seq<DueEvent>, reply: Option<HcmOutcome>)

  /** What an observer outside the database sees happen. */
  datatype Effect =
    | Submitted(event: nat, request: nat, outcome: HcmOutcome)
    | Refunded(request: nat, days: real)
    | Deferred(event: nat, attempt: nat, delay: nat)

  datatype System = System(
    store: Store,
    hcm: map<Text, real>,
    worker: Worker,
    history: seq<Effect>,
    maxAttempts: nat)

  function HcmDays(hcm: map<Text, real>, key: Text): real {
    if key in hcm then hcm[key] else 0.0
  }

  /** What the in-memory client answers to `getBalance` while it is available. */
  function ReadHcm(hcm: map<Text, real>, key: BalanceKey): HcmReading {
    if KeyText(key) in hcm then Reading(hcm[KeyText(key)]) else Unknown
  }

  // ---------------------------------------------------------------------- steps

  datatype Step =
    | Create(key: BalanceKey, days: JsNumber)
    | Approve(id: nat, now: nat)
    | Reject(id: nat)
    | Cancel(id: nat)
    | ReadBalance(key: BalanceKey)
    | Realtime(event: RealtimeEvent)
    | Ingest(row: BatchRow)
    | Reconciled(key: BalanceKey, local: Option<Balance>, reading: HcmReading)
    | StartRun(due: seq<nat>, now: nat, limit: int)
    | Land(outcome: HcmOutcome)
    | Resume(now: nat, jitter: Jitter)

  predicate IsApiStep(step: Step) {
    !step.StartRun? && !step.Land? && !step.Resume?
  }

  /** What a step of the API, of a webhook or of a batch does to the tables. */
  function ApplyApi(st: Store, step: Step): Store {
    match step
    case Create(key, days) => Tables.Create(st, key, days).0
    case Approve(id, now) => Tables.Approve(st, id, now).0
    case Reject(id) => Close(st, id, REJECTED).0
    case Cancel(id) => Close(st, id, CANCELLED).0
    case ReadBalance(key) => st.(balances := WithRow(st.balances, key))
    case Realtime(event) => Deliver(st, event).0
    case Ingest(row) => st.(balances := IngestRow(st.balances, row))
    case Reconciled(key, local, reading) => st.(balances := Reconcile(st.balances, key, local, reading).0)
    case _ => st
  }

  predicate IsDue(event: OutboxEvent, now: nat) {
    Live(event.status) && (event.nextAttemptAt.None? || event.nextAttemptAt.value <= now)
  }

  /** `ids` answers the query for due events: oldest first and at most `limit` of them, where a
      negative limit is no limit. */
  predicate IsDueList(outbox: seq<OutboxEvent>, now: nat, limit: int, ids: seq<nat>) {
    && (forall i :: 0 <= i < |ids| ==> ids[i] < |outbox| && IsDue(outbox[ids[i]], now))
    && (forall i, j :: 0 <= i < j < |ids| ==>
          ids[i] != ids[j] && outbox[ids[i]].createdAt <= outbox[ids[j]].createdAt)
    && (limit >= 0 ==> |ids| <= limit)
    && (forall e :: 0 <= e < |outbox| && IsDue(outbox[e], now) && e !in ids ==>
          |ids| == limit && forall i :: 0 <= i < |ids| ==> outbox[ids[i]].createdAt <= outbox[e].createdAt)
  }

  function CaptureOne(outbox: seq<OutboxEvent>, id: nat): DueEvent
    requires id < |outbox|
  {
    DueEvent(id, outbox[id].requestId, outbox[id].usage, outbox[id].attemptCount)
  }

  function Capture(outbox: seq<OutboxEvent>, ids: seq<nat>): seq<DueEvent>
    requires forall i :: 0 <= i < |ids| ==> ids[i] < |outbox|
  {
    seq(|ids|, i requires 0 <= i < |ids| => CaptureOne(outbox, ids[i]))
  }

  function NextWorker(rest: seq<DueEvent>): Worker {
    if rest == [] then Idle else Awaiting(rest[0], rest[1..], None)
  }

  predicate RetriesAgain(event: DueEvent, error: HcmError, maxAttempts: nat) {
    error == TRANSIENT && event.attemptCount + 1 < maxAttempts
  }

  /** What the worker writes once HCM has answered. */
  function Settle(st: Store, event: DueEvent, outcome: HcmOutcome, maxAttempts: nat, now: nat, jitter: Jitter): Store {
    match outcome
    case Accepted => MarkEventSynced(SetStatus(st, event.requestId, SYNCED), event.id)
    case Rejected(error) =>
      if RetriesAgain(event, error, maxAttempts) then
        var attempt := event.attemptCount + 1;
        MarkEventRetry(st, event.id, attempt, now + RetryDelay(attempt, jitter), error)
      else MarkRequestReversed(MarkEventFailed(st, event.id, error), event.requestId)
  }

  function SettleEffects(st: Store, event: DueEvent, outcome: HcmOutcome, maxAttempts: nat, jitter: Jitter)
    : seq<Effect>
  {
    match outcome
    case Accepted => []
    case Rejected(error) =>
      if RetriesAgain(event, error, maxAttempts) then
        [Deferred(event.id, event.attemptCount + 1, RetryDelay(event.attemptCount + 1, jitter))]
      else if event.requestId < |st.requests| && st.requests[event.requestId].key in st.balances then
        [Refunded(event.requestId, st.requests[event.requestId].days)]
      else []
  }

  function Consume(hcm: map<Text, real>, usage: Usage): map<Text, real> {
    hcm[KeyText(usage.key) := HcmDays(hcm, KeyText(usage.key)) - usage.days]
  }

  /** The effect of a step; a step that is not enabled changes nothing. */
  function Apply(s: System, step: Step): System {
    match step
    case StartRun(due, now, limit) =>
      if s.worker.Idle? && IsDueList(s.store.outbox, now, limit, due)
      then s.(worker := NextWorker(Capture(s.store.outbox, due)))
      else s
    case Land(outcome) =>
      if s.worker.Awaiting? && s.worker.reply.None? then
        var event := s.worker.current;
        s.(hcm := if outcome.Accepted? then Consume(s.hcm, event.usage) else s.hcm,
           worker := s.worker.(reply := Some(outcome)),
           history := s.history + [Submitted(event.id, event.requestId, outcome)])
      else s
    case Resume(now, jitter) =>
      if s.worker.Awaiting? && s.worker.reply.Some? then
        var event, outcome := s.worker.current, s.worker.reply.value;
        s.(store := Settle(s.store, event, outcome, s.maxAttempts, now, jitter),
           worker := NextWorker(s.worker.rest),
           history := s.history + SettleEffects(s.store, event, outcome, s.maxAttempts, jitter))
      else s
    case _ => s.(store := ApplyApi(s.store, step))
  }

  function Run(s: System, steps: seq<Step>): System {
    if steps == [] then s else Apply(Run(s, steps[..|steps| - 1]), steps[|steps| - 1])
  }

  lemma RunSnoc(s: System, steps: seq<Step>, step: Step)
    ensures Run(s, steps + [step]) == Apply(Run(s, steps), step)
  {
    assert (steps + [step])[..|steps|] == steps;
  }

  lemma {:induction false} RunAppend(s: System, xs: seq<Step>, ys: seq<Step>)
    ensures Run(s, xs + ys) == Run(Run(s, xs), ys)
  {
    if ys == [] {
      assert xs + ys == xs;
    } else {
      RunAppend(s, xs, ys[..|ys| - 1]);
      RunSnoc(s, xs + ys[..|ys| - 1], ys[|ys| - 1]);
      assert xs + ys == (xs + ys[..|ys| - 1]) + [ys[|ys| - 1]];
    }
  }

  /** An empty service next to an HCM that already knows some balances. */
  predicate Initial(s: System) {
    && s.store.requests == [] && s.store.outbox == []
    && (forall k :: k in s.store.balances ==> s.store.balances[k].availableDays >= 0.0)
    && s.worker == Idle && s.history == [] && s.maxAttempts > 0
  }
}
