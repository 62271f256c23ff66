/** Exactly-once settlement and bounded retries: what the outside world saw happen is determined
    by the state, in every run. */
module Settlement {
  import opened Results
  import opened Domain
  import opened Tables
  import opened Protocol
  import opened Coupling

  // ------------------------------------------------------------- counting effects

  /** How often a request was consumed in HCM, how often it was refunded, and how many days. */
  datatype RequestTally = RequestTally(consumed: nat, refunds: nat, refundedDays: real)

  const UNTOUCHED: RequestTally := RequestTally(0, 0, 0.0)

  function TallyRequest(history: seq<Effect>, r: nat): RequestTally {
    if history == [] then UNTOUCHED
    else
      var t := TallyRequest(history[..|history| - 1], r);
      match history[|history| - 1]
      case Submitted(_, request, outcome) =>
        if request == r && outcome.Accepted? then t.(consumed := t.consumed + 1) else t
      case Refunded(request, days) =>
        if request == r then t.(refunds := t.refunds + 1, refundedDays := t.refundedDays + days) else t
      case Deferred(_, _, _) => t
  }

  /** How often an event was submitted, and how long it was made to wait in all. */
  datatype EventTally = EventTally(submitted: nat, waited: nat)

  function TallyEvent(history: seq<Effect>, e: nat): EventTally {
    if history == [] then EventTally(0, 0)
    else
      var t := TallyEvent(history[..|history| - 1], e);
      match history[|history| - 1]
      case Submitted(event, _, _) => if event == e then t.(submitted := t.submitted + 1) else t
      case Refunded(_, _) => t
      case Deferred(event, _, delay) => if event == e then t.(waited := t.waited + delay) else t
  }

  // ---------------------------------------------------- what the state lets expect

  /** HCM has accepted the request, and the worker has not marked it yet. */
  predicate Acknowledged(s: System, r: nat) {
    s.worker.Awaiting? && s.worker.reply == Some(Accepted) && s.worker.current.requestId == r
  }

  function ExpectedRequest(s: System, r: nat): RequestTally {
    if r >= |s.store.requests| then UNTOUCHED
    else
      var request := s.store.requests[r];
      match request.status
      case SYNCED => RequestTally(1, 0, 0.0)
      case REVERSED => RequestTally(0, 1, request.days)
      case APPROVED => RequestTally(if Acknowledged(s, r) then 1 else 0, 0, 0.0)
      case _ => UNTOUCHED
  }

  function ExpectedSubmissions(s: System, e: nat): nat {
    if e >= |s.store.outbox| then 0
    else
      var event := s.store.outbox[e];
      if !Live(event.status) then event.attemptCount + 1
      else if s.worker.Awaiting? && s.worker.reply.Some? && s.worker.current.id == e then event.attemptCount + 1
      else event.attemptCount
  }

  /** The longest total wait before attempt number `attempts`, counted from zero. */
  function WaitBound(attempts: nat): int {
    BASE_MS * (2 * Pow2(attempts) - 2) + 99 * attempts
  }

  /** The submissions and the total wait of event `e` are what the state lets expect. */
  predicate EventAudited(s: System, e: nat) {
    && TallyEvent(s.history, e).submitted == ExpectedSubmissions(s, e)
    && TallyEvent(s.history, e).waited <=
         if e < |s.store.outbox| then WaitBound(s.store.outbox[e].attemptCount) else 0
  }

  ghost predicate Audited(s: System) {
    && (forall r: nat :: TallyRequest(s.history, r) == ExpectedRequest(s, r))
    && (forall e: nat :: EventAudited(s, e))
  }

  // ------------------------------------------------------------- kept by every step

  lemma ApiKeepsRequestTally(s: System, step: Step, r: nat)
    requires Invariant(s) && IsApiStep(step) && TallyRequest(s.history, r) == ExpectedRequest(s, r)
    ensures TallyRequest(Apply(s, step).history, r) == ExpectedRequest(Apply(s, step), r)
  {
    ApiCoupled(s.store, step, s.maxAttempts);
    if s.worker.Awaiting? {
      CurrentApproved(s);
    }
  }

  lemma ApiKeepsEventTally(s: System, step: Step, e: nat)
    requires Invariant(s) && IsApiStep(step) && EventAudited(s, e)
    ensures EventAudited(Apply(s, step), e)
  {
    ApiCoupled(s.store, step, s.maxAttempts);
  }

  lemma AuditedApi(s: System, step: Step)
    requires Invariant(s) && Audited(s) && IsApiStep(step)
    ensures Audited(Apply(s, step))
  {
    var after := Apply(s, step);
    forall r: nat ensures TallyRequest(after.history, r) == ExpectedRequest(after, r) {
      ApiKeepsRequestTally(s, step, r);
    }
    forall e: nat ensures EventAudited(after, e) {
      ApiKeepsEventTally(s, step, e);
    }
  }

  lemma AuditedLand(s: System, outcome: HcmOutcome)
    requires Invariant(s) && Audited(s)
    ensures Audited(Apply(s, Land(outcome)))
  {
    var after := Apply(s, Land(outcome));
    if s.worker.Awaiting? && s.worker.reply.None? {
      assert EventOk(s.store, s.store.outbox[s.worker.current.id], s.maxAttempts);
      assert after.history[..|s.history|] == s.history;
      forall r: nat ensures TallyRequest(after.history, r) == ExpectedRequest(after, r) {
        assert TallyRequest(s.history, r) == ExpectedRequest(s, r);
      }
      forall e: nat ensures EventAudited(after, e) {
        assert EventAudited(s, e);
      }
    }
  }

  lemma AuditedStart(s: System, due: seq<nat>, now: nat, limit: int)
    requires Invariant(s) && Audited(s)
    ensures Audited(Apply(s, StartRun(due, now, limit)))
  {
    var after := Apply(s, StartRun(due, now, limit));
    forall r: nat ensures TallyRequest(after.history, r) == ExpectedRequest(after, r) {
      assert TallyRequest(s.history, r) == ExpectedRequest(s, r);
    }
    forall e: nat ensures EventAudited(after, e) {
      assert EventAudited(s, e);
    }
  }

  /** At most 99 ms of jitter on top of the doubled delay, and never more than the cap. */
  lemma RetryDelayRange(attempt: nat, jitter: Jitter)
    ensures RetryDelay(attempt, jitter) <= BASE_MS * Pow2(attempt) + 99
    ensures RetryDelay(attempt, jitter) <= MAX_DELAY_MS
    ensures RetryDelay(attempt, jitter) < MAX_DELAY_MS ==> BASE_MS * Pow2(attempt) <= RetryDelay(attempt, jitter)
  {
  }

  /** The delays of the attempts, in milliseconds. */
  lemma DelaySchedule(jitter: Jitter)
    ensures RetryDelay(1, jitter) == 500 + jitter && RetryDelay(2, jitter) == 1_000 + jitter
    ensures RetryDelay(3, jitter) == 2_000 + jitter && RetryDelay(4, jitter) == 4_000 + jitter
    ensures RetryDelay(5, jitter) == 8_000 + jitter && RetryDelay(6, jitter) == 16_000 + jitter
    ensures forall attempt :: attempt >= 7 ==> RetryDelay(attempt, jitter) == 30_000
  {
    forall attempt: nat | attempt >= 7 ensures Pow2(attempt) >= Pow2(7) {
      Pow2Monotone(7, attempt);
    }
    PowersOfTwo();
  }

  lemma PowersOfTwo()
    ensures Pow2(1) == 2 && Pow2(2) == 4 && Pow2(3) == 8 && Pow2(4) == 16 && Pow2(5) == 32 && Pow2(6) == 64
    ensures Pow2(7) == 128
  {
  }

  /** Resuming appends at most one effect. */
  lemma ResumeHistory(s: System, now: nat, jitter: Jitter)
    requires s.worker.Awaiting? && s.worker.reply.Some?
    ensures var effects := SettleEffects(s.store, s.worker.current, s.worker.reply.value, s.maxAttempts, jitter);
            && Apply(s, Resume(now, jitter)).history == s.history + effects
            && |effects| <= 1
            && (s.history + effects)[..|s.history|] == s.history
            && (effects == [] ==> s.history + effects == s.history)
  {
  }

  lemma ResumeRequestAccepted(s: System, now: nat, jitter: Jitter, r: nat)
    requires Invariant(s) && s.worker.Awaiting? && s.worker.reply == Some(Accepted)
    requires TallyRequest(s.history, r) == ExpectedRequest(s, r)
    ensures TallyRequest(Apply(s, Resume(now, jitter)).history, r) == ExpectedRequest(Apply(s, Resume(now, jitter)), r)
  {
    assert EventOk(s.store, s.store.outbox[s.worker.current.id], s.maxAttempts);
    assert Apply(s, Resume(now, jitter)).history == s.history;
  }

  lemma ResumeRequestRetried(s: System, now: nat, jitter: Jitter, r: nat)
    requires Invariant(s) && s.worker.Awaiting? && s.worker.reply.Some? && s.worker.reply.value.Rejected?
    requires RetriesAgain(s.worker.current, s.worker.reply.value.error, s.maxAttempts)
    requires TallyRequest(s.history, r) == ExpectedRequest(s, r)
    ensures TallyRequest(Apply(s, Resume(now, jitter)).history, r) == ExpectedRequest(Apply(s, Resume(now, jitter)), r)
  {
    ResumeHistory(s, now, jitter);
    assert Apply(s, Resume(now, jitter)).store.requests == s.store.requests;
  }

  lemma TallyRefunded(history: seq<Effect>, request: nat, days: real, r: nat)
    ensures var t := TallyRequest(history, r);
            TallyRequest(history + [Refunded(request, days)], r) ==
              if request == r then t.(refunds := t.refunds + 1, refundedDays := t.refundedDays + days) else t
  {
    assert (history + [Refunded(request, days)])[..|history|] == history;
  }

  /** What a reversal does to its request, and what is seen of it. */
  lemma ReversedRequest(st: Store, d: DueEvent, error: HcmError, maxAttempts: nat, now: nat, jitter: Jitter)
    requires d.requestId < |st.requests| && st.requests[d.requestId].key in st.balances
    requires !RetriesAgain(d, error, maxAttempts)
    ensures var request := st.requests[d.requestId];
            && Settle(st, d, Rejected(error), maxAttempts, now, jitter).requests ==
                 st.requests[d.requestId := request.(status := REVERSED)]
            && SettleEffects(st, d, Rejected(error), maxAttempts, jitter) == [Refunded(d.requestId, request.days)]
  {
  }

  lemma ResumeRequestReversed(s: System, now: nat, jitter: Jitter, r: nat)
    requires s.worker.Awaiting? && s.worker.reply.Some? && s.worker.reply.value.Rejected?
    requires !RetriesAgain(s.worker.current, s.worker.reply.value.error, s.maxAttempts)
    requires var id := s.worker.current.requestId;
             id < |s.store.requests| && s.store.requests[id].status == APPROVED &&
             s.store.requests[id].key in s.store.balances
    requires TallyRequest(s.history, r) == ExpectedRequest(s, r)
    ensures TallyRequest(Apply(s, Resume(now, jitter)).history, r) == ExpectedRequest(Apply(s, Resume(now, jitter)), r)
  {
    var d := s.worker.current;
    ReversedRequest(s.store, d, s.worker.reply.value.error, s.maxAttempts, now, jitter);
    TallyRefunded(s.history, d.requestId, s.store.requests[d.requestId].days, r);
  }

  lemma AuditedResumeRequest(s: System, now: nat, jitter: Jitter, r: nat)
    requires Invariant(s) && s.worker.Awaiting? && s.worker.reply.Some?
    requires TallyRequest(s.history, r) == ExpectedRequest(s, r)
    ensures TallyRequest(Apply(s, Resume(now, jitter)).history, r) == ExpectedRequest(Apply(s, Resume(now, jitter)), r)
  {
    match s.worker.reply.value
    case Accepted => ResumeRequestAccepted(s, now, jitter, r);
    case Rejected(error) =>
      if RetriesAgain(s.worker.current, error, s.maxAttempts) {
        ResumeRequestRetried(s, now, jitter, r);
      } else {
        CurrentApproved(s);
        ResumeRequestReversed(s, now, jitter, r);
      }
  }

  lemma ResumeEventSettled(s: System, now: nat, jitter: Jitter, e: nat)
    requires Invariant(s) && s.worker.Awaiting? && s.worker.reply.Some?
    requires s.worker.reply.value.Rejected? ==>
               !RetriesAgain(s.worker.current, s.worker.reply.value.error, s.maxAttempts)
    requires EventAudited(s, e)
    ensures EventAudited(Apply(s, Resume(now, jitter)), e)
  {
    ResumeHistory(s, now, jitter);
  }

  lemma TallyDeferred(history: seq<Effect>, d: nat, attempt: nat, delay: nat, e: nat)
    ensures var t, after := TallyEvent(history, e), TallyEvent(history + [Deferred(d, attempt, delay)], e);
            after.submitted == t.submitted && after.waited == t.waited + (if e == d then delay else 0)
  {
    assert (history + [Deferred(d, attempt, delay)])[..|history|] == history;
  }

  /** What a retry does to its event. */
  lemma RetriedEvent(st: Store, d: DueEvent, error: HcmError, maxAttempts: nat, now: nat, jitter: Jitter)
    requires StillLive(st, d) && RetriesAgain(d, error, maxAttempts)
    ensures var after := Settle(st, d, Rejected(error), maxAttempts, now, jitter).outbox;
            && |after| == |st.outbox| && after == st.outbox[d.id := after[d.id]]
            && after[d.id].attemptCount == d.attemptCount + 1 && Live(after[d.id].status)
  {
  }

  /** What a retry does to its event and to the tally of every event. */
  lemma RetriedTally(s: System, now: nat, jitter: Jitter, e: nat)
    requires Invariant(s) && s.worker.Awaiting? && s.worker.reply.Some? && s.worker.reply.value.Rejected?
    requires RetriesAgain(s.worker.current, s.worker.reply.value.error, s.maxAttempts)
    ensures var d, after := s.worker.current, Apply(s, Resume(now, jitter));
            && TallyEvent(after.history, e).submitted == TallyEvent(s.history, e).submitted
            && TallyEvent(after.history, e).waited ==
                 TallyEvent(s.history, e).waited + (if e == d.id then RetryDelay(d.attemptCount + 1, jitter) else 0)
            && after.store.outbox == s.store.outbox[d.id := after.store.outbox[d.id]]
            && after.store.outbox[d.id].attemptCount == d.attemptCount + 1 == s.store.outbox[d.id].attemptCount + 1
            && Live(after.store.outbox[d.id].status) && Live(s.store.outbox[d.id].status)
  {
    var d := s.worker.current;
    RetriedEvent(s.store, d, s.worker.reply.value.error, s.maxAttempts, now, jitter);
    TallyDeferred(s.history, d.id, d.attemptCount + 1, RetryDelay(d.attemptCount + 1, jitter), e);
  }

  lemma ResumeEventRetried(s: System, now: nat, jitter: Jitter, e: nat)
    requires Invariant(s) && s.worker.Awaiting? && s.worker.reply.Some? && s.worker.reply.value.Rejected?
    requires RetriesAgain(s.worker.current, s.worker.reply.value.error, s.maxAttempts)
    requires EventAudited(s, e)
    ensures EventAudited(Apply(s, Resume(now, jitter)), e)
  {
    RetryDelayRange(s.worker.current.attemptCount + 1, jitter);
    RetriedTally(s, now, jitter, e);
  }

  lemma AuditedResumeEvent(s: System, now: nat, jitter: Jitter, e: nat)
    requires Invariant(s) && s.worker.Awaiting? && s.worker.reply.Some?
    requires EventAudited(s, e)
    ensures EventAudited(Apply(s, Resume(now, jitter)), e)
  {
    if s.worker.reply.value.Rejected? && RetriesAgain(s.worker.current, s.worker.reply.value.error, s.maxAttempts) {
      ResumeEventRetried(s, now, jitter, e);
    } else {
      ResumeEventSettled(s, now, jitter, e);
    }
  }

  lemma AuditedResume(s: System, now: nat, jitter: Jitter)
    requires Invariant(s) && Audited(s) && s.worker.Awaiting? && s.worker.reply.Some?
    ensures Audited(Apply(s, Resume(now, jitter)))
  {
    var after := Apply(s, Resume(now, jitter));
    forall r: nat ensures TallyRequest(after.history, r) == ExpectedRequest(after, r) {
      AuditedResumeRequest(s, now, jitter, r);
    }
    forall e: nat ensures EventAudited(after, e) {
      AuditedResumeEvent(s, now, jitter, e);
    }
  }

  lemma AuditedStep(s: System, step: Step)
    requires Invariant(s) && Audited(s)
    ensures Audited(Apply(s, step))
  {
    match step
    case StartRun(due, now, limit) => AuditedStart(s, due, now, limit);
    case Land(outcome) => AuditedLand(s, outcome);
    case Resume(now, jitter) =>
      if s.worker.Awaiting? && s.worker.reply.Some? {
        AuditedResume(s, now, jitter);
      }
    case _ => AuditedApi(s, step);
  }

  lemma {:induction false} RunAudited(s: System, steps: seq<Step>)
    requires Initial(s)
    ensures Invariant(Run(s, steps)) && Audited(Run(s, steps))
  {
    if steps != [] {
      var front := steps[..|steps| - 1];
      RunAudited(s, front);
      StepKeepsInvariant(Run(s, front), steps[|steps| - 1]);
      AuditedStep(Run(s, front), steps[|steps| - 1]);
    }
  }

  // ------------------------------------------------------------------ main results

  /** In every run each request is consumed in HCM at most once and refunded at most once, exactly
      its days, and never both; it is consumed if it ends SYNCED and refunded if and only if it
      ends REVERSED. */
  lemma ExactlyOnceSettlement(s: System, steps: seq<Step>, r: nat)
    requires Initial(s) && r < |Run(s, steps).store.requests|
    ensures var t, request := TallyRequest(Run(s, steps).history, r), Run(s, steps).store.requests[r];
            && t.consumed + t.refunds <= 1
            && t.refundedDays == (if request.status == REVERSED then request.days else 0.0)
            && (t.refunds == 1 <==> request.status == REVERSED)
            && (t.consumed == 1 <==>
                  (request.status == SYNCED || (request.status == APPROVED && Acknowledged(Run(s, steps), r))))
  {
    RunAudited(s, steps);
    assert TallyRequest(Run(s, steps).history, r) == ExpectedRequest(Run(s, steps), r);
    assert RequestOk(Run(s, steps).store, r);
    if Acknowledged(Run(s, steps), r) {
      assert EventOk(Run(s, steps).store, Run(s, steps).store.outbox[Run(s, steps).worker.current.id],
                     Run(s, steps).maxAttempts);
    }
  }

  /** Every event is submitted at most `maxAttempts` times; an event that failed on a transient
      error was submitted exactly that often, a settled one at least once. */
  lemma SubmissionBound(s: System, steps: seq<Step>, e: nat)
    requires Initial(s) && e < |Run(s, steps).store.outbox|
    ensures var t, event := TallyEvent(Run(s, steps).history, e), Run(s, steps).store.outbox[e];
            && t.submitted <= s.maxAttempts
            && (event.status == FAILED && event.error == Some(TRANSIENT) ==> t.submitted == s.maxAttempts)
            && (!Live(event.status) ==> t.submitted >= 1)
  {
    RunAudited(s, steps);
    SameMaxAttempts(s, steps);
    var end := Run(s, steps);
    assert EventAudited(end, e);
    assert EventOk(end.store, end.store.outbox[e], end.maxAttempts);
  }

  lemma {:induction false} Pow2Monotone(a: nat, b: nat)
    requires a <= b
    ensures Pow2(a) <= Pow2(b)
  {
    if a < b {
      Pow2Monotone(a, b - 1);
    }
  }

  /** The waits between the submissions of one event add up to at most
      250 (2^N - 2) + 99 (N - 1) milliseconds. */
  lemma TotalWaitBound(s: System, steps: seq<Step>, e: nat)
    requires Initial(s)
    ensures TallyEvent(Run(s, steps).history, e).waited <=
              BASE_MS * (Pow2(s.maxAttempts) - 2) + 99 * (s.maxAttempts - 1)
  {
    RunAudited(s, steps);
    SameMaxAttempts(s, steps);
    var end := Run(s, steps);
    assert EventAudited(end, e);
    Pow2Monotone(1, s.maxAttempts);
    if e < |end.store.outbox| {
      assert EventOk(end.store, end.store.outbox[e], end.maxAttempts);
      WaitBoundMonotone(end.store.outbox[e].attemptCount, s.maxAttempts);
    }
  }

  lemma WaitBoundMonotone(a: nat, n: nat)
    requires a < n
    ensures WaitBound(a) <= BASE_MS * (Pow2(n) - 2) + 99 * (n - 1)
  {
    Pow2Monotone(a, n - 1);
  }

  /** Whatever the jitter, the next delay is longer, unless the delay has reached the cap. */
  lemma DelaysGrow(a: nat, b: nat, i: Jitter, j: Jitter)
    requires a < b
    ensures RetryDelay(a, i) < RetryDelay(b, j) || RetryDelay(b, j) == MAX_DELAY_MS
    ensures RetryDelay(a, i) < MAX_DELAY_MS ==> RetryDelay(a, i) < RetryDelay(b, j)
  {
    Pow2Monotone(a + 1, b);
    Pow2Monotone(0, a);
  }

  /** A transient failure below the last attempt defers the event: it is due again exactly from the
      end of the recorded delay on, with one attempt more. */
  lemma RetryDueAfterDelay(s: System, now: nat, jitter: Jitter, t: nat)
    requires Invariant(s) && s.worker.Awaiting? && s.worker.reply == Some(Rejected(TRANSIENT))
    requires s.worker.current.attemptCount + 1 < s.maxAttempts
    ensures var after, e := Apply(s, Resume(now, jitter)), s.worker.current.id;
            && |after.history| == |s.history| + 1
            && after.history[|s.history|].Deferred? && after.history[|s.history|].event == e
            && (IsDue(after.store.outbox[e], t) <==> t >= now + after.history[|s.history|].delay)
            && after.store.outbox[e].attemptCount == s.store.outbox[e].attemptCount + 1
            && after.store.requests == s.store.requests && after.store.balances == s.store.balances
  {
    assert EventOk(s.store, s.store.outbox[s.worker.current.id], s.maxAttempts);
  }

  // ------------------------------------------------------------ delays along a run

  /** Entry `i` of the history is a retry whose delay belongs to its attempt. */
  predicate DeferralOk(s: System, i: nat)
    requires i < |s.history|
  {
    s.history[i].Deferred? ==>
      && s.history[i].event < |s.store.outbox|
      && s.history[i].attempt <= s.store.outbox[s.history[i].event].attemptCount
      && RetryDelay(s.history[i].attempt, 0) <= s.history[i].delay <= RetryDelay(s.history[i].attempt, 99)
  }

  predicate SameDeferred(x: Effect, y: Effect) {
    x.Deferred? && y.Deferred? && x.event == y.event
  }

  predicate DeferralsOk(s: System) {
    && (forall i :: 0 <= i < |s.history| ==> DeferralOk(s, i))
    && (forall i, j :: 0 <= i < j < |s.history| && SameDeferred(s.history[i], s.history[j]) ==>
          s.history[i].attempt < s.history[j].attempt)
  }

  /** Entries stay, and the attempt counts they refer to never go down. */
  lemma DeferralStays(s: System, step: Step, i: nat)
    requires Invariant(s) && i < |s.history| && DeferralOk(s, i)
    ensures i < |Apply(s, step).history| && Apply(s, step).history[i] == s.history[i]
    ensures DeferralOk(Apply(s, step), i)
  {
    if IsApiStep(step) {
      ApiCoupled(s.store, step, s.maxAttempts);
    }
  }

  /** A retry counts one attempt more than all the retries of its event before it. */
  lemma DeferralAppended(s: System, step: Step, i: nat)
    requires Invariant(s) && |s.history| <= i < |Apply(s, step).history|
    ensures DeferralOk(Apply(s, step), i)
    ensures i == |s.history|
    ensures var x := Apply(s, step).history[i];
            x.Deferred? ==> x.event < |s.store.outbox| && x.attempt == s.store.outbox[x.event].attemptCount + 1
  {
  }

  lemma DeferralsStep(s: System, step: Step)
    requires Invariant(s) && DeferralsOk(s)
    ensures DeferralsOk(Apply(s, step))
  {
    var h := Apply(s, step).history;
    forall i | 0 <= i < |h| ensures DeferralOk(Apply(s, step), i) {
      if i < |s.history| {
        DeferralStays(s, step, i);
      } else {
        DeferralAppended(s, step, i);
      }
    }
    forall i, j | 0 <= i < j < |h| && SameDeferred(h[i], h[j]) ensures h[i].attempt < h[j].attempt {
      if j >= |s.history| {
        DeferralAppended(s, step, j);
        DeferralStays(s, step, i);
        assert DeferralOk(s, i);
      } else {
        DeferralStays(s, step, i);
        DeferralStays(s, step, j);
      }
    }
  }

  lemma {:induction false} DeferralsRun(s: System, steps: seq<Step>)
    requires Initial(s)
    ensures DeferralsOk(Run(s, steps))
  {
    if steps != [] {
      var front := steps[..|steps| - 1];
      DeferralsRun(s, front);
      RunKeepsInvariant(s, front);
      DeferralsStep(Run(s, front), steps[|steps| - 1]);
    }
  }

  /** In every run each delay of an event is longer than all its earlier ones, whatever the jitter,
      until the cap is reached. */
  lemma WaitsIncrease(s: System, steps: seq<Step>, i: nat, j: nat)
    requires Initial(s) && i < j < |Run(s, steps).history|
    requires SameDeferred(Run(s, steps).history[i], Run(s, steps).history[j])
    ensures var h := Run(s, steps).history; h[i].delay < h[j].delay || h[j].delay == MAX_DELAY_MS
  {
    DeferralsRun(s, steps);
    var end := Run(s, steps);
    assert DeferralOk(end, i) && DeferralOk(end, j);
    DelaysGrow(end.history[i].attempt, end.history[j].attempt, 99, 0);
  }
}
