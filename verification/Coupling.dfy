/** The coupled invariant of requests and outbox events, kept by every step although the worker
    never looks at the status it overwrites. */
module Coupling {
  import opened Results
  import opened Texts
  import opened Domain
  import opened Tables
  import opened Protocol

  // ------------------------------------------------------------------ invariant

  predicate StatusPair(request: RequestStatus, event: EventStatus) {
    match event
    case QUEUED => request == APPROVED
    case RETRY_PENDING => request == APPROVED
    case PROCESSED => request == SYNCED
    case FAILED => request == REVERSED
  }

  predicate AttemptsOk(e: OutboxEvent, maxAttempts: nat) {
    && e.attemptCount < maxAttempts
    && (e.status == QUEUED ==> e.attemptCount == 0)
    && (e.status == RETRY_PENDING ==> e.attemptCount > 0)
    && (e.status == FAILED ==> e.error.Some?)
    && (e.status == FAILED && e.error == Some(TRANSIENT) ==> e.attemptCount + 1 == maxAttempts)
  }

  predicate EventOk(st: Store, e: OutboxEvent, maxAttempts: nat) {
    && e.requestId < |st.requests|
    && var request := st.requests[e.requestId];
    && e.usage == Usage(request.key, request.days)
    && request.key in st.balances
    && StatusPair(request.status, e.status)
    && AttemptsOk(e, maxAttempts)
  }

  predicate HasEvent(outbox: seq<OutboxEvent>, requestId: nat) {
    exists e :: 0 <= e < |outbox| && outbox[e].requestId == requestId
  }

  predicate RequestOk(st: Store, id: nat)
    requires id < |st.requests|
  {
    var request := st.requests[id];
    && request.days > 0.0
    && request.key.employeeId != [] && request.key.locationId != []
    && request.status != FAILED_SYNC
    && (request.status in {APPROVED, SYNCED, REVERSED} ==> HasEvent(st.outbox, id))
  }

  predicate OneEventPerRequest(outbox: seq<OutboxEvent>) {
    forall e, f :: 0 <= e < f < |outbox| ==> outbox[e].requestId != outbox[f].requestId
  }

  predicate Coupled(st: Store, maxAttempts: nat) {
    && (forall e :: 0 <= e < |st.outbox| ==> EventOk(st, st.outbox[e], maxAttempts))
    && OneEventPerRequest(st.outbox)
    && (forall r :: 0 <= r < |st.requests| ==> RequestOk(st, r))
  }

  /** A captured row still describes its event, and the event is still to be settled. */
  predicate StillLive(st: Store, d: DueEvent) {
    && d.id < |st.outbox|
    && Live(st.outbox[d.id].status)
    && d == CaptureOne(st.outbox, d.id)
  }

  predicate WorkerOk(s: System) {
    s.worker.Awaiting? ==>
      && StillLive(s.store, s.worker.current)
      && (forall i :: 0 <= i < |s.worker.rest| ==>
            StillLive(s.store, s.worker.rest[i]) && s.worker.rest[i].id != s.worker.current.id)
      && (forall i, j :: 0 <= i < j < |s.worker.rest| ==> s.worker.rest[i].id != s.worker.rest[j].id)
  }

  predicate NonNegative(balances: Balances) {
    forall k :: k in balances ==> balances[k].availableDays >= 0.0
  }

  predicate Invariant(s: System) {
    && s.maxAttempts > 0
    && Coupled(s.store, s.maxAttempts)
    && WorkerOk(s)
    && NonNegative(s.store.balances)
  }

  /** The event in flight belongs to an APPROVED request and carries its key and days. */
  lemma CurrentApproved(s: System)
    requires Invariant(s) && s.worker.Awaiting?
    ensures var d := s.worker.current;
            && d.requestId < |s.store.requests|
            && s.store.requests[d.requestId].status == APPROVED
            && d.usage == Usage(s.store.requests[d.requestId].key, s.store.requests[d.requestId].days)
            && d.usage.key in s.store.balances
  {
    assert EventOk(s.store, s.store.outbox[s.worker.current.id], s.maxAttempts);
  }

  // ------------------------------------------------------------- steps of the API

  /** What any step of the API leaves alone, and how it may extend the tables. */
  predicate ApiExtends(st: Store, after: Store) {
    && st.outbox <= after.outbox
    && |st.requests| <= |after.requests|
    && (forall k :: k in st.balances ==> k in after.balances)
    && (forall r :: 0 <= r < |st.requests| ==>
          && after.requests[r].key == st.requests[r].key
          && after.requests[r].days == st.requests[r].days
          && (after.requests[r].status == st.requests[r].status ||
              (st.requests[r].status == PENDING && after.requests[r].status in {APPROVED, REJECTED, CANCELLED})))
    && (forall r :: |st.requests| <= r < |after.requests| ==> after.requests[r].status == PENDING)
    && (forall e :: |st.outbox| <= e < |after.outbox| ==>
          after.outbox[e].status == QUEUED && after.outbox[e].attemptCount == 0)
  }

  /** Steps that touch balances, inbound rows and the ledger only. */
  lemma BalancesOnly(st: Store, after: Store, maxAttempts: nat)
    requires Coupled(st, maxAttempts)
    requires after.requests == st.requests && after.outbox == st.outbox
    requires forall k :: k in st.balances ==> k in after.balances
    ensures Coupled(after, maxAttempts) && ApiExtends(st, after)
  {
    forall e | 0 <= e < |after.outbox| ensures EventOk(after, after.outbox[e], maxAttempts) {
      assert EventOk(st, st.outbox[e], maxAttempts);
    }
    forall r | 0 <= r < |after.requests| ensures RequestOk(after, r) {
      assert RequestOk(st, r);
    }
  }

  lemma CreateCoupled(st: Store, key: BalanceKey, days: JsNumber, maxAttempts: nat)
    requires Coupled(st, maxAttempts)
    ensures Coupled(Tables.Create(st, key, days).0, maxAttempts)
    ensures ApiExtends(st, Tables.Create(st, key, days).0)
  {
    var after := Tables.Create(st, key, days).0;
    forall e | 0 <= e < |after.outbox| ensures EventOk(after, after.outbox[e], maxAttempts) {
      assert EventOk(st, st.outbox[e], maxAttempts);
    }
    forall r | 0 <= r < |after.requests| ensures RequestOk(after, r) {
      if r < |st.requests| {
        assert RequestOk(st, r);
      }
    }
  }

  lemma CloseCoupled(st: Store, id: nat, status: RequestStatus, maxAttempts: nat)
    requires Coupled(st, maxAttempts) && status in {REJECTED, CANCELLED}
    ensures Coupled(Close(st, id, status).0, maxAttempts)
    ensures ApiExtends(st, Close(st, id, status).0)
  {
    var after := Close(st, id, status).0;
    forall e | 0 <= e < |after.outbox| ensures EventOk(after, after.outbox[e], maxAttempts) {
      assert EventOk(st, st.outbox[e], maxAttempts);
    }
    forall r | 0 <= r < |after.requests| ensures RequestOk(after, r) {
      assert RequestOk(st, r);
    }
  }

  /** A request that may be approved has no event yet, so approval gives it its only one. */
  lemma ApproveCoupled(st: Store, id: nat, now: nat, maxAttempts: nat)
    requires Coupled(st, maxAttempts) && maxAttempts > 0
    ensures Coupled(Tables.Approve(st, id, now).0, maxAttempts)
    ensures ApiExtends(st, Tables.Approve(st, id, now).0)
  {
    var after := Tables.Approve(st, id, now).0;
    if after != st {
      var n := |st.outbox|;
      assert RequestOk(st, id);
      forall e | 0 <= e < n ensures st.outbox[e].requestId != id {
        assert EventOk(st, st.outbox[e], maxAttempts);
      }
      forall e | 0 <= e < |after.outbox| ensures EventOk(after, after.outbox[e], maxAttempts) {
        if e < n {
          assert EventOk(st, st.outbox[e], maxAttempts);
        }
      }
      forall r | 0 <= r < |after.requests| ensures RequestOk(after, r) {
        assert RequestOk(st, r);
        if r == id {
          assert after.outbox[n].requestId == id;
        } else if HasEvent(st.outbox, r) {
          var e :| 0 <= e < n && st.outbox[e].requestId == r;
          assert after.outbox[e].requestId == r;
        }
      }
    }
  }

  lemma ApiCoupled(st: Store, step: Step, maxAttempts: nat)
    requires Coupled(st, maxAttempts) && maxAttempts > 0 && IsApiStep(step)
    ensures Coupled(ApplyApi(st, step), maxAttempts)
    ensures ApiExtends(st, ApplyApi(st, step))
  {
    match step
    case Create(key, days) => CreateCoupled(st, key, days, maxAttempts);
    case Approve(id, now) => ApproveCoupled(st, id, now, maxAttempts);
    case Reject(id) => CloseCoupled(st, id, REJECTED, maxAttempts);
    case Cancel(id) => CloseCoupled(st, id, CANCELLED, maxAttempts);
    case _ => BalancesOnly(st, ApplyApi(st, step), maxAttempts);
  }

  /** Neither approval nor any other write of the API or a batch makes a balance negative;
      realtime and reconciliation writes are refused instead. */
  lemma ApiNonNegative(st: Store, step: Step, maxAttempts: nat)
    requires Coupled(st, maxAttempts) && NonNegative(st.balances) && IsApiStep(step)
    ensures NonNegative(ApplyApi(st, step).balances)
  {
  }

  lemma LiveAcrossApi(st: Store, after: Store, d: DueEvent)
    requires ApiExtends(st, after) && StillLive(st, d)
    ensures StillLive(after, d)
  {
    assert after.outbox[d.id] == st.outbox[d.id];
  }

  // ---------------------------------------------------------- steps of the worker

  /** What settling a live event writes: its own row, its request's status, and a refund. */
  predicate Moves(st: Store, after: Store, d: DueEvent, event: OutboxEvent, status: RequestStatus)
    requires StillLive(st, d) && d.requestId < |st.requests|
  {
    && after.outbox == st.outbox[d.id := event]
    && after.requests == st.requests[d.requestId := st.requests[d.requestId].(status := status)]
    && (forall k :: k in st.balances ==> k in after.balances)
  }

  /** Moving an event and its request together keeps them coupled. */
  lemma MoveCoupled(st: Store, after: Store, d: DueEvent, event: OutboxEvent, status: RequestStatus, maxAttempts: nat)
    requires Coupled(st, maxAttempts) && StillLive(st, d) && d.requestId < |st.requests|
    requires Moves(st, after, d, event, status)
    requires event.requestId == d.requestId && event.usage == d.usage
    requires StatusPair(status, event.status) && AttemptsOk(event, maxAttempts)
    ensures Coupled(after, maxAttempts)
  {
    assert EventOk(st, st.outbox[d.id], maxAttempts);
    forall e | 0 <= e < |after.outbox| ensures EventOk(after, after.outbox[e], maxAttempts) {
      assert EventOk(st, st.outbox[e], maxAttempts);
    }
    forall r | 0 <= r < |after.requests| ensures RequestOk(after, r) {
      assert RequestOk(st, r);
      if HasEvent(st.outbox, r) {
        var e :| 0 <= e < |st.outbox| && st.outbox[e].requestId == r;
        assert after.outbox[e].requestId == r;
      }
    }
  }

  /** Settling a live event moves the event and its request together. */
  lemma SettleCoupled(st: Store, d: DueEvent, outcome: HcmOutcome, maxAttempts: nat, now: nat, jitter: Jitter)
    requires Coupled(st, maxAttempts) && StillLive(st, d)
    ensures Coupled(Settle(st, d, outcome, maxAttempts, now, jitter), maxAttempts)
  {
    var after := Settle(st, d, outcome, maxAttempts, now, jitter);
    assert EventOk(st, st.outbox[d.id], maxAttempts);
    var status := after.requests[d.requestId].status;
    MoveCoupled(st, after, d, after.outbox[d.id], status, maxAttempts);
  }

  lemma SettleKeepsOthersLive(st: Store, d: DueEvent, outcome: HcmOutcome, maxAttempts: nat, now: nat, jitter: Jitter,
                              other: DueEvent)
    requires StillLive(st, d) && StillLive(st, other) && other.id != d.id
    ensures StillLive(Settle(st, d, outcome, maxAttempts, now, jitter), other)
  {
  }

  lemma SettleNonNegative(st: Store, d: DueEvent, outcome: HcmOutcome, maxAttempts: nat, now: nat, jitter: Jitter)
    requires Coupled(st, maxAttempts) && StillLive(st, d) && NonNegative(st.balances)
    ensures NonNegative(Settle(st, d, outcome, maxAttempts, now, jitter).balances)
  {
    assert EventOk(st, st.outbox[d.id], maxAttempts);
    assert RequestOk(st, d.requestId);
  }

  // -------------------------------------------------------------- all steps, runs

  lemma ApiKeepsInvariant(s: System, step: Step)
    requires Invariant(s) && IsApiStep(step)
    ensures Invariant(Apply(s, step))
  {
    var after := Apply(s, step);
    ApiCoupled(s.store, step, s.maxAttempts);
    ApiNonNegative(s.store, step, s.maxAttempts);
    if s.worker.Awaiting? {
      LiveAcrossApi(s.store, after.store, s.worker.current);
      forall i | 0 <= i < |s.worker.rest| ensures StillLive(after.store, s.worker.rest[i]) {
        LiveAcrossApi(s.store, after.store, s.worker.rest[i]);
      }
    }
  }

  lemma ResumeKeepsInvariant(s: System, now: nat, jitter: Jitter)
    requires Invariant(s)
    ensures Invariant(Apply(s, Resume(now, jitter)))
  {
    if s.worker.Awaiting? && s.worker.reply.Some? {
      var after := Apply(s, Resume(now, jitter));
      var d, outcome := s.worker.current, s.worker.reply.value;
      SettleCoupled(s.store, d, outcome, s.maxAttempts, now, jitter);
      SettleNonNegative(s.store, d, outcome, s.maxAttempts, now, jitter);
      forall i | 0 <= i < |s.worker.rest| ensures StillLive(after.store, s.worker.rest[i]) {
        SettleKeepsOthersLive(s.store, d, outcome, s.maxAttempts, now, jitter, s.worker.rest[i]);
      }
    }
  }

  lemma StepKeepsInvariant(s: System, step: Step)
    requires Invariant(s)
    ensures Invariant(Apply(s, step))
  {
    match step
    case StartRun(_, _, _) =>
    case Land(_) =>
    case Resume(now, jitter) => ResumeKeepsInvariant(s, now, jitter);
    case _ => ApiKeepsInvariant(s, step);
  }

  lemma {:induction false} RunKeepsInvariant(s: System, steps: seq<Step>)
    requires Invariant(s)
    ensures Invariant(Run(s, steps))
  {
    if steps != [] {
      RunKeepsInvariant(s, steps[..|steps| - 1]);
      StepKeepsInvariant(Run(s, steps[..|steps| - 1]), steps[|steps| - 1]);
    }
  }

  /** In every reachable state the request status and the outbound events determine each other. */
  lemma OutboxCoupling(s: System, steps: seq<Step>, r: nat)
    requires Initial(s) && r < |Run(s, steps).store.requests|
    ensures var st := Run(s, steps).store;
            var request := st.requests[r];
            && (request.status in {PENDING, REJECTED, CANCELLED} <==> !HasEvent(st.outbox, r))
            && (forall e :: 0 <= e < |st.outbox| && st.outbox[e].requestId == r ==>
                  && (Live(st.outbox[e].status) <==> request.status == APPROVED)
                  && (st.outbox[e].status == PROCESSED <==> request.status == SYNCED)
                  && (st.outbox[e].status == FAILED <==> request.status == REVERSED)
                  && request.key in st.balances)
            && (forall e, f :: 0 <= e < f < |st.outbox| ==> st.outbox[e].requestId != r || st.outbox[f].requestId != r)
            && request.status != FAILED_SYNC
            && NonNegative(st.balances)
  {
    RunKeepsInvariant(s, steps);
    var st := Run(s, steps).store;
    assert RequestOk(st, r);
    forall e | 0 <= e < |st.outbox| && st.outbox[e].requestId == r
      ensures EventOk(st, st.outbox[e], s.maxAttempts) && StatusPair(st.requests[r].status, st.outbox[e].status)
    {
      SameMaxAttempts(s, steps);
    }
  }

  lemma {:induction false} SameMaxAttempts(s: System, steps: seq<Step>)
    ensures Run(s, steps).maxAttempts == s.maxAttempts
  {
    if steps != [] {
      SameMaxAttempts(s, steps[..|steps| - 1]);
    }
  }
}
