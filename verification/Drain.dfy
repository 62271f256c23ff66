/** The outbox drains: settling uses up a budget of attempts that only approvals refill. */
module Drain {
  import opened Results
  import opened Domain
  import opened Tables
  import opened Protocol
  import opened Coupling

  /** The attempts an event may still use. */
  function Budget(event: OutboxEvent, maxAttempts: nat): nat {
    if Live(event.status) && event.attemptCount < maxAttempts then maxAttempts - event.attemptCount else 0
  }

  function TotalBudget(outbox: seq<OutboxEvent>, maxAttempts: nat): nat {
    if outbox == [] then 0
    else TotalBudget(outbox[..|outbox| - 1], maxAttempts) + Budget(outbox[|outbox| - 1], maxAttempts)
  }

  lemma {:induction false} BudgetUpdate(outbox: seq<OutboxEvent>, e: nat, event: OutboxEvent, maxAttempts: nat)
    requires e < |outbox|
    ensures TotalBudget(outbox[e := event], maxAttempts) ==
              TotalBudget(outbox, maxAttempts) - Budget(outbox[e], maxAttempts) + Budget(event, maxAttempts)
  {
    var last := |outbox| - 1;
    if e == last {
      assert outbox[e := event][..last] == outbox[..last];
    } else {
      BudgetUpdate(outbox[..last], e, event, maxAttempts);
      assert outbox[e := event][..last] == outbox[..last][e := event];
    }
  }

  lemma {:induction false} BudgetZero(outbox: seq<OutboxEvent>, maxAttempts: nat)
    requires forall e :: 0 <= e < |outbox| ==> outbox[e].attemptCount < maxAttempts
    ensures TotalBudget(outbox, maxAttempts) == 0 <==> (forall e :: 0 <= e < |outbox| ==> !Live(outbox[e].status))
  {
    if outbox != [] {
      var last := |outbox| - 1;
      BudgetZero(outbox[..last], maxAttempts);
      assert forall e :: 0 <= e < last ==> outbox[..last][e] == outbox[e];
    }
  }

  function BudgetOf(s: System): nat {
    TotalBudget(s.store.outbox, s.maxAttempts)
  }

  /** The step queues an event. */
  predicate Queues(s: System, step: Step) {
    step.Approve? && |Apply(s, step).store.outbox| > |s.store.outbox|
  }

  /** The step settles, retries or reverses the event in flight. */
  predicate Settles(s: System, step: Step) {
    step.Resume? && s.worker.Awaiting? && s.worker.reply.Some?
  }

  /** Settling rewrites the event in flight, which then has fewer attempts left. */
  lemma SettleLowersBudget(st: Store, d: DueEvent, outcome: HcmOutcome, maxAttempts: nat, now: nat, jitter: Jitter)
    requires d.id < |st.outbox| && d.attemptCount == st.outbox[d.id].attemptCount
    requires Budget(st.outbox[d.id], maxAttempts) > 0
    ensures var after := Settle(st, d, outcome, maxAttempts, now, jitter).outbox;
            && |after| == |st.outbox| && after == st.outbox[d.id := after[d.id]]
            && Budget(after[d.id], maxAttempts) < Budget(st.outbox[d.id], maxAttempts)
  {
  }

  lemma SettleBudget(s: System, now: nat, jitter: Jitter)
    requires Invariant(s) && Settles(s, Resume(now, jitter))
    ensures BudgetOf(Apply(s, Resume(now, jitter))) < BudgetOf(s)
  {
    var d := s.worker.current;
    assert EventOk(s.store, s.store.outbox[d.id], s.maxAttempts);
    SettleLowersBudget(s.store, d, s.worker.reply.value, s.maxAttempts, now, jitter);
    var after := Settle(s.store, d, s.worker.reply.value, s.maxAttempts, now, jitter).outbox;
    BudgetUpdate(s.store.outbox, d.id, after[d.id], s.maxAttempts);
  }

  lemma OutboxOfOtherSteps(s: System, step: Step)
    requires !Settles(s, step) && !Queues(s, step)
    ensures BudgetOf(Apply(s, step)) == BudgetOf(s)
  {
  }

  lemma QueueBudget(s: System, step: Step)
    requires Invariant(s) && Queues(s, step)
    ensures BudgetOf(Apply(s, step)) == BudgetOf(s) + s.maxAttempts
  {
    var after := Apply(s, step).store.outbox;
    ApiCoupled(s.store, step, s.maxAttempts);
    assert after[..|after| - 1] == s.store.outbox;
  }

  /** Every settling step uses up budget, an approval adds one event's worth, and no other step
      changes it. */
  lemma StepBudget(s: System, step: Step)
    requires Invariant(s)
    ensures Settles(s, step) ==> BudgetOf(Apply(s, step)) < BudgetOf(s)
    ensures Queues(s, step) ==> BudgetOf(Apply(s, step)) == BudgetOf(s) + s.maxAttempts
    ensures !Settles(s, step) && !Queues(s, step) ==> BudgetOf(Apply(s, step)) == BudgetOf(s)
  {
    if Settles(s, step) {
      SettleBudget(s, step.now, step.jitter);
    } else if Queues(s, step) {
      QueueBudget(s, step);
    } else {
      OutboxOfOtherSteps(s, step);
    }
  }

  /** How many steps of the run settle, and how many queue an event. */
  function SettleCount(s: System, steps: seq<Step>): nat {
    if steps == [] then 0
    else
      var front := steps[..|steps| - 1];
      SettleCount(s, front) + if Settles(Run(s, front), steps[|steps| - 1]) then 1 else 0
  }

  function QueueCount(s: System, steps: seq<Step>): nat {
    if steps == [] then 0
    else
      var front := steps[..|steps| - 1];
      QueueCount(s, front) + if Queues(Run(s, front), steps[|steps| - 1]) then 1 else 0
  }

  function Times(n: nat, max: nat): nat {
    if n == 0 then 0 else Times(n - 1, max) + max
  }

  lemma {:induction false} TimesIsProduct(n: nat, max: nat)
    ensures Times(n, max) == max * n
  {
    if n > 0 {
      TimesIsProduct(n - 1, max);
      assert max * n == max * (n - 1) + max;
    }
  }

  /** What one step adds to the two sides of the account. */
  lemma StepAccount(s: System, step: Step)
    requires Invariant(s)
    ensures (if Settles(s, step) then 1 else 0) + BudgetOf(Apply(s, step)) <=
              BudgetOf(s) + (if Queues(s, step) then s.maxAttempts else 0)
  {
    StepBudget(s, step);
  }

  lemma {:induction false} SubmissionsWithinTimes(s: System, steps: seq<Step>)
    requires Invariant(s)
    ensures SettleCount(s, steps) + BudgetOf(Run(s, steps)) <=
              BudgetOf(s) + Times(QueueCount(s, steps), s.maxAttempts)
  {
    if steps != [] {
      var front := steps[..|steps| - 1];
      SubmissionsWithinTimes(s, front);
      RunKeepsInvariant(s, front);
      SameMaxAttempts(s, front);
      StepAccount(Run(s, front), steps[|steps| - 1]);
    }
  }

  /** In every run the worker acts on at most as many submissions as the outbox had attempts left,
      plus `maxAttempts` for each new approval. */
  lemma SubmissionsBounded(s: System, steps: seq<Step>)
    requires Invariant(s)
    ensures SettleCount(s, steps) + BudgetOf(Run(s, steps)) <=
              BudgetOf(s) + s.maxAttempts * QueueCount(s, steps)
  {
    SubmissionsWithinTimes(s, steps);
    TimesIsProduct(QueueCount(s, steps), s.maxAttempts);
  }

  predicate Drained(s: System) {
    forall r :: 0 <= r < |s.store.requests| ==> s.store.requests[r].status != APPROVED
  }

  /** No event is live exactly when the budget is used up; then no request is left APPROVED. */
  lemma DrainedIsSettled(s: System)
    requires Invariant(s)
    ensures BudgetOf(s) == 0 <==> Drained(s)
  {
    var st := s.store;
    forall e | 0 <= e < |st.outbox| ensures EventOk(st, st.outbox[e], s.maxAttempts) {
    }
    BudgetZero(st.outbox, s.maxAttempts);
    if BudgetOf(s) == 0 {
      forall r | 0 <= r < |st.requests| ensures st.requests[r].status != APPROVED {
        assert RequestOk(st, r);
        if HasEvent(st.outbox, r) {
          var e :| 0 <= e < |st.outbox| && st.outbox[e].requestId == r;
          assert EventOk(st, st.outbox[e], s.maxAttempts);
        }
      }
    }
    if Drained(s) {
      forall e | 0 <= e < |st.outbox| ensures !Live(st.outbox[e].status) {
        assert EventOk(st, st.outbox[e], s.maxAttempts);
      }
    }
  }

  /** Every run without new approvals, in whatever order its steps come, has drained the outbox once
      the worker has settled as many submissions as there were attempts left. */
  lemma OutboxDrains(s: System, steps: seq<Step>)
    requires Invariant(s)
    requires QueueCount(s, steps) == 0 && SettleCount(s, steps) >= BudgetOf(s)
    ensures Drained(Run(s, steps)) && SettleCount(s, steps) == BudgetOf(s)
  {
    SubmissionsBounded(s, steps);
    RunKeepsInvariant(s, steps);
    DrainedIsSettled(Run(s, steps));
  }

  /** While a request is APPROVED its event becomes due and stays so: an idle worker that may take
      any event at all never reads an empty due list from then on. */
  lemma SomethingIsDue(s: System, r: nat) returns (e: nat, from: nat)
    requires Invariant(s) && r < |s.store.requests| && s.store.requests[r].status == APPROVED
    ensures e < |s.store.outbox| && s.store.outbox[e].requestId == r
    ensures forall now: nat :: now >= from ==> IsDue(s.store.outbox[e], now)
    ensures forall now: nat, limit: int ::
              now >= from && limit != 0 ==> !IsDueList(s.store.outbox, now, limit, [])
  {
    var outbox := s.store.outbox;
    assert RequestOk(s.store, r);
    e :| 0 <= e < |outbox| && outbox[e].requestId == r;
    assert EventOk(s.store, outbox[e], s.maxAttempts);
    from := if outbox[e].nextAttemptAt.Some? then outbox[e].nextAttemptAt.value else 0;
  }

  /** The oldest due event alone answers a query with limit 1. */
  lemma {:induction false} OldestDue(outbox: seq<OutboxEvent>, now: nat, upTo: nat, e: nat) returns (oldest: nat)
    requires upTo <= |outbox| && e < |outbox| && IsDue(outbox[e], now)
    ensures oldest < |outbox| && IsDue(outbox[oldest], now) && outbox[oldest].createdAt <= outbox[e].createdAt
    ensures forall f :: 0 <= f < upTo && IsDue(outbox[f], now) ==> outbox[oldest].createdAt <= outbox[f].createdAt
  {
    if upTo == 0 {
      oldest := e;
    } else {
      oldest := OldestDue(outbox, now, upTo - 1, e);
      if IsDue(outbox[upTo - 1], now) && outbox[upTo - 1].createdAt < outbox[oldest].createdAt {
        oldest := upTo - 1;
      }
    }
  }

  /** The three steps of a run over one due event. */
  function ThreeSteps(e: nat, now: nat, outcome: HcmOutcome, jitter: Jitter): seq<Step> {
    [StartRun([e], now, 1), Land(outcome), Resume(now, jitter)]
  }

  /** Reading one due event puts it in flight. */
  lemma StartsWithOldest(s: System, e: nat, now: nat)
    requires s.worker.Idle? && e < |s.store.outbox| && IsDueList(s.store.outbox, now, 1, [e])
    ensures Apply(s, StartRun([e], now, 1)) == s.(worker := Awaiting(CaptureOne(s.store.outbox, e), [], None))
  {
    var d := CaptureOne(s.store.outbox, e);
    assert Capture(s.store.outbox, [e]) == [d] && [d][1..] == [];
  }

  /** It is submitted and settled. */
  lemma ThreeStepsSettle(s: System, e: nat, now: nat, outcome: HcmOutcome, jitter: Jitter)
    requires Invariant(s) && s.worker.Idle?
    requires e < |s.store.outbox| && IsDueList(s.store.outbox, now, 1, [e])
    ensures var after := Run(s, ThreeSteps(e, now, outcome, jitter));
            after.worker.Idle? && BudgetOf(after) < BudgetOf(s)
  {
    var start := StartRun([e], now, 1);
    var s1 := Apply(s, start);
    var s2 := Apply(s1, Land(outcome));
    StartsWithOldest(s, e, now);
    RunThree(s, start, Land(outcome), Resume(now, jitter));
    StepKeepsInvariant(s, start);
    StepKeepsInvariant(s1, Land(outcome));
    LandAnswers(s1, outcome);
    SettleBudget(s2, now, jitter);
  }

  /** The answer of HCM leaves the outbox as it is and the event in flight. */
  lemma LandAnswers(s: System, outcome: HcmOutcome)
    requires s.worker.Awaiting? && s.worker.reply.None? && s.worker.rest == []
    ensures var after := Apply(s, Land(outcome));
            && after.worker.Awaiting? && after.worker.reply.Some? && after.worker.rest == []
            && after.store == s.store && after.maxAttempts == s.maxAttempts
  {
  }

  /** One run of the worker over one event: it reads, submits and settles. */
  lemma OneEventRun(s: System, r: nat, outcome: HcmOutcome, jitter: Jitter) returns (steps: seq<Step>)
    requires Invariant(s) && s.worker.Idle?
    requires r < |s.store.requests| && s.store.requests[r].status == APPROVED
    ensures |steps| == 3 && steps[0].StartRun? && steps[1] == Land(outcome) && steps[2].Resume?
    ensures Run(s, steps).worker.Idle? && BudgetOf(Run(s, steps)) < BudgetOf(s)
  {
    var e, now := SomethingIsDue(s, r);
    var oldest := OldestDue(s.store.outbox, now, |s.store.outbox|, e);
    assert IsDueList(s.store.outbox, now, 1, [oldest]);
    steps := ThreeSteps(oldest, now, outcome, jitter);
    ThreeStepsSettle(s, oldest, now, outcome, jitter);
  }

  lemma RunThree(s: System, x: Step, y: Step, z: Step)
    ensures Run(s, [x, y, z]) == Apply(Apply(Apply(s, x), y), z)
  {
    assert Run(s, []) == s;
    RunSnoc(s, [], x);
    RunSnoc(s, [x], y);
    RunSnoc(s, [x, y], z);
    assert [] + [x] == [x] && [x] + [y] == [x, y] && [x, y] + [z] == [x, y, z];
  }

  /** Worker steps in threes, the i-th of which is answered `answer(from + i)`. */
  predicate AnswersFollow(steps: seq<Step>, answer: nat -> HcmOutcome, from: nat) {
    && |steps| % 3 == 0
    && (forall i :: 0 <= i < |steps| ==> !IsApiStep(steps[i]))
    && forall i :: 0 <= i < |steps| / 3 ==> steps[3 * i + 1] == Land(answer(from + i))
  }

  lemma AnswersAppend(first: seq<Step>, rest: seq<Step>, answer: nat -> HcmOutcome, from: nat)
    requires |first| == 3 && AnswersFollow(first, answer, from) && AnswersFollow(rest, answer, from + 1)
    ensures AnswersFollow(first + rest, answer, from)
  {
    var steps := first + rest;
    forall i | 0 <= i < |steps| / 3 ensures steps[3 * i + 1] == Land(answer(from + i)) {
      if i == 0 {
        assert first[3 * 0 + 1] == Land(answer(from + 0));
      } else {
        assert steps[3 * i + 1] == rest[3 * (i - 1) + 1];
      }
    }
  }

  lemma NotDrained(s: System) returns (r: nat)
    requires !Drained(s)
    ensures r < |s.store.requests| && s.store.requests[r].status == APPROVED
  {
    r :| 0 <= r < |s.store.requests| && s.store.requests[r].status == APPROVED;
  }

  /** Worker steps that drain the outbox, answered from `answer(from)` on. */
  predicate Drains(s: System, steps: seq<Step>, answer: nat -> HcmOutcome, from: nat) {
    && AnswersFollow(steps, answer, from) && |steps| <= 3 * BudgetOf(s)
    && Run(s, steps).worker.Idle? && Drained(Run(s, steps))
  }

  lemma DrainsAppend(s: System, mid: System, first: seq<Step>, rest: seq<Step>, answer: nat -> HcmOutcome, from: nat)
    requires |first| == 3 && AnswersFollow(first, answer, from)
    requires mid == Run(s, first) && BudgetOf(mid) < BudgetOf(s)
    requires Drains(mid, rest, answer, from + 1)
    ensures Drains(s, first + rest, answer, from)
  {
    AnswersAppend(first, rest, answer, from);
    RunAppend(s, first, rest);
  }

  lemma DrainedAlready(s: System, answer: nat -> HcmOutcome, from: nat)
    requires Invariant(s) && s.worker.Idle? && BudgetOf(s) == 0
    ensures Drains(s, [], answer, from)
  {
    DrainedIsSettled(s);
  }

  /** A run over one event, answered `answer(from)`. */
  lemma FirstRun(s: System, answer: nat -> HcmOutcome, from: nat, jitter: Jitter) returns (first: seq<Step>)
    requires Invariant(s) && s.worker.Idle? && BudgetOf(s) > 0
    ensures |first| == 3 && AnswersFollow(first, answer, from)
    ensures Invariant(Run(s, first)) && Run(s, first).worker.Idle? && BudgetOf(Run(s, first)) < BudgetOf(s)
  {
    DrainedIsSettled(s);
    var r := NotDrained(s);
    first := OneEventRun(s, r, answer(from), jitter);
    RunKeepsInvariant(s, first);
  }

  /** However HCM answers (`answer(i)` is its i-th answer), an idle worker drains the outbox within
      as many submissions as there are attempts left: afterwards every request that was APPROVED
      is SYNCED or REVERSED. */
  lemma {:induction false} WorkerDrains(s: System, answer: nat -> HcmOutcome, from: nat, jitter: Jitter)
    returns (steps: seq<Step>)
    requires Invariant(s) && s.worker.Idle?
    ensures Drains(s, steps, answer, from)
    decreases BudgetOf(s)
  {
    if BudgetOf(s) == 0 {
      steps := [];
      DrainedAlready(s, answer, from);
    } else {
      var first := FirstRun(s, answer, from, jitter);
      var mid := Run(s, first);
      var rest := WorkerDrains(mid, answer, from + 1, jitter);
      DrainsAppend(s, mid, first, rest, answer, from);
      steps := first + rest;
    }
  }
}
