/** What becomes of one submission, for each way HCM may answer it. */
module WorkerOutcomes {
  import opened Results
  import opened Texts
  import opened Domain
  import opened Tables
  import opened Protocol
  import opened Coupling
  import opened HcmClients
  import opened OutboundWorkers

  /** The awaits in which HCM accepts. */
  function AcceptedAwaits(awaits: seq<Await>): set<nat> {
    set i | 0 <= i < |awaits| && !awaits[i].unavailable && awaits[i].mode == NONE
  }

  /** What a worker run reports as processed is how often HCM accepted. */
  lemma {:induction false} ProcessedIsAccepted(awaits: seq<Await>)
    ensures AcceptedCount(awaits) == |AcceptedAwaits(awaits)|
  {
    if awaits != [] {
      var n := |awaits| - 1;
      ProcessedIsAccepted(awaits[..n]);
      var more := if !awaits[n].unavailable && awaits[n].mode == NONE then {n} else {};
      assert AcceptedAwaits(awaits) == AcceptedAwaits(awaits[..n]) + more;
    }
  }

  /** Steps of the API leave the event in flight, its request and HCM alone. */
  lemma {:induction false} ApiStepsLeaveFlight(s: System, steps: seq<Step>)
    requires forall i :: 0 <= i < |steps| ==> IsApiStep(steps[i])
    ensures Run(s, steps).worker == s.worker && Run(s, steps).hcm == s.hcm
  {
    if steps != [] {
      ApiStepsLeaveFlight(s, steps[..|steps| - 1]);
    }
  }

  /** The submission may be tried again: a transient failure with attempts left. */
  predicate TriedAgain(w: Await, attemptCount: nat, maxAttempts: nat) {
    (w.unavailable || w.mode == TRANSIENT_FAILURE) && attemptCount + 1 < maxAttempts
  }

  /** What is stored once the worker has acted on the answer: request and event, for an event that
      was in flight with `attemptCount` attempts before this one. */
  ghost predicate Settled(request: Request, event: OutboxEvent, w: Await, attemptCount: nat, maxAttempts: nat) {
    if !w.unavailable && w.mode == NONE then
      && request.status == SYNCED
      && event.status == PROCESSED && event.attemptCount == attemptCount && event.nextAttemptAt == None
    else if TriedAgain(w, attemptCount, maxAttempts) then
      && request.status == APPROVED
      && event.status == RETRY_PENDING && event.attemptCount == attemptCount + 1 && event.error == Some(TRANSIENT)
      && forall t: nat :: IsDue(event, t) <==> t >= w.now + RetryDelay(attemptCount + 1, w.jitter)
    else
      && request.status == REVERSED
      && event.status == FAILED && event.attemptCount == attemptCount
      && event.error == Some(if w.unavailable || w.mode == TRANSIENT_FAILURE then TRANSIENT else FUNCTIONAL)
  }

  /** The rows after settling, for a live event of an APPROVED request. */
  lemma SettledRows(st: Store, d: DueEvent, w: Await, maxAttempts: nat)
    requires StillLive(st, d) && d.requestId < |st.requests| && st.requests[d.requestId].status == APPROVED
    ensures var after := Settle(st, d, AwaitOutcome(w), maxAttempts, w.now, w.jitter);
            && d.id < |after.outbox| && d.requestId < |after.requests|
            && Settled(after.requests[d.requestId], after.outbox[d.id], w, d.attemptCount, maxAttempts)
  {
  }

  /** The state in which the worker goes on. */
  function Answered(s: System, w: Await): System {
    Run(Apply(Run(s, w.before), Land(AwaitOutcome(w))), w.after)
  }

  lemma AnsweredState(s: System, w: Await)
    requires Invariant(s) && s.worker.Awaiting? && s.worker.reply.None? && ApiOnly(w)
    ensures var mid := Answered(s, w);
            && Invariant(mid) && mid.maxAttempts == s.maxAttempts
            && mid.worker == s.worker.(reply := Some(AwaitOutcome(w)))
            && mid.hcm == (if AwaitOutcome(w).Accepted? then Consume(s.hcm, s.worker.current.usage) else s.hcm)
  {
    var s1 := Run(s, w.before);
    var s2 := Apply(s1, Land(AwaitOutcome(w)));
    ApiStepsLeaveFlight(s, w.before);
    RunKeepsInvariant(s, w.before);
    SameMaxAttempts(s, w.before);
    StepKeepsInvariant(s1, Land(AwaitOutcome(w)));
    ApiStepsLeaveFlight(s2, w.after);
    RunKeepsInvariant(s2, w.after);
    SameMaxAttempts(s2, w.after);
  }

  /** What the await has done to its event, its request and HCM. */
  ghost predicate Served(s: System, end: System, w: Await)
    requires s.worker.Awaiting?
  {
    var d, text := s.worker.current, KeyText(s.worker.current.usage.key);
    && d.id < |end.store.outbox| && d.requestId < |end.store.requests|
    && Settled(end.store.requests[d.requestId], end.store.outbox[d.id], w, d.attemptCount, s.maxAttempts)
    && end.hcm == (if !w.unavailable && w.mode == NONE
                   then s.hcm[text := HcmDays(s.hcm, text) - d.usage.days] else s.hcm)
  }

  lemma Concluded(s: System, mid: System, end: System, w: Await)
    requires s.worker.Awaiting? && Invariant(mid) && mid.maxAttempts == s.maxAttempts
    requires mid.worker == s.worker.(reply := Some(AwaitOutcome(w)))
    requires mid.hcm == (if AwaitOutcome(w).Accepted? then Consume(s.hcm, s.worker.current.usage) else s.hcm)
    requires end == Apply(mid, Resume(w.now, w.jitter))
    ensures Served(s, end, w)
  {
    CurrentApproved(mid);
    SettledRows(mid.store, mid.worker.current, w, mid.maxAttempts);
  }

  /** One await of the worker, with any API steps around it.  While HCM is unavailable or fails for
      the moment the request stays APPROVED and its event waits for the next attempt; after the last
      attempt, and at once on a functional failure, the request is REVERSED.  HCM consumes the days
      exactly if it accepts them, and then the request is SYNCED. */
  lemma AwaitOutcomes(s: System, w: Await)
    requires Invariant(s) && s.worker.Awaiting? && s.worker.reply.None? && ApiOnly(w)
    ensures Served(s, Run(s, AwaitSteps(w)), w)
  {
    RunAwait(s, w);
    AnsweredState(s, w);
    Concluded(s, Answered(s, w), Run(s, AwaitSteps(w)), w);
  }
}
