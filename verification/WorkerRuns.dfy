/** What one complete run of the worker achieves, whatever the API does in between. */
module WorkerRuns {
  import opened Protocol
  import opened Coupling
  import opened Settlement
  import opened Drain
  import opened OutboundWorkers

  predicate ApiOnlyAll(awaits: seq<Await>) {
    forall i :: 0 <= i < |awaits| ==> ApiOnly(awaits[i])
  }

  /** In every reachable state the events of the due list read at the start of the run that are
      still to be handled are live, with the attempt count they were read with. */
  lemma DueListStaysLive(s: System, steps: seq<Step>)
    requires Initial(s)
    ensures var end := Run(s, steps);
            end.worker.Awaiting? ==>
              && StillLive(end.store, end.worker.current)
              && (forall i :: 0 <= i < |end.worker.rest| ==> StillLive(end.store, end.worker.rest[i]))
  {
    RunKeepsInvariant(s, steps);
  }

  /** Steps of the API neither settle nor submit. */
  lemma {:induction false} ApiStepsObserveNothing(s: System, steps: seq<Step>)
    requires forall i :: 0 <= i < |steps| ==> IsApiStep(steps[i])
    ensures Run(s, steps).worker == s.worker && Run(s, steps).history == s.history
    ensures SettleCount(s, steps) == 0
  {
    if steps != [] {
      ApiStepsObserveNothing(s, steps[..|steps| - 1]);
    }
  }

  lemma {:induction false} SettleCountAppend(s: System, xs: seq<Step>, ys: seq<Step>)
    ensures SettleCount(s, xs + ys) == SettleCount(s, xs) + SettleCount(Run(s, xs), ys)
  {
    if ys == [] {
      assert xs + ys == xs;
    } else {
      var front := ys[..|ys| - 1];
      SettleCountAppend(s, xs, front);
      RunAppend(s, xs, front);
      assert (xs + ys)[..|xs + ys| - 1] == xs + front;
    }
  }

  lemma SettleCountOne(s: System, step: Step)
    ensures SettleCount(s, [step]) == if Settles(s, step) then 1 else 0
  {
    assert [step][..0] == [];
  }

  /** An await settles once. */
  lemma AwaitSettlesOnce(s: System, w: Await)
    requires ApiOnly(w) && s.worker.Awaiting? && s.worker.reply.None?
    ensures SettleCount(s, AwaitSteps(w)) == 1
  {
    var land, resume := Land(AwaitOutcome(w)), Resume(w.now, w.jitter);
    var s1 := Run(s, w.before);
    var s2 := Apply(s1, land);
    var s3 := Run(s2, w.after);
    ApiStepsObserveNothing(s, w.before);
    SettleCountOne(s1, land);
    SettleCountAppend(s, w.before, [land]);
    RunSnoc(s, w.before, land);
    ApiStepsObserveNothing(s2, w.after);
    SettleCountAppend(s, w.before + [land], w.after);
    RunAppend(s, w.before + [land], w.after);
    SettleCountOne(s3, resume);
    SettleCountAppend(s, w.before + [land] + w.after, [resume]);
  }

  /** One await: one submission of the current event, then one conclusion. */
  lemma AwaitHandlesOne(s: System, w: Await, e: nat)
    requires ApiOnly(w) && s.worker.Awaiting? && s.worker.reply.None?
    ensures var after := Run(s, AwaitSteps(w));
            && after.worker == NextWorker(s.worker.rest)
            && SettleCount(s, AwaitSteps(w)) == 1
            && TallyEvent(after.history, e).submitted ==
                 TallyEvent(s.history, e).submitted + (if s.worker.current.id == e then 1 else 0)
  {
    var s1 := Run(s, w.before);
    var s2 := Apply(s1, Land(AwaitOutcome(w)));
    var s3 := Run(s2, w.after);
    ApiStepsObserveNothing(s, w.before);
    ApiStepsObserveNothing(s2, w.after);
    RunAwait(s, w);
    AwaitSettlesOnce(s, w);
    LandTally(s1, AwaitOutcome(w), e);
    ResumeTally(s3, w.now, w.jitter, e);
  }

  lemma LandTally(s: System, outcome: HcmOutcome, e: nat)
    requires s.worker.Awaiting? && s.worker.reply.None?
    ensures TallyEvent(Apply(s, Land(outcome)).history, e).submitted ==
              TallyEvent(s.history, e).submitted + (if s.worker.current.id == e then 1 else 0)
  {
    assert Apply(s, Land(outcome)).history[..|s.history|] == s.history;
  }

  lemma ResumeTally(s: System, now: nat, jitter: Jitter, e: nat)
    ensures TallyEvent(Apply(s, Resume(now, jitter)).history, e).submitted == TallyEvent(s.history, e).submitted
  {
    var after := Apply(s, Resume(now, jitter)).history;
    if |after| > |s.history| {
      assert after[..|after| - 1] == s.history;
    } else {
      assert after == s.history;
    }
  }

  function Occurrences(ids: seq<nat>, e: nat): nat {
    if ids == [] then 0 else Occurrences(ids[..|ids| - 1], e) + if ids[|ids| - 1] == e then 1 else 0
  }

  lemma {:induction false} OccursOnce(ids: seq<nat>, e: nat)
    requires forall i, j :: 0 <= i < j < |ids| ==> ids[i] != ids[j]
    ensures Occurrences(ids, e) == if e in ids then 1 else 0
  {
    if ids != [] {
      OccursOnce(ids[..|ids| - 1], e);
      assert forall i :: 0 <= i < |ids| - 1 ==> ids[..|ids| - 1][i] == ids[i];
      assert e in ids <==> e in ids[..|ids| - 1] || e == ids[|ids| - 1];
    }
  }

  /** After the first `n` awaits: the worker is at the next row, has settled `n` times, and has
      submitted the first `n` due events. */
  predicate HandledPrefix(s: System, rows: seq<DueEvent>, due: seq<nat>, steps: seq<Step>, n: nat, e: nat) {
    && n <= |rows| == |due|
    && Run(s, steps).worker == NextWorker(rows[n..])
    && SettleCount(s, steps) == n
    && TallyEvent(Run(s, steps).history, e).submitted == TallyEvent(s.history, e).submitted + Occurrences(due[..n], e)
  }

  lemma HandledNext(s: System, rows: seq<DueEvent>, due: seq<nat>, steps: seq<Step>, n: nat, e: nat, w: Await)
    requires HandledPrefix(s, rows, due, steps, n, e) && n < |rows| && rows[n].id == due[n] && ApiOnly(w)
    ensures HandledPrefix(s, rows, due, steps + AwaitSteps(w), n + 1, e)
  {
    assert rows[n..][0] == rows[n] && rows[n..][1..] == rows[n + 1..];
    AwaitHandlesOne(Run(s, steps), w, e);
    RunAppend(s, steps, AwaitSteps(w));
    SettleCountAppend(s, steps, AwaitSteps(w));
    assert due[..n + 1][..n] == due[..n];
  }

  lemma HandledNone(s: System, due: seq<nat>, now: nat, limit: int, e: nat)
    requires s.worker.Idle? && IsDueList(s.store.outbox, now, limit, due)
    ensures HandledPrefix(s, Capture(s.store.outbox, due), due, RunSteps(due, now, limit, []), 0, e)
  {
    var rows := Capture(s.store.outbox, due);
    RunStepsStart(s, due, now, limit);
    SettleCountOne(s, StartRun(due, now, limit));
    assert RunSteps(due, now, limit, []) == [StartRun(due, now, limit)];
    assert rows[0..] == rows && due[..0] == [];
  }

  lemma RunStepsSnoc(due: seq<nat>, now: nat, limit: int, front: seq<Await>, w: Await)
    ensures RunSteps(due, now, limit, front + [w]) == RunSteps(due, now, limit, front) + AwaitSteps(w)
  {
    AwaitStepsSnoc(front, w);
    Prepend(StartRun(due, now, limit), AllAwaitSteps(front), AwaitSteps(w));
  }

  lemma {:induction false} RunHandlesPrefix(s: System, due: seq<nat>, now: nat, limit: int, awaits: seq<Await>, e: nat)
    requires s.worker.Idle? && IsDueList(s.store.outbox, now, limit, due)
    requires |awaits| <= |due| && ApiOnlyAll(awaits)
    ensures HandledPrefix(s, Capture(s.store.outbox, due), due, RunSteps(due, now, limit, awaits), |awaits|, e)
  {
    if awaits == [] {
      HandledNone(s, due, now, limit, e);
    } else {
      var front, w := awaits[..|awaits| - 1], awaits[|awaits| - 1];
      var rows := Capture(s.store.outbox, due);
      RunHandlesPrefix(s, due, now, limit, front, e);
      assert rows[|front|].id == due[|front|];
      HandledNext(s, rows, due, RunSteps(due, now, limit, front), |front|, e, w);
      RunStepsSnoc(due, now, limit, front, w);
      assert front + [w] == awaits;
    }
  }

  /** A complete run submits every due event exactly once and no other event at all, and leaves the
      worker idle, whatever the API does in between. */
  lemma RunSubmitsDueOnce(s: System, due: seq<nat>, now: nat, limit: int, awaits: seq<Await>, e: nat)
    requires s.worker.Idle? && IsDueList(s.store.outbox, now, limit, due)
    requires |awaits| == |due| && ApiOnlyAll(awaits)
    ensures var after := Run(s, RunSteps(due, now, limit, awaits));
            && after.worker.Idle?
            && TallyEvent(after.history, e).submitted ==
                 TallyEvent(s.history, e).submitted + (if e in due then 1 else 0)
  {
    RunHandlesPrefix(s, due, now, limit, awaits, e);
    assert due[..|awaits|] == due;
    OccursOnce(due, e);
  }

  /** A run over a non-empty due list uses up at least one attempt per event: without approvals in
      between, the attempts left strictly decrease. */
  lemma RunUsesBudget(s: System, due: seq<nat>, now: nat, limit: int, awaits: seq<Await>)
    requires Invariant(s) && s.worker.Idle? && IsDueList(s.store.outbox, now, limit, due)
    requires |awaits| == |due| && ApiOnlyAll(awaits)
    ensures BudgetOf(Run(s, RunSteps(due, now, limit, awaits))) + |due| <=
              BudgetOf(s) + s.maxAttempts * QueueCount(s, RunSteps(due, now, limit, awaits))
  {
    RunHandlesPrefix(s, due, now, limit, awaits, 0);
    SubmissionsBounded(s, RunSteps(due, now, limit, awaits));
  }
}
