/** The outbound worker, in place, with arbitrary API steps in between wherever it awaits HCM. */
module OutboundWorkers {
  import opened Results
  import opened Texts
  import opened Tables
  import opened Protocol
  import opened Coupling
  import opened DatabaseService
  import opened BalancesRepositories
  import opened TimeOffRepositories
  import opened TimeOffServices
  import opened RealtimeServices
  import opened BatchServices
  import opened HcmClients
  import BatchFold

  // --------------------------------------------------------- other users of the tables

  /** Everything that may run while the worker awaits HCM. */
  class Api {
    const db: Database
    const timeOff: TimeOffRequestsService
    const realtime: RealtimeSyncService
    const batch: BatchSyncService
    const balances: BalancesRepository

    predicate Valid() {
      && timeOff.Valid() && timeOff.db == db
      && realtime.Valid() && realtime.db == db
      && batch.Valid() && batch.db == db
      && balances.db == db
    }

    constructor (db: Database, hcm: HcmClient)
      ensures Valid() && this.db == db
    {
      this.db := db;
      timeOff := new TimeOffRequestsService(db);
      realtime := new RealtimeSyncService(db);
      batch := new BatchSyncService(db, hcm);
      balances := new BalancesRepository(db);
    }

    /** `BalancesService.getBalance` creates a missing row. */
    method GetBalance(key: BalanceKey) returns (balance: Balance)
      requires Valid()
      modifies db`balances
      ensures db.balances == WithRow(old(db.balances), key) && balance == db.balances[key]
      ensures balance == if key in old(db.balances) then old(db.balances[key]) else Balance(0.0, 1)
    {
      var found := balances.Get(key);
      if found.Some? {
        return found.value;
      }
      var created := balances.UpsertAbsolute(key, 0.0);
      return created.value;
    }

    method Perform(step: Step)
      requires Valid() && IsApiStep(step)
      modifies db
      ensures db.Snapshot() == ApplyApi(old(db.Snapshot()), step)
    {
      match step
      case Create(key, days) => var _ := timeOff.Create(key, days);
      case Approve(id, now) => var _ := timeOff.Approve(id, now);
      case Reject(id) => var _ := timeOff.Reject(id);
      case Cancel(id) => var _ := timeOff.Cancel(id);
      case ReadBalance(key) => var _ := GetBalance(key);
      case Realtime(event) => var _ := realtime.ProcessBalanceUpdate(event);
      case Ingest(row) => var _ := batch.IngestOne([], row, BatchFold.NO_ROWS);
      case Reconciled(key, local, reading) => var _ := batch.FinishReconcile(key, local, reading);
    }
  }

  // ------------------------------------------------------------------------- the worker

  /** What happens around one `await`: steps before HCM acts, how HCM answers, steps before the
      worker goes on, and the clock and jitter it then sees. */
  datatype Await = Await(
    before: seq<Step>,
    unavailable: bool,
    mode: FailureMode,
    after: seq<Step>,
    now: nat,
    jitter: Jitter)

  predicate ApiOnly(w: Await) {
    (forall i :: 0 <= i < |w.before| ==> IsApiStep(w.before[i])) &&
    (forall i :: 0 <= i < |w.after| ==> IsApiStep(w.after[i]))
  }

  function AwaitOutcome(w: Await): HcmOutcome {
    OutcomeOf(w.unavailable, w.mode)
  }

  function AwaitSteps(w: Await): seq<Step> {
    w.before + [Land(AwaitOutcome(w))] + w.after + [Resume(w.now, w.jitter)]
  }

  function AllAwaitSteps(awaits: seq<Await>): seq<Step> {
    if awaits == [] then []
    else AllAwaitSteps(awaits[..|awaits| - 1]) + AwaitSteps(awaits[|awaits| - 1])
  }

  /** The steps of one worker run over the events `due`, read at time `now`. */
  function RunSteps(due: seq<nat>, now: nat, limit: int, awaits: seq<Await>): seq<Step> {
    [StartRun(due, now, limit)] + AllAwaitSteps(awaits)
  }

  function AcceptedCount(awaits: seq<Await>): nat {
    if awaits == [] then 0
    else AcceptedCount(awaits[..|awaits| - 1]) + if AwaitOutcome(awaits[|awaits| - 1]).Accepted? then 1 else 0
  }

  class OutboundSyncWorker {
    const db: Database
    const requestsRepository: TimeOffRequestsRepository
    const hcmClient: HcmClient
    const api: Api
    const maxAttempts: nat

    /** What the worker awaits, and what has been observed so far: for the proof only. */
    ghost var phase: Worker
    ghost var history: seq<Effect>

    predicate Valid() {
      requestsRepository.db == db && api.Valid() && api.db == db
    }

    constructor (db: Database, hcmClient: HcmClient, maxAttempts: nat)
      ensures Valid() && this.db == db && this.hcmClient == hcmClient && this.maxAttempts == maxAttempts
      ensures phase == Idle && history == []
    {
      this.db := db;
      this.hcmClient := hcmClient;
      this.maxAttempts := maxAttempts;
      requestsRepository := new TimeOffRequestsRepository(db);
      api := new Api(db, hcmClient);
      phase, history := Idle, [];
    }

    ghost function State(): System
      reads this, db, hcmClient
    {
      System(db.Snapshot(), hcmClient.balances, phase, history, maxAttempts)
    }

    /** API steps that get their turn while the worker waits. */
    method Yield(steps: seq<Step>)
      requires Valid() && forall i :: 0 <= i < |steps| ==> IsApiStep(steps[i])
      modifies db
      ensures State() == Run(old(State()), steps)
    {
      for i := 0 to |steps|
        invariant State() == Run(old(State()), steps[..i])
      {
        api.Perform(steps[i]);
        RunSnoc(old(State()), steps[..i], steps[i]);
        assert steps[..i + 1] == steps[..i] + [steps[i]];
      }
      assert steps[..|steps|] == steps;
    }

    /** The submission of one event up to the point where HCM has acted on it. */
    method Submit(event: DueEvent, w: Await) returns (outcome: HcmOutcome)
      requires phase.Awaiting? && phase.current == event && phase.reply.None?
      modifies hcmClient, `phase, `history
      ensures outcome == AwaitOutcome(w)
      ensures State() == Apply(old(State()), Land(outcome))
    {
      hcmClient.SetUnavailable(w.unavailable);
      hcmClient.SetFailureMode(w.mode);
      outcome := hcmClient.SubmitApprovedUsage(event.usage);
      phase := phase.(reply := Some(outcome));
      history := history + [Submitted(event.id, event.requestId, outcome)];
    }

    /** What the worker writes when it goes on. */
    method Conclude(event: DueEvent, outcome: HcmOutcome, now: nat, jitter: Jitter) returns (processed: nat)
      requires Valid() && phase.Awaiting? && phase.current == event && phase.reply == Some(outcome)
      modifies db, `phase, `history
      ensures processed == if outcome.Accepted? then 1 else 0
      ensures State() == Apply(old(State()), Resume(now, jitter))
    {
      processed := 0;
      ghost var st := db.Snapshot();
      match outcome {
        case Accepted =>
          requestsRepository.MarkRequestSynced(event.requestId);
          requestsRepository.MarkSyncEventSynced(event.id);
          processed := 1;
        case Rejected(error) =>
          if error == TRANSIENT && event.attemptCount + 1 < maxAttempts {
            requestsRepository.MarkSyncEventRetry(
              event.id, event.attemptCount + 1, now + RetryDelay(event.attemptCount + 1, jitter), error);
          } else {
            requestsRepository.MarkSyncEventFailed(event.id, error);
            requestsRepository.MarkRequestFailedAndReversed(event.requestId);
          }
      }
      history := history + SettleEffects(st, event, outcome, maxAttempts, jitter);
      phase := NextWorker(phase.rest);
    }

    /** One iteration of the loop over the due events. */
    method ProcessOne(event: DueEvent, w: Await) returns (processed: nat)
      requires Valid() && ApiOnly(w)
      requires phase.Awaiting? && phase.current == event && phase.reply.None?
      modifies db, hcmClient, `phase, `history
      ensures processed == if AwaitOutcome(w).Accepted? then 1 else 0
      ensures State() == Run(old(State()), AwaitSteps(w))
      ensures phase == NextWorker(old(phase).rest)
    {
      ghost var s := State();
      Yield(w.before);
      ghost var s1 := State();
      var outcome := Submit(event, w);
      ghost var s2 := State();
      Yield(w.after);
      ghost var s3 := State();
      processed := Conclude(event, outcome, w.now, w.jitter);
      AwaitDone(s, w, s1, s2, s3, State());
    }

    /** Row `i` of the due list, after the awaits so far. */
    method ProcessNext(rows: seq<DueEvent>, i: nat, before: nat, w: Await, ghost s: System, ghost awaits: seq<Await>)
      returns (processed: nat, ghost more: seq<Await>)
      requires Valid() && ApiOnly(w) && i < |rows| && phase == NextWorker(rows[i..])
      requires State() == Run(s, AllAwaitSteps(awaits)) && before == AcceptedCount(awaits)
      modifies db, hcmClient, `phase, `history
      ensures phase == NextWorker(rows[i + 1..])
      ensures more == awaits + [w]
      ensures State() == Run(s, AllAwaitSteps(more)) && processed == AcceptedCount(more)
    {
      NextRow(rows, i);
      var one := ProcessOne(rows[i], w);
      RunNextAwait(s, awaits, w);
      processed, more := before + one, awaits + [w];
    }

    /** The loop over the rows of the due list. */
    method ProcessRows(rows: seq<DueEvent>, script: nat -> Await) returns (processed: nat, ghost awaits: seq<Await>)
      requires Valid() && phase == NextWorker(rows)
      requires forall i: nat :: ApiOnly(script(i))
      modifies db, hcmClient, `phase, `history
      ensures |awaits| == |rows| && forall i :: 0 <= i < |awaits| ==> awaits[i] == script(i)
      ensures State() == Run(old(State()), AllAwaitSteps(awaits))
      ensures processed == AcceptedCount(awaits)
      ensures phase.Idle?
    {
      processed, awaits := 0, [];
      ghost var s := State();
      NoAwaits(s);
      assert rows[0..] == rows && rows[|rows|..] == [];
      for i := 0 to |rows|
        invariant phase == NextWorker(rows[i..])
        invariant |awaits| == i && forall k :: 0 <= k < i ==> awaits[k] == script(k)
        invariant processed == AcceptedCount(awaits)
        invariant State() == Run(s, AllAwaitSteps(awaits))
      {
        processed, awaits := ProcessNext(rows, i, processed, script(i), s, awaits);
      }
    }

    /** One run of the worker, with any API steps in between: in terms of the state machine it is
        the start of a run followed by one submission and one conclusion per due event. */
    method ProcessDueEvents(now: nat, limit: int, script: nat -> Await)
      returns (processed: nat, due: seq<nat>, ghost awaits: seq<Await>)
      requires Valid() && phase.Idle?
      requires forall i: nat :: ApiOnly(script(i))
      modifies db, hcmClient, `phase, `history
      ensures IsDueList(old(db.outbox), now, limit, due)
      ensures |awaits| == |due| && forall i :: 0 <= i < |awaits| ==> awaits[i] == script(i)
      ensures State() == Run(old(State()), RunSteps(due, now, limit, awaits))
      ensures processed == AcceptedCount(awaits)
      ensures phase.Idle?
      ensures old(Invariant(State())) ==> Invariant(State())
    {
      ghost var s0 := State();
      due := requestsRepository.ListDueOutboundSyncEvents(now, limit);
      var rows := Capture(db.outbox, due);
      phase := NextWorker(rows);
      RunStepsStart(s0, due, now, limit);
      processed, awaits := ProcessRows(rows, script);
      assert RunSteps(due, now, limit, []) == [StartRun(due, now, limit)];
      RunAppend(s0, [StartRun(due, now, limit)], AllAwaitSteps(awaits));
      if Invariant(s0) {
        RunKeepsInvariant(s0, RunSteps(due, now, limit, awaits));
      }
    }
  }

  lemma NoAwaits(s: System)
    ensures Run(s, AllAwaitSteps([])) == s && AcceptedCount([]) == 0
  {
  }

  lemma NextRow(rows: seq<DueEvent>, i: nat)
    requires i < |rows|
    ensures NextWorker(rows[i..]) == Awaiting(rows[i], rows[i + 1..], None)
  {
  }

  lemma RunStepsStart(s: System, due: seq<nat>, now: nat, limit: int)
    ensures Run(s, RunSteps(due, now, limit, [])) == Apply(s, StartRun(due, now, limit))
  {
    RunSnoc(s, [], StartRun(due, now, limit));
    assert RunSteps(due, now, limit, []) == [] + [StartRun(due, now, limit)];
  }

  lemma AwaitStepsSnoc(awaits: seq<Await>, w: Await)
    ensures AllAwaitSteps(awaits + [w]) == AllAwaitSteps(awaits) + AwaitSteps(w)
    ensures AcceptedCount(awaits + [w]) == AcceptedCount(awaits) + if AwaitOutcome(w).Accepted? then 1 else 0
  {
    assert (awaits + [w])[..|awaits|] == awaits;
  }

  lemma RunNextAwait(s: System, awaits: seq<Await>, w: Await)
    ensures Run(s, AllAwaitSteps(awaits + [w])) == Run(Run(s, AllAwaitSteps(awaits)), AwaitSteps(w))
    ensures AcceptedCount(awaits + [w]) == AcceptedCount(awaits) + if AwaitOutcome(w).Accepted? then 1 else 0
  {
    AwaitStepsSnoc(awaits, w);
    RunAppend(s, AllAwaitSteps(awaits), AwaitSteps(w));
  }

  lemma Prepend(step: Step, xs: seq<Step>, ys: seq<Step>)
    ensures [step] + (xs + ys) == ([step] + xs) + ys
  {
  }

  lemma AwaitDone(s: System, w: Await, s1: System, s2: System, s3: System, s4: System)
    requires s1 == Run(s, w.before) && s2 == Apply(s1, Land(AwaitOutcome(w)))
    requires s3 == Run(s2, w.after) && s4 == Apply(s3, Resume(w.now, w.jitter))
    ensures s4 == Run(s, AwaitSteps(w))
  {
    RunAwait(s, w);
  }

  lemma RunAwait(s: System, w: Await)
    ensures Run(s, AwaitSteps(w)) ==
              Apply(Run(Apply(Run(s, w.before), Land(AwaitOutcome(w))), w.after), Resume(w.now, w.jitter))
  {
    RunSnoc(s, w.before, Land(AwaitOutcome(w)));
    RunAppend(s, w.before + [Land(AwaitOutcome(w))], w.after);
    RunSnoc(s, w.before + [Land(AwaitOutcome(w))] + w.after, Resume(w.now, w.jitter));
  }
}
