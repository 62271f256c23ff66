/** First approved, first served: when an approved request is offered to the worker. */
module DueOrder {
  import opened Tables
  import opened Protocol
  import opened Coupling
  import opened Approval

  /** The state after request `id` was approved at `now`. */
  function Approved(s: System, id: nat, now: nat): System {
    Apply(s, Approve(id, now))
  }

  predicate Approves(s: System, id: nat, now: nat) {
    Tables.Approve(s.store, id, now).1.Ok?
  }

  /** A successful approval queues one event, at the end of the outbox. */
  lemma QueuesOne(s: System, id: nat, now: nat)
    requires Invariant(s) && Approves(s, id, now)
    ensures var outbox := Approved(s, id, now).store.outbox;
            && |outbox| == |s.store.outbox| + 1
            && outbox[|s.store.outbox|].createdAt == now && outbox[|s.store.outbox|].requestId == id
            && forall t: nat :: IsDue(outbox[|s.store.outbox|], t) <==> t >= now
  {
    ApprovalIsAllOrNothing(s, id, now);
  }

  /** The worker can take the event from the moment of the approval on: every query without a limit
      returns it then, and no query returns it earlier. */
  lemma ApprovedIsOffered(s: System, id: nat, now: nat, t: nat, limit: int, due: seq<nat>)
    requires Invariant(s) && Approves(s, id, now)
    requires IsDueList(Approved(s, id, now).store.outbox, t, limit, due)
    ensures t < now ==> |s.store.outbox| !in due
    ensures t >= now && (limit < 0 || |due| < limit) ==> |s.store.outbox| in due
  {
    QueuesOne(s, id, now);
  }

  lemma {:induction false} CreationStays(s: System, steps: seq<Step>, e: nat)
    requires Invariant(s) && e < |s.store.outbox|
    ensures var later := Run(s, steps).store.outbox;
            && e < |later| && later[e].createdAt == s.store.outbox[e].createdAt
            && later[e].requestId == s.store.outbox[e].requestId
  {
    if steps != [] {
      var front, last := steps[..|steps| - 1], steps[|steps| - 1];
      CreationStays(s, front, e);
      RunKeepsInvariant(s, front);
      CreationStaysOnce(Run(s, front), last, e);
    }
  }

  lemma SettlingKeepsCreation(st: Store, d: DueEvent, outcome: HcmOutcome, maxAttempts: nat, now: nat,
                              jitter: Jitter, e: nat)
    requires e < |st.outbox|
    ensures var later := Settle(st, d, outcome, maxAttempts, now, jitter).outbox;
            && e < |later| && later[e].createdAt == st.outbox[e].createdAt
            && later[e].requestId == st.outbox[e].requestId
  {
  }

  lemma CreationStaysOnce(s: System, step: Step, e: nat)
    requires Invariant(s) && e < |s.store.outbox|
    ensures var later := Apply(s, step).store.outbox;
            && e < |later| && later[e].createdAt == s.store.outbox[e].createdAt
            && later[e].requestId == s.store.outbox[e].requestId
  {
    if IsApiStep(step) {
      ApiCoupled(s.store, step, s.maxAttempts);
    } else if step.Resume? && s.worker.Awaiting? && s.worker.reply.Some? {
      SettlingKeepsCreation(s.store, s.worker.current, s.worker.reply.value, s.maxAttempts, step.now, step.jitter, e);
    }
  }

  /** All events that are due. */
  function DueEvents(outbox: seq<OutboxEvent>, t: nat): set<nat> {
    set e | 0 <= e < |outbox| && IsDue(outbox[e], t)
  }

  function Elements(ids: seq<nat>): set<nat> {
    set x | x in ids
  }

  lemma {:induction false} DistinctCount(ids: seq<nat>)
    requires forall i, j :: 0 <= i < j < |ids| ==> ids[i] != ids[j]
    ensures |Elements(ids)| == |ids|
  {
    if ids != [] {
      var front, last := ids[..|ids| - 1], ids[|ids| - 1];
      DistinctCount(front);
      assert Elements(ids) == Elements(front) + {last};
    }
  }

  /** A query returns as many events as are due, or as many as it may; a negative limit is none. */
  lemma DueListLength(outbox: seq<OutboxEvent>, t: nat, limit: int, due: seq<nat>)
    requires IsDueList(outbox, t, limit, due)
    ensures |due| == if 0 <= limit < |DueEvents(outbox, t)| then limit else |DueEvents(outbox, t)|
    ensures forall i :: 0 <= i < |due| ==> due[i] in DueEvents(outbox, t)
  {
    var all, listed := DueEvents(outbox, t), Elements(due);
    DistinctCount(due);
    assert listed <= all;
    SubsetCount(listed, all);
    if |due| < |all| {
      var e :| e in all - listed;
      assert e !in due;
    }
  }

  lemma SubsetCount(a: set<nat>, b: set<nat>)
    requires a <= b
    ensures |b| == |a| + |b - a|
  {
    assert b == a + (b - a);
  }

  /** No due list holds a younger event while it leaves out an older due one or names it later. */
  lemma OlderComesFirst(outbox: seq<OutboxEvent>, t: nat, limit: int, due: seq<nat>, e: nat, j: nat)
    requires IsDueList(outbox, t, limit, due)
    requires e < |outbox| && j < |due| && IsDue(outbox[e], t) && outbox[e].createdAt < outbox[due[j]].createdAt
    ensures exists i :: 0 <= i < j && due[i] == e
  {
    assert e in due;
    var i :| 0 <= i < |due| && due[i] == e;
    assert i < j;
  }

  /** Of two requests approved one after the other, whatever happens before, in between and later,
      every due list that offers the second offers the first before it, as long as that is due. */
  lemma FirstApprovedFirstServed(s: System, a: nat, m: nat, between: seq<Step>, b: nat, n: nat, later: seq<Step>,
                                 t: nat, limit: int, due: seq<nat>, j: nat)
    requires Invariant(s) && m < n && Approves(s, a, m)
    requires var mid := Run(Approved(s, a, m), between);
             var end := Run(Approved(mid, b, n), later);
             && Approves(mid, b, n) && IsDueList(end.store.outbox, t, limit, due)
             && j < |due| && due[j] == |mid.store.outbox|
             && |s.store.outbox| < |end.store.outbox| && IsDue(end.store.outbox[|s.store.outbox|], t)
    ensures exists i :: 0 <= i < j && due[i] == |s.store.outbox|
  {
    var first, e := Approved(s, a, m), |s.store.outbox|;
    var mid := Run(first, between);
    var second, f := Approved(mid, b, n), |mid.store.outbox|;
    var end := Run(second, later);
    QueuesOne(s, a, m);
    StepKeepsInvariant(s, Approve(a, m));
    CreationStays(first, between, e);
    RunKeepsInvariant(first, between);
    QueuesOne(mid, b, n);
    CreationStaysOnce(mid, Approve(b, n), e);
    StepKeepsInvariant(mid, Approve(b, n));
    CreationStays(second, later, e);
    CreationStays(second, later, f);
    OlderComesFirst(end.store.outbox, t, limit, due, e, j);
  }
}
