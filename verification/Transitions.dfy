/** Every status change follows the transition table, the worker's unguarded updates included. */
module Transitions {
  import opened Domain
  import opened Protocol
  import opened Coupling

  /** Request `r` exists before the step and has another status after it. */
  predicate Changes(s: System, step: Step, r: nat) {
    && r < |s.store.requests| && r < |Apply(s, step).store.requests|
    && Apply(s, step).store.requests[r].status != s.store.requests[r].status
  }

  /** The edges that are ever taken: the two at `FAILED_SYNC` are not among them. */
  const EDGES_TAKEN: set<(RequestStatus, RequestStatus)> :=
    {(PENDING, APPROVED), (PENDING, REJECTED), (PENDING, CANCELLED), (APPROVED, SYNCED), (APPROVED, REVERSED)}

  /** The table has these five edges and two at `FAILED_SYNC`, which no step takes. */
  lemma TableEdges(current: RequestStatus, next: RequestStatus)
    ensures CanTransition(current, next) <==>
              (current, next) in EDGES_TAKEN + {(APPROVED, FAILED_SYNC), (FAILED_SYNC, REVERSED)}
    ensures Terminal(current) <==> current in {SYNCED, REJECTED, CANCELLED, REVERSED}
  {
    if !Terminal(current) {
      assert exists s :: s in AllowedTransitions(current) by {
        match current
        case PENDING => assert APPROVED in AllowedTransitions(current);
        case APPROVED => assert SYNCED in AllowedTransitions(current);
        case FAILED_SYNC => assert REVERSED in AllowedTransitions(current);
        case _ =>
      }
    }
  }

  /** A step changes a status only along an edge of the table, and key and days never. */
  lemma StepFollowsTable(s: System, step: Step, r: nat)
    requires Invariant(s) && r < |s.store.requests|
    ensures r < |Apply(s, step).store.requests|
    ensures var was, now := s.store.requests[r], Apply(s, step).store.requests[r];
            && now.key == was.key && now.days == was.days
            && (now.status == was.status || (was.status, now.status) in EDGES_TAKEN)
            && (now.status == was.status || CanTransition(was.status, now.status))
  {
    StepKeepsInvariant(s, step);
    assert RequestOk(s.store, r);
    if IsApiStep(step) {
      ApiCoupled(s.store, step, s.maxAttempts);
    } else if step.Resume? && s.worker.Awaiting? && s.worker.reply.Some? {
      assert EventOk(s.store, s.store.outbox[s.worker.current.id], s.maxAttempts);
    }
  }

  function Rank(status: RequestStatus): nat {
    match status
    case PENDING => 0
    case APPROVED => 1
    case _ => 2
  }

  /** How many steps of the run change the status of request `r`. */
  function StatusChanges(s: System, steps: seq<Step>, r: nat): nat {
    if steps == [] then 0
    else
      var front := steps[..|steps| - 1];
      StatusChanges(s, front, r) + if Changes(Run(s, front), steps[|steps| - 1], r) then 1 else 0
  }

  /** A change of status raises the rank. */
  lemma StepRaisesRank(s: System, step: Step, r: nat)
    requires Invariant(s)
    ensures |s.store.requests| <= |Apply(s, step).store.requests|
    ensures r < |s.store.requests| ==>
              Rank(s.store.requests[r].status) + (if Changes(s, step, r) then 1 else 0)
                <= Rank(Apply(s, step).store.requests[r].status)
  {
    if r < |s.store.requests| {
      StepFollowsTable(s, step, r);
    } else if IsApiStep(step) {
      ApiCoupled(s.store, step, s.maxAttempts);
    }
  }

  lemma {:induction false} ChangesWithinRank(s: System, steps: seq<Step>, r: nat)
    requires Invariant(s)
    ensures if r < |Run(s, steps).store.requests|
            then StatusChanges(s, steps, r) <= Rank(Run(s, steps).store.requests[r].status)
            else StatusChanges(s, steps, r) == 0
  {
    if steps != [] {
      var front, last := steps[..|steps| - 1], steps[|steps| - 1];
      ChangesWithinRank(s, front, r);
      RunKeepsInvariant(s, front);
      StepRaisesRank(Run(s, front), last, r);
      assert Run(s, steps) == Apply(Run(s, front), last);
    }
  }

  /** A request changes status at most twice. */
  lemma AtMostTwoChanges(s: System, steps: seq<Step>, r: nat)
    requires Invariant(s)
    ensures StatusChanges(s, steps, r) <= 2
  {
    ChangesWithinRank(s, steps, r);
  }

  /** No status leaves a terminal state, in any continuation of any run. */
  lemma {:induction false} TerminalStays(s: System, steps: seq<Step>, r: nat)
    requires Invariant(s) && r < |s.store.requests| && Terminal(s.store.requests[r].status)
    ensures r < |Run(s, steps).store.requests|
    ensures Run(s, steps).store.requests[r] == s.store.requests[r]
  {
    if steps != [] {
      var front := steps[..|steps| - 1];
      TerminalStays(s, front, r);
      RunKeepsInvariant(s, front);
      StepFollowsTable(Run(s, front), steps[|steps| - 1], r);
    }
  }
}
