/** Parity with HCM: in runs of the request lifecycle and the worker, the two balances differ by
    exactly the approved days that HCM has not acknowledged. */
module Parity {
  import opened Results
  import opened Texts
  import opened Domain
  import opened Tables
  import opened Protocol
  import opened Coupling
  import opened Settlement
  import opened Conservation
  import opened Drain

  // --------------------------------------------------------------- approved days

  function Share(request: Request, key: BalanceKey): real {
    Part(request, OfKey(key), {APPROVED})
  }

  /** The days of all APPROVED requests of a key. */
  function ApprovedDays(requests: seq<Request>, key: BalanceKey): real {
    DaysIn(requests, OfKey(key), {APPROVED})
  }

  lemma {:induction false} HeldSplits(requests: seq<Request>, key: BalanceKey)
    ensures DaysIn(requests, OfKey(key), HELD) == ApprovedDays(requests, key) + DaysIn(requests, OfKey(key), {SYNCED})
  {
    if requests != [] {
      HeldSplits(requests[..|requests| - 1], key);
    }
  }

  /** The requests with one key text are those of a key and those of other keys with its text. */
  lemma {:induction false} TextSplits(requests: seq<Request>, key: BalanceKey, statuses: set<RequestStatus>)
    ensures DaysIn(requests, OfText(KeyText(key)), statuses) ==
              DaysIn(requests, OfKey(key), statuses) + DaysIn(requests, OfOthers(key), statuses)
  {
    if requests != [] {
      TextSplits(requests[..|requests| - 1], key, statuses);
    }
  }

  lemma {:induction false} DaysInZero(requests: seq<Request>, group: Group, statuses: set<RequestStatus>)
    requires PositiveRequests(requests)
    ensures DaysIn(requests, group, statuses) >= 0.0
    ensures DaysIn(requests, group, statuses) == 0.0 <==>
              (forall r :: 0 <= r < |requests| ==> Part(requests[r], group, statuses) == 0.0)
  {
    if requests != [] {
      var front := requests[..|requests| - 1];
      DaysInZero(front, group, statuses);
      assert forall r :: 0 <= r < |front| ==> front[r] == requests[r];
    }
  }

  predicate PositiveRequests(requests: seq<Request>) {
    forall r :: 0 <= r < |requests| ==> requests[r].days > 0.0
  }

  /** Only shares of requests other than `except` count, and each of them is covered. */
  lemma {:induction false} ApprovedCovers(requests: seq<Request>, key: BalanceKey, except: int, r: nat)
    requires PositiveRequests(requests) && r < |requests|
    ensures var rest := ApprovedDays(requests, key) -
                          (if 0 <= except < |requests| then Share(requests[except], key) else 0.0);
            && rest >= 0.0
            && (r != except ==> rest >= Share(requests[r], key))
    decreases |requests|
  {
    var last := |requests| - 1;
    var front := requests[..last];
    assert ApprovedDays(requests, key) == ApprovedDays(front, key) + Share(requests[last], key);
    if last > 0 {
      ApprovedCovers(front, key, except, if r < last then r else 0);
    }
  }

  lemma {:induction false} ApprovedOnly(requests: seq<Request>, key: BalanceKey, only: int)
    requires forall r :: 0 <= r < |requests| && r != only ==> Share(requests[r], key) == 0.0
    ensures ApprovedDays(requests, key) == (if 0 <= only < |requests| then Share(requests[only], key) else 0.0)
  {
    if requests != [] {
      var front := requests[..|requests| - 1];
      ApprovedOnly(front, key, only);
    }
  }

  // ---------------------------------------------------------------------- parity

  predicate ParityAt(s: System, key: BalanceKey) {
    HcmDays(s.hcm, KeyText(key)) ==
      AvailableDays(s.store.balances, key) + ApprovedDays(s.store.requests, key) - AcknowledgedDays(s, OfKey(key))
  }

  /** Both sides start with the same days. */
  predicate EqualStart(s: System, key: BalanceKey) {
    HcmDays(s.hcm, KeyText(key)) == AvailableDays(s.store.balances, key)
  }

  /** HCM has given nothing away under the text of `key` for a request of another key. */
  predicate NothingForOthers(s: System, key: BalanceKey) {
    forall r :: 0 <= r < |s.store.requests| && Belongs(s.store.requests[r].key, OfOthers(key)) ==>
      s.store.requests[r].status != SYNCED && !Acknowledged(s, r)
  }

  lemma NothingForOthersDays(s: System, key: BalanceKey)
    requires Invariant(s)
    ensures DaysIn(s.store.requests, OfOthers(key), {SYNCED}) + AcknowledgedDays(s, OfOthers(key)) == 0.0 <==>
              NothingForOthers(s, key)
  {
    var requests := s.store.requests;
    forall q | 0 <= q < |requests| ensures requests[q].days > 0.0 {
      assert RequestOk(s.store, q);
    }
    DaysInZero(requests, OfOthers(key), {SYNCED});
    if s.worker.Awaiting? {
      CurrentApproved(s);
    }
    if NothingForOthers(s, key) {
      forall r | 0 <= r < |requests| ensures Part(requests[r], OfOthers(key), {SYNCED}) == 0.0 {
      }
    }
  }

  /** In every run of lifecycle and worker steps, under every sequence of answers of HCM,
      hcm = local + APPROVED days - days acknowledged but not yet marked, if and only if HCM has
      given nothing away for another key with the same key text. */
  lemma ParityExactly(s: System, steps: seq<Step>, key: BalanceKey)
    requires Initial(s) && EqualStart(s, key) && IsLifecycleRun(steps)
    ensures Invariant(Run(s, steps))
    ensures ParityAt(Run(s, steps), key) <==> NothingForOthers(Run(s, steps), key)
  {
    var end := Run(s, steps);
    RunKeepsInvariant(s, steps);
    LocalDaysConserved(s, steps, key);
    HcmDaysConserved(s, steps, KeyText(key));
    HeldSplits(end.store.requests, key);
    TextSplits(end.store.requests, key, {SYNCED});
    NothingForOthersDays(end, key);
  }

  /** So parity holds wherever no request of another key shares the key text. */
  lemma ParityHolds(s: System, steps: seq<Step>, key: BalanceKey)
    requires Initial(s) && EqualStart(s, key) && IsLifecycleRun(steps)
    requires Apart(Run(s, steps).store.requests, key)
    ensures Invariant(Run(s, steps)) && ParityAt(Run(s, steps), key)
  {
    ParityExactly(s, steps, key);
  }

  // ---------------------------------------------------------------- consequences

  /** HCM can afford every approved request it has not accepted yet. */
  lemma HcmCovers(s: System, r: nat)
    requires Invariant(s) && r < |s.store.requests| && s.store.requests[r].status == APPROVED && !Acknowledged(s, r)
    requires ParityAt(s, s.store.requests[r].key)
    ensures HcmDays(s.hcm, KeyText(s.store.requests[r].key)) >= s.store.requests[r].days
  {
    var requests, key := s.store.requests, s.store.requests[r].key;
    forall q | 0 <= q < |requests| ensures requests[q].days > 0.0 {
      assert RequestOk(s.store, q);
    }
    var flying := if s.worker.Awaiting? && s.worker.reply == Some(Accepted) then s.worker.current.requestId else -1;
    if flying >= 0 {
      assert EventOk(s.store, s.store.outbox[s.worker.current.id], s.maxAttempts);
    }
    ApprovedCovers(requests, key, flying, r);
    assert AvailableDays(s.store.balances, key) >= 0.0;
  }

  /** In runs that start in parity a submission never finds too few days in HCM. */
  lemma SubmissionAffordable(s: System, steps: seq<Step>)
    requires Initial(s) && IsLifecycleRun(steps)
    requires Run(s, steps).worker.Awaiting? && Run(s, steps).worker.reply.None?
    requires EqualStart(s, Run(s, steps).worker.current.usage.key)
    requires Apart(Run(s, steps).store.requests, Run(s, steps).worker.current.usage.key)
    ensures var end := Run(s, steps);
            HcmDays(end.hcm, KeyText(end.worker.current.usage.key)) >= end.worker.current.usage.days > 0.0
  {
    var end := Run(s, steps);
    ParityHolds(s, steps, end.worker.current.usage.key);
    CurrentApproved(end);
    assert RequestOk(end.store, end.worker.current.requestId);
    HcmCovers(end, end.worker.current.requestId);
  }

  predicate AllAcknowledged(s: System, key: BalanceKey) {
    forall r :: 0 <= r < |s.store.requests| && Share(s.store.requests[r], key) != 0.0 ==> Acknowledged(s, r)
  }

  /** HCM and the service agree on a key exactly when HCM has acknowledged every APPROVED request
      of that key. */
  lemma AgreementExactly(s: System, key: BalanceKey)
    requires Invariant(s) && ParityAt(s, key)
    ensures HcmDays(s.hcm, KeyText(key)) == AvailableDays(s.store.balances, key) <==> AllAcknowledged(s, key)
  {
    var requests := s.store.requests;
    forall q | 0 <= q < |requests| ensures requests[q].days > 0.0 {
      assert RequestOk(s.store, q);
    }
    var flying := if s.worker.Awaiting? && s.worker.reply == Some(Accepted) then s.worker.current.requestId else -1;
    if flying >= 0 {
      CurrentApproved(s);
    }
    if AllAcknowledged(s, key) {
      ApprovedOnly(requests, key, flying);
    } else {
      var r :| 0 <= r < |requests| && Share(requests[r], key) != 0.0 && !Acknowledged(s, r);
      ApprovedCovers(requests, key, flying, r);
    }
  }

  lemma DrainedIsIdle(s: System)
    requires Invariant(s) && Drained(s)
    ensures s.worker.Idle?
  {
    if s.worker.Awaiting? {
      CurrentApproved(s);
    }
  }

  /** Once the outbox is drained, HCM and the service agree, and reconciling a key that HCM knows
      reports and writes a change only if the key has no local row. */
  lemma DrainedReconcilesToNothing(s: System, steps: seq<Step>, key: BalanceKey)
    requires Initial(s) && EqualStart(s, key) && IsLifecycleRun(steps)
    requires Apart(Run(s, steps).store.requests, key)
    requires Drained(Run(s, steps))
    requires key.employeeId != [] && key.locationId != [] && KeyText(key) in Run(s, steps).hcm
    ensures var end := Run(s, steps);
            var balances := end.store.balances;
            var (after, changed) := Reconcile(balances, key, Lookup(balances, key), ReadHcm(end.hcm, key));
            && end.worker.Idle?
            && HcmDays(end.hcm, KeyText(key)) == AvailableDays(balances, key)
            && changed == Ok(key !in balances)
            && (key in balances ==> after == balances)
            && AvailableDays(after, key) == AvailableDays(balances, key)
  {
    var end := Run(s, steps);
    ParityHolds(s, steps, key);
    DrainedIsIdle(end);
    AgreementExactly(end, key);
  }
}
