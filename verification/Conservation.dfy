/** Conservation of days on both sides: what is taken from the local balance is held by requests,
    and what is taken from HCM is held by requests HCM has accepted. */
module Conservation {
  import opened Results
  import opened Texts
  import opened Domain
  import opened Tables
  import opened Protocol
  import opened Coupling

  /** The request lifecycle, the worker and reads of balances: everything but deliveries, batches
      and reconciliations, which overwrite local days. */
  predicate IsLifecycleStep(step: Step) {
    match step
    case Realtime(_) => false
    case Ingest(_) => false
    case Reconciled(_, _, _) => false
    case _ => true
  }

  predicate IsLifecycleRun(steps: seq<Step>) {
    forall i :: 0 <= i < |steps| ==> IsLifecycleStep(steps[i])
  }

  // ----------------------------------------------------------- days held by requests

  /** One key, all keys with one text, or the keys that share the text of another key. */
  datatype Group = OfKey(key: BalanceKey) | OfText(text: Text) | OfOthers(key: BalanceKey)

  predicate Belongs(key: BalanceKey, group: Group) {
    match group
    case OfKey(k) => key == k
    case OfText(text) => KeyText(key) == text
    case OfOthers(k) => key != k && KeyText(key) == KeyText(k)
  }

  function Part(request: Request, group: Group, statuses: set<RequestStatus>): real {
    if request.status in statuses && Belongs(request.key, group) then request.days else 0.0
  }

  /** The days of all requests of a group whose status is among the given ones. */
  function DaysIn(requests: seq<Request>, group: Group, statuses: set<RequestStatus>): real {
    if requests == [] then 0.0
    else DaysIn(requests[..|requests| - 1], group, statuses) + Part(requests[|requests| - 1], group, statuses)
  }

  lemma {:induction false} DaysInUpdate(requests: seq<Request>, r: nat, request: Request,
                                        group: Group, statuses: set<RequestStatus>)
    requires r < |requests|
    ensures DaysIn(requests[r := request], group, statuses) ==
              DaysIn(requests, group, statuses) - Part(requests[r], group, statuses) + Part(request, group, statuses)
  {
    var last := |requests| - 1;
    if r == last {
      assert requests[r := request][..last] == requests[..last];
    } else {
      DaysInUpdate(requests[..last], r, request, group, statuses);
      assert requests[r := request][..last] == requests[..last][r := request];
    }
  }

  lemma DaysInSnoc(requests: seq<Request>, request: Request, group: Group, statuses: set<RequestStatus>)
    ensures DaysIn(requests + [request], group, statuses) ==
              DaysIn(requests, group, statuses) + Part(request, group, statuses)
  {
    assert (requests + [request])[..|requests|] == requests;
  }

  /** A new status of request `id`. */
  function Moved(requests: seq<Request>, id: nat, status: RequestStatus): seq<Request>
    requires id < |requests|
  {
    requests[id := requests[id].(status := status)]
  }

  lemma DaysInMoved(requests: seq<Request>, id: nat, status: RequestStatus, group: Group, statuses: set<RequestStatus>)
    requires id < |requests|
    ensures DaysIn(Moved(requests, id, status), group, statuses) == DaysIn(requests, group, statuses)
              - Part(requests[id], group, statuses) + Part(requests[id].(status := status), group, statuses)
  {
    DaysInUpdate(requests, id, requests[id].(status := status), group, statuses);
  }

  /** What a step can do to the requests: nothing, a new pending one, or one new status. */
  lemma RequestsAfter(s: System, step: Step) returns (id: nat)
    requires Invariant(s)
    ensures var was, now := s.store.requests, Apply(s, step).store.requests;
            || now == was
            || (step.Create? && |now| == |was| + 1 && now == was + [now[|was|]] && now[|was|].status == PENDING)
            || (id < |was| && id < |now| && now == Moved(was, id, now[id].status) &&
                ((step.Approve? && id == step.id && was[id].status == PENDING && now[id].status == APPROVED) ||
                 (step.Reject? && id == step.id && was[id].status == PENDING && now[id].status == REJECTED) ||
                 (step.Cancel? && id == step.id && was[id].status == PENDING && now[id].status == CANCELLED) ||
                 (step.Resume? && s.worker.Awaiting? && s.worker.reply.Some? && id == s.worker.current.requestId &&
                  was[id].status == APPROVED)))
  {
    id := if step.Approve? || step.Reject? || step.Cancel? then step.id else 0;
    if step.Resume? && s.worker.Awaiting? {
      CurrentApproved(s);
      id := s.worker.current.requestId;
    }
  }

  // ------------------------------------------------------------------- local days

  const HELD: set<RequestStatus> := {APPROVED, SYNCED}

  /** The available days of a key and the days its approved and settled requests hold. */
  function LocalTotal(st: Store, key: BalanceKey): real {
    AvailableDays(st.balances, key) + DaysIn(st.requests, OfKey(key), HELD)
  }

  lemma LocalApprove(s: System, id: nat, now: nat, key: BalanceKey)
    requires Invariant(s)
    ensures LocalTotal(Apply(s, Approve(id, now)).store, key) == LocalTotal(s.store, key)
  {
    if Apply(s, Approve(id, now)).store != s.store {
      DaysInMoved(s.store.requests, id, APPROVED, OfKey(key), HELD);
    }
  }

  lemma LocalClose(st: Store, id: nat, status: RequestStatus, key: BalanceKey)
    requires status in {REJECTED, CANCELLED}
    ensures LocalTotal(Close(st, id, status).0, key) == LocalTotal(st, key)
  {
    if Close(st, id, status).0 != st {
      DaysInMoved(st.requests, id, status, OfKey(key), HELD);
    }
  }

  lemma LocalResume(s: System, now: nat, jitter: Jitter, key: BalanceKey)
    requires Invariant(s)
    ensures LocalTotal(Apply(s, Resume(now, jitter)).store, key) == LocalTotal(s.store, key)
  {
    if s.worker.Awaiting? && s.worker.reply.Some? {
      CurrentApproved(s);
      var id, after := s.worker.current.requestId, Apply(s, Resume(now, jitter)).store;
      DaysInMoved(s.store.requests, id, after.requests[id].status, OfKey(key), HELD);
      assert after.requests == Moved(s.store.requests, id, after.requests[id].status);
    }
  }

  lemma LocalStep(s: System, step: Step, key: BalanceKey)
    requires Invariant(s) && IsLifecycleStep(step)
    ensures LocalTotal(Apply(s, step).store, key) == LocalTotal(s.store, key)
  {
    match step
    case Create(k, days) =>
      if PositiveDays(days) {
        DaysInSnoc(s.store.requests, Request(k, days.value, PENDING), OfKey(key), HELD);
      }
    case Approve(id, now) => LocalApprove(s, id, now, key);
    case Reject(id) => LocalClose(s.store, id, REJECTED, key);
    case Cancel(id) => LocalClose(s.store, id, CANCELLED, key);
    case Resume(now, jitter) => LocalResume(s, now, jitter, key);
    case ReadBalance(_) =>
    case StartRun(_, _, _) =>
    case Land(_) =>
  }

  /** In every run of lifecycle and worker steps the local days of a key and the days held by its
      APPROVED and SYNCED requests add up to the days at the start. */
  lemma {:induction false} LocalDaysConserved(s: System, steps: seq<Step>, key: BalanceKey)
    requires Initial(s) && IsLifecycleRun(steps)
    ensures AvailableDays(Run(s, steps).store.balances, key) + DaysIn(Run(s, steps).store.requests, OfKey(key), HELD) ==
              AvailableDays(s.store.balances, key)
  {
    if steps != [] {
      var front, last := steps[..|steps| - 1], steps[|steps| - 1];
      LocalDaysConserved(s, front, key);
      RunKeepsInvariant(s, front);
      assert IsLifecycleStep(last);
      LocalStep(Run(s, front), last, key);
    }
  }

  /** However approvals interleave, requests never hold more days than the balance had. */
  lemma NoOverspend(s: System, steps: seq<Step>, key: BalanceKey)
    requires Initial(s) && IsLifecycleRun(steps)
    ensures DaysIn(Run(s, steps).store.requests, OfKey(key), HELD) <= AvailableDays(s.store.balances, key)
  {
    LocalDaysConserved(s, steps, key);
    RunKeepsInvariant(s, steps);
    assert AvailableDays(Run(s, steps).store.balances, key) >= 0.0;
  }

  // --------------------------------------------------------------------- HCM days

  /** The days HCM has accepted for a request that the worker has yet to mark. */
  function AcknowledgedDays(s: System, group: Group): real {
    if s.worker.Awaiting? && s.worker.reply == Some(Accepted) && Belongs(s.worker.current.usage.key, group)
    then s.worker.current.usage.days else 0.0
  }

  /** HCM's days under a key text, those of settled requests of all keys with that text, and those
      acknowledged but not marked. */
  function HcmTotal(s: System, text: Text): real {
    HcmDays(s.hcm, text) + DaysIn(s.store.requests, OfText(text), {SYNCED}) + AcknowledgedDays(s, OfText(text))
  }

  lemma HcmApi(s: System, step: Step, text: Text)
    requires Invariant(s) && IsApiStep(step)
    ensures HcmTotal(Apply(s, step), text) == HcmTotal(s, text)
  {
    var was, now := s.store.requests, Apply(s, step).store.requests;
    var id := RequestsAfter(s, step);
    if now != was {
      if step.Create? {
        DaysInSnoc(was, now[|was|], OfText(text), {SYNCED});
      } else {
        DaysInMoved(was, id, now[id].status, OfText(text), {SYNCED});
      }
    }
  }

  lemma HcmResume(s: System, now: nat, jitter: Jitter, text: Text)
    requires Invariant(s)
    ensures HcmTotal(Apply(s, Resume(now, jitter)), text) == HcmTotal(s, text)
  {
    if s.worker.Awaiting? && s.worker.reply.Some? {
      CurrentApproved(s);
      var id, after := s.worker.current.requestId, Apply(s, Resume(now, jitter)).store;
      DaysInMoved(s.store.requests, id, after.requests[id].status, OfText(text), {SYNCED});
      assert after.requests == Moved(s.store.requests, id, after.requests[id].status);
    }
  }

  lemma HcmStep(s: System, step: Step, text: Text)
    requires Invariant(s)
    ensures HcmTotal(Apply(s, step), text) == HcmTotal(s, text)
  {
    match step
    case StartRun(_, _, _) =>
    case Land(_) =>
    case Resume(now, jitter) => HcmResume(s, now, jitter, text);
    case _ => HcmApi(s, step, text);
  }

  /** In every run at all - deliveries, batches and reconciliations included - HCM has given away
      under each key text exactly the days of the SYNCED requests of all keys with that text, and of
      a submission acknowledged but not yet marked. */
  lemma {:induction false} HcmDaysConserved(s: System, steps: seq<Step>, text: Text)
    requires Initial(s)
    ensures var end := Run(s, steps);
            HcmDays(end.hcm, text) + DaysIn(end.store.requests, OfText(text), {SYNCED})
              + AcknowledgedDays(end, OfText(text)) == HcmDays(s.hcm, text)
  {
    if steps != [] {
      var front, last := steps[..|steps| - 1], steps[|steps| - 1];
      HcmDaysConserved(s, front, text);
      RunKeepsInvariant(s, front);
      HcmStep(Run(s, front), last, text);
    }
  }

  // ------------------------------------------------------------- keys that share a text

  /** No request belongs to another key with the text of `key`. */
  predicate Apart(requests: seq<Request>, key: BalanceKey) {
    forall r :: 0 <= r < |requests| ==> !Belongs(requests[r].key, OfOthers(key))
  }

  /** The step brings no other key with the text of `key` into play. */
  predicate KeepsApart(step: Step, key: BalanceKey) {
    match step
    case Create(k, _) => !Belongs(k, OfOthers(key))
    case Realtime(event) => !Belongs(EventKey(event), OfOthers(key))
    case _ => true
  }

  predicate RunKeepsApart(steps: seq<Step>, key: BalanceKey) {
    forall i :: 0 <= i < |steps| ==> KeepsApart(steps[i], key)
  }

  lemma ApartStep(s: System, step: Step, key: BalanceKey)
    requires Invariant(s) && Apart(s.store.requests, key) && KeepsApart(step, key)
    ensures Apart(Apply(s, step).store.requests, key)
  {
    var _ := RequestsAfter(s, step);
  }

  lemma {:induction false} RunApart(s: System, steps: seq<Step>, key: BalanceKey)
    requires Initial(s) && RunKeepsApart(steps, key)
    ensures Apart(Run(s, steps).store.requests, key)
  {
    if steps != [] {
      var front, last := steps[..|steps| - 1], steps[|steps| - 1];
      RunApart(s, front, key);
      RunKeepsInvariant(s, front);
      assert KeepsApart(last, key);
      ApartStep(Run(s, front), last, key);
    }
  }

  /** Employee ids without a colon never share a key text. */
  lemma PlainIdsKeepApart(steps: seq<Step>, key: BalanceKey)
    requires PlainId(key.employeeId)
    requires forall i :: 0 <= i < |steps| && steps[i].Create? ==> PlainId(steps[i].key.employeeId)
    requires forall i :: 0 <= i < |steps| && steps[i].Realtime? ==> PlainId(EventKey(steps[i].event).employeeId)
    ensures RunKeepsApart(steps, key)
  {
    forall i | 0 <= i < |steps| ensures KeepsApart(steps[i], key) {
      match steps[i]
      case Create(k, _) => if KeyText(k) == KeyText(key) { KeyTextInjective(k, key); }
      case Realtime(event) => if KeyText(EventKey(event)) == KeyText(key) { KeyTextInjective(EventKey(event), key); }
      case _ =>
    }
  }
}
