/** When approving, closing, delivering and reversing have which effect, stated without the
    definitions of these operations. */
module Approval {
  import opened Results
  import opened Texts
  import opened Domain
  import opened Tables
  import opened Protocol
  import opened Coupling

  /** Nothing but the rows of one key, one request and the ends of the outbox and ledger differ. */
  ghost predicate OnlyTouches(st: Store, after: Store, id: nat, key: BalanceKey) {
    && |after.requests| == |st.requests|
    && (forall r :: 0 <= r < |st.requests| && r != id ==> after.requests[r] == st.requests[r])
    && (forall k :: k != key ==> Lookup(after.balances, k) == Lookup(st.balances, k))
    && st.outbox <= after.outbox && |after.outbox| <= |st.outbox| + 1
    && st.ledger <= after.ledger && |after.ledger| <= |st.ledger| + 1
    && after.inbound == st.inbound
  }

  /** The event asks HCM for the days of the request, has not been tried, was created at `now`, and
      is due at `now` and ever after, but not before. */
  ghost predicate QueuedFor(event: OutboxEvent, id: nat, request: Request, now: nat) {
    && event.requestId == id && event.usage == Usage(request.key, request.days)
    && event.status == QUEUED && event.attemptCount == 0 && event.error == None && event.createdAt == now
    && forall t: nat :: IsDue(event, t) <==> t >= now
  }

  /** In a reachable state an approval succeeds exactly when the request is pending and covered; it
      then has all four effects together, and otherwise none, not even a created balance row. */
  lemma ApprovalIsAllOrNothing(s: System, id: nat, now: nat)
    requires Invariant(s)
    ensures var st := s.store;
            var (after, r) := Tables.Approve(st, id, now);
            && (r.Ok? <==> id < |st.requests| && st.requests[id].status == PENDING &&
                           st.requests[id].days <= AvailableDays(st.balances, st.requests[id].key))
            && (r.Thrown? ==> after == st)
            && (r == Thrown(REQUEST_NOT_FOUND) <==> id >= |st.requests|)
            && (r == Thrown(ILLEGAL_STATUS_TRANSITION) <==> id < |st.requests| && st.requests[id].status != PENDING)
            && (r.Thrown? && id < |st.requests| && st.requests[id].status == PENDING ==>
                  r.code == INSUFFICIENT_BALANCE)
            && (r.Ok? ==>
                  var request := st.requests[id];
                  && r.value == after.requests[id]
                  && OnlyTouches(st, after, id, request.key)
                  && after.requests[id] == request.(status := APPROVED)
                  && request.key in st.balances
                  && AvailableDays(after.balances, request.key) ==
                       AvailableDays(st.balances, request.key) - request.days
                  && Version(after.balances, request.key) == Version(st.balances, request.key) + 1
                  && after.ledger ==
                       st.ledger + [LedgerEntry(KeyText(request.key), RESERVATION, request.days, Some(id))]
                  && |after.outbox| == |st.outbox| + 1
                  && QueuedFor(after.outbox[|st.outbox|], id, request, now))
  {
    if id < |s.store.requests| {
      assert RequestOk(s.store, id);
    }
  }

  /** Rejecting and cancelling succeed exactly for pending requests; they free no days and undo no
      approval. */
  lemma ClosingNeedsPending(s: System, id: nat, status: RequestStatus)
    requires Invariant(s) && status in {REJECTED, CANCELLED}
    ensures var st := s.store;
            var (after, r) := Close(st, id, status);
            && (r.Ok? <==> id < |st.requests| && st.requests[id].status == PENDING)
            && (r.Ok? ==> !HasEvent(st.outbox, id) && OnlyTouches(st, after, id, st.requests[id].key)
                          && after.requests[id] == st.requests[id].(status := status))
            && after.balances == st.balances && after.outbox == st.outbox && after.ledger == st.ledger
            && (r.Thrown? ==> after == st)
            && (r.Ok? ==> r.value == after.requests[id])
            && (r == Thrown(REQUEST_NOT_FOUND) <==> id >= |st.requests|)
            && (r.Thrown? && id < |st.requests| ==> r.code == ILLEGAL_STATUS_TRANSITION)
  {
    if id < |s.store.requests| && HasEvent(s.store.outbox, id) {
      var e :| 0 <= e < |s.store.outbox| && s.store.outbox[e].requestId == id;
      assert EventOk(s.store, s.store.outbox[e], s.maxAttempts);
    }
  }

  /** Rejecting ends in REJECTED and cancelling in CANCELLED. */
  lemma ClosingStatus(s: System, id: nat)
    requires Invariant(s) && id < |s.store.requests| && s.store.requests[id].status == PENDING
    ensures Apply(s, Reject(id)).store.requests == s.store.requests[id := s.store.requests[id].(status := REJECTED)]
    ensures Apply(s, Cancel(id)).store.requests == s.store.requests[id := s.store.requests[id].(status := CANCELLED)]
  {
    ClosingNeedsPending(s, id, REJECTED);
    ClosingNeedsPending(s, id, CANCELLED);
  }

  /** A new valid delivery is refused exactly when it would leave a negative balance; refused or
      not, its inbound row stays, and only an accepted one reaches the ledger and the days; a refused
      delta leaves a zero row behind where there was none. */
  lemma DeliveryOutcome(s: System, event: RealtimeEvent)
    requires Invariant(s) && ValidDimensions(event) && !Ignored(s.store.inbound, EventRow(event))
    ensures var st, key := s.store, EventKey(event);
            var (after, r) := Deliver(st, event);
            var target := if IsAbsolute(event) then event.days else AvailableDays(st.balances, key) + event.days;
            && (r == Thrown(CHECK_VIOLATION) <==> target < 0.0)
            && (r.Thrown? <==> target < 0.0)
            && after.inbound == st.inbound + [EventRow(event)]
            && AvailableDays(after.balances, key) == (if r.Ok? then target else AvailableDays(st.balances, key))
            && (r.Thrown? ==> after.ledger == st.ledger)
            && (r.Ok? ==> key in after.balances && r.value == Delivery(false, Some(after.balances[key])))
            && (r.Ok? ==> Version(after.balances, key) > Version(st.balances, key))
            && (key in after.balances <==> key in st.balances || r.Ok? || !IsAbsolute(event))
            && (forall k :: k != key ==> Lookup(after.balances, k) == Lookup(st.balances, k))
            && after.requests == st.requests && after.outbox == st.outbox
  {
  }

  /** The days a request that ends REVERSED took away are given back: approval and reversal together
      leave the days as they were and bump the version twice. */
  lemma ReversalUndoesApproval(s: System, id: nat, now: nat, event: DueEvent, later: nat, jitter: Jitter)
    requires Invariant(s) && Tables.Approve(s.store, id, now).1.Ok?
    requires event == CaptureOne(Tables.Approve(s.store, id, now).0.outbox, |s.store.outbox|)
    ensures var st, approved := s.store, Tables.Approve(s.store, id, now).0;
            var reversed := Settle(approved, event, Rejected(FUNCTIONAL), s.maxAttempts, later, jitter);
            var key := st.requests[id].key;
            && AvailableDays(reversed.balances, key) == AvailableDays(st.balances, key)
            && Version(reversed.balances, key) == Version(st.balances, key) + 2
            && reversed.requests == st.requests[id := st.requests[id].(status := REVERSED)]
            && (forall k :: k != key ==> Lookup(reversed.balances, k) == Lookup(st.balances, k))
  {
    ApprovalIsAllOrNothing(s, id, now);
  }
}
