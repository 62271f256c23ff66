/** What the ledger explains: replaying it yields the balance, short of exactly what reversals,
    batches and reconciliations changed since the last absolute update, for which no entry is
    written. */
module LedgerReplay {
  import opened Results
  import opened Texts
  import opened Tables
  import opened Protocol
  import opened Coupling
  import opened Conservation

  /** The balance a ledger accounts for. */
  function Replay(ledger: seq<LedgerEntry>, balanceKey: Text): real {
    if ledger == [] then 0.0
    else
      var before, entry := Replay(ledger[..|ledger| - 1], balanceKey), ledger[|ledger| - 1];
      if entry.balanceKey != balanceKey then before
      else match entry.entryType
        case RESERVATION => before - entry.days
        case REVERSAL => before + entry.days
        case HCM_REALTIME_ABSOLUTE => entry.days
        case HCM_REALTIME_DELTA => before + entry.days
  }

  /** The days of a balance that the ledger does not account for. */
  function Gap(st: Store, key: BalanceKey): real {
    AvailableDays(st.balances, key) - Replay(st.ledger, KeyText(key))
  }

  /** The days the step returns to `key` by reversing a request. */
  function RefundOf(s: System, step: Step, key: BalanceKey): real {
    if step.Resume? && s.worker.Awaiting? && s.worker.reply.Some? && s.worker.reply.value.Rejected?
       && !RetriesAgain(s.worker.current, s.worker.reply.value.error, s.maxAttempts)
       && s.worker.current.usage.key == key
    then s.worker.current.usage.days else 0.0
  }

  /** What a batch row or a reconciliation adds to the days of `key`. */
  function OverwriteOf(s: System, step: Step, key: BalanceKey): real {
    if step.Ingest? || step.Reconciled?
    then AvailableDays(Apply(s, step).store.balances, key) - AvailableDays(s.store.balances, key)
    else 0.0
  }

  /** The step is an absolute update of `key` that is neither a duplicate nor refused. */
  predicate Anchors(s: System, step: Step, key: BalanceKey) {
    && step.Realtime? && IsAbsolute(step.event) && EventKey(step.event) == key
    && ValidDimensions(step.event) && !Ignored(s.store.inbound, EventRow(step.event)) && step.event.days >= 0.0
  }

  lemma ReplaySnoc(ledger: seq<LedgerEntry>, entry: LedgerEntry, balanceKey: Text)
    ensures Replay(ledger + [entry], balanceKey) ==
              if entry.balanceKey != balanceKey then Replay(ledger, balanceKey)
              else match entry.entryType
                case RESERVATION => Replay(ledger, balanceKey) - entry.days
                case REVERSAL => Replay(ledger, balanceKey) + entry.days
                case HCM_REALTIME_ABSOLUTE => entry.days
                case HCM_REALTIME_DELTA => Replay(ledger, balanceKey) + entry.days
  {
    assert (ledger + [entry])[..|ledger|] == ledger;
  }

  lemma GapApprove(s: System, id: nat, now: nat, key: BalanceKey)
    requires Invariant(s) && Apart(s.store.requests, key)
    ensures Gap(Apply(s, Approve(id, now)).store, key) == Gap(s.store, key)
  {
    if id < |s.store.requests| {
      var request := s.store.requests[id];
      ReplaySnoc(s.store.ledger, LedgerEntry(KeyText(request.key), RESERVATION, request.days, Some(id)), KeyText(key));
    }
  }

  /** What a new delivery does to balance and ledger unless it is refused. */
  lemma DeliveryLogged(st: Store, event: RealtimeEvent, key: BalanceKey)
    requires ValidDimensions(event) && !Ignored(st.inbound, EventRow(event))
    ensures var k, after := EventKey(event), Deliver(st, event).0;
            var before := AvailableDays(st.balances, key);
            var days := if IsAbsolute(event) then event.days else AvailableDays(st.balances, k) + event.days;
            if days < 0.0 then after.ledger == st.ledger && AvailableDays(after.balances, key) == before
            else
              && after.ledger == st.ledger +
                   [LedgerEntry(KeyText(k), if IsAbsolute(event) then HCM_REALTIME_ABSOLUTE else HCM_REALTIME_DELTA,
                                event.days, None)]
              && AvailableDays(after.balances, key) == (if k == key then days else before)
  {
  }

  lemma GapRealtime(s: System, event: RealtimeEvent, key: BalanceKey)
    requires !Belongs(EventKey(event), OfOthers(key))
    ensures Gap(Apply(s, Realtime(event)).store, key) ==
              if Anchors(s, Realtime(event), key) then 0.0 else Gap(s.store, key)
  {
    if ValidDimensions(event) && !Ignored(s.store.inbound, EventRow(event)) {
      DeliveryLogged(s.store, event, key);
      var entryType := if IsAbsolute(event) then HCM_REALTIME_ABSOLUTE else HCM_REALTIME_DELTA;
      ReplaySnoc(s.store.ledger, LedgerEntry(KeyText(EventKey(event)), entryType, event.days, None), KeyText(key));
    }
  }

  lemma GapResume(s: System, now: nat, jitter: Jitter, key: BalanceKey)
    requires Invariant(s)
    ensures Gap(Apply(s, Resume(now, jitter)).store, key) ==
              Gap(s.store, key) + RefundOf(s, Resume(now, jitter), key)
  {
    if s.worker.Awaiting? {
      CurrentApproved(s);
      assert EventOk(s.store, s.store.outbox[s.worker.current.id], s.maxAttempts);
    }
  }

  /** One step changes the gap by its refund or its overwrite, or closes it. */
  lemma GapStep(s: System, step: Step, key: BalanceKey)
    requires Invariant(s) && Apart(s.store.requests, key) && KeepsApart(step, key)
    ensures Gap(Apply(s, step).store, key) ==
              if Anchors(s, step, key) then 0.0
              else Gap(s.store, key) + RefundOf(s, step, key) + OverwriteOf(s, step, key)
  {
    match step
    case Approve(id, now) => GapApprove(s, id, now, key);
    case Realtime(event) => GapRealtime(s, event, key);
    case Resume(now, jitter) => GapResume(s, now, jitter, key);
    case _ =>
  }

  /** What reversals, batches and reconciliations changed the days of `key` by since its last
      absolute update in the run. */
  function UnloggedSinceAnchor(s: System, steps: seq<Step>, key: BalanceKey): real {
    if steps == [] then 0.0
    else
      var front, last := steps[..|steps| - 1], steps[|steps| - 1];
      if Anchors(Run(s, front), last, key) then 0.0
      else UnloggedSinceAnchor(s, front, key)
           + RefundOf(Run(s, front), last, key) + OverwriteOf(Run(s, front), last, key)
  }

  predicate ReversedSinceAnchor(s: System, steps: seq<Step>, key: BalanceKey) {
    steps != [] &&
    var front, last := steps[..|steps| - 1], steps[|steps| - 1];
    !Anchors(Run(s, front), last, key) &&
    (ReversedSinceAnchor(s, front, key) || RefundOf(Run(s, front), last, key) != 0.0)
  }

  /** In every run, balance - replay(ledger) is exactly what reversals, batches and reconciliations
      changed since the last absolute update. */
  lemma {:induction false} LedgerExplainsBalance(s: System, steps: seq<Step>, key: BalanceKey)
    requires Initial(s) && Gap(s.store, key) == 0.0 && RunKeepsApart(steps, key)
    ensures var st := Run(s, steps).store;
            AvailableDays(st.balances, key) - Replay(st.ledger, KeyText(key)) == UnloggedSinceAnchor(s, steps, key)
  {
    if steps != [] {
      var front, last := steps[..|steps| - 1], steps[|steps| - 1];
      LedgerExplainsBalance(s, front, key);
      RunKeepsInvariant(s, front);
      RunApart(s, front, key);
      assert KeepsApart(last, key);
      GapStep(Run(s, front), last, key);
    }
  }

  /** No batch row and no reconciliation. */
  predicate NoOverwrites(steps: seq<Step>) {
    forall i :: 0 <= i < |steps| ==> !steps[i].Ingest? && !steps[i].Reconciled?
  }

  lemma RefundPositive(s: System, step: Step, key: BalanceKey)
    requires Invariant(s)
    ensures RefundOf(s, step, key) >= 0.0
  {
    if s.worker.Awaiting? {
      CurrentApproved(s);
      assert RequestOk(s.store, s.worker.current.requestId);
    }
  }

  lemma {:induction false} RefundsAddUp(s: System, steps: seq<Step>, key: BalanceKey)
    requires Initial(s) && NoOverwrites(steps)
    ensures UnloggedSinceAnchor(s, steps, key) >= 0.0
    ensures UnloggedSinceAnchor(s, steps, key) > 0.0 <==> ReversedSinceAnchor(s, steps, key)
  {
    if steps != [] {
      var front, last := steps[..|steps| - 1], steps[|steps| - 1];
      RefundsAddUp(s, front, key);
      RunKeepsInvariant(s, front);
      RefundPositive(Run(s, front), last, key);
      assert OverwriteOf(Run(s, front), last, key) == 0.0;
    }
  }

  /** Without batches and reconciliations the ledger explains the balance if and only if no request
      of the key has been reversed since the last absolute update. */
  lemma LedgerExplainsExactly(s: System, steps: seq<Step>, key: BalanceKey)
    requires Initial(s) && Gap(s.store, key) == 0.0 && RunKeepsApart(steps, key) && NoOverwrites(steps)
    ensures var st := Run(s, steps).store;
            AvailableDays(st.balances, key) == Replay(st.ledger, KeyText(key)) <==> !ReversedSinceAnchor(s, steps, key)
  {
    LedgerExplainsBalance(s, steps, key);
    RefundsAddUp(s, steps, key);
  }
}
