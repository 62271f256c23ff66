/** Realtime deliveries: each distinct event acts at most once, and none is dropped by mistake. */
module Deliveries {
  import opened Results
  import opened Json
  import opened Tables
  import opened Protocol
  import SuffixFree

  // --------------------------------------------------------- no false duplicates

  predicate IsObject(event: RealtimeEvent) {
    event.body.JObj? && WellFormed(event.body)
  }

  /** The row id `externalEventId:payloadHash` is injective: although event ids may contain colons
      and braces, rows collide only for one and the same JSON object. */
  lemma RowsClashExactly(x: RealtimeEvent, y: RealtimeEvent)
    requires IsObject(x) && IsObject(y)
    ensures Clash(EventRow(x), EventRow(y)) <==> x.body == y.body
  {
    if Clash(EventRow(x), EventRow(y)) {
      if |Serialize(x.body)| >= |Serialize(y.body)| {
        SameIdSameBody(x, y);
      } else {
        SameIdSameBody(y, x);
      }
    }
  }

  lemma SameIdSameBody(x: RealtimeEvent, y: RealtimeEvent)
    requires IsObject(x) && IsObject(y) && EventRow(x).id == EventRow(y).id
    requires |Serialize(x.body)| >= |Serialize(y.body)|
    ensures x.body == y.body
  {
    var id, h, g := EventRow(x).id, Serialize(x.body), Serialize(y.body);
    assert h == id[|id| - |h|..] && g == id[|id| - |g|..];
    var a := h[..|h| - |g|];
    assert h[|h| - |g|..] == g;
    assert h == a + g;
    SuffixFree.ObjectTextsSuffixFree(x.body, y.body, a);
  }

  /** The object was delivered by an earlier step. */
  predicate DeliveredBefore(steps: seq<Step>, body: Json) {
    exists i :: 0 <= i < |steps| && steps[i].Realtime? && steps[i].event.body == body
  }

  predicate DeliversObjects(steps: seq<Step>) {
    forall i :: 0 <= i < |steps| && steps[i].Realtime? ==> IsObject(steps[i].event)
  }

  lemma StepInbound(s: System, step: Step, event: RealtimeEvent)
    ensures Ignored(Apply(s, step).store.inbound, EventRow(event)) <==>
              (Ignored(s.store.inbound, EventRow(event)) ||
               (step.Realtime? && ValidDimensions(step.event) &&
                !Ignored(s.store.inbound, EventRow(step.event)) && Clash(EventRow(step.event), EventRow(event))))
  {
    var was, now := s.store.inbound, Apply(s, step).store.inbound;
    if |now| > |was| {
      assert now == was + [EventRow(step.event)];
      assert now[|was|] == EventRow(step.event);
      assert forall i :: 0 <= i < |was| ==> now[i] == was[i];
    } else {
      assert now == was;
    }
  }

  lemma DeliveredLast(steps: seq<Step>, body: Json)
    requires steps != []
    ensures var front, last := steps[..|steps| - 1], steps[|steps| - 1];
            DeliveredBefore(steps, body) <==>
              DeliveredBefore(front, body) || (last.Realtime? && last.event.body == body)
  {
    assert forall i :: 0 <= i < |steps| - 1 ==> steps[..|steps| - 1][i] == steps[i];
  }

  /** In every run a delivery is treated as a duplicate if and only if the very same JSON object has
      been delivered before. */
  lemma {:induction false} DedupeExact(s: System, steps: seq<Step>, event: RealtimeEvent)
    requires s.store.inbound == [] && DeliversObjects(steps)
    requires IsObject(event) && ValidDimensions(event)
    ensures Ignored(Run(s, steps).store.inbound, EventRow(event)) <==> DeliveredBefore(steps, event.body)
  {
    if steps != [] {
      var front, last := steps[..|steps| - 1], steps[|steps| - 1];
      DedupeExact(s, front, event);
      StepInbound(Run(s, front), last, event);
      DeliveredLast(steps, event.body);
      if last.Realtime? {
        RowsClashExactly(last.event, event);
      }
    }
  }

  // -------------------------------------------------------------- at most once

  lemma {:induction false} RowsStay(s: System, steps: seq<Step>, event: RealtimeEvent)
    requires Ignored(s.store.inbound, EventRow(event))
    ensures Ignored(Run(s, steps).store.inbound, EventRow(event))
  {
    if steps != [] {
      RowsStay(s, steps[..|steps| - 1], event);
      StepInbound(Run(s, steps[..|steps| - 1]), steps[|steps| - 1], event);
    }
  }

  /** After its first delivery - applied, refused by the CHECK or rejected as invalid - and any
      further steps, delivering the object again changes nothing and, unless it is invalid, answers
      that it is a duplicate, with the balance as it is by then. */
  lemma RedeliveryChangesNothing(s: System, first: RealtimeEvent, steps: seq<Step>, again: RealtimeEvent)
    requires again.body == first.body
    ensures var later := Run(Apply(s, Realtime(first)), steps);
            && Apply(later, Realtime(again)) == later
            && Deliver(later.store, again).1 ==
                 if ValidDimensions(first) then Ok(Delivery(true, Lookup(later.store.balances, EventKey(first))))
                 else Thrown(INVALID_DIMENSIONS)
  {
    assert EventRow(again) == EventRow(first);
    if ValidDimensions(first) {
      StepInbound(s, Realtime(first), first);
      assert Clash(EventRow(first), EventRow(first));
      RowsStay(Apply(s, Realtime(first)), steps, first);
    }
  }

  /** The run without the deliveries that repeat an earlier one. */
  function WithoutRepeats(steps: seq<Step>): seq<Step> {
    if steps == [] then []
    else
      var front, last := steps[..|steps| - 1], steps[|steps| - 1];
      if last.Realtime? && DeliveredBefore(front, last.event.body) then WithoutRepeats(front)
      else WithoutRepeats(front) + [last]
  }

  /** Whatever else happens in between, a run ends in the same state - balances, versions, ledger,
      inbound records and all - as the run without its repeated deliveries. */
  lemma {:induction false} AtMostOnce(s: System, steps: seq<Step>)
    ensures Run(s, steps) == Run(s, WithoutRepeats(steps))
  {
    if steps != [] {
      var front, last := steps[..|steps| - 1], steps[|steps| - 1];
      AtMostOnce(s, front);
      if last.Realtime? && DeliveredBefore(front, last.event.body) {
        var i :| 0 <= i < |front| && front[i].Realtime? && front[i].event.body == last.event.body;
        var before, after := front[..i], front[i + 1..];
        assert front == (before + [front[i]]) + after;
        RunAppend(s, before + [front[i]], after);
        RunSnoc(s, before, front[i]);
        RedeliveryChangesNothing(Run(s, before), front[i].event, after, last.event);
      } else {
        RunSnoc(s, WithoutRepeats(front), last);
      }
    }
  }
}
