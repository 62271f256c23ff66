/** Balance versions: every writer bumps them, so equal versions mean equal days. */
module Versions {
  import opened Texts
  import opened Tables
  import opened Protocol

  /** Rows stay, and a row that differs has a higher version. */
  predicate Newer(before: Balances, after: Balances) {
    forall k :: k in before ==>
      k in after && (after[k] == before[k] || after[k].version > before[k].version)
  }

  lemma DeliveryBumpsVersions(st: Store, event: RealtimeEvent)
    ensures Newer(st.balances, Deliver(st, event).0.balances)
  {
  }

  lemma ApiBumpsVersions(st: Store, step: Step)
    ensures Newer(st.balances, ApplyApi(st, step).balances)
  {
    if step.Realtime? {
      DeliveryBumpsVersions(st, step.event);
    }
  }

  lemma StepBumpsVersions(s: System, step: Step)
    ensures Newer(s.store.balances, Apply(s, step).store.balances)
  {
    ApiBumpsVersions(s.store, step);
  }

  lemma {:induction false} RunBumpsVersions(s: System, steps: seq<Step>)
    ensures Newer(s.store.balances, Run(s, steps).store.balances)
  {
    if steps != [] {
      var front := steps[..|steps| - 1];
      RunBumpsVersions(s, front);
      StepBumpsVersions(Run(s, front), steps[|steps| - 1]);
    }
  }

  /** Along every run versions never decrease, and two states of a run in which a key has the same
      version agree on its days. */
  lemma NoAba(s: System, steps: seq<Step>, more: seq<Step>, key: BalanceKey)
    requires key in Run(s, steps).store.balances
    ensures var early, late := Run(s, steps).store.balances, Run(s, steps + more).store.balances;
            && key in late
            && early[key].version <= late[key].version
            && (early[key].version == late[key].version ==> early[key].availableDays == late[key].availableDays)
  {
    RunAppend(s, steps, more);
    RunBumpsVersions(Run(s, steps), more);
  }

  /** Consuming under the version that was read succeeds after any other steps exactly when the
      row is still the one that was read and covers the days, and then takes exactly these days. */
  lemma ConsumeDetectsEveryWrite(s: System, steps: seq<Step>, key: BalanceKey, days: real)
    requires key in s.store.balances
    ensures var read, late := s.store.balances[key], Run(s, steps).store.balances;
            var consumed := ConsumeWithVersion(late, key, days, read.version);
            && (consumed.Some? <==> key in late && late[key] == read && days <= read.availableDays)
            && (consumed.Some? ==>
                  consumed.value == late[key := Balance(read.availableDays - days, read.version + 1)])
  {
    RunBumpsVersions(s, steps);
  }
}
