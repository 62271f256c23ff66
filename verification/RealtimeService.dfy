/** Realtime deliveries, in place. */
module RealtimeServices {
  import opened Results
  import opened Texts
  import opened Json
  import opened Tables
  import opened DatabaseService
  import opened BalancesRepositories

  class RealtimeSyncService {
    const db: Database
    const balancesRepository: BalancesRepository

    predicate Valid() {
      balancesRepository.db == db
    }

    constructor (db: Database)
      ensures Valid() && this.db == db
    {
      this.db := db;
      balancesRepository := new BalancesRepository(db);
    }

    /** There is no transaction: a refused balance leaves the inbound row behind. */
    method ProcessBalanceUpdate(event: RealtimeEvent) returns (r: Result<Delivery>)
      requires Valid()
      modifies db`balances, db`inbound, db`ledger
      ensures (db.Snapshot(), r) == Deliver(old(db.Snapshot()), event)
    {
      var key := EventKey(event);
      if Field(event, EXTERNAL_EVENT_ID) == [] || key.employeeId == [] || key.locationId == [] {
        return Thrown(INVALID_DIMENSIONS);
      }
      var inserted := balancesRepository.RecordInboundSyncEvent(
        Field(event, EXTERNAL_EVENT_ID), Serialize(event.body));
      if !inserted {
        var balance := balancesRepository.Get(key);
        return Ok(Delivery(true, balance));
      }
      var balance: Result<Balance>;
      if IsAbsolute(event) {
        balance := balancesRepository.UpsertAbsolute(key, event.days);
      } else {
        balance := balancesRepository.ApplyDelta(key, event.days);
      }
      if balance.Thrown? {
        return Thrown(balance.code);
      }
      balancesRepository.InsertLedgerEntry(
        LedgerEntry(KeyText(key), if IsAbsolute(event) then HCM_REALTIME_ABSOLUTE else HCM_REALTIME_DELTA,
                    event.days, None));
      return Ok(Delivery(false, Some(balance.value)));
    }
  }
}
