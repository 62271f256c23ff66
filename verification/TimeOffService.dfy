/** The request lifecycle, in place. */
module TimeOffServices {
  import opened Results
  import opened Texts
  import opened Domain
  import opened Tables
  import opened DatabaseService
  import opened BalancesRepositories
  import opened TimeOffRepositories

  class TimeOffRequestsService {
    const db: Database
    const requestsRepository: TimeOffRequestsRepository
    const balancesRepository: BalancesRepository

    predicate Valid() {
      requestsRepository.db == db && balancesRepository.db == db
    }

    constructor (db: Database)
      ensures Valid() && this.db == db
    {
      this.db := db;
      requestsRepository := new TimeOffRequestsRepository(db);
      balancesRepository := new BalancesRepository(db);
    }

    method Create(key: BalanceKey, days: JsNumber) returns (r: Result<Request>)
      requires Valid()
      modifies db`requests
      ensures (db.Snapshot(), r) == Tables.Create(old(db.Snapshot()), key, days)
    {
      if !PositiveDays(days) {
        return Thrown(INVALID_DAYS);
      }
      if key.employeeId == [] || key.locationId == [] {
        return Thrown(INVALID_DIMENSIONS);
      }
      var request := Request(key, days.value, PENDING);
      var _ := requestsRepository.Create(request);
      return Ok(request);
    }

    method FindById(id: nat) returns (r: Result<Request>)
      requires Valid()
      ensures r == Tables.FindById(db.Snapshot(), id)
    {
      var request := requestsRepository.FindById(id);
      if request.None? {
        return Thrown(REQUEST_NOT_FOUND);
      }
      return Ok(request.value);
    }

    /** The transaction of one attempt.  The version read and the version expected belong to the
        same transaction, so the compare-and-swap cannot miss. */
    method ApproveOnce(id: nat, now: nat) returns (r: Result<Option<Request>>)
      requires Valid()
      modifies db`balances, db`requests, db`outbox, db`inbound, db`ledger
      ensures match Tables.Approve(old(db.Snapshot()), id, now)
              case (after, Ok(request)) => db.Snapshot() == after && r == Ok(Some(request))
              case (_, Thrown(code)) => db.Snapshot() == old(db.Snapshot()) && r == Thrown(code)
    {
      var saved := db.Snapshot();
      var found := FindById(id);
      if found.Thrown? {
        return Thrown(found.code);
      }
      var request := found.value;
      if !CanTransition(request.status, APPROVED) {
        return Thrown(ILLEGAL_STATUS_TRANSITION);
      }
      var current := balancesRepository.Get(request.key);
      if current.None? {
        var created := balancesRepository.UpsertAbsolute(request.key, 0.0);
        current := Some(created.value);
      }
      if !HasBalance(current.value.availableDays, request.days) {
        db.Rollback(saved);
        return Thrown(INSUFFICIENT_BALANCE);
      }
      var consumed := balancesRepository.ConsumeWithVersion(request.key, request.days, current.value.version);
      if consumed.None? {
        assert false;
        return Ok(None);
      }
      var approved := request.(status := APPROVED);
      requestsRepository.Save(id, APPROVED);
      balancesRepository.InsertLedgerEntry(LedgerEntry(KeyText(approved.key), RESERVATION, approved.days, Some(id)));
      requestsRepository.CreateSyncEvent(id, Usage(approved.key, approved.days), now);
      return Ok(Some(approved));
    }

    /** Up to three attempts; the first one decides, so CONFLICT is never thrown. */
    method Approve(id: nat, now: nat) returns (r: Result<Request>)
      requires Valid()
      modifies db`balances, db`requests, db`outbox, db`inbound, db`ledger
      ensures (db.Snapshot(), r) == Tables.Approve(old(db.Snapshot()), id, now)
      ensures r != Thrown(CONFLICT)
      ensures r.Thrown? ==> db.Snapshot() == old(db.Snapshot())
    {
      for attempt := 0 to 3
        invariant attempt == 0 && db.Snapshot() == old(db.Snapshot())
      {
        var approved := ApproveOnce(id, now);
        match approved
        case Thrown(code) => return Thrown(code);
        case Ok(Some(request)) => return Ok(request);
        case Ok(None) => assert false;
      }
      return Thrown(CONFLICT);
    }

    method Reject(id: nat) returns (r: Result<Request>)
      requires Valid()
      modifies db`requests
      ensures (db.Snapshot(), r) == Close(old(db.Snapshot()), id, REJECTED)
      ensures r.Ok? ==> r.value.status == REJECTED
    {
      var found := FindById(id);
      if found.Thrown? {
        return found;
      }
      if !CanTransition(found.value.status, REJECTED) {
        return Thrown(ILLEGAL_STATUS_TRANSITION);
      }
      requestsRepository.Save(id, REJECTED);
      return Ok(found.value.(status := REJECTED));
    }

    method Cancel(id: nat) returns (r: Result<Request>)
      requires Valid()
      modifies db`requests
      ensures (db.Snapshot(), r) == Close(old(db.Snapshot()), id, CANCELLED)
      ensures r.Ok? ==> r.value.status == CANCELLED
    {
      var found := FindById(id);
      if found.Thrown? {
        return found;
      }
      if !CanTransition(found.value.status, CANCELLED) {
        return Thrown(ILLEGAL_STATUS_TRANSITION);
      }
      requestsRepository.Save(id, CANCELLED);
      return Ok(found.value.(status := CANCELLED));
    }
  }
}
