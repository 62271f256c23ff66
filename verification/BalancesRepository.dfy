/** Balances, inbound records and the ledger. */
module BalancesRepositories {
  import opened Results
  import opened Texts
  import opened Tables
  import opened DatabaseService

  class BalancesRepository {
    const db: Database

    constructor (db: Database)
      ensures this.db == db
    {
      this.db := db;
    }

    method Get(key: BalanceKey) returns (balance: Option<Balance>)
      ensures balance == Lookup(db.balances, key)
    {
      if key in db.balances {
        return Some(db.balances[key]);
      }
      return None;
    }

    method UpsertAbsolute(key: BalanceKey, availableDays: real) returns (r: Result<Balance>)
      modifies db`balances
      ensures match Tables.UpsertAbsolute(old(db.balances), key, availableDays)
              case Thrown(code) => r == Thrown(code) && db.balances == old(db.balances)
              case Ok(after) => db.balances == after && r == Ok(after[key])
    {
      if availableDays < 0.0 {
        return Thrown(CHECK_VIOLATION);
      }
      if key in db.balances {
        db.balances := db.balances[key := Balance(availableDays, db.balances[key].version + 1)];
      } else {
        db.balances := db.balances[key := Balance(availableDays, 1)];
      }
      var row := Get(key);
      return Ok(row.value);
    }

    method ApplyDelta(key: BalanceKey, deltaDays: real) returns (r: Result<Balance>)
      modifies db`balances
      ensures (db.balances, r) == Tables.ApplyDelta(old(db.balances), key, deltaDays)
    {
      var existing := Get(key);
      if existing.None? {
        var created := UpsertAbsolute(key, 0.0);
        existing := Some(created.value);
      }
      r := UpsertAbsolute(key, existing.value.availableDays + deltaDays);
    }

    /** A compare-and-swap: nothing happens unless the version is the expected one. */
    method ConsumeWithVersion(key: BalanceKey, days: real, expectedVersion: nat) returns (balance: Option<Balance>)
      modifies db`balances
      ensures match Tables.ConsumeWithVersion(old(db.balances), key, days, expectedVersion)
              case None => balance == None && db.balances == old(db.balances)
              case Some(after) => db.balances == after && balance == Some(after[key])
    {
      if key !in db.balances || db.balances[key].version != expectedVersion
         || db.balances[key].availableDays - days < 0.0
      {
        return None;
      }
      db.balances := db.balances[key :=
        Balance(db.balances[key].availableDays - days, db.balances[key].version + 1)];
      balance := Get(key);
    }

    method RecordInboundSyncEvent(externalEventId: Text, payloadHash: Text) returns (inserted: bool)
      modifies db`inbound
      ensures inserted <==> !Ignored(old(db.inbound), InboundRowFor(externalEventId, payloadHash))
      ensures inserted <==>
                forall i :: 0 <= i < |old(db.inbound)| ==>
                  && old(db.inbound)[i].id != externalEventId + [COLON] + payloadHash
                  && (old(db.inbound)[i].externalEventId != externalEventId ||
                      old(db.inbound)[i].payloadHash != payloadHash)
      ensures db.inbound ==
                if inserted then old(db.inbound) + [InboundRowFor(externalEventId, payloadHash)] else old(db.inbound)
    {
      var row := InboundRowFor(externalEventId, payloadHash);
      inserted := forall i :: 0 <= i < |db.inbound| ==> !Clash(db.inbound[i], row);
      if inserted {
        db.inbound := db.inbound + [row];
      }
    }

    method InsertLedgerEntry(entry: LedgerEntry)
      modifies db`ledger
      ensures db.ledger == old(db.ledger) + [entry]
    {
      db.ledger := db.ledger + [entry];
    }
  }
}
