/** The database: tables that the repositories update in place. */
module DatabaseService {
  import opened Texts
  import opened Tables
  import opened BatchJobs

  class Database {
    var balances: Balances
    var requests: seq<Request>
    var outbox: seq<OutboxEvent>
    var inbound: seq<InboundRow>
    var ledger: seq<LedgerEntry>
    var jobs: map<Text, Job>
    var checkpoints: seq<CheckpointRow>
    var deadLetters: seq<DeadLetter>

    constructor ()
      ensures Snapshot() == EMPTY_STORE && BatchTables() == JobTables(map[], map[], [], [])
    {
      jobs, checkpoints, deadLetters := map[], [], [];
      balances, requests, outbox, inbound, ledger := map[], [], [], [], [];
    }

    /** The tables as one value. */
    function Snapshot(): Store
      reads this
    {
      Store(balances, requests, outbox, inbound, ledger)
    }

    /** The tables a batch job works on. */
    function BatchTables(): JobTables
      reads this
    {
      JobTables(balances, jobs, checkpoints, deadLetters)
    }

    /** Undoing the writes of a transaction. */
    method Rollback(saved: Store)
      modifies `balances, `requests, `outbox, `inbound, `ledger
      ensures Snapshot() == saved
    {
      balances, requests, outbox, inbound, ledger :=
        saved.balances, saved.requests, saved.outbox, saved.inbound, saved.ledger;
    }
  }
}
