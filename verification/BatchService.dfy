/** Batch ingestion in chunks with persistent checkpoints, and reconciliation, in place. */
module BatchServices {
  import opened Results
  import opened Texts
  import opened Tables
  import opened Protocol
  import opened BatchFold
  import opened BatchJobs
  import opened DatabaseService
  import opened BalancesRepositories
  import opened HcmClients

  /** A state of the tables while a job runs, and how far the job had got. */
  datatype Persisted = Persisted(tables: JobTables, attempt: Attempt)

  lemma BetweenSnoc(rows: seq<BatchRow>, a: nat, b: nat)
    requires a <= b < |rows|
    ensures Between(rows, a, b + 1) == Between(rows, a, b) + [rows[b]]
  {
  }

  lemma TaggedSnoc(jobId: Text, rows: seq<BatchRow>, row: BatchRow)
    ensures Tagged(jobId, rows + [row]) == Tagged(jobId, rows) + [DeadLetter(jobId, row)]
  {
  }

  class BatchSyncService {
    const db: Database
    const balancesRepository: BalancesRepository
    const hcmClient: HcmClient

    predicate Valid() {
      balancesRepository.db == db
    }

    constructor (db: Database, hcmClient: HcmClient)
      ensures Valid() && this.db == db && this.hcmClient == hcmClient
    {
      this.db := db;
      this.hcmClient := hcmClient;
      balancesRepository := new BalancesRepository(db);
    }

    /** One row: a dead letter, an insert, an update or nothing. */
    method IngestOne(jobId: Text, row: BatchRow, counters: Counters) returns (c: Counters)
      requires Valid()
      modifies db`balances, db`deadLetters
      ensures db.balances == IngestRow(old(db.balances), row)
      ensures db.deadLetters == old(db.deadLetters) + (if ValidRow(row) then [] else [DeadLetter(jobId, row)])
      ensures c == CountRow(old(db.balances), row, counters)
      ensures if row.key.employeeId != [] && row.key.locationId != [] && row.days.Finite? && row.days.value >= 0.0
              then DaysAt(db.balances, row.key) == Some(row.days.value) && db.deadLetters == old(db.deadLetters)
              else
                && db.balances == old(db.balances) && c == counters.(rejected := counters.rejected + 1)
                && db.deadLetters == old(db.deadLetters) + [DeadLetter(jobId, row)]
    {
      if row.key.employeeId == [] || row.key.locationId == [] || row.days.NotFinite? || row.days.value < 0.0 {
        db.deadLetters := db.deadLetters + [DeadLetter(jobId, row)];
        return counters.(rejected := counters.rejected + 1);
      }
      var existing := balancesRepository.Get(row.key);
      if existing.None? {
        var _ := balancesRepository.UpsertAbsolute(row.key, row.days.value);
        return counters.(inserted := counters.inserted + 1);
      }
      if existing.value.availableDays == row.days.value {
        return counters.(unmodified := counters.unmodified + 1);
      }
      var _ := balancesRepository.UpsertAbsolute(row.key, row.days.value);
      return counters.(updated := counters.updated + 1);
    }

    /** Row `m` of the chunk that starts at `i`. */
    method IngestNext(p: Payload, i: nat, m: nat, before: Counters, ghost t: JobTables) returns (counters: Counters)
      requires Valid() && m < |p.rows| && Underway(t, p, db.BatchTables(), i, m, before)
      modifies db`balances, db`deadLetters
      ensures Underway(t, p, db.BatchTables(), i, m + 1, counters)
    {
      ghost var mid := db.BatchTables();
      counters := IngestOne(p.jobId, p.rows[m], before);
      UnderwayRow(t, p, mid, db.BatchTables(), i, m, before);
    }

    /** The rows of one chunk; `t` are the tables the job started from. */
    method IngestChunkRows(p: Payload, i: nat, end: nat, before: Counters, ghost t: JobTables)
      returns (counters: Counters, ghost written: seq<Persisted>)
      requires Valid() && i < end == ChunkEnd(i, ChunkSize(p), |p.rows|)
      requires Underway(t, p, db.BatchTables(), i, i, before)
      modifies db`balances, db`deadLetters
      ensures Underway(t, p, db.BatchTables(), i, end, counters)
      ensures AllInterrupted(t, p, written) && Covers(written, i + 1, end)
    {
      counters, written := before, [];
      for m := i to end
        invariant Underway(t, p, db.BatchTables(), i, m, counters)
        invariant AllInterrupted(t, p, written) && Covers(written, i + 1, m)
      {
        counters := IngestNext(p, i, m, counters, t);
        RowStored(t, p, db.BatchTables(), i, m, counters, written);
        written := written + [Persisted(db.BatchTables(), Attempt(i, m + 1))];
      }
    }

    /** One chunk: its rows, the progress of the job, and a checkpoint. */
    method IngestChunk(p: Payload, i: nat, before: Counters, ghost t: JobTables)
      returns (counters: Counters, ghost written: seq<Persisted>)
      requires Valid() && i < |p.rows|
      requires Progress(t, p, db.BatchTables(), i, before)
      modifies db`balances, db`jobs, db`checkpoints, db`deadLetters
      ensures Progress(t, p, db.BatchTables(), i + ChunkSize(p), counters)
      ensures AllInterrupted(t, p, written) && Covers(written, i + 1, ChunkEnd(i, ChunkSize(p), |p.rows|))
    {
      var end := ChunkEnd(i, ChunkSize(p), |p.rows|);
      ghost var prior := db.BatchTables();
      counters, written := IngestChunkRows(p, i, end, before, t);
      ghost var rows := written;
      ghost var filled := db.BatchTables();
      db.jobs := db.jobs[p.jobId := db.jobs[p.jobId].(processedRows := end)];
      written := written + [Persisted(db.BatchTables(), Attempt(end, end))];
      db.checkpoints := db.checkpoints + [CheckpointRow(p.jobId, i as real / ChunkSize(p) as real, end)];
      written := written + [Persisted(db.BatchTables(), Attempt(end, end))];
      CoversAppend(rows, written[|rows|..], i + 1, end, end);
      assert written == rows + written[|rows|..];
      ChunkMarked(t, p, filled, i, counters);
      ChunkCheckpointed(t, p, prior, db.BatchTables(), i, counters);
    }

    /** Ingestion chunk by chunk equals the fold over the remaining rows.  The trail holds the states
        stored on the way, one at least for every number of rows written, and each of them is an
        interrupted ingestion. */
    method IngestBatch(p: Payload) returns (r: Result<Report>, ghost trail: seq<Persisted>)
      requires Valid()
      modifies db`balances, db`jobs, db`checkpoints, db`deadLetters
      ensures (db.BatchTables(), r) == BatchJobs.IngestBatch(old(db.BatchTables()), p)
      ensures AllInterrupted(old(db.BatchTables()), p, trail)
      ensures r.Ok? && !r.value.deduped ==> Covers(trail, StartAt(old(db.jobs), p.jobId), |p.rows|)
    {
      trail := [];
      if p.jobId == [] || p.checksum == [] {
        return Thrown(INVALID_DIMENSIONS), [];
      }
      if p.jobId in db.jobs && db.jobs[p.jobId].checksum == p.checksum {
        return Ok(Report(NO_ROWS, true, false)), [];
      }
      ghost var t := db.BatchTables();
      var chunkSize := ChunkSize(p);
      db.jobs := db.jobs[p.jobId := OpenJob(db.jobs, p)];
      var startAt := db.jobs[p.jobId].processedRows;
      var counters := NO_ROWS;
      JobOpened(t, p, db.BatchTables());
      trail := [Persisted(db.BatchTables(), Attempt(startAt, startAt))];
      var i: nat := startAt;
      while i < |p.rows|
        invariant Progress(t, p, db.BatchTables(), i, counters)
        invariant AllInterrupted(t, p, trail) && Covers(trail, startAt, RowsReached(i, |p.rows|, startAt))
        decreases |p.rows| - i
      {
        ghost var written;
        counters, written := IngestChunk(p, i, counters, t);
        ChunkStored(t, p, trail, written, startAt, i);
        trail := trail + written;
        i := i + chunkSize;
      }
      ProgressEnds(t, p, db.BatchTables(), i, counters);
      db.jobs := db.jobs[p.jobId := db.jobs[p.jobId].(status := COMPLETED)];
      return Ok(Report(counters, false, startAt > 0)), trail;
    }

    /** What reconciliation does once HCM has answered; the local row was read before that. */
    method FinishReconcile(key: BalanceKey, local: Option<Balance>, reading: HcmReading) returns (r: Result<bool>)
      requires Valid()
      modifies db`balances
      ensures (db.balances, r) == Reconcile(old(db.balances), key, local, reading)
    {
      if key.employeeId == [] || key.locationId == [] {
        return Thrown(INVALID_DIMENSIONS);
      }
      match reading
      case Unavailable => return Thrown(HCM_UNAVAILABLE);
      case Unknown => return Thrown(INVALID_DIMENSIONS);
      case Reading(hcmDays) =>
        var updated := local.None? || local.value.availableDays != hcmDays;
        if updated {
          var written := balancesRepository.UpsertAbsolute(key, hcmDays);
          if written.Thrown? {
            return Thrown(written.code);
          }
        }
        return Ok(updated);
    }

    /** Without other steps in between, reconciliation makes the local days equal to HCM's. */
    method ReconcileOne(key: BalanceKey) returns (r: Result<bool>)
      requires Valid()
      modifies db`balances
      ensures (db.balances, r) ==
                Reconcile(old(db.balances), key, Lookup(old(db.balances), key),
                          if hcmClient.unavailable then Unavailable else ReadHcm(hcmClient.balances, key))
      ensures r.Ok? ==> AvailableDays(db.balances, key) == HcmDays(hcmClient.balances, KeyText(key))
    {
      var local := balancesRepository.Get(key);
      var reading := hcmClient.GetBalance(key);
      r := FinishReconcile(key, local, reading);
    }
  }

  /** The state stored after row `m` extends the trail of its chunk. */
  lemma RowStored(t: JobTables, p: Payload, mid: JobTables, i: nat, m: nat, c: Counters, trail: seq<Persisted>)
    requires Underway(t, p, mid, i, m + 1, c) && m + 1 - i <= ChunkSize(p)
    requires AllInterrupted(t, p, trail) && Covers(trail, i + 1, m)
    ensures var longer := trail + [Persisted(mid, Attempt(i, m + 1))];
            AllInterrupted(t, p, longer) && Covers(longer, i + 1, m + 1)
  {
    var stored := Persisted(mid, Attempt(i, m + 1));
    UnderwayIsInterrupted(t, p, mid, i, m + 1, c);
    assert [stored][0].attempt.written == m + 1 && Covers([stored], m + 1, m + 1);
    CoversAppend(trail, [stored], i + 1, m, m + 1);
  }

  /** The states stored in one chunk extend the trail of the job. */
  lemma ChunkStored(t: JobTables, p: Payload, trail: seq<Persisted>, written: seq<Persisted>, start: nat, i: nat)
    requires start <= i < |p.rows|
    requires AllInterrupted(t, p, trail) && Covers(trail, start, i)
    requires AllInterrupted(t, p, written) && Covers(written, i + 1, ChunkEnd(i, ChunkSize(p), |p.rows|))
    ensures AllInterrupted(t, p, trail + written)
    ensures Covers(trail + written, start, RowsReached(i + ChunkSize(p), |p.rows|, start))
  {
    CoversAppend(trail, written, start, i, ChunkEnd(i, ChunkSize(p), |p.rows|));
  }

  /** Before the first row the job is stored as open. */
  lemma JobOpened(t: JobTables, p: Payload, mid: JobTables)
    requires mid == t.(jobs := t.jobs[p.jobId := OpenJob(t.jobs, p)])
    ensures var start := StartAt(t.jobs, p.jobId);
            var trail := [Persisted(mid, Attempt(start, start))];
            && Progress(t, p, mid, start, NO_ROWS)
            && AllInterrupted(t, p, trail) && Covers(trail, start, RowsReached(start, |p.rows|, start))
  {
    ProgressStarts(t, p, mid);
    var start := StartAt(t.jobs, p.jobId);
    assert [Persisted(mid, Attempt(start, start))][0].attempt.written == start;
  }

  predicate HasWritten(trail: seq<Persisted>, n: nat) {
    exists k :: 0 <= k < |trail| && trail[k].attempt.written == n
  }

  /** Every number of row writes from `a` to `b` is represented in the trail. */
  predicate Covers(trail: seq<Persisted>, a: nat, b: nat) {
    forall n :: a <= n <= b ==> HasWritten(trail, n)
  }

  lemma CoversAppend(xs: seq<Persisted>, ys: seq<Persisted>, a: nat, b: nat, c: nat)
    requires Covers(xs, a, b) && Covers(ys, b + 1, c)
    ensures Covers(xs + ys, a, c)
  {
    forall n | a <= n <= c ensures HasWritten(xs + ys, n) {
      if n <= b {
        assert HasWritten(xs, n);
        var k :| 0 <= k < |xs| && xs[k].attempt.written == n;
        assert (xs + ys)[k] == xs[k];
      } else {
        assert HasWritten(ys, n);
        var k :| 0 <= k < |ys| && ys[k].attempt.written == n;
        assert (xs + ys)[|xs| + k] == ys[k];
      }
    }
  }

  predicate AllInterrupted(t: JobTables, p: Payload, trail: seq<Persisted>) {
    forall k :: 0 <= k < |trail| ==> Interrupted(t, p, trail[k].tables, trail[k].attempt)
  }

  /** The row a loop at `i` has reached: never past the end, never before the start. */
  function RowsReached(i: nat, total: nat, start: nat): nat {
    if i < total then i else if start > total then start else total
  }

  /** The rows from the start up to `m` are written and counted; the checkpoint says `i`. */
  predicate Underway(t: JobTables, p: Payload, mid: JobTables, i: nat, m: nat, c: Counters) {
    var start := StartAt(t.jobs, p.jobId);
    && start <= i <= m && (start <= |p.rows| ==> m <= |p.rows|)
    && (start > |p.rows| ==> m == start)
    && mid.balances == Fold(t.balances, Between(p.rows, start, m))
    && mid.jobs == t.jobs[p.jobId := OpenJob(t.jobs, p).(processedRows := i)]
    && mid.deadLetters == t.deadLetters + Tagged(p.jobId, InvalidRows(Between(p.rows, start, m)))
    && c == CountRows(t.balances, Between(p.rows, start, m))
  }

  lemma UnderwayIsInterrupted(t: JobTables, p: Payload, mid: JobTables, i: nat, m: nat, c: Counters)
    requires Underway(t, p, mid, i, m, c) && m - i <= ChunkSize(p)
    ensures Interrupted(t, p, mid, Attempt(i, m))
  {
  }

  /** The chunks before row `i` are written, counted and checkpointed. */
  predicate Progress(t: JobTables, p: Payload, mid: JobTables, i: nat, c: Counters) {
    var start := StartAt(t.jobs, p.jobId);
    var n := RowsReached(i, |p.rows|, start);
    && start <= i
    && Underway(t, p, mid, n, n, c)
    && mid.checkpoints + Checkpoints(p.jobId, i, ChunkSize(p), |p.rows|) ==
         t.checkpoints + Checkpoints(p.jobId, start, ChunkSize(p), |p.rows|)
  }

  /** `mid` with the progress of the chunk that starts at `i`. */
  function Marked(p: Payload, mid: JobTables, i: nat): JobTables {
    if p.jobId !in mid.jobs then mid
    else mid.(jobs := mid.jobs[p.jobId := mid.jobs[p.jobId].(processedRows := ChunkEnd(i, ChunkSize(p), |p.rows|))])
  }

  lemma ChunkMarked(t: JobTables, p: Payload, mid: JobTables, i: nat, c: Counters)
    requires i < |p.rows| && Underway(t, p, mid, i, ChunkEnd(i, ChunkSize(p), |p.rows|), c)
    ensures var end := ChunkEnd(i, ChunkSize(p), |p.rows|);
            && Underway(t, p, Marked(p, mid, i), end, end, c)
            && forall checkpoints ::
                 Interrupted(t, p, Marked(p, mid, i).(checkpoints := checkpoints), Attempt(end, end))
  {
    var end := ChunkEnd(i, ChunkSize(p), |p.rows|);
    assert Marked(p, mid, i).jobs == t.jobs[p.jobId := OpenJob(t.jobs, p).(processedRows := end)];
  }

  lemma ChunkCheckpointed(t: JobTables, p: Payload, prior: JobTables, mid: JobTables, i: nat, c: Counters)
    requires i < |p.rows| && StartAt(t.jobs, p.jobId) <= i
    requires var end := ChunkEnd(i, ChunkSize(p), |p.rows|); Underway(t, p, mid, end, end, c)
    requires prior.checkpoints + Checkpoints(p.jobId, i, ChunkSize(p), |p.rows|) ==
               t.checkpoints + Checkpoints(p.jobId, StartAt(t.jobs, p.jobId), ChunkSize(p), |p.rows|)
    requires mid.checkpoints == prior.checkpoints +
               [CheckpointRow(p.jobId, i as real / ChunkSize(p) as real, ChunkEnd(i, ChunkSize(p), |p.rows|))]
    ensures Progress(t, p, mid, i + ChunkSize(p), c)
  {
    var rest := Checkpoints(p.jobId, i + ChunkSize(p), ChunkSize(p), |p.rows|);
    var row := CheckpointRow(p.jobId, i as real / ChunkSize(p) as real, ChunkEnd(i, ChunkSize(p), |p.rows|));
    assert Checkpoints(p.jobId, i, ChunkSize(p), |p.rows|) == [row] + rest;
    assert prior.checkpoints + ([row] + rest) == (prior.checkpoints + [row]) + rest;
  }

  lemma ProgressStarts(t: JobTables, p: Payload, mid: JobTables)
    requires mid == t.(jobs := t.jobs[p.jobId := OpenJob(t.jobs, p)])
    ensures Progress(t, p, mid, StartAt(t.jobs, p.jobId), NO_ROWS)
  {
    var start := StartAt(t.jobs, p.jobId);
    assert Between(p.rows, start, start) == [];
  }

  /** A job whose progress has reached the end has ingested all its rows. */
  lemma ProgressEnds(t: JobTables, p: Payload, mid: JobTables, i: nat, c: Counters)
    requires p.jobId != [] && p.checksum != [] && !IsRepeat(t.jobs, p)
    requires Progress(t, p, mid, i, c) && i >= |p.rows|
    ensures BatchJobs.IngestBatch(t, p) ==
              (mid.(jobs := mid.jobs[p.jobId := mid.jobs[p.jobId].(status := COMPLETED)]),
               Ok(Report(c, false, StartAt(t.jobs, p.jobId) > 0)))
  {
    var start := StartAt(t.jobs, p.jobId);
    assert Between(p.rows, start, RowsReached(i, |p.rows|, start)) == From(p.rows, start);
    assert mid.checkpoints == mid.checkpoints + Checkpoints(p.jobId, i, ChunkSize(p), |p.rows|);
    assert mid.jobs[p.jobId := mid.jobs[p.jobId].(status := COMPLETED)] ==
             t.jobs[p.jobId := mid.jobs[p.jobId].(status := COMPLETED)];
  }

  /** Writing row `m` keeps the job underway. */
  lemma UnderwayRow(t: JobTables, p: Payload, mid: JobTables, after: JobTables, i: nat, m: nat, c: Counters)
    requires Underway(t, p, mid, i, m, c) && m < |p.rows|
    requires after.balances == IngestRow(mid.balances, p.rows[m]) && after.jobs == mid.jobs
    requires after.deadLetters ==
               mid.deadLetters + (if ValidRow(p.rows[m]) then [] else [DeadLetter(p.jobId, p.rows[m])])
    ensures Underway(t, p, after, i, m + 1, CountRow(mid.balances, p.rows[m], c))
  {
    var rows := Between(p.rows, StartAt(t.jobs, p.jobId), m);
    BetweenSnoc(p.rows, StartAt(t.jobs, p.jobId), m);
    FoldSnoc(t.balances, rows, p.rows[m]);
    DeadLettersSnoc(p.jobId, t.deadLetters, rows, p.rows[m]);
  }

  lemma DeadLettersSnoc(jobId: Text, before: seq<DeadLetter>, rows: seq<BatchRow>, row: BatchRow)
    ensures before + Tagged(jobId, InvalidRows(rows + [row])) ==
              before + Tagged(jobId, InvalidRows(rows)) + (if ValidRow(row) then [] else [DeadLetter(jobId, row)])
  {
    FoldSnoc(map[], rows, row);
    if ValidRow(row) {
      assert InvalidRows(rows + [row]) == InvalidRows(rows);
    } else {
      TaggedSnoc(jobId, InvalidRows(rows), row);
    }
  }
}
