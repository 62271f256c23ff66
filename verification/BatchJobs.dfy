/** Batch jobs: chunks, checkpoints, dead letters, and what an interruption leaves behind. */
module BatchJobs {
  import opened Results
  import opened Texts
  import opened Tables
  import opened BatchFold

  datatype JobStatus = RUNNING | COMPLETED

  datatype Job = Job(checksum: Text, status: JobStatus, totalRows: nat, processedRows: nat, chunkSize: nat)

  datatype CheckpointRow = CheckpointRow(jobId: Text, index: real, processedRows: nat)

  datatype DeadLetter = DeadLetter(jobId: Text, row: BatchRow)

  datatype JobTables = JobTables(
    balances: Balances,
    jobs: map<Text, Job>,
    checkpoints: seq<CheckpointRow>,
    deadLetters: seq<DeadLetter>)

  datatype Payload = Payload(jobId: Text, checksum: Text, rows: seq<BatchRow>, chunkSize: Option<int>)

  datatype Report = Report(counters: Counters, deduped: bool, resumed: bool)

  const DEFAULT_CHUNK: nat := 100

  /** A missing, zero or negative chunk size means the default. */
  function ChunkSize(p: Payload): (n: nat)
    ensures n > 0
  {
    if p.chunkSize.Some? && p.chunkSize.value > 0 then p.chunkSize.value else DEFAULT_CHUNK
  }

  /** The rows the job has processed according to its last checkpoint. */
  function StartAt(jobs: map<Text, Job>, jobId: Text): nat {
    if jobId in jobs then jobs[jobId].processedRows else 0
  }

  predicate IsRepeat(jobs: map<Text, Job>, p: Payload) {
    p.jobId in jobs && jobs[p.jobId].checksum == p.checksum
  }

  function OpenJob(jobs: map<Text, Job>, p: Payload): Job {
    Job(p.checksum, RUNNING, |p.rows|, StartAt(jobs, p.jobId), ChunkSize(p))
  }

  function Tagged(jobId: Text, rows: seq<BatchRow>): seq<DeadLetter> {
    seq(|rows|, i requires 0 <= i < |rows| => DeadLetter(jobId, rows[i]))
  }

  /** Where the chunk that starts at `i` ends. */
  function ChunkEnd(i: nat, chunk: nat, total: nat): nat {
    if i + chunk < total then i + chunk else total
  }

  /** One checkpoint for each chunk from row `i` on. */
  function Checkpoints(jobId: Text, i: nat, chunk: nat, total: nat): seq<CheckpointRow>
    requires chunk > 0
    decreases total - i
  {
    if i >= total then []
    else [CheckpointRow(jobId, i as real / chunk as real, ChunkEnd(i, chunk, total))]
         + Checkpoints(jobId, i + chunk, chunk, total)
  }

  /** The checkpoints of a job: as many as there are chunks, each at the end of its chunk, the last
      one at the last row. */
  lemma {:induction false} CheckpointsMarkChunks(jobId: Text, i: nat, chunk: nat, total: nat, k: nat)
    requires chunk > 0 && k < |Checkpoints(jobId, i, chunk, total)|
    ensures var c := Checkpoints(jobId, i, chunk, total);
            && i + k * chunk < total
            && c[k] ==
                 CheckpointRow(jobId, i as real / chunk as real + k as real, ChunkEnd(i + k * chunk, chunk, total))
            && (c[k].processedRows == total <==> k == |c| - 1)
    decreases k
  {
    var rest := Checkpoints(jobId, i + chunk, chunk, total);
    if k > 0 {
      CheckpointsMarkChunks(jobId, i + chunk, chunk, total, k - 1);
      assert (k - 1) * chunk + chunk == k * chunk;
      NextIndex(i, chunk);
    }
  }

  /** There are as many checkpoints as chunks. */
  lemma {:induction false} CheckpointCount(jobId: Text, i: nat, chunk: nat, total: nat)
    requires chunk > 0
    ensures var n := |Checkpoints(jobId, i, chunk, total)|;
            && i + n * chunk >= total
            && (n > 0 ==> i + (n - 1) * chunk < total)
            && (i >= total ==> n == 0)
    decreases total - i
  {
    if i < total {
      CheckpointCount(jobId, i + chunk, chunk, total);
      var n := |Checkpoints(jobId, i + chunk, chunk, total)|;
      assert (n + 1) * chunk == n * chunk + chunk;
      if n > 0 {
        assert n * chunk == (n - 1) * chunk + chunk;
      }
    }
  }

  lemma NextIndex(i: nat, chunk: nat)
    requires chunk > 0
    ensures (i + chunk) as real / chunk as real == i as real / chunk as real + 1.0
  {
    var c, q := chunk as real, i as real / chunk as real;
    assert q * c == i as real;
    assert (q + 1.0) * c == q * c + c == (i + chunk) as real;
    Quotient((i + chunk) as real, c, q + 1.0);
  }

  lemma Quotient(x: real, c: real, q: real)
    requires c != 0.0 && q * c == x
    ensures x / c == q
  {
  }

  /** Whatever the chunk size, ingestion is the fold over the rows behind the last checkpoint. */
  function IngestBatch(t: JobTables, p: Payload): (JobTables, Result<Report>) {
    if p.jobId == [] || p.checksum == [] then (t, Thrown(INVALID_DIMENSIONS))
    else if IsRepeat(t.jobs, p) then (t, Ok(Report(NO_ROWS, true, false)))
    else
      var start := StartAt(t.jobs, p.jobId);
      var rows := From(p.rows, start);
      var done := if start < |p.rows| then |p.rows| else start;
      (JobTables(
         Fold(t.balances, rows),
         t.jobs[p.jobId := OpenJob(t.jobs, p).(status := COMPLETED, processedRows := done)],
         t.checkpoints + Checkpoints(p.jobId, start, ChunkSize(p), |p.rows|),
         t.deadLetters + Tagged(p.jobId, InvalidRows(rows))),
       Ok(Report(CountRows(t.balances, rows), false, start > 0)))
  }

  /** A job needs an id and a checksum; a known id with the same checksum is a repeat that changes
      nothing.  Any other job starts behind the rows processed under its id, ends COMPLETED with all
      its rows, leaves other jobs alone, keeps the invalid rows as its dead letters in their order, and
      writes a checkpoint every `chunk` rows, which are 100 if
      the payload gives no positive size. */
  lemma JobOutcome(t: JobTables, p: Payload, chunk: nat)
    requires if p.chunkSize.Some? && p.chunkSize.value > 0 then p.chunkSize.value == chunk else chunk == 100
    ensures var (after, r) := IngestBatch(t, p);
            var start := if p.jobId in t.jobs then t.jobs[p.jobId].processedRows else 0;
            if p.jobId == [] || p.checksum == [] then r == Thrown(INVALID_DIMENSIONS) && after == t
            else if p.jobId in t.jobs && t.jobs[p.jobId].checksum == p.checksum then
              r == Ok(Report(Counters(0, 0, 0, 0), true, false)) && after == t
            else
              && r.Ok? && !r.value.deduped && (r.value.resumed <==> start > 0)
              && p.jobId in after.jobs && after.jobs[p.jobId].checksum == p.checksum
              && after.jobs[p.jobId].status == COMPLETED && after.jobs[p.jobId].totalRows == |p.rows|
              && after.jobs[p.jobId].processedRows == (if start < |p.rows| then |p.rows| else start)
              && after.jobs[p.jobId].chunkSize == chunk
              && (forall id :: id != p.jobId ==> (id in after.jobs <==> id in t.jobs))
              && (forall id :: id != p.jobId && id in t.jobs ==> after.jobs[id] == t.jobs[id])
              && after.checkpoints == t.checkpoints + Checkpoints(p.jobId, start, chunk, |p.rows|)
              && var rows := if start <= |p.rows| then p.rows[start..] else [];
              && after.balances == Fold(t.balances, rows)
              && |after.deadLetters| == |t.deadLetters| + |InvalidRows(rows)|
              && after.deadLetters[..|t.deadLetters|] == t.deadLetters
              && forall k :: 0 <= k < |InvalidRows(rows)| ==>
                   after.deadLetters[|t.deadLetters| + k] == DeadLetter(p.jobId, InvalidRows(rows)[k])
  {
  }

  // ------------------------------------------------------------------ interruption

  /** An interrupted ingestion wrote the rows up to `written`; its last checkpoint says `processed`. */
  datatype Attempt = Attempt(processed: nat, written: nat)

  /** What is stored when the ingestion of `p` stops after the rows up to `a.written`, the last
      checkpoint being `a.processed`. */
  predicate Interrupted(t: JobTables, p: Payload, mid: JobTables, a: Attempt) {
    var start := StartAt(t.jobs, p.jobId);
    && start <= a.processed <= a.written
    && a.written - a.processed <= ChunkSize(p)
    && (start <= |p.rows| ==> a.written <= |p.rows|)
    && (start > |p.rows| ==> a.written == start)
    && mid.balances == Fold(t.balances, Between(p.rows, start, a.written))
    && mid.jobs == t.jobs[p.jobId := OpenJob(t.jobs, p).(processedRows := a.processed)]
    && mid.deadLetters == t.deadLetters + Tagged(p.jobId, InvalidRows(Between(p.rows, start, a.written)))
  }

  /** The report of a batch adds up, whatever the chunk size. */
  lemma ReportAddsUp(t: JobTables, p: Payload)
    requires IngestBatch(t, p).1.Ok? && !IngestBatch(t, p).1.value.deduped
    ensures var (after, r) := IngestBatch(t, p);
            var c, start := r.value.counters, StartAt(t.jobs, p.jobId);
            && c.inserted + c.updated + c.unmodified + c.rejected == (if start < |p.rows| then |p.rows| - start else 0)
            && c.rejected == |after.deadLetters| - |t.deadLetters|
            && c.inserted == |after.balances.Keys - t.balances.Keys|
            && TotalVersion(after.balances) == TotalVersion(t.balances) + c.inserted + c.updated
  {
    var rows := From(p.rows, StartAt(t.jobs, p.jobId));
    CountersAddUp(t.balances, rows);
    InsertedCountsNewKeys(t.balances, rows);
    FoldKeys(t.balances, rows);
    assert Fold(t.balances, rows).Keys - t.balances.Keys == NewKeys(t.balances, rows);
    VersionsCountWrites(t.balances, rows);
  }

  /** A batch sets every key to its last valid row behind the checkpoint and touches no other key. */
  lemma BatchSetsLastRows(t: JobTables, p: Payload, key: BalanceKey)
    requires IngestBatch(t, p).1.Ok? && !IngestBatch(t, p).1.value.deduped
    ensures var after := IngestBatch(t, p).0.balances;
            match LastValid(From(p.rows, StartAt(t.jobs, p.jobId)), key)
            case Some(days) => DaysAt(after, key) == Some(days)
            case None => Lookup(after, key) == Lookup(t.balances, key)
  {
    LastValidRowWins(t.balances, From(p.rows, StartAt(t.jobs, p.jobId)), key);
  }

  /** Ingesting the same rows under a new job id reports every valid row unmodified and bumps no
      version if and only if no two valid rows of a key contradict each other. */
  lemma ReingestUnderNewJob(t: JobTables, p: Payload, q: Payload)
    requires p.jobId != [] && p.checksum != [] && q.jobId != [] && q.checksum != []
    requires p.rows == q.rows && p.jobId != q.jobId && p.jobId !in t.jobs && q.jobId !in t.jobs
    ensures var once := IngestBatch(t, p).0;
            var (twice, r) := IngestBatch(once, q);
            && r.Ok? && !r.value.deduped && r.value.counters.inserted == 0
            && (r.value.counters.unmodified == |q.rows| - |InvalidRows(q.rows)| <==> Consistent(q.rows))
            && (twice.balances == once.balances <==> Consistent(q.rows))
  {
    assert p.rows[0..] == p.rows;
    SecondIngestion(t.balances, p.rows);
  }

  /** Resubmitting the very payload whose ingestion was interrupted does not resume it: the job was
      stored with its checksum before the first row, so it looks like a repeat. */
  lemma InterruptedJobLooksDone(t: JobTables, p: Payload, mid: JobTables, a: Attempt)
    requires p.jobId != [] && p.checksum != []
    requires Interrupted(t, p, mid, a)
    ensures IngestBatch(mid, p) == (mid, Ok(Report(NO_ROWS, true, false)))
  {
    assert mid.jobs[p.jobId].checksum == p.checksum;
  }
}
