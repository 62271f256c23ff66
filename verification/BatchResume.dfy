/** Resuming an interrupted batch.  The rows behind the last checkpoint that were written already are
    written again, which does no harm unless somebody else changed their keys in the meantime. */
module BatchResume {
  import opened Results
  import opened Texts
  import opened Domain
  import opened Tables
  import opened BatchFold
  import opened BatchJobs

  /** The days of a key that has `days` when some rows are ingested. */
  function After(days: Option<real>, rows: seq<BatchRow>, key: BalanceKey): Option<real> {
    if LastValid(rows, key).Some? then LastValid(rows, key) else days
  }

  lemma DaysAfter(balances: Balances, rows: seq<BatchRow>, key: BalanceKey)
    ensures DaysAt(Fold(balances, rows), key) == After(DaysAt(balances, key), rows, key)
  {
    LastValidRowWins(balances, rows, key);
  }

  lemma SplitBetween(rows: seq<BatchRow>, a: nat, b: nat, c: nat, key: BalanceKey)
    requires a <= b <= c <= |rows|
    ensures LastValid(Between(rows, a, c), key) ==
              if LastValid(Between(rows, b, c), key).Some? then LastValid(Between(rows, b, c), key)
              else LastValid(Between(rows, a, b), key)
  {
    assert rows[a..c] == rows[a..b] + rows[b..c];
    LastValidAppend(rows[a..b], rows[b..c], key);
  }

  lemma FromIsBetween(rows: seq<BatchRow>, a: nat)
    requires a <= |rows|
    ensures From(rows, a) == Between(rows, a, |rows|)
  {
  }

  // ----------------------------------------------------------- one interruption

  /** Resuming from checkpoint `p` after the rows up to `m` were written leaves a key as if only the
      rows from `m` on were written, if and only if one of these sets the key, or none of the rows
      written twice does, or the last of them agrees with the balance found. */
  lemma ReplayIsHarmlessExactly(balances: Balances, rows: seq<BatchRow>, p: nat, m: nat, key: BalanceKey)
    requires p <= m <= |rows|
    ensures var twice := LastValid(Between(rows, p, m), key);
            DaysAt(Fold(balances, From(rows, p)), key) == DaysAt(Fold(balances, From(rows, m)), key)
            <==> (LastValid(From(rows, m), key).Some? || twice.None? || twice == DaysAt(balances, key))
  {
    DaysAfter(balances, From(rows, p), key);
    DaysAfter(balances, From(rows, m), key);
    FromIsBetween(rows, p);
    FromIsBetween(rows, m);
    SplitBetween(rows, p, m, |rows|, key);
  }

  // ------------------------------------------------------- any number of interruptions

  /** What everybody else does to the days of a key between two attempts. */
  type Others = Option<real> -> Option<real>

  const NOTHING: Others := days => days

  /** For example a realtime update with absolute days. */
  function SetTo(days: real): Others {
    _ => Some(days)
  }

  /** The checkpoint the next attempt starts from. */
  function Checkpoint(start: nat, attempts: seq<Attempt>): nat {
    if attempts == [] then start else attempts[|attempts| - 1].processed
  }

  /** How far any attempt has got. */
  function Furthest(start: nat, attempts: seq<Attempt>): nat {
    if attempts == [] then start else Max(Furthest(start, Front(attempts)), attempts[|attempts| - 1].written)
  }

  function Max(a: nat, b: nat): nat {
    if a < b then b else a
  }

  function Min(a: nat, b: nat): nat {
    if a < b then a else b
  }

  function Front<T>(s: seq<T>): seq<T>
    requires s != []
  {
    s[..|s| - 1]
  }

  /** Every attempt starts where the checkpoint of the previous one says. */
  predicate Possible(rows: seq<BatchRow>, start: nat, attempts: seq<Attempt>) {
    if attempts == [] then start <= |rows|
    else
      var last := attempts[|attempts| - 1];
      Possible(rows, start, Front(attempts)) &&
      Checkpoint(start, Front(attempts)) <= last.processed <= last.written <= |rows|
  }

  /** The days of a key after the attempts; `writes[i]` happens before attempt `i`. */
  function Resumed(days: Option<real>, rows: seq<BatchRow>, start: nat, attempts: seq<Attempt>,
                   writes: seq<Others>, key: BalanceKey): Option<real>
    requires |writes| == |attempts|
  {
    if attempts == [] then days
    else
      var found := writes[|writes| - 1](Resumed(days, rows, start, Front(attempts), Front(writes), key));
      After(found, Between(rows, Checkpoint(start, Front(attempts)), attempts[|attempts| - 1].written), key)
  }

  /** The same if no row were ever written twice. */
  function Seamless(days: Option<real>, rows: seq<BatchRow>, start: nat, attempts: seq<Attempt>,
                    writes: seq<Others>, key: BalanceKey): Option<real>
    requires |writes| == |attempts|
  {
    if attempts == [] then days
    else
      var found := writes[|writes| - 1](Seamless(days, rows, start, Front(attempts), Front(writes), key));
      After(found, Between(rows, Furthest(start, Front(attempts)), attempts[|attempts| - 1].written), key)
  }

  /** The rows that the last attempt writes again. */
  function WrittenTwice(rows: seq<BatchRow>, start: nat, attempts: seq<Attempt>): seq<BatchRow>
    requires attempts != []
  {
    Between(rows, Checkpoint(start, Front(attempts)),
            Min(Furthest(start, Front(attempts)), attempts[|attempts| - 1].written))
  }

  /** The last attempt can spoil a key: it sets it again, and no row still to come will. */
  predicate LastSpoils(rows: seq<BatchRow>, start: nat, attempts: seq<Attempt>, key: BalanceKey)
    requires attempts != []
  {
    && LastValid(WrittenTwice(rows, start, attempts), key).Some?
    && LastValid(From(rows, Furthest(start, Front(attempts))), key).None?
  }

  /** No attempt can spoil the key. */
  predicate Safe(rows: seq<BatchRow>, start: nat, attempts: seq<Attempt>, key: BalanceKey) {
    attempts == [] ||
    (Safe(rows, start, Front(attempts), key) && !LastSpoils(rows, start, attempts, key))
  }

  lemma {:induction false} CheckpointBelowFurthest(rows: seq<BatchRow>, start: nat, attempts: seq<Attempt>)
    requires Possible(rows, start, attempts)
    ensures start <= Checkpoint(start, attempts) <= Furthest(start, attempts) <= |rows|
  {
    if attempts != [] {
      CheckpointBelowFurthest(rows, start, Front(attempts));
    }
  }

  /** How the rows of the last attempt and those still to come fit together. */
  lemma LastAttempt(rows: seq<BatchRow>, start: nat, attempts: seq<Attempt>, key: BalanceKey)
    requires attempts != [] && Possible(rows, start, attempts)
    ensures var p, f := Checkpoint(start, Front(attempts)), Furthest(start, Front(attempts));
            var w := attempts[|attempts| - 1].written;
            var added := LastValid(Between(rows, f, w), key);
            && LastValid(Between(rows, p, w), key) ==
                 (if added.Some? then added else LastValid(WrittenTwice(rows, start, attempts), key))
            && LastValid(From(rows, f), key) ==
                 (if LastValid(From(rows, Furthest(start, attempts)), key).Some?
                  then LastValid(From(rows, Furthest(start, attempts)), key) else added)
  {
    var p, f := Checkpoint(start, Front(attempts)), Furthest(start, Front(attempts));
    var w := attempts[|attempts| - 1].written;
    CheckpointBelowFurthest(rows, start, Front(attempts));
    FromIsBetween(rows, f);
    if f <= w {
      FromIsBetween(rows, w);
      SplitBetween(rows, p, f, w, key);
      SplitBetween(rows, f, w, |rows|, key);
    }
  }

  /** A safe key has the days it should have, or will be set by a row still to come. */
  lemma {:induction false} SafeOrStillToCome(days: Option<real>, rows: seq<BatchRow>, start: nat,
                                             attempts: seq<Attempt>, writes: seq<Others>, key: BalanceKey)
    requires |writes| == |attempts| && Possible(rows, start, attempts) && Safe(rows, start, attempts, key)
    ensures || Resumed(days, rows, start, attempts, writes, key) == Seamless(days, rows, start, attempts, writes, key)
            || LastValid(From(rows, Furthest(start, attempts)), key).Some?
    decreases |attempts|
  {
    if attempts != [] {
      SafeOrStillToCome(days, rows, start, Front(attempts), Front(writes), key);
      LastAttempt(rows, start, attempts, key);
    }
  }

  /** Writes that the service performs: none, or a realtime update. */
  ghost predicate NothingOrUpdate(write: Others) {
    write == NOTHING || exists days :: days >= 0.0 && write == SetTo(days)
  }

  lemma {:induction false} LastValidIsNotNegative(rows: seq<BatchRow>, key: BalanceKey)
    ensures LastValid(rows, key).Some? ==> LastValid(rows, key).value >= 0.0
  {
    if rows != [] {
      LastValidIsNotNegative(rows[1..], key);
    }
  }

  /** An update that the last attempt spoils. */
  lemma SpoilsUpdate(days: Option<real>, rows: seq<BatchRow>, start: nat, attempts: seq<Attempt>, front: seq<Others>,
                     update: real, key: BalanceKey)
    requires attempts != [] && |front| == |attempts| - 1 && Possible(rows, start, attempts)
    requires LastSpoils(rows, start, attempts, key)
    requires update != LastValid(WrittenTwice(rows, start, attempts), key).value
    ensures var writes := front + [SetTo(update)];
            Resumed(days, rows, start, attempts, writes, key) != Seamless(days, rows, start, attempts, writes, key)
  {
    assert Front(front + [SetTo(update)]) == front;
    LastAttempt(rows, start, attempts, key);
  }

  /** A loss that the last attempt does not make good. */
  lemma LossStays(days: Option<real>, rows: seq<BatchRow>, start: nat, attempts: seq<Attempt>, front: seq<Others>,
                  key: BalanceKey)
    requires attempts != [] && |front| == |attempts| - 1 && Possible(rows, start, attempts)
    requires !LastSpoils(rows, start, attempts, key)
    requires LastValid(From(rows, Furthest(start, Front(attempts))), key).None?
    requires Resumed(days, rows, start, Front(attempts), front, key) !=
               Seamless(days, rows, start, Front(attempts), front, key)
    ensures var writes := front + [NOTHING];
            Resumed(days, rows, start, attempts, writes, key) != Seamless(days, rows, start, attempts, writes, key)
  {
    assert Front(front + [NOTHING]) == front;
    LastAttempt(rows, start, attempts, key);
  }

  ghost predicate NothingOrUpdates(writes: seq<Others>) {
    forall i :: 0 <= i < |writes| ==> NothingOrUpdate(writes[i])
  }

  lemma UpdateIsOne(days: real)
    requires days >= 0.0
    ensures NothingOrUpdate(SetTo(days))
  {
  }

  /** An update just before the last attempt is lost if that spoils the key. */
  lemma LastLosesUpdate(days: Option<real>, rows: seq<BatchRow>, start: nat, attempts: seq<Attempt>, key: BalanceKey)
    returns (writes: seq<Others>)
    requires attempts != [] && Possible(rows, start, attempts) && LastSpoils(rows, start, attempts, key)
    ensures |writes| == |attempts| && NothingOrUpdates(writes)
    ensures Resumed(days, rows, start, attempts, writes, key) != Seamless(days, rows, start, attempts, writes, key)
  {
    var twice := WrittenTwice(rows, start, attempts);
    LastValidIsNotNegative(twice, key);
    var update := LastValid(twice, key).value + 1.0;
    UpdateIsOne(update);
    var front := seq(|attempts| - 1, _ => NOTHING);
    SpoilsUpdate(days, rows, start, attempts, front, update, key);
    writes := front + [SetTo(update)];
  }

  lemma NoneFrom(rows: seq<BatchRow>, start: nat, attempts: seq<Attempt>, key: BalanceKey)
    requires attempts != [] && Possible(rows, start, attempts)
    requires LastValid(From(rows, Furthest(start, Front(attempts))), key).None?
    ensures LastValid(From(rows, Furthest(start, attempts)), key).None?
  {
    LastAttempt(rows, start, attempts, key);
  }

  /** A key that is not safe loses a realtime update at the right moment. */
  lemma {:induction false} UnsafeLosesUpdate(days: Option<real>, rows: seq<BatchRow>, start: nat,
                                             attempts: seq<Attempt>, key: BalanceKey)
    returns (writes: seq<Others>)
    requires Possible(rows, start, attempts) && !Safe(rows, start, attempts, key)
    ensures |writes| == |attempts| && NothingOrUpdates(writes)
    ensures Resumed(days, rows, start, attempts, writes, key) != Seamless(days, rows, start, attempts, writes, key)
    ensures LastValid(From(rows, Furthest(start, attempts)), key).None?
    decreases |attempts|
  {
    if LastSpoils(rows, start, attempts, key) {
      writes := LastLosesUpdate(days, rows, start, attempts, key);
    } else {
      var front := UnsafeLosesUpdate(days, rows, start, Front(attempts), key);
      LossStays(days, rows, start, attempts, front, key);
      writes := front + [NOTHING];
    }
    NoneFrom(rows, start, attempts, key);
  }

  /** No write of anybody else to the key is ever lost. */
  ghost predicate NeverLoses(rows: seq<BatchRow>, start: nat, attempts: seq<Attempt>, key: BalanceKey) {
    forall days, writes :: |writes| == |attempts| ==>
      Resumed(days, rows, start, attempts, writes, key) == Seamless(days, rows, start, attempts, writes, key)
  }

  /** Once a job has got through, it has lost no write to a key, whatever these writes were, if and
      only if no attempt set the key again without a row still to come for it. */
  lemma ResumesExactly(rows: seq<BatchRow>, start: nat, attempts: seq<Attempt>, key: BalanceKey)
    requires Possible(rows, start, attempts) && Furthest(start, attempts) == |rows|
    ensures Safe(rows, start, attempts, key) <==> NeverLoses(rows, start, attempts, key)
  {
    if Safe(rows, start, attempts, key) {
      forall days, writes: seq<Others> | |writes| == |attempts|
        ensures Resumed(days, rows, start, attempts, writes, key) == Seamless(days, rows, start, attempts, writes, key)
      {
        SafeOrStillToCome(days, rows, start, attempts, writes, key);
        assert From(rows, |rows|) == [];
      }
    } else {
      var writes := UnsafeLosesUpdate(None, rows, start, attempts, key);
    }
  }

  // ------------------------------------------------------------ nobody else writes

  ghost predicate Quiet(writes: seq<Others>) {
    forall i, days :: 0 <= i < |writes| ==> writes[i](days) == days
  }

  /** However often ingestion is interrupted, resuming it to the end gives a key that nobody else
      writes the days of one uninterrupted ingestion. */
  lemma {:induction false} QuietResume(days: Option<real>, rows: seq<BatchRow>, start: nat,
                                       attempts: seq<Attempt>, writes: seq<Others>, key: BalanceKey)
    requires |writes| == |attempts| && Possible(rows, start, attempts) && Quiet(writes)
    ensures After(Resumed(days, rows, start, attempts, writes, key), From(rows, Checkpoint(start, attempts)), key)
              == After(days, From(rows, start), key)
    decreases |attempts|
  {
    if attempts != [] {
      QuietResume(days, rows, start, Front(attempts), Front(writes), key);
      var p, last := Checkpoint(start, Front(attempts)), attempts[|attempts| - 1];
      FromIsBetween(rows, p);
      FromIsBetween(rows, last.processed);
      SplitBetween(rows, p, last.processed, |rows|, key);
      SplitBetween(rows, p, last.processed, last.written, key);
      SplitBetween(rows, last.processed, last.written, |rows|, key);
    }
  }

  // ------------------------------------------------------------------------- jobs

  /** A job has gone through some interrupted attempts since the key had `days`. */
  predicate Tracks(days: Option<real>, rows: seq<BatchRow>, start: nat, jobId: Text, mid: JobTables,
                   attempts: seq<Attempt>, writes: seq<Others>, key: BalanceKey)
  {
    && |writes| == |attempts| && Possible(rows, start, attempts)
    && StartAt(mid.jobs, jobId) == Checkpoint(start, attempts)
    && DaysAt(mid.balances, key) == Resumed(days, rows, start, attempts, writes, key)
  }

  /** Between two attempts other steps changed the key by `write` and left the job alone. */
  predicate Meanwhile(mid: JobTables, now: JobTables, jobId: Text, write: Others, key: BalanceKey) {
    StartAt(now.jobs, jobId) == StartAt(mid.jobs, jobId) &&
    DaysAt(now.balances, key) == write(DaysAt(mid.balances, key))
  }

  lemma TracksStart(t: JobTables, p: Payload, key: BalanceKey)
    requires StartAt(t.jobs, p.jobId) <= |p.rows|
    ensures Tracks(DaysAt(t.balances, key), p.rows, StartAt(t.jobs, p.jobId), p.jobId, t, [], [], key)
  {
  }

  /** What one more attempt adds. */
  lemma NextAttempt(days: Option<real>, rows: seq<BatchRow>, start: nat, attempts: seq<Attempt>,
                    writes: seq<Others>, write: Others, a: Attempt, key: BalanceKey)
    requires |writes| == |attempts| && Possible(rows, start, attempts)
    requires Checkpoint(start, attempts) <= a.processed <= a.written <= |rows|
    ensures var all := attempts + [a];
            && Possible(rows, start, all) && Checkpoint(start, all) == a.processed
            && Resumed(days, rows, start, all, writes + [write], key) ==
                 After(write(Resumed(days, rows, start, attempts, writes, key)),
                       Between(rows, Checkpoint(start, attempts), a.written), key)
  {
    assert Front(attempts + [a]) == attempts && Front(writes + [write]) == writes;
  }

  /** One more interrupted attempt, under any chunk size. */
  lemma InterruptedTracks(days: Option<real>, start: nat, mid: JobTables, attempts: seq<Attempt>, writes: seq<Others>,
                          now: JobTables, write: Others, p: Payload, next: JobTables, a: Attempt, key: BalanceKey)
    requires Tracks(days, p.rows, start, p.jobId, mid, attempts, writes, key)
    requires Meanwhile(mid, now, p.jobId, write, key)
    requires Interrupted(now, p, next, a)
    ensures Tracks(days, p.rows, start, p.jobId, next, attempts + [a], writes + [write], key)
  {
    CheckpointBelowFurthest(p.rows, start, attempts);
    NextAttempt(days, p.rows, start, attempts, writes, write, a, key);
    DaysAfter(now.balances, Between(p.rows, StartAt(now.jobs, p.jobId), a.written), key);
  }

  /** A last attempt that gets through writes the rows behind the checkpoint. */
  lemma LastAttemptResumes(days: Option<real>, rows: seq<BatchRow>, start: nat, attempts: seq<Attempt>,
                           writes: seq<Others>, write: Others, key: BalanceKey)
    requires |writes| == |attempts| && Possible(rows, start, attempts)
    ensures var all := attempts + [Attempt(|rows|, |rows|)];
            && Possible(rows, start, all)
            && Resumed(days, rows, start, all, writes + [write], key) ==
                 After(write(Resumed(days, rows, start, attempts, writes, key)),
                       From(rows, Checkpoint(start, attempts)), key)
  {
    CheckpointBelowFurthest(rows, start, attempts);
    NextAttempt(days, rows, start, attempts, writes, write, Attempt(|rows|, |rows|), key);
    FromIsBetween(rows, Checkpoint(start, attempts));
  }

  /** What the attempts of a completed job have achieved. */
  lemma AllRowsWritten(days: Option<real>, rows: seq<BatchRow>, start: nat, attempts: seq<Attempt>,
                       writes: seq<Others>, key: BalanceKey)
    requires |writes| == |attempts| && Possible(rows, start, attempts)
    requires attempts != [] && attempts[|attempts| - 1] == Attempt(|rows|, |rows|)
    ensures var done := Resumed(days, rows, start, attempts, writes, key);
            && (Safe(rows, start, attempts, key) ==> done == Seamless(days, rows, start, attempts, writes, key))
            && (Quiet(writes) ==> done == After(days, From(rows, start), key))
  {
    CheckpointBelowFurthest(rows, start, attempts);
    assert From(rows, |rows|) == [];
    if Safe(rows, start, attempts, key) {
      SafeOrStillToCome(days, rows, start, attempts, writes, key);
    }
    if Quiet(writes) {
      QuietResume(days, rows, start, attempts, writes, key);
    }
  }

  /** Resubmitting the rows with another checksum is the last attempt: it writes the rows behind the
      checkpoint.  A safe key loses no write of anybody else, and a key that nobody else wrote has
      the days of one uninterrupted ingestion. */
  lemma ResumeCompletes(days: Option<real>, start: nat, mid: JobTables, attempts: seq<Attempt>, writes: seq<Others>,
                        now: JobTables, write: Others, p: Payload, key: BalanceKey)
    requires Tracks(days, p.rows, start, p.jobId, mid, attempts, writes, key)
    requires Meanwhile(mid, now, p.jobId, write, key)
    requires p.jobId != [] && p.checksum != [] && !IsRepeat(now.jobs, p)
    ensures var all, others := attempts + [Attempt(|p.rows|, |p.rows|)], writes + [write];
            var done := DaysAt(IngestBatch(now, p).0.balances, key);
            && done == Resumed(days, p.rows, start, all, others, key)
            && (Safe(p.rows, start, all, key) ==> done == Seamless(days, p.rows, start, all, others, key))
            && (Quiet(others) ==> done == After(days, From(p.rows, start), key))
  {
    CheckpointBelowFurthest(p.rows, start, attempts);
    DaysAfter(now.balances, From(p.rows, StartAt(now.jobs, p.jobId)), key);
    LastAttemptResumes(days, p.rows, start, attempts, writes, write, key);
    AllRowsWritten(days, p.rows, start, attempts + [Attempt(|p.rows|, |p.rows|)], writes + [write], key);
  }

  /** If nothing else happens between the interruption and the resubmission, the balances hold the
      days of the uninterrupted ingestion. */
  lemma InterruptedThenResumed(t: JobTables, p: Payload, mid: JobTables, a: Attempt, q: Payload, key: BalanceKey)
    requires p.jobId != [] && p.checksum != [] && !IsRepeat(t.jobs, p) && Interrupted(t, p, mid, a)
    requires q.jobId == p.jobId && q.rows == p.rows && q.checksum != [] && q.checksum != p.checksum
    ensures DaysAt(IngestBatch(mid, q).0.balances, key) == DaysAt(IngestBatch(t, p).0.balances, key)
  {
    var start := StartAt(t.jobs, p.jobId);
    if start <= |p.rows| {
      TracksStart(t, p, key);
      InterruptedTracks(DaysAt(t.balances, key), start, t, [], [], t, NOTHING, p, mid, a, key);
      ResumeCompletes(DaysAt(t.balances, key), start, mid, [a], [NOTHING], mid, NOTHING, q, key);
      DaysAfter(t.balances, From(p.rows, start), key);
    }
  }

  /** With other writes in between, resuming leaves a key as if only the missing rows were written,
      if and only if one of these sets it, or no row written twice does, or the last of those agrees
      with the balance found. */
  lemma ResumedWithoutLossExactly(t: JobTables, p: Payload, mid: JobTables, a: Attempt, now: JobTables, q: Payload,
                                  key: BalanceKey)
    requires Interrupted(t, p, mid, a) && now.jobs == mid.jobs && StartAt(t.jobs, p.jobId) <= |p.rows|
    requires q.jobId == p.jobId && q.rows == p.rows && q.jobId != [] && q.checksum != [] && q.checksum != p.checksum
    ensures var twice := LastValid(Between(p.rows, a.processed, a.written), key);
            var missing := From(p.rows, a.written);
            DaysAt(IngestBatch(now, q).0.balances, key) == DaysAt(Fold(now.balances, missing), key)
            <==> (LastValid(missing, key).Some? || twice.None? || twice == DaysAt(now.balances, key))
  {
    ReplayIsHarmlessExactly(now.balances, p.rows, a.processed, a.written, key);
  }

  /** An approval between the interruption and the resubmission is lost: the row written twice gives
      its days back, whereas an uninterrupted ingestion leaves them taken. */
  lemma ReservationLost(p: Payload, q: Payload, request: Request)
    requires p.jobId != [] && p.checksum != [] && q.jobId == p.jobId && q.checksum != [] && q.checksum != p.checksum
    requires ValidRow(BatchRow(request.key, Finite(10.0))) && request.days == 3.0 && request.status == PENDING
    requires p.rows == [BatchRow(request.key, Finite(10.0))] && q.rows == p.rows
    ensures var t := JobTables(map[], map[], [], []);
            var done := IngestBatch(t, p).0;
            var mid := done.(jobs := map[p.jobId := OpenJob(map[], p)], checkpoints := []);
            var now := mid.(balances := Approved(mid.balances, request));
            && Interrupted(t, p, mid, Attempt(0, 1))
            && DaysAt(Approved(done.balances, request), request.key) == Some(7.0)
            && DaysAt(now.balances, request.key) == Some(7.0)
            && DaysAt(IngestBatch(now, q).0.balances, request.key) == Some(10.0)
  {
    var row := p.rows[0];
    assert From(p.rows, 0) == [row] && Between(p.rows, 0, 1) == [row] && [row][..0] == [] && [row][1..] == [];
    var written := IngestRow(map[], row);
    assert Fold(map[], [row]) == written;
    var left := Approved(written, request);
    assert left[request.key].availableDays == 7.0;
    assert Fold(left, [row]) == IngestRow(left, row);
  }

  /** The balances after the approval of the only request. */
  function Approved(balances: Balances, request: Request): Balances {
    Approve(Store(balances, [request], [], [], []), 0, 0).0.balances
  }
}
