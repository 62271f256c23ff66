/** Ingesting batch rows: a fold in which the last valid row of a key wins, its counters, and what a second
    ingestion of the same rows does. */
module BatchFold {
  import opened Results
  import opened Texts
  import opened Tables

  datatype Counters = Counters(inserted: nat, updated: nat, unmodified: nat, rejected: nat)

  const NO_ROWS: Counters := Counters(0, 0, 0, 0)

  function CountRow(balances: Balances, row: BatchRow, c: Counters): Counters {
    if !ValidRow(row) then c.(rejected := c.rejected + 1)
    else if row.key !in balances then c.(inserted := c.inserted + 1)
    else if balances[row.key].availableDays == row.days.value then c.(unmodified := c.unmodified + 1)
    else c.(updated := c.updated + 1)
  }

  function Fold(balances: Balances, rows: seq<BatchRow>): Balances {
    if rows == [] then balances
    else IngestRow(Fold(balances, rows[..|rows| - 1]), rows[|rows| - 1])
  }

  function CountRows(balances: Balances, rows: seq<BatchRow>): Counters {
    if rows == [] then NO_ROWS
    else
      var front, last := rows[..|rows| - 1], rows[|rows| - 1];
      CountRow(Fold(balances, front), last, CountRows(balances, front))
  }

  /** The invalid rows, in order. */
  function InvalidRows(rows: seq<BatchRow>): seq<BatchRow> {
    if rows == [] then []
    else (if ValidRow(rows[0]) then [] else [rows[0]]) + InvalidRows(rows[1..])
  }

  lemma {:induction false} InvalidAppend(a: seq<BatchRow>, b: seq<BatchRow>)
    ensures InvalidRows(a + b) == InvalidRows(a) + InvalidRows(b)
  {
    if a == [] {
      assert a + b == b;
    } else {
      assert (a + b)[1..] == a[1..] + b;
      InvalidAppend(a[1..], b);
    }
  }

  lemma FoldSnoc(balances: Balances, rows: seq<BatchRow>, row: BatchRow)
    ensures Fold(balances, rows + [row]) == IngestRow(Fold(balances, rows), row)
    ensures CountRows(balances, rows + [row]) == CountRow(Fold(balances, rows), row, CountRows(balances, rows))
    ensures InvalidRows(rows + [row]) == InvalidRows(rows) + (if ValidRow(row) then [] else [row])
  {
    assert (rows + [row])[..|rows|] == rows;
    InvalidAppend(rows, [row]);
    assert [row][1..] == [];
  }

  lemma {:induction false} FoldAppend(balances: Balances, a: seq<BatchRow>, b: seq<BatchRow>)
    ensures Fold(balances, a + b) == Fold(Fold(balances, a), b)
  {
    if b == [] {
      assert a + b == a;
    } else {
      var front, last := b[..|b| - 1], b[|b| - 1];
      FoldAppend(balances, a, front);
      FoldSnoc(balances, a + front, last);
      assert a + b == (a + front) + [last];
    }
  }

  // ------------------------------------------------------------- the last row wins

  /** The days of the last valid row of a key. */
  function LastValid(rows: seq<BatchRow>, key: BalanceKey): Option<real> {
    if rows == [] then None
    else if LastValid(rows[1..], key).Some? then LastValid(rows[1..], key)
    else if ValidRow(rows[0]) && rows[0].key == key then Some(rows[0].days.value)
    else None
  }

  function DaysAt(balances: Balances, key: BalanceKey): Option<real> {
    if key in balances then Some(balances[key].availableDays) else None
  }

  lemma {:induction false} LastValidAppend(a: seq<BatchRow>, b: seq<BatchRow>, key: BalanceKey)
    ensures LastValid(a + b, key) == if LastValid(b, key).Some? then LastValid(b, key) else LastValid(a, key)
  {
    if a == [] {
      assert a + b == b;
    } else {
      assert (a + b)[1..] == a[1..] + b;
      LastValidAppend(a[1..], b, key);
    }
  }

  /** After ingestion a key holds the days of its last valid row; without one its row is untouched,
      version and all. */
  lemma {:induction false} LastValidRowWins(balances: Balances, rows: seq<BatchRow>, key: BalanceKey)
    ensures var after := Fold(balances, rows);
            match LastValid(rows, key)
            case Some(days) => DaysAt(after, key) == Some(days)
            case None => (key in after <==> key in balances) && (key in balances ==> after[key] == balances[key])
  {
    if rows != [] {
      var front, last := rows[..|rows| - 1], rows[|rows| - 1];
      LastValidRowWins(balances, front, key);
      LastValidAppend(front, [last], key);
      assert rows == front + [last] && [last][1..] == [];
    }
  }

  // ------------------------------------------------------------------ what a row must be

  /** A row that names an employee and a location and has a finite, non-negative number of days - zero
      included - gives its key these days and counts as inserted, updated or unmodified by what was
      there before.  Any other row changes no balance, is the only new dead letter and counts as
      rejected. */
  lemma RowOutcome(balances: Balances, row: BatchRow, c: Counters, rows: seq<BatchRow>)
    ensures var after, counted := IngestRow(balances, row), CountRow(balances, row, c);
            if row.key.employeeId != [] && row.key.locationId != [] && row.days.Finite? && row.days.value >= 0.0 then
              && DaysAt(after, row.key) == Some(row.days.value)
              && InvalidRows(rows + [row]) == InvalidRows(rows)
              && counted == (if row.key !in balances then c.(inserted := c.inserted + 1)
                             else if balances[row.key].availableDays == row.days.value
                             then c.(unmodified := c.unmodified + 1) else c.(updated := c.updated + 1))
              && (row.key in balances && balances[row.key].availableDays == row.days.value ==> after == balances)
            else
              && after == balances
              && InvalidRows(rows + [row]) == InvalidRows(rows) + [row]
              && counted == c.(rejected := c.rejected + 1)
  {
    FoldSnoc(balances, rows, row);
  }

  /** Row `i` is valid, and no valid row of its key comes behind it. */
  predicate LastOfItsKey(rows: seq<BatchRow>, i: nat)
    requires i < |rows|
  {
    ValidRow(rows[i]) && forall j :: i < j < |rows| ==> rows[j].key != rows[i].key || !ValidRow(rows[j])
  }

  /** The last valid row of a key decides its days. */
  lemma {:induction false} LastRowDecides(balances: Balances, rows: seq<BatchRow>, i: nat)
    requires i < |rows| && LastOfItsKey(rows, i)
    ensures DaysAt(Fold(balances, rows), rows[i].key) == Some(rows[i].days.value)
    decreases |rows|
  {
    var front, last := rows[..|rows| - 1], rows[|rows| - 1];
    if i < |front| {
      LastRowDecides(balances, front, i);
    }
  }

  // -------------------------------------------------------------------- accounting

  /** Every row is counted once, and the rejected ones are the invalid ones. */
  lemma {:induction false} CountersAddUp(balances: Balances, rows: seq<BatchRow>)
    ensures var c := CountRows(balances, rows);
            && c.inserted + c.updated + c.unmodified + c.rejected == |rows|
            && c.rejected == |InvalidRows(rows)|
  {
    if rows != [] {
      var front, last := rows[..|rows| - 1], rows[|rows| - 1];
      CountersAddUp(balances, front);
      FoldSnoc(balances, front, last);
      assert rows == front + [last];
    }
  }

  /** The keys of valid rows that had no balance before. */
  function NewKeys(balances: Balances, rows: seq<BatchRow>): set<BalanceKey> {
    set i | 0 <= i < |rows| && ValidRow(rows[i]) && rows[i].key !in balances :: rows[i].key
  }

  lemma {:induction false} FoldKeys(balances: Balances, rows: seq<BatchRow>)
    ensures Fold(balances, rows).Keys == balances.Keys + NewKeys(balances, rows)
  {
    if rows != [] {
      var front, last := rows[..|rows| - 1], rows[|rows| - 1];
      FoldKeys(balances, front);
      NewKeysSnoc(balances, front, last);
      assert rows == front + [last];
    }
  }

  lemma NewKeysSnoc(balances: Balances, front: seq<BatchRow>, last: BatchRow)
    ensures NewKeys(balances, front + [last]) ==
              NewKeys(balances, front) + (if ValidRow(last) && last.key !in balances then {last.key} else {})
  {
    var rows := front + [last];
    assert rows[|front|] == last;
    assert forall i :: 0 <= i < |front| ==> rows[i] == front[i];
  }

  lemma CountInserted(before: Balances, mid: Balances, row: BatchRow, keys: set<BalanceKey>)
    requires mid.Keys == before.Keys + keys && keys !! before.Keys
    ensures var more := if ValidRow(row) && row.key !in before then {row.key} else {};
            |keys + more| == |keys| + (if ValidRow(row) && row.key !in mid then 1 else 0)
  {
    if ValidRow(row) && row.key in keys {
      assert keys + {row.key} == keys;
    } else if ValidRow(row) && row.key in before {
      assert keys + {} == keys;
    }
  }

  /** `inserted` counts the distinct keys that were absent before. */
  lemma {:induction false} InsertedCountsNewKeys(balances: Balances, rows: seq<BatchRow>)
    ensures CountRows(balances, rows).inserted == |NewKeys(balances, rows)|
  {
    if rows != [] {
      var front, last := rows[..|rows| - 1], rows[|rows| - 1];
      InsertedCountsNewKeys(balances, front);
      NextInserted(balances, front, last);
      assert rows == front + [last];
    }
  }

  lemma CountsInserted(mid: Balances, row: BatchRow, c: Counters)
    ensures CountRow(mid, row, c).inserted == c.inserted + (if ValidRow(row) && row.key !in mid then 1 else 0)
  {
  }

  /** One more row counts as inserted when it adds a new key. */
  lemma NextInserted(balances: Balances, front: seq<BatchRow>, last: BatchRow)
    requires CountRows(balances, front).inserted == |NewKeys(balances, front)|
    ensures CountRows(balances, front + [last]).inserted == |NewKeys(balances, front + [last])|
  {
    FoldKeys(balances, front);
    NewKeysSnoc(balances, front, last);
    var mid := Fold(balances, front);
    CountInserted(balances, mid, last, NewKeys(balances, front));
    CountsInserted(mid, last, CountRows(balances, front));
    FoldSnoc(balances, front, last);
  }

  /** The sum of all versions, an absent row counting zero. */
  ghost function TotalVersion(balances: Balances): nat {
    if balances == map[] then 0
    else
      var k :| k in balances;
      balances[k].version + TotalVersion(balances - {k})
  }

  lemma {:induction false} TotalVersionRemove(balances: Balances, key: BalanceKey)
    requires key in balances
    ensures TotalVersion(balances) == balances[key].version + TotalVersion(balances - {key})
    decreases |balances|
  {
    var k :| k in balances && TotalVersion(balances) == balances[k].version + TotalVersion(balances - {k});
    if k != key {
      TotalVersionRemove(balances - {k}, key);
      TotalVersionRemove(balances - {key}, k);
      assert balances - {k} - {key} == balances - {key} - {k};
    }
  }

  lemma TotalVersionUpdate(balances: Balances, key: BalanceKey, row: Balance)
    ensures TotalVersion(balances[key := row]) == TotalVersion(balances) - Version(balances, key) + row.version
  {
    var after := balances[key := row];
    TotalVersionRemove(after, key);
    assert after - {key} == balances - {key};
    if key in balances {
      TotalVersionRemove(balances, key);
    } else {
      assert balances - {key} == balances;
    }
  }

  /** Every reported write, and nothing else, bumps a version by one. */
  lemma {:induction false} VersionsCountWrites(balances: Balances, rows: seq<BatchRow>)
    ensures var c := CountRows(balances, rows);
            TotalVersion(Fold(balances, rows)) == TotalVersion(balances) + c.inserted + c.updated
  {
    if rows != [] {
      var front, last := rows[..|rows| - 1], rows[|rows| - 1];
      VersionsCountWrites(balances, front);
      var mid := Fold(balances, front);
      if IngestRow(mid, last) != mid {
        TotalVersionUpdate(mid, last.key, Balance(last.days.value, Version(mid, last.key) + 1));
      }
      CountedIffWritten(mid, last);
    }
  }

  lemma CountedIffWritten(balances: Balances, row: BatchRow)
    ensures IngestRow(balances, row) == balances <==>
              (!ValidRow(row) || (row.key in balances && balances[row.key].availableDays == row.days.value))
  {
    if ValidRow(row) && row.key in balances && balances[row.key].availableDays != row.days.value {
      assert IngestRow(balances, row)[row.key].availableDays != balances[row.key].availableDays;
    }
  }

  // ------------------------------------------------------------------ ingesting again

  /** Every valid row agrees with the balance of its key. */
  predicate Reflects(balances: Balances, rows: seq<BatchRow>) {
    forall i :: 0 <= i < |rows| && ValidRow(rows[i]) ==>
      rows[i].key in balances && balances[rows[i].key].availableDays == rows[i].days.value
  }

  /** No two valid rows of one key differ in their days. */
  predicate Consistent(rows: seq<BatchRow>) {
    forall i, j :: 0 <= i < |rows| && 0 <= j < |rows| && ValidRow(rows[i]) && ValidRow(rows[j]) ==>
      rows[i].key == rows[j].key ==> rows[i].days == rows[j].days
  }

  /** Ingestion writes nothing exactly when the balances reflect the rows already. */
  lemma {:induction false} SilentExactly(balances: Balances, rows: seq<BatchRow>)
    ensures var c := CountRows(balances, rows);
            c.inserted + c.updated == 0 <==> Reflects(balances, rows)
    ensures Reflects(balances, rows) ==> Fold(balances, rows) == balances
  {
    if rows != [] {
      var front, last := rows[..|rows| - 1], rows[|rows| - 1];
      SilentExactly(balances, front);
      assert forall i :: 0 <= i < |front| ==> front[i] == rows[i];
    }
  }

  lemma {:induction false} LastValidOrigin(rows: seq<BatchRow>, key: BalanceKey) returns (i: nat)
    requires LastValid(rows, key).Some?
    ensures i < |rows| && ValidRow(rows[i]) && rows[i].key == key && LastValid(rows, key) == Some(rows[i].days.value)
  {
    if LastValid(rows[1..], key).Some? {
      i := LastValidOrigin(rows[1..], key);
      i := i + 1;
    } else {
      i := 0;
    }
  }

  lemma {:induction false} ValidRowHasLast(rows: seq<BatchRow>, i: nat)
    requires i < |rows| && ValidRow(rows[i])
    ensures LastValid(rows, rows[i].key).Some?
  {
    if i > 0 {
      ValidRowHasLast(rows[1..], i - 1);
    }
  }

  /** Ingesting a batch a second time inserts nothing; it reports every valid row unchanged and
      bumps no version if and only if no two valid rows of a key contradict each other. */
  lemma SecondIngestion(balances: Balances, rows: seq<BatchRow>)
    ensures var after := Fold(balances, rows);
            var again := CountRows(after, rows);
            && again.inserted == 0
            && (again.unmodified == |rows| - |InvalidRows(rows)| <==> Consistent(rows))
            && (Fold(after, rows) == after <==> Consistent(rows))
  {
    var after := Fold(balances, rows);
    forall i | 0 <= i < |rows| && ValidRow(rows[i])
      ensures rows[i].key in after && Some(after[rows[i].key].availableDays) == LastValid(rows, rows[i].key)
    {
      ValidRowHasLast(rows, i);
      LastValidRowWins(balances, rows, rows[i].key);
    }
    assert NewKeys(after, rows) == {};
    InsertedCountsNewKeys(after, rows);
    CountersAddUp(after, rows);
    SilentExactly(after, rows);
    VersionsCountWrites(after, rows);
    if Consistent(rows) {
      forall i | 0 <= i < |rows| && ValidRow(rows[i]) ensures after[rows[i].key].availableDays == rows[i].days.value {
        var j := LastValidOrigin(rows, rows[i].key);
      }
      assert Reflects(after, rows);
    }
  }

  /** `rows[n..]`, empty when there are no such rows. */
  function From(rows: seq<BatchRow>, n: nat): seq<BatchRow> {
    if n <= |rows| then rows[n..] else []
  }

  /** `rows[a..b]`, empty when there are no such rows. */
  function Between(rows: seq<BatchRow>, a: nat, b: nat): seq<BatchRow> {
    if a <= b <= |rows| then rows[a..b] else []
  }
}
