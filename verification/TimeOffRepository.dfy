/** Requests and outbound events. */
module TimeOffRepositories {
  import opened Results
  import opened Domain
  import opened Tables
  import opened Protocol
  import opened DatabaseService

  // ------------------------------------------------------- the due-list query

  /** Ids of due events, each once, oldest first. */
  predicate ByAge(outbox: seq<OutboxEvent>, now: nat, ids: seq<nat>) {
    && (forall i :: 0 <= i < |ids| ==> ids[i] < |outbox| && IsDue(outbox[ids[i]], now))
    && (forall i, j :: 0 <= i < j < |ids| ==>
          ids[i] != ids[j] && outbox[ids[i]].createdAt <= outbox[ids[j]].createdAt)
  }

  function InsertByAge(outbox: seq<OutboxEvent>, ids: seq<nat>, id: nat): seq<nat>
    requires id < |outbox| && forall i :: 0 <= i < |ids| ==> ids[i] < |outbox|
  {
    if ids == [] || outbox[id].createdAt < outbox[ids[0]].createdAt then [id] + ids
    else [ids[0]] + InsertByAge(outbox, ids[1..], id)
  }

  /** Putting an older due event in front. */
  lemma ByAgePrepend(outbox: seq<OutboxEvent>, now: nat, id: nat, tail: seq<nat>)
    requires id < |outbox| && IsDue(outbox[id], now) && ByAge(outbox, now, tail)
    requires forall x :: x in tail ==> x < |outbox| && x != id && outbox[id].createdAt <= outbox[x].createdAt
    ensures ByAge(outbox, now, [id] + tail)
  {
    forall j | 0 <= j < |tail| ensures tail[j] != id && outbox[id].createdAt <= outbox[tail[j]].createdAt {
      assert tail[j] in tail;
    }
  }

  lemma ByAgeTail(outbox: seq<OutboxEvent>, now: nat, ids: seq<nat>)
    requires ByAge(outbox, now, ids) && ids != []
    ensures ByAge(outbox, now, ids[1..])
    ensures forall x :: x in ids[1..] ==> x < |outbox| && x != ids[0] && outbox[ids[0]].createdAt <= outbox[x].createdAt
  {
  }

  lemma {:induction false} InsertByAgeSorts(outbox: seq<OutboxEvent>, now: nat, ids: seq<nat>, id: nat)
    requires ByAge(outbox, now, ids) && id < |outbox| && id !in ids && IsDue(outbox[id], now)
    ensures ByAge(outbox, now, InsertByAge(outbox, ids, id))
    ensures forall x :: x in InsertByAge(outbox, ids, id) <==> x == id || x in ids
  {
    if ids == [] {
      ByAgePrepend(outbox, now, id, ids);
    } else {
      ByAgeTail(outbox, now, ids);
      assert forall x :: x in ids <==> x == ids[0] || x in ids[1..];
      if outbox[id].createdAt < outbox[ids[0]].createdAt {
        ByAgePrepend(outbox, now, id, ids);
      } else {
        InsertByAgeSorts(outbox, now, ids[1..], id);
        ByAgePrepend(outbox, now, ids[0], InsertByAge(outbox, ids[1..], id));
      }
    }
  }

  /** The first `limit` of all due events, oldest first, answer the query. */
  lemma LimitByAge(outbox: seq<OutboxEvent>, now: nat, limit: int, sorted: seq<nat>)
    requires ByAge(outbox, now, sorted)
    requires forall e :: 0 <= e < |outbox| && IsDue(outbox[e], now) ==> e in sorted
    ensures IsDueList(outbox, now, limit, if limit < 0 || |sorted| <= limit then sorted else sorted[..limit])
  {
    if 0 <= limit < |sorted| {
      forall e | 0 <= e < |outbox| && IsDue(outbox[e], now) && e !in sorted[..limit]
        ensures forall i :: 0 <= i < limit ==> outbox[sorted[..limit][i]].createdAt <= outbox[e].createdAt
      {
        YoungerThanFirst(outbox, now, limit, sorted, e);
      }
    }
  }

  /** An event behind the first `limit` ones is no older than any of them. */
  lemma YoungerThanFirst(outbox: seq<OutboxEvent>, now: nat, limit: nat, sorted: seq<nat>, e: nat)
    requires ByAge(outbox, now, sorted) && limit < |sorted| && e in sorted && e !in sorted[..limit]
    ensures e < |outbox|
    ensures forall i :: 0 <= i < limit ==> outbox[sorted[i]].createdAt <= outbox[e].createdAt
  {
    assert sorted == sorted[..limit] + sorted[limit..];
    var k :| 0 <= k < |sorted[limit..]| && sorted[limit..][k] == e;
    assert sorted[limit + k] == e;
  }

  // ------------------------------------------------------------- the repository

  class TimeOffRequestsRepository {
    const db: Database

    constructor (db: Database)
      ensures this.db == db
    {
      this.db := db;
    }

    method Create(request: Request) returns (id: nat)
      modifies db`requests
      ensures id == |old(db.requests)| && db.requests == old(db.requests) + [request]
    {
      id := |db.requests|;
      db.requests := db.requests + [request];
    }

    method FindById(id: nat) returns (request: Option<Request>)
      ensures request == if id < |db.requests| then Some(db.requests[id]) else None
    {
      if id < |db.requests| {
        return Some(db.requests[id]);
      }
      return None;
    }

    /** Stores the status of a request. */
    method Save(id: nat, status: RequestStatus)
      modifies db`requests
      ensures db.Snapshot() == SetStatus(old(db.Snapshot()), id, status)
    {
      if id < |db.requests| {
        db.requests := db.requests[id := db.requests[id].(status := status)];
      }
    }

    method CreateSyncEvent(requestId: nat, usage: Usage, now: nat)
      modifies db`outbox
      ensures db.outbox == old(db.outbox) + [OutboxEvent(requestId, usage, QUEUED, 0, Some(now), None, now)]
    {
      db.outbox := db.outbox + [OutboxEvent(requestId, usage, QUEUED, 0, Some(now), None, now)];
    }

    /** `ORDER BY created_at LIMIT ?`, where a negative limit is no limit. */
    method ListDueOutboundSyncEvents(now: nat, limit: int) returns (ids: seq<nat>)
      ensures IsDueList(db.outbox, now, limit, ids)
    {
      var sorted: seq<nat> := [];
      for i := 0 to |db.outbox|
        invariant ByAge(db.outbox, now, sorted)
        invariant forall e :: e in sorted <==> 0 <= e < i && IsDue(db.outbox[e], now)
      {
        if IsDue(db.outbox[i], now) {
          InsertByAgeSorts(db.outbox, now, sorted, i);
          sorted := InsertByAge(db.outbox, sorted, i);
        }
      }
      LimitByAge(db.outbox, now, limit, sorted);
      if limit < 0 || |sorted| <= limit {
        return sorted;
      }
      return sorted[..limit];
    }

    method MarkSyncEventRetry(id: nat, attemptCount: nat, nextAttemptAt: nat, error: HcmError)
      modifies db`outbox
      ensures db.Snapshot() == MarkEventRetry(old(db.Snapshot()), id, attemptCount, nextAttemptAt, error)
    {
      if id < |db.outbox| {
        db.outbox := db.outbox[id := db.outbox[id].(
          status := RETRY_PENDING, attemptCount := attemptCount,
          nextAttemptAt := Some(nextAttemptAt), error := Some(error))];
      }
    }

    method MarkSyncEventSynced(id: nat)
      modifies db`outbox
      ensures db.Snapshot() == MarkEventSynced(old(db.Snapshot()), id)
    {
      if id < |db.outbox| {
        db.outbox := db.outbox[id := db.outbox[id].(status := PROCESSED, nextAttemptAt := None)];
      }
    }

    method MarkSyncEventFailed(id: nat, error: HcmError)
      modifies db`outbox
      ensures db.Snapshot() == MarkEventFailed(old(db.Snapshot()), id, error)
    {
      if id < |db.outbox| {
        db.outbox := db.outbox[id := db.outbox[id].(status := FAILED, error := Some(error))];
      }
    }

    method MarkRequestSynced(requestId: nat)
      modifies db`requests
      ensures db.Snapshot() == SetStatus(old(db.Snapshot()), requestId, SYNCED)
    {
      Save(requestId, SYNCED);
    }

    method MarkRequestFailedAndReversed(requestId: nat)
      modifies db`requests, db`balances
      ensures db.Snapshot() == MarkRequestReversed(old(db.Snapshot()), requestId)
    {
      var found := FindById(requestId);
      if found.None? {
        return;
      }
      var request := found.value;
      Save(requestId, REVERSED);
      if request.key in db.balances {
        var row := db.balances[request.key];
        db.balances := db.balances[request.key := Balance(row.availableDays + request.days, row.version + 1)];
      }
    }
  }
}
