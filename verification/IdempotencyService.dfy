/** The idempotency table and the interceptor, in place. */
module IdempotencyServices {
  import opened Results
  import opened Texts
  import opened Json
  import opened Idempotency
  import Fingerprint
  import JsonReader

  class IdempotencyService {
    var records: Records

    constructor ()
      ensures records == map[]
    {
      records := map[];
    }

    method CleanupExpired(now: nat)
      modifies this
      ensures records == Cleanup(old(records), now)
    {
      records := map k | k in records && !(records[k].expiresAt <= now) :: records[k];
    }

    method Get(key: Text, now: nat) returns (record: Option<Record>)
      modifies this
      ensures (records, record) == Idempotency.Get(old(records), key, now)
    {
      CleanupExpired(now);
      if key !in records {
        return None;
      }
      return Some(records[key]);
    }

    /** Until its expiry, and no longer, the key answers with the stored record; no other key answers
        differently than before. */
    method Set(key: Text, fingerprint: Text, responseBody: Json, statusCode: int, now: nat, ttlMs: nat)
      modifies this
      ensures records == old(records)[key := Record(fingerprint, Serialize(responseBody), statusCode, now, now + ttlMs)]
      ensures forall t: nat ::
                Idempotency.Get(records, key, t).1 == (if t < now + ttlMs then Some(records[key]) else None)
      ensures forall k: Text, t: nat ::
                k != key ==> Idempotency.Get(records, k, t).1 == Idempotency.Get(old(records), k, t).1
    {
      records := records[key := Record(fingerprint, Serialize(responseBody), statusCode, now, now + ttlMs)];
    }
  }

  class IdempotencyInterceptor {
    const idempotencyService: IdempotencyService
    const ttlMs: nat

    constructor (idempotencyService: IdempotencyService, ttlMs: nat)
      ensures this.idempotencyService == idempotencyService && this.ttlMs == ttlMs
    {
      this.idempotencyService := idempotencyService;
      this.ttlMs := ttlMs;
    }

    /** The handler runs between the lookup and the insertion; its answer is `call.handler`. */
    method InterceptCall(call: Call) returns (reply: Reply)
      requires WellFormedCall(call)
      modifies idempotencyService
      ensures (idempotencyService.records, reply) == Intercept(old(idempotencyService.records), call, ttlMs)
      ensures !call.isPost || call.key == [] ==>
                reply == Handled(call.handler) && idempotencyService.records == old(idempotencyService.records)
      ensures reply.Handled? ==> reply.result == call.handler
    {
      if !call.isPost || call.key == [] {
        return Handled(call.handler);
      }
      PayloadWellFormed(call);
      var canonical := Fingerprint.Canonicalize(PayloadOf(call));
      var fingerprint := Serialize(canonical);
      var existing := idempotencyService.Get(call.key, call.startedAt);
      if existing.Some? {
        if existing.value.fingerprint != fingerprint {
          return KeyConflict;
        }
        return Replayed(JsonReader.Parse(existing.value.responseBody));
      }
      if call.handler.Ok? {
        idempotencyService.Set(call.key, fingerprint, call.handler.value, call.statusCode, call.finishedAt, ttlMs);
      }
      return Handled(call.handler);
    }
  }
}
