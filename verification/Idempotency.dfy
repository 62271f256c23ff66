/** Idempotency keys: a table whose records expire, and what replaying a keyed POST does. */
module Idempotency {
  import opened Results
  import opened Texts
  import opened Json
  import opened PropertyOrder
  import opened Fingerprint
  import JsonReader

  // ------------------------------------------------------------------- the table

  /** `responseBody` is JSON text. */
  datatype Record = Record(fingerprint: Text, responseBody: Text, statusCode: int, createdAt: nat, expiresAt: nat)

  type Records = map<Text, Record>

  function Cleanup(records: Records, now: nat): Records {
    map k | k in records && records[k].expiresAt > now :: records[k]
  }

  /** `get` deletes expired records before it looks. */
  function Get(records: Records, key: Text, now: nat): (Records, Option<Record>) {
    var left := Cleanup(records, now);
    (left, if key in left then Some(left[key]) else None)
  }

  function Set(records: Records, key: Text, record: Record): Records {
    records[key := record]
  }

  // -------------------------------------------------- the table against its history

  datatype Op =
    | GetOp(key: Text, now: nat)
    | SetOp(key: Text, record: Record, now: nat)

  function ApplyOps(ops: seq<Op>): Records {
    if ops == [] then map[]
    else
      var before := ApplyOps(ops[..|ops| - 1]);
      match ops[|ops| - 1]
      case GetOp(key, now) => Get(before, key, now).0
      case SetOp(key, record, _) => Set(before, key, record)
  }

  /** The last record set under a key. */
  function LastSet(ops: seq<Op>, key: Text): Option<Record> {
    if ops == [] then None
    else
      var last := ops[|ops| - 1];
      if last.SetOp? && last.key == key then Some(last.record) else LastSet(ops[..|ops| - 1], key)
  }

  predicate ClockRuns(ops: seq<Op>, now: nat) {
    && (forall i, j :: 0 <= i < j < |ops| ==> ops[i].now <= ops[j].now)
    && (forall i :: 0 <= i < |ops| ==> ops[i].now <= now)
  }

  /** Under a clock that does not go back, `get` answers the last record set under the key while it
      has not expired, and nothing otherwise: deleting expired records early is invisible. */
  lemma {:induction false} GetAgreesWithHistory(ops: seq<Op>, key: Text, now: nat)
    requires ClockRuns(ops, now)
    ensures Get(ApplyOps(ops), key, now).1 ==
              match LastSet(ops, key) {
                case None => None
                case Some(record) => if record.expiresAt > now then Some(record) else None }
  {
    if ops != [] {
      var front := ops[..|ops| - 1];
      assert forall i :: 0 <= i < |front| ==> front[i] == ops[i];
      GetAgreesWithHistory(front, key, now);
    }
  }

  // -------------------------------------------------------------- the interceptor

  /** A request, and what its handler would answer if it ran. */
  datatype Call = Call(
    isPost: bool,
    key: Text,
    url: Text,
    body: Option<Json>,
    startedAt: nat,
    finishedAt: nat,
    handler: Result<Json>,
    statusCode: int)

  datatype Reply = Handled(result: Result<Json>) | Replayed(body: Option<Json>) | KeyConflict

  const URL: Text := Ascii("url")
  const BODY: Text := Ascii("body")

  /** `{ url, body }`; an undefined body is not serialized. */
  function PayloadOf(call: Call): Json {
    JObj([Member(URL, JStr(call.url))] + (if call.body.Some? then [Member(BODY, call.body.value)] else []))
  }

  predicate Keyed(call: Call) {
    call.isPost && call.key != []
  }

  function NewRecord(call: Call, data: Json, ttlMs: nat): Record {
    Record(Fingerprint.Fingerprint(PayloadOf(call)), Serialize(data), call.statusCode, call.finishedAt,
           call.finishedAt + ttlMs)
  }

  function Intercept(records: Records, call: Call, ttlMs: nat): (Records, Reply) {
    if !Keyed(call) then (records, Handled(call.handler))
    else
      match Get(records, call.key, call.startedAt)
      case (left, Some(record)) =>
        if record.fingerprint != Fingerprint.Fingerprint(PayloadOf(call)) then (left, KeyConflict)
        else (left, Replayed(JsonReader.Parse(record.responseBody)))
      case (left, None) =>
        match call.handler
        case Ok(data) => (Set(left, call.key, NewRecord(call, data, ttlMs)), Handled(call.handler))
        case Thrown(_) => (left, Handled(call.handler))
  }

  function Serve(records: Records, calls: seq<Call>, ttlMs: nat): Records {
    if calls == [] then records
    else Intercept(Serve(records, calls[..|calls| - 1], ttlMs), calls[|calls| - 1], ttlMs).0
  }

  /** The reply to call `i` of a history that starts with an empty table. */
  function ReplyTo(calls: seq<Call>, i: nat, ttlMs: nat): Reply
    requires i < |calls|
  {
    Intercept(Serve(map[], calls[..i], ttlMs), calls[i], ttlMs).1
  }

  /** One request after the other. */
  predicate Serial(calls: seq<Call>) {
    && (forall i :: 0 <= i < |calls| ==> calls[i].startedAt <= calls[i].finishedAt)
    && (forall i, j :: 0 <= i < j < |calls| ==> calls[i].finishedAt <= calls[j].startedAt)
  }

  predicate WellFormedCall(call: Call) {
    && (call.body.Some? ==> WellFormed(call.body.value))
    && (call.handler.Ok? ==> WellFormed(call.handler.value))
  }

  /** Call `i` ran its handler to success under a key. */
  predicate Succeeded(calls: seq<Call>, i: nat, ttlMs: nat)
    requires i < |calls|
  {
    Keyed(calls[i]) && ReplyTo(calls, i, ttlMs).Handled? && calls[i].handler.Ok?
  }

  /** Call `i` succeeded under the key of call `j`, which starts before that record expires. */
  predicate InWindow(calls: seq<Call>, i: nat, j: nat, ttlMs: nat)
    requires i < j < |calls|
  {
    && Succeeded(calls, i, ttlMs)
    && calls[i].key == calls[j].key
    && calls[j].startedAt < calls[i].finishedAt + ttlMs
  }

  lemma ServeNext(calls: seq<Call>, i: nat, ttlMs: nat)
    requires i < |calls|
    ensures Serve(map[], calls[..i + 1], ttlMs) == Intercept(Serve(map[], calls[..i], ttlMs), calls[i], ttlMs).0
  {
    assert calls[..i + 1][..i] == calls[..i];
  }

  /** A call that starts before a record expires leaves it alone. */
  lemma InterceptKeeps(records: Records, call: Call, key: Text, ttlMs: nat)
    requires key in records && call.startedAt < records[key].expiresAt
    ensures var after := Intercept(records, call, ttlMs).0;
            key in after && after[key] == records[key]
  {
  }

  /** A success stores its record. */
  lemma RecordWritten(calls: seq<Call>, i: nat, ttlMs: nat)
    requires i < |calls| && Succeeded(calls, i, ttlMs)
    ensures var records := Serve(map[], calls[..i + 1], ttlMs);
            calls[i].key in records && records[calls[i].key] == NewRecord(calls[i], calls[i].handler.value, ttlMs)
  {
    ServeNext(calls, i, ttlMs);
  }

  /** The record of a success stays for every call that starts before it expires. */
  lemma {:induction false} RecordStays(calls: seq<Call>, i: nat, k: nat, ttlMs: nat)
    requires Serial(calls) && i < k < |calls| && Succeeded(calls, i, ttlMs)
    requires calls[k].startedAt < calls[i].finishedAt + ttlMs
    ensures var records := Serve(map[], calls[..k], ttlMs);
            calls[i].key in records && records[calls[i].key] == NewRecord(calls[i], calls[i].handler.value, ttlMs)
    decreases k
  {
    if i == k - 1 {
      RecordWritten(calls, i, ttlMs);
    } else {
      ServeNext(calls, k - 1, ttlMs);
      assert calls[k - 1].startedAt <= calls[k - 1].finishedAt <= calls[k].startedAt;
      RecordStays(calls, i, k - 1, ttlMs);
      InterceptKeeps(Serve(map[], calls[..k - 1], ttlMs), calls[k - 1], calls[i].key, ttlMs);
    }
  }

  /** A call adds at most the record of its own success. */
  lemma InterceptAdds(records: Records, call: Call, key: Text, ttlMs: nat)
    requires key in Intercept(records, call, ttlMs).0
    ensures var after := Intercept(records, call, ttlMs).0;
            if Keyed(call) && call.key == key && Intercept(records, call, ttlMs).1.Handled? && call.handler.Ok?
            then after[key] == NewRecord(call, call.handler.value, ttlMs)
            else key in records && after[key] == records[key]
  {
  }

  /** Every record stems from a success. */
  lemma {:induction false} RecordOrigin(calls: seq<Call>, n: nat, key: Text, ttlMs: nat) returns (i: nat)
    requires n <= |calls| && key in Serve(map[], calls[..n], ttlMs)
    ensures i < n && Succeeded(calls, i, ttlMs) && calls[i].key == key
    ensures Serve(map[], calls[..n], ttlMs)[key] == NewRecord(calls[i], calls[i].handler.value, ttlMs)
    decreases n
  {
    assert calls[..0] == [];
    ServeNext(calls, n - 1, ttlMs);
    InterceptAdds(Serve(map[], calls[..n - 1], ttlMs), calls[n - 1], key, ttlMs);
    if calls[n - 1].key == key && Succeeded(calls, n - 1, ttlMs) {
      i := n - 1;
    } else {
      i := RecordOrigin(calls, n - 1, key, ttlMs);
    }
  }

  predicate AnyInWindow(calls: seq<Call>, j: nat, ttlMs: nat)
    requires j < |calls|
  {
    exists i: nat :: i < j && InWindow(calls, i, j, ttlMs)
  }

  /** Any other request than a POST, and a POST without a key, is handed to its handler and leaves the
      table alone, whatever that holds. */
  lemma WithoutKeyNothingHappens(records: Records, call: Call, ttlMs: nat)
    requires !call.isPost || call.key == []
    ensures Intercept(records, call, ttlMs) == (records, Handled(call.handler))
  {
    assert !Keyed(call);
  }

  lemma PayloadMembers(call: Call)
    ensures var url := Member(Ascii("url"), JStr(call.url));
            PayloadOf(call) ==
              JObj(if call.body.Some? then [url, Member(Ascii("body"), call.body.value)] else [url])
  {
    var url := [Member(URL, JStr(call.url))];
    assert url + [] == url;
    if call.body.Some? {
      var body := Member(BODY, call.body.value);
      assert url + [body] == [url[0], body];
    }
  }

  /** What a keyed POST leaves behind.  If it ran its handler: on success the fingerprint of its
      payload, the text of the body, the status code and the expiry, counted from the end of the
      handler, and on failure no record.  Otherwise its record is as it was.  Other records vanish
      exactly when they have expired. */
  lemma KeyedCallLeaves(records: Records, call: Call, ttlMs: nat)
    requires call.isPost && call.key != []
    ensures var (after, reply) := Intercept(records, call, ttlMs);
            var url := Member(Ascii("url"), JStr(call.url));
            var payload := JObj(if call.body.Some? then [url, Member(Ascii("body"), call.body.value)] else [url]);
            && (reply.Handled? && call.handler.Ok? ==>
                  call.key in after && after[call.key] ==
                    Record(Fingerprint.Fingerprint(payload), Serialize(call.handler.value), call.statusCode,
                           call.finishedAt, call.finishedAt + ttlMs))
            && (reply.Handled? && call.handler.Thrown? ==> call.key !in after)
            && (!reply.Handled? ==> call.key in records && call.key in after && after[call.key] == records[call.key])
            && forall k :: k != call.key ==>
                 && (k in after <==> k in records && call.startedAt < records[k].expiresAt)
                 && (k in after ==> after[k] == records[k])
  {
    assert Keyed(call);
    PayloadMembers(call);
  }

  /** A keyed POST runs its handler if and only if no call under its key has succeeded within the
      last TTL, and then answers what the handler answers. */
  lemma HandlerRunsExactly(calls: seq<Call>, j: nat, ttlMs: nat)
    requires Serial(calls) && j < |calls| && calls[j].isPost && calls[j].key != []
    ensures ReplyTo(calls, j, ttlMs).Handled? <==> !AnyInWindow(calls, j, ttlMs)
    ensures !AnyInWindow(calls, j, ttlMs) ==> ReplyTo(calls, j, ttlMs) == Handled(calls[j].handler)
  {
    var records := Serve(map[], calls[..j], ttlMs);
    if AnyInWindow(calls, j, ttlMs) {
      var i: nat :| i < j && InWindow(calls, i, j, ttlMs);
      RecordStays(calls, i, j, ttlMs);
    }
    if calls[j].key in Cleanup(records, calls[j].startedAt) {
      var i := RecordOrigin(calls, j, calls[j].key, ttlMs);
      assert InWindow(calls, i, j, ttlMs);
    }
  }

  lemma PayloadWellFormed(call: Call)
    requires WellFormedCall(call)
    ensures WellFormed(PayloadOf(call))
  {
    assert URL[0] == 117 && BODY[0] == 98;
    var members := PayloadOf(call).members;
    assert DistinctKeys(members);
  }

  /** Within the window the first success decides: the same payload up to key order replays its
      body, any other payload conflicts, and neither runs the handler. */
  lemma WindowReplays(calls: seq<Call>, i: nat, j: nat, ttlMs: nat)
    requires Serial(calls) && i < j < |calls| && InWindow(calls, i, j, ttlMs) && calls[j].isPost
    requires WellFormedCall(calls[i]) && WellFormedCall(calls[j])
    ensures ReplyTo(calls, j, ttlMs) ==
              if Same(PayloadOf(calls[i]), PayloadOf(calls[j]), {PROTO})
              then Replayed(Some(calls[i].handler.value)) else KeyConflict
  {
    RecordStays(calls, i, j, ttlMs);
    PayloadWellFormed(calls[i]);
    PayloadWellFormed(calls[j]);
    FingerprintDecidesSame(PayloadOf(calls[i]), PayloadOf(calls[j]));
    JsonReader.RoundTrip(calls[i].handler.value);
  }

  /** Payloads agree exactly when the urls are equal and the bodies agree up to key order. */
  lemma SamePayload(x: Call, y: Call)
    requires WellFormedCall(x) && WellFormedCall(y)
    ensures Same(PayloadOf(x), PayloadOf(y), {PROTO}) <==>
              (x.url == y.url &&
               (x.body.Some? <==> y.body.Some?) &&
               (x.body.Some? && y.body.Some? ==> Same(x.body.value, y.body.value, {PROTO})))
  {
    PayloadWellFormed(x);
    PayloadWellFormed(y);
    var ms, ns := PayloadOf(x).members, PayloadOf(y).members;
    assert URL[0] == 117 && BODY[0] == 98 && PROTO[0] == 95;
    assert ms[0].key == URL && ns[0].key == URL;
    if Same(PayloadOf(x), PayloadOf(y), {PROTO}) {
      var j := SamePartner(ms, ns, {PROTO}, 0);
      if x.body.Some? {
        var k := SamePartner(ms, ns, {PROTO}, 1);
      }
      if y.body.Some? {
        var k := SameOrigin(ms, ns, {PROTO}, 1);
      }
    }
    if x.url == y.url && (x.body.Some? <==> y.body.Some?) &&
       (x.body.Some? && y.body.Some? ==> Same(x.body.value, y.body.value, {PROTO}))
    {
      assert Same(JStr(x.url), JStr(y.url), {PROTO});
      forall i | 0 <= i < |ms| ensures HasPartner(ms[i], ns, {PROTO}) && HasKey(ms, ns[i].key) {
        assert ns[i].key == ms[i].key;
        assert Same(ms[i].value, ns[i].value, {PROTO});
      }
    }
  }
}
