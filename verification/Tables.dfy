/** The tables of the service as one value, and what each operation does to them.
    Requests and outbox events are never deleted: an id is the row's position. */
module Tables {
  import opened Results
  import opened Texts
  import opened Json
  import opened Domain

  // ------------------------------------------------------------------- tables

  datatype Balance = Balance(availableDays: real, version: nat)

  type Balances = map<BalanceKey, Balance>

  datatype Request = Request(key: BalanceKey, days: real, status: RequestStatus)

  datatype HcmError = TRANSIENT | FUNCTIONAL

  datatype EventStatus = QUEUED | RETRY_PENDING | PROCESSED | FAILED

  /** The payload of an outbound event: what HCM is asked to consume. */
  datatype Usage = Usage(key: BalanceKey, days: real)

  datatype OutboxEvent = OutboxEvent(
    requestId: nat,
    usage: Usage,
    status: EventStatus,
    attemptCount: nat,
    nextAttemptAt: Option<nat>,
    error: Option<HcmError>,
    createdAt: nat)

  datatype InboundRow = InboundRow(id: Text, externalEventId: Text, payloadHash: Text)

  datatype LedgerEntryType = RESERVATION | REVERSAL | HCM_REALTIME_ABSOLUTE | HCM_REALTIME_DELTA

  datatype LedgerEntry = LedgerEntry(
    balanceKey: Text,
    entryType: LedgerEntryType,
    days: real,
    requestId: Option<nat>)

  datatype Store = Store(
    balances: Balances,
    requests: seq<Request>,
    outbox: seq<OutboxEvent>,
    inbound: seq<InboundRow>,
    ledger: seq<LedgerEntry>)

  const EMPTY_STORE: Store := Store(map[], [], [], [], [])

  predicate Live(status: EventStatus) {
    status == QUEUED || status == RETRY_PENDING
  }

  function AvailableDays(balances: Balances, key: BalanceKey): real {
    if key in balances then balances[key].availableDays else 0.0
  }

  function Version(balances: Balances, key: BalanceKey): nat {
    if key in balances then balances[key].version else 0
  }

  // ------------------------------------------------------------------ balances

  /** The row after an upsert.  The table's CHECK refuses negative days. */
  function UpsertAbsolute(balances: Balances, key: BalanceKey, days: real): Result<Balances> {
    if days < 0.0 then Thrown(CHECK_VIOLATION)
    else Ok(balances[key := Balance(days, Version(balances, key) + 1)])
  }

  /** A missing row is created with zero days before the delta is added to it. */
  function WithRow(balances: Balances, key: BalanceKey): Balances {
    if key in balances then balances else balances[key := Balance(0.0, 1)]
  }

  /** What is persisted and what is returned: a refused delta leaves the created row behind. */
  function ApplyDelta(balances: Balances, key: BalanceKey, delta: real): (Balances, Result<Balance>) {
    var base := WithRow(balances, key);
    match UpsertAbsolute(base, key, base[key].availableDays + delta)
    case Thrown(code) => (base, Thrown(code))
    case Ok(after) => (after, Ok(after[key]))
  }

  function ConsumeWithVersion(balances: Balances, key: BalanceKey, days: real, expected: nat): Option<Balances> {
    if key in balances && balances[key].version == expected && HasBalance(balances[key].availableDays, days)
    then Some(balances[key := Balance(balances[key].availableDays - days, expected + 1)])
    else None
  }

  // ----------------------------------------------------------------- lifecycle

  function FindById(st: Store, id: nat): Result<Request> {
    if id < |st.requests| then Ok(st.requests[id]) else Thrown(REQUEST_NOT_FOUND)
  }

  function Create(st: Store, key: BalanceKey, days: JsNumber): (Store, Result<Request>) {
    if !PositiveDays(days) then (st, Thrown(INVALID_DAYS))
    else if key.employeeId == [] || key.locationId == [] then (st, Thrown(INVALID_DIMENSIONS))
    else
      var request := Request(key, days.value, PENDING);
      (st.(requests := st.requests + [request]), Ok(request))
  }

  /** `UPDATE ... WHERE id = ?`: without such a row nothing is updated. */
  function SetStatus(st: Store, id: nat, status: RequestStatus): Store {
    if id < |st.requests|
    then st.(requests := st.requests[id := st.requests[id].(status := status)])
    else st
  }

  /** Approval as one transaction: all four effects, or an error and nothing. */
  function Approve(st: Store, id: nat, now: nat): (Store, Result<Request>) {
    match FindById(st, id)
    case Thrown(code) => (st, Thrown(code))
    case Ok(request) =>
      var base := WithRow(st.balances, request.key);
      var row := base[request.key];
      if !CanTransition(request.status, APPROVED) then (st, Thrown(ILLEGAL_STATUS_TRANSITION))
      else if !HasBalance(row.availableDays, request.days) then (st, Thrown(INSUFFICIENT_BALANCE))
      else
        var approved := request.(status := APPROVED);
        (SetStatus(st, id, APPROVED).(
           balances := base[request.key := Balance(row.availableDays - request.days, row.version + 1)],
           ledger := st.ledger + [LedgerEntry(KeyText(request.key), RESERVATION, request.days, Some(id))],
           outbox := st.outbox +
             [OutboxEvent(id, Usage(request.key, request.days), QUEUED, 0, Some(now), None, now)]),
         Ok(approved))
  }

  /** `reject` and `cancel`. */
  function Close(st: Store, id: nat, status: RequestStatus): (Store, Result<Request>) {
    match FindById(st, id)
    case Thrown(code) => (st, Thrown(code))
    case Ok(request) =>
      if !CanTransition(request.status, status) then (st, Thrown(ILLEGAL_STATUS_TRANSITION))
      else (SetStatus(st, id, status), Ok(request.(status := status)))
  }

  // ------------------------------------------------------------------ realtime

  /** A delivery: the JSON object received, and the number its `days` member denotes. */
  datatype RealtimeEvent = RealtimeEvent(body: Json, days: real)

  const EXTERNAL_EVENT_ID: Text := Ascii("externalEventId")
  const EMPLOYEE_ID: Text := Ascii("employeeId")
  const LOCATION_ID: Text := Ascii("locationId")
  const UPDATE_TYPE: Text := Ascii("updateType")
  const ABSOLUTE: Text := Ascii("ABSOLUTE")

  /** The string member `key` of an object; empty when there is none. */
  function StringMember(members: seq<Member>, key: Text): Text {
    if members == [] then []
    else if members[0].key == key && members[0].value.JStr? then members[0].value.s
    else StringMember(members[1..], key)
  }

  function Field(event: RealtimeEvent, key: Text): Text {
    if event.body.JObj? then StringMember(event.body.members, key) else []
  }

  function EventKey(event: RealtimeEvent): BalanceKey {
    BalanceKey(Field(event, EMPLOYEE_ID), Field(event, LOCATION_ID))
  }

  predicate IsAbsolute(event: RealtimeEvent) {
    Field(event, UPDATE_TYPE) == ABSOLUTE
  }

  predicate ValidDimensions(event: RealtimeEvent) {
    Field(event, EXTERNAL_EVENT_ID) != [] && EventKey(event).employeeId != [] && EventKey(event).locationId != []
  }

  function InboundRowFor(externalEventId: Text, payloadHash: Text): InboundRow {
    InboundRow(externalEventId + [COLON] + payloadHash, externalEventId, payloadHash)
  }

  /** Two rows exclude each other by primary key or by the unique dedupe index. */
  predicate Clash(x: InboundRow, y: InboundRow) {
    x.id == y.id || (x.externalEventId == y.externalEventId && x.payloadHash == y.payloadHash)
  }

  /** `INSERT OR IGNORE` drops the row. */
  predicate Ignored(inbound: seq<InboundRow>, row: InboundRow) {
    exists i :: 0 <= i < |inbound| && Clash(inbound[i], row)
  }

  function EventRow(event: RealtimeEvent): InboundRow {
    InboundRowFor(Field(event, EXTERNAL_EVENT_ID), Serialize(event.body))
  }

  datatype Delivery = Delivery(deduped: bool, balance: Option<Balance>)

  function Lookup(balances: Balances, key: BalanceKey): Option<Balance> {
    if key in balances then Some(balances[key]) else None
  }

  /** One delivery.  The inbound row is written first and stays, whatever happens afterwards. */
  function Deliver(st: Store, event: RealtimeEvent): (Store, Result<Delivery>) {
    var key := EventKey(event);
    if !ValidDimensions(event) then (st, Thrown(INVALID_DIMENSIONS))
    else if Ignored(st.inbound, EventRow(event)) then (st, Ok(Delivery(true, Lookup(st.balances, key))))
    else
      var recorded := st.(inbound := st.inbound + [EventRow(event)]);
      if IsAbsolute(event) then
        match UpsertAbsolute(st.balances, key, event.days)
        case Thrown(code) => (recorded, Thrown(code))
        case Ok(after) =>
          (recorded.(balances := after,
                     ledger := st.ledger + [LedgerEntry(KeyText(key), HCM_REALTIME_ABSOLUTE, event.days, None)]),
           Ok(Delivery(false, Some(after[key]))))
      else
        match ApplyDelta(st.balances, key, event.days)
        case (after, Thrown(code)) => (recorded.(balances := after), Thrown(code))
        case (after, Ok(balance)) =>
          (recorded.(balances := after,
                     ledger := st.ledger + [LedgerEntry(KeyText(key), HCM_REALTIME_DELTA, event.days, None)]),
           Ok(Delivery(false, Some(balance))))
  }

  // ------------------------------------------------------------ batch, reconcile

  datatype BatchRow = BatchRow(key: BalanceKey, days: JsNumber)

  predicate ValidRow(row: BatchRow) {
    row.key.employeeId != [] && row.key.locationId != [] && row.days.Finite? && row.days.value >= 0.0
  }

  /** A batch row writes only when it is valid and changes the days. */
  function IngestRow(balances: Balances, row: BatchRow): Balances {
    if !ValidRow(row) || (row.key in balances && balances[row.key].availableDays == row.days.value) then balances
    else balances[row.key := Balance(row.days.value, Version(balances, row.key) + 1)]
  }

  /** What `getBalance` of the HCM client answers: `null`, `undefined` or a number. */
  datatype HcmReading = Unavailable | Unknown | Reading(days: real)

  /** Reconciliation of one key: `local` was read before the answer of HCM arrived. */
  function Reconcile(balances: Balances, key: BalanceKey, local: Option<Balance>, reading: HcmReading)
    : (Balances, Result<bool>)
  {
    if key.employeeId == [] || key.locationId == [] then (balances, Thrown(INVALID_DIMENSIONS))
    else match reading
      case Unavailable => (balances, Thrown(HCM_UNAVAILABLE))
      case Unknown => (balances, Thrown(INVALID_DIMENSIONS))
      case Reading(days) =>
        if local.Some? && local.value.availableDays == days then (balances, Ok(false))
        else match UpsertAbsolute(balances, key, days)
          case Thrown(code) => (balances, Thrown(code))
          case Ok(after) => (after, Ok(true))
  }

  // ----------------------------------------------------------------- settlement

  function MarkEventSynced(st: Store, id: nat): Store {
    if id < |st.outbox|
    then st.(outbox := st.outbox[id := st.outbox[id].(status := PROCESSED, nextAttemptAt := None)])
    else st
  }

  function MarkEventRetry(st: Store, id: nat, attempt: nat, at: nat, error: HcmError): Store {
    if id < |st.outbox|
    then st.(outbox := st.outbox[id :=
               st.outbox[id].(status := RETRY_PENDING, attemptCount := attempt,
                              nextAttemptAt := Some(at), error := Some(error))])
    else st
  }

  function MarkEventFailed(st: Store, id: nat, error: HcmError): Store {
    if id < |st.outbox|
    then st.(outbox := st.outbox[id := st.outbox[id].(status := FAILED, error := Some(error))])
    else st
  }

  /** Adds days to an existing row; without a row nothing is updated. */
  function Refund(balances: Balances, key: BalanceKey, days: real): Balances {
    if key in balances
    then balances[key := Balance(balances[key].availableDays + days, balances[key].version + 1)]
    else balances
  }

  /** `markRequestFailedAndReversed`. */
  function MarkRequestReversed(st: Store, requestId: nat): Store {
    if requestId >= |st.requests| then st
    else
      var request := st.requests[requestId];
      SetStatus(st, requestId, REVERSED).(balances := Refund(st.balances, request.key, request.days))
  }
}
