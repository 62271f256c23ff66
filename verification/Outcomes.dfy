/** What creation, delivery and reconciliation answer and write, in terms of the fields of their
    input. */
module Outcomes {
  import opened Results
  import opened Texts
  import opened Json
  import opened Domain
  import opened Tables
  import opened Protocol

  // ------------------------------------------------------------------- creation

  /** A request is created exactly for positive finite days and non-empty ids, pending and with the
      key and days asked for; the days are checked first. */
  lemma CreationOutcome(st: Store, key: BalanceKey, days: JsNumber)
    ensures var (after, r) := Tables.Create(st, key, days);
            var validDays, validIds := days.Finite? && days.value > 0.0, key.employeeId != [] && key.locationId != [];
            && (r.Ok? <==> validDays && validIds)
            && (r.Ok? ==> r.value == Request(key, days.value, PENDING) && after.requests == st.requests + [r.value])
            && (!validDays ==> r == Thrown(INVALID_DAYS))
            && (validDays && !validIds ==> r == Thrown(INVALID_DIMENSIONS))
            && (r.Thrown? ==> after.requests == st.requests)
            && after.balances == st.balances && after.outbox == st.outbox
            && after.ledger == st.ledger && after.inbound == st.inbound
  {
    match days
    case Finite(_) =>
    case NotFinite =>
  }

  // ------------------------------------------------------------------- delivery

  /** The object has a string member of this name. */
  predicate Says(members: seq<Member>, name: Text, s: Text) {
    Member(name, JStr(s)) in members
  }

  lemma {:induction false} StringMemberExactly(members: seq<Member>, name: Text, s: Text)
    requires DistinctKeys(members)
    ensures Says(members, name, s) ==> StringMember(members, name) == s
    ensures s != [] && StringMember(members, name) == s ==> Says(members, name, s)
  {
    if members != [] {
      StringMemberExactly(members[1..], name, s);
      assert forall m :: m in members <==> m == members[0] || m in members[1..];
      if Says(members[1..], name, s) {
        var i :| 0 <= i < |members[1..]| && members[1..][i] == Member(name, JStr(s));
        assert members[i + 1].key == name != members[0].key;
      }
    }
  }

  /** None of the records stored so far is of this object. */
  predicate Undelivered(inbound: seq<InboundRow>, externalEventId: Text, payload: Text) {
    forall i :: 0 <= i < |inbound| ==>
      && inbound[i].id != externalEventId + Ascii(":") + payload
      && !(inbound[i].externalEventId == externalEventId && inbound[i].payloadHash == payload)
  }

  lemma Punctuation()
    ensures Ascii(":") == [COLON] && Ascii("::") == [COLON, COLON]
  {
  }

  /** An object delivered for the first time sets the balance of its employee and location if its
      update type is ABSOLUTE and else adds to it, under the ledger key of these two, unless the
      days would become negative.  No other balance changes.  The row created for a first addition
      counts as a version of its own. */
  lemma DeliveryOfObject(st: Store, event: RealtimeEvent, members: seq<Member>, id: Text, e: Text, l: Text)
    requires event.body == JObj(members) && DistinctKeys(members)
    requires Says(members, Ascii("externalEventId"), id) && id != []
    requires Says(members, Ascii("employeeId"), e) && e != []
    requires Says(members, Ascii("locationId"), l) && l != []
    requires Undelivered(st.inbound, id, Serialize(event.body))
    ensures var (after, r) := Deliver(st, event);
            var key, absolute := BalanceKey(e, l), Says(members, Ascii("updateType"), Ascii("ABSOLUTE"));
            var before := AvailableDays(st.balances, key);
            var target := if absolute then event.days else before + event.days;
            var entryType := if absolute then HCM_REALTIME_ABSOLUTE else HCM_REALTIME_DELTA;
            && (target >= 0.0 ==>
                  && AvailableDays(after.balances, key) == target
                  && after.ledger == st.ledger + [LedgerEntry(e + Ascii("::") + l, entryType, event.days, None)]
                  && r == Ok(Delivery(false, Lookup(after.balances, key)))
                  && Version(after.balances, key) ==
                       Version(st.balances, key) + (if key in st.balances || absolute then 1 else 2))
            && (target < 0.0 ==>
                  && AvailableDays(after.balances, key) == before && after.ledger == st.ledger
                  && r == Thrown(CHECK_VIOLATION))
            && (forall k :: k != key ==> Lookup(after.balances, k) == Lookup(st.balances, k))
            && after.inbound == st.inbound +
                 [InboundRow(id + Ascii(":") + Serialize(event.body), id, Serialize(event.body))]
            && after.requests == st.requests && after.outbox == st.outbox
  {
    FieldsOfObject(event, members, id, e, l);
    Punctuation();
    UndeliveredIsNotIgnored(st.inbound, id, Serialize(event.body));
  }

  lemma FieldsOfObject(event: RealtimeEvent, members: seq<Member>, id: Text, e: Text, l: Text)
    requires event.body == JObj(members) && DistinctKeys(members)
    requires Says(members, Ascii("externalEventId"), id) && id != []
    requires Says(members, Ascii("employeeId"), e) && e != []
    requires Says(members, Ascii("locationId"), l) && l != []
    ensures ValidDimensions(event) && EventKey(event) == BalanceKey(e, l)
    ensures EventRow(event) == InboundRowFor(id, Serialize(event.body))
    ensures IsAbsolute(event) <==> Says(members, Ascii("updateType"), Ascii("ABSOLUTE"))
  {
    StringMemberExactly(members, Ascii("externalEventId"), id);
    StringMemberExactly(members, Ascii("employeeId"), e);
    StringMemberExactly(members, Ascii("locationId"), l);
    StringMemberExactly(members, Ascii("updateType"), Ascii("ABSOLUTE"));
    assert |Ascii("ABSOLUTE")| == 8;
  }

  lemma UndeliveredIsNotIgnored(inbound: seq<InboundRow>, id: Text, payload: Text)
    requires Undelivered(inbound, id, payload)
    ensures !Ignored(inbound, InboundRowFor(id, payload))
  {
    Punctuation();
  }

  predicate SaysSome(members: seq<Member>, name: Text) {
    exists i :: 0 <= i < |members| && members[i].key == name && members[i].value.JStr? && members[i].value.s != []
  }

  lemma SomeMember(members: seq<Member>, name: Text)
    requires DistinctKeys(members)
    ensures SaysSome(members, name) <==> StringMember(members, name) != []
  {
    if SaysSome(members, name) {
      var i :| 0 <= i < |members| && members[i].key == name && members[i].value.JStr? && members[i].value.s != [];
      assert members[i] == Member(name, JStr(members[i].value.s));
      StringMemberExactly(members, name, members[i].value.s);
    }
    if StringMember(members, name) != [] {
      StringMemberExactly(members, name, StringMember(members, name));
      var i :| 0 <= i < |members| && members[i] == Member(name, JStr(StringMember(members, name)));
    }
  }

  /** A delivery is invalid exactly if its event id, employee or location is missing or empty, and
      then nothing at all is stored. */
  lemma InvalidDeliveryExactly(st: Store, event: RealtimeEvent, members: seq<Member>)
    requires event.body == JObj(members) && DistinctKeys(members)
    ensures var (after, r) := Deliver(st, event);
            && (r == Thrown(INVALID_DIMENSIONS) <==>
                  !(SaysSome(members, Ascii("externalEventId")) && SaysSome(members, Ascii("employeeId"))
                    && SaysSome(members, Ascii("locationId"))))
            && (r == Thrown(INVALID_DIMENSIONS) ==> after == st)
  {
    SomeMember(members, Ascii("externalEventId"));
    SomeMember(members, Ascii("employeeId"));
    SomeMember(members, Ascii("locationId"));
  }

  // -------------------------------------------------------------------- reading

  /** Reading a balance, like approving and adding to it, creates a missing row with zero days and the
      first version, and never touches an existing one. */
  lemma ReadingOutcome(s: System, key: BalanceKey)
    ensures var after := Apply(s, ReadBalance(key));
            && Lookup(after.store.balances, key) ==
                 (if key in s.store.balances then Lookup(s.store.balances, key) else Some(Balance(0.0, 1)))
            && (forall k :: k != key ==> Lookup(after.store.balances, k) == Lookup(s.store.balances, k))
            && after == s.(store := s.store.(balances := after.store.balances))
  {
  }

  // ------------------------------------------------------------- reconciliation

  /** Reconciliation fails without writing when an id is empty, HCM is unavailable or does not know
      the key; otherwise it writes HCM's days, under a new version, exactly if they differ from the
      row read before or there was none. */
  lemma ReconcileOutcome(balances: Balances, key: BalanceKey, local: Option<Balance>, hcm: map<Text, real>,
                         unavailable: bool)
    ensures var (after, r) := Reconcile(balances, key, local, if unavailable then Unavailable else ReadHcm(hcm, key));
            var text := key.employeeId + Ascii("::") + key.locationId;
            if key.employeeId == [] || key.locationId == [] then r == Thrown(INVALID_DIMENSIONS) && after == balances
            else if unavailable then r == Thrown(HCM_UNAVAILABLE) && after == balances
            else if text !in hcm then r == Thrown(INVALID_DIMENSIONS) && after == balances
            else if local.Some? && local.value.availableDays == hcm[text] then r == Ok(false) && after == balances
            else if hcm[text] < 0.0 then r == Thrown(CHECK_VIOLATION) && after == balances
            else
              && r == Ok(true)
              && after == balances[key := Balance(hcm[text], if key in balances then balances[key].version + 1 else 1)]
  {
    Punctuation();
  }
}
