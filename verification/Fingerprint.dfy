/** The canonical fingerprint of a request payload: equal exactly for payloads that differ in
    nothing but key order (and in members named `__proto__`, which canonicalization loses). */
module Fingerprint {
  import opened Texts
  import opened Json
  import opened PropertyOrder
  import JsonReader

  // -------------------------------------------------------------- specification

  function Canonical(v: Json): Json
    decreases v, 1
  {
    match v
    case JArr(items) => JArr(CanonicalItems(items))
    case JObj(members) => JObj(Assemble(SortByKey(CanonicalValues(members))))
    case _ => v
  }

  function CanonicalItems(items: seq<Json>): (r: seq<Json>)
    ensures |r| == |items|
    ensures forall i :: 0 <= i < |items| ==> r[i] == Canonical(items[i])
    decreases items, 0
  {
    if items == [] then [] else [Canonical(items[0])] + CanonicalItems(items[1..])
  }

  function CanonicalValues(members: seq<Member>): (r: seq<Member>)
    ensures |r| == |members|
    ensures forall i :: 0 <= i < |members| ==> r[i] == Member(members[i].key, Canonical(members[i].value))
    decreases members, 0
  {
    if members == [] then []
    else [Member(members[0].key, Canonical(members[0].value))] + CanonicalValues(members[1..])
  }

  function Fingerprint(v: Json): Text {
    Serialize(Canonical(v))
  }

  /** Equal up to the order of keys at every depth, disregarding members named in `ignored`. */
  predicate Same(v: Json, w: Json, ignored: set<Text>)
    decreases v
  {
    match (v, w)
    case (JArr(xs), JArr(ys)) => |xs| == |ys| && forall i :: 0 <= i < |xs| ==> Same(xs[i], ys[i], ignored)
    case (JObj(ms), JObj(ns)) =>
      && (forall i :: 0 <= i < |ms| && ms[i].key !in ignored ==> HasPartner(ms[i], ns, ignored))
      && (forall j :: 0 <= j < |ns| && ns[j].key !in ignored ==> HasKey(ms, ns[j].key))
    case _ => v == w
  }

  /** A member of `ns` has the key of `m` and the same value. */
  predicate HasPartner(m: Member, ns: seq<Member>, ignored: set<Text>)
    decreases m
  {
    exists j :: 0 <= j < |ns| && ns[j].key == m.key && Same(m.value, ns[j].value, ignored)
  }

  predicate HasKey(ms: seq<Member>, key: Text) {
    exists i :: 0 <= i < |ms| && ms[i].key == key
  }

  /** No member is named `__proto__`, at any depth. */
  predicate NoProto(v: Json)
    decreases v
  {
    match v
    case JArr(items) => forall i :: 0 <= i < |items| ==> NoProto(items[i])
    case JObj(members) => forall i :: 0 <= i < |members| ==> members[i].key != PROTO && NoProto(members[i].value)
    case _ => true
  }

  // --------------------------------------------------- canonical objects

  /** What a canonical object contains, and in which order. */
  lemma CanonicalMembers(members: seq<Member>)
    requires DistinctKeys(members)
    ensures KeySorted(Canonical(JObj(members)).members)
    ensures forall x :: x in Canonical(JObj(members)).members <==>
              x in CanonicalValues(members) && x.key != PROTO
  {
    SortByKeySorts(CanonicalValues(members));
    AssembleSorts(SortByKey(CanonicalValues(members)));
  }

  lemma CanonicalMember(members: seq<Member>, i: nat)
    requires DistinctKeys(members) && i < |members| && members[i].key != PROTO
    ensures Member(members[i].key, Canonical(members[i].value)) in Canonical(JObj(members)).members
  {
    CanonicalMembers(members);
    assert CanonicalValues(members)[i] in CanonicalValues(members);
  }

  /** Where a member of a canonical object comes from. */
  lemma CanonicalOrigin(members: seq<Member>, x: Member) returns (i: nat)
    requires DistinctKeys(members)
    requires x in Canonical(JObj(members)).members
    ensures i < |members| && x.key == members[i].key != PROTO && x.value == Canonical(members[i].value)
  {
    CanonicalMembers(members);
    i :| i < |members| && CanonicalValues(members)[i] == x;
  }

  lemma {:induction false} CanonicalWellFormed(v: Json)
    requires WellFormed(v)
    ensures WellFormed(Canonical(v))
    decreases v
  {
    match v
    case JArr(items) =>
      forall i | 0 <= i < |items| ensures WellFormed(Canonical(items[i])) {
        CanonicalWellFormed(items[i]);
      }
    case JObj(members) =>
      var out := Canonical(v).members;
      CanonicalMembers(members);
      forall i, j | 0 <= i < j < |out| ensures out[i].key != out[j].key {
        KeyTotal(out[i].key, out[j].key);
      }
      forall i | 0 <= i < |out| ensures WellFormed(out[i].value) {
        var k := CanonicalOrigin(members, out[i]);
        CanonicalWellFormed(members[k].value);
      }
    case _ =>
  }

  // ------------------------------------------- canonical form decides equality

  lemma {:induction false} SameToCanonical(v: Json, w: Json)
    requires WellFormed(v) && WellFormed(w) && Same(v, w, {PROTO})
    ensures Canonical(v) == Canonical(w)
    decreases v
  {
    match (v, w)
    case (JArr(xs), JArr(ys)) =>
      forall i | 0 <= i < |xs| ensures Canonical(xs[i]) == Canonical(ys[i]) {
        SameToCanonical(xs[i], ys[i]);
      }
    case (JObj(ms), JObj(ns)) =>
      CanonicalMembers(ms);
      CanonicalMembers(ns);
      forall x ensures x in Canonical(v).members <==> x in Canonical(w).members {
        if x in Canonical(v).members {
          SameMemberForward(ms, ns, x);
        }
        if x in Canonical(w).members {
          SameMemberBackward(ms, ns, x);
        }
      }
      SortedUnique(Canonical(v).members, Canonical(w).members);
    case _ =>
  }

  /** The member of the second object that matches member `i` of the first one. */
  lemma SamePartner(ms: seq<Member>, ns: seq<Member>, ignored: set<Text>, i: nat) returns (j: nat)
    requires Same(JObj(ms), JObj(ns), ignored) && i < |ms| && ms[i].key !in ignored
    ensures j < |ns| && ns[j].key == ms[i].key && Same(ms[i].value, ns[j].value, ignored)
  {
    assert HasPartner(ms[i], ns, ignored);
    j :| 0 <= j < |ns| && ns[j].key == ms[i].key && Same(ms[i].value, ns[j].value, ignored);
  }

  lemma SameOrigin(ms: seq<Member>, ns: seq<Member>, ignored: set<Text>, j: nat) returns (i: nat)
    requires Same(JObj(ms), JObj(ns), ignored) && j < |ns| && ns[j].key !in ignored && DistinctKeys(ns)
    ensures i < |ms| && ns[j].key == ms[i].key && Same(ms[i].value, ns[j].value, ignored)
  {
    assert HasKey(ms, ns[j].key);
    i :| 0 <= i < |ms| && ms[i].key == ns[j].key;
    var k := SamePartner(ms, ns, ignored, i);
    assert k == j;
  }

  lemma {:induction false} SameMemberForward(ms: seq<Member>, ns: seq<Member>, x: Member)
    requires WellFormed(JObj(ms)) && WellFormed(JObj(ns)) && Same(JObj(ms), JObj(ns), {PROTO})
    requires x in Canonical(JObj(ms)).members
    ensures x in Canonical(JObj(ns)).members
    decreases JObj(ms), 0
  {
    var i := CanonicalOrigin(ms, x);
    var j := SamePartner(ms, ns, {PROTO}, i);
    SameToCanonical(ms[i].value, ns[j].value);
    CanonicalMember(ns, j);
  }

  lemma {:induction false} SameMemberBackward(ms: seq<Member>, ns: seq<Member>, x: Member)
    requires WellFormed(JObj(ms)) && WellFormed(JObj(ns)) && Same(JObj(ms), JObj(ns), {PROTO})
    requires x in Canonical(JObj(ns)).members
    ensures x in Canonical(JObj(ms)).members
    decreases JObj(ms), 0
  {
    var j := CanonicalOrigin(ns, x);
    var i := SameOrigin(ms, ns, {PROTO}, j);
    SameToCanonical(ms[i].value, ns[j].value);
    CanonicalMember(ms, i);
  }

  lemma {:induction false} CanonicalToSame(v: Json, w: Json)
    requires WellFormed(v) && WellFormed(w) && Canonical(v) == Canonical(w)
    ensures Same(v, w, {PROTO})
    decreases v
  {
    match (v, w)
    case (JArr(xs), JArr(ys)) =>
      forall i | 0 <= i < |xs| ensures Same(xs[i], ys[i], {PROTO}) {
        assert Canonical(xs[i]) == CanonicalItems(xs)[i] == CanonicalItems(ys)[i];
        CanonicalToSame(xs[i], ys[i]);
      }
    case (JObj(ms), JObj(ns)) =>
      forall i | 0 <= i < |ms| && ms[i].key != PROTO
        ensures HasPartner(ms[i], ns, {PROTO})
      {
        CanonicalMember(ms, i);
        var j := CanonicalOrigin(ns, Member(ms[i].key, Canonical(ms[i].value)));
        CanonicalToSame(ms[i].value, ns[j].value);
      }
      forall j | 0 <= j < |ns| && ns[j].key != PROTO
        ensures HasKey(ms, ns[j].key)
      {
        CanonicalMember(ns, j);
        var i := CanonicalOrigin(ms, Member(ns[j].key, Canonical(ns[j].value)));
      }
    case _ =>
  }

  /** Two payloads have the same fingerprint if and only if they are equal up to key order at
      every depth, members named `__proto__` disregarded. */
  lemma FingerprintDecidesSame(v: Json, w: Json)
    requires WellFormed(v) && WellFormed(w)
    ensures Fingerprint(v) == Fingerprint(w) <==> Same(v, w, {PROTO})
  {
    CanonicalWellFormed(v);
    CanonicalWellFormed(w);
    JsonReader.SerializeInjective(Canonical(v), Canonical(w));
    if Canonical(v) == Canonical(w) {
      CanonicalToSame(v, w);
    }
    if Same(v, w, {PROTO}) {
      SameToCanonical(v, w);
    }
  }

  /** Without `__proto__` members it does not matter whether they are disregarded. */
  lemma {:induction false} NoProtoSame(v: Json, w: Json, a: set<Text>, b: set<Text>)
    requires a <= {PROTO} && b <= {PROTO}
    requires NoProto(v) && NoProto(w) && Same(v, w, a)
    ensures Same(v, w, b)
    decreases v
  {
    match (v, w)
    case (JArr(xs), JArr(ys)) =>
      forall i | 0 <= i < |xs| ensures Same(xs[i], ys[i], b) {
        NoProtoSame(xs[i], ys[i], a, b);
      }
    case (JObj(ms), JObj(ns)) =>
      forall i | 0 <= i < |ms|
        ensures HasPartner(ms[i], ns, b)
      {
        var j := SamePartner(ms, ns, a, i);
        NoProtoSame(ms[i].value, ns[j].value, a, b);
      }
    case _ =>
  }

  /** Without `__proto__` members, fingerprints compare payloads up to key order and nothing else. */
  lemma FingerprintDecidesKeyOrder(v: Json, w: Json)
    requires WellFormed(v) && WellFormed(w) && NoProto(v) && NoProto(w)
    ensures Fingerprint(v) == Fingerprint(w) <==> Same(v, w, {})
  {
    FingerprintDecidesSame(v, w);
    if Same(v, w, {}) {
      NoProtoSame(v, w, {}, {PROTO});
    }
    if Same(v, w, {PROTO}) {
      NoProtoSame(v, w, {PROTO}, {});
    }
  }

  /** `{"__proto__":null}` and `{}` differ and share a fingerprint. */
  lemma ProtoMembersAreLost()
    ensures var v, w := JObj([Member(PROTO, JNull)]), JObj([]);
            WellFormed(v) && WellFormed(w) && !Same(v, w, {}) && Fingerprint(v) == Fingerprint(w)
  {
    var v, w := JObj([Member(PROTO, JNull)]), JObj([]);
    assert v.members[0].key == PROTO;
    FingerprintDecidesSame(v, w);
  }

  /** Canonicalization changes a payload in key order only (and drops `__proto__`), and twice is
      the same as once. */
  lemma CanonicalIsSame(v: Json)
    requires WellFormed(v)
    ensures Same(v, Canonical(v), {PROTO})
    ensures Canonical(Canonical(v)) == Canonical(v)
  {
    CanonicalWellFormed(v);
    CanonicalIdempotent(v);
    CanonicalToSame(v, Canonical(v));
  }

  lemma {:induction false} CanonicalIdempotent(v: Json)
    requires WellFormed(v)
    ensures Canonical(Canonical(v)) == Canonical(v)
    decreases v
  {
    CanonicalWellFormed(v);
    match v
    case JArr(items) =>
      forall i | 0 <= i < |items| ensures Canonical(Canonical(items[i])) == Canonical(items[i]) {
        CanonicalIdempotent(items[i]);
      }
      assert CanonicalItems(CanonicalItems(items)) == CanonicalItems(items);
    case JObj(members) =>
      var once := Canonical(v).members;
      CanonicalMembers(members);
      CanonicalMembers(once);
      forall i | 0 <= i < |once|
        ensures Member(once[i].key, Canonical(once[i].value)) == once[i] && once[i].key != PROTO
      {
        var k := CanonicalOrigin(members, once[i]);
        CanonicalIdempotent(members[k].value);
      }
      assert CanonicalValues(once) == once;
      SortedUnique(Canonical(JObj(once)).members, once);
    case _ =>
  }

  // ------------------------------------------------------------ the algorithm

  lemma {:induction false} InsertCanonicalValue(m: Member, sorted: seq<Member>)
    ensures CanonicalValues(InsertByKey(m, sorted)) ==
              InsertByKey(Member(m.key, Canonical(m.value)), CanonicalValues(sorted))
  {
    if sorted == [] || LexLess(m.key, sorted[0].key) {
      assert ([m] + sorted)[1..] == sorted;
    } else {
      InsertCanonicalValue(m, sorted[1..]);
      var r := [sorted[0]] + InsertByKey(m, sorted[1..]);
      assert r[1..] == InsertByKey(m, sorted[1..]);
    }
  }

  /** Sorting first and canonicalizing the values afterwards comes to the same. */
  lemma {:induction false} SortCanonicalValues(members: seq<Member>)
    ensures CanonicalValues(SortByKey(members)) == SortByKey(CanonicalValues(members))
  {
    if members != [] {
      SortCanonicalValues(members[1..]);
      InsertCanonicalValue(members[0], SortByKey(members[1..]));
    }
  }

  /** The recursion of the source: arrays item by item, objects by assigning their sorted keys. */
  method Canonicalize(value: Json) returns (result: Json)
    requires WellFormed(value)
    ensures result == Canonical(value)
    decreases value, 1
  {
    match value
    case JArr(items) =>
      var mapped := CanonicalizeItems(items);
      return JArr(mapped);
    case JObj(members) =>
      var out := CanonicalizeObject(members);
      return JObj(out);
    case _ =>
      return value;
  }

  method CanonicalizeItems(items: seq<Json>) returns (mapped: seq<Json>)
    requires forall i :: 0 <= i < |items| ==> WellFormed(items[i])
    ensures mapped == CanonicalItems(items)
    decreases items, 0
  {
    mapped := [];
    for i := 0 to |items|
      invariant |mapped| == i && forall k :: 0 <= k < i ==> mapped[k] == Canonical(items[k])
    {
      var item := Canonicalize(items[i]);
      mapped := mapped + [item];
    }
  }

  method CanonicalizeObject(members: seq<Member>) returns (out: seq<Member>)
    requires WellFormed(JObj(members))
    ensures JObj(out) == Canonical(JObj(members))
    decreases members, 0
  {
    var sorted := SortByKey(members);
    ghost var written := CanonicalValues(sorted);
    out := [];
    for i := 0 to |sorted|
      invariant out == Assemble(written[..i])
    {
      SortedMember(members, i);
      var v := Canonicalize(sorted[i].value);
      out := SetProperty(out, Member(sorted[i].key, v));
      AssembleNext(written, i);
    }
    assert written[..|sorted|] == written;
    CanonicalObject(members);
  }

  /** The i-th sorted member is a member of the object, and its canonical form is the i-th written. */
  lemma SortedMember(members: seq<Member>, i: nat)
    requires WellFormed(JObj(members)) && i < |SortByKey(members)|
    ensures var m := SortByKey(members)[i];
            && m in members && WellFormed(m.value)
            && CanonicalValues(SortByKey(members))[i] == Member(m.key, Canonical(m.value))
  {
    SortByKeySorts(members);
    assert SortByKey(members)[i] in members;
  }

  lemma AssembleNext(written: seq<Member>, i: nat)
    requires i < |written|
    ensures Assemble(written[..i + 1]) == SetProperty(Assemble(written[..i]), written[i])
  {
    assert written[..i + 1][..i] == written[..i];
  }

  /** Assigning the sorted members one by one gives the canonical object. */
  lemma CanonicalObject(members: seq<Member>)
    ensures Canonical(JObj(members)) == JObj(Assemble(CanonicalValues(SortByKey(members))))
  {
    SortCanonicalValues(members);
  }
}
