/** No proper suffix of an object's text is itself an object's text.  The proof scans texts with
    an automaton that tracks whether it is inside a string and how many braces are open. */
module SuffixFree {
  import opened Texts
  import opened Json
  import JsonReader

  datatype Mode = Outside | Inside | Escaped | Broken

  datatype Scanner = Scanner(mode: Mode, depth: int)

  function Advance(q: Scanner, c: CodeUnit): Scanner {
    match q.mode
    case Outside =>
      if c == QUOTE then q.(mode := Inside)
      else if c == BACKSLASH then q.(mode := Broken)
      else if c == OPEN_BRACE then q.(depth := q.depth + 1)
      else if c == CLOSE_BRACE then q.(depth := q.depth - 1)
      else q
    case Inside =>
      if c == QUOTE then q.(mode := Outside)
      else if c == BACKSLASH then q.(mode := Escaped)
      else q
    case Escaped => q.(mode := Inside)
    case Broken => q
  }

  function Scan(q: Scanner, s: Text): Scanner
    decreases |s|
  {
    if s == [] then q else Scan(Advance(q, s[0]), s[1..])
  }

  /** The depth is at least `floor` before and after every code unit of `s`. */
  predicate Above(q: Scanner, s: Text, floor: int)
    decreases |s|
  {
    q.depth >= floor && (s != [] ==> Above(Advance(q, s[0]), s[1..], floor))
  }

  lemma {:induction false} ScanAppend(q: Scanner, a: Text, b: Text, floor: int)
    ensures Scan(q, a + b) == Scan(Scan(q, a), b)
    ensures Above(q, a + b, floor) <==> Above(q, a, floor) && Above(Scan(q, a), b, floor)
    decreases |a|
  {
    if a == [] {
      assert a + b == b;
    } else {
      assert (a + b)[1..] == a[1..] + b;
      ScanAppend(Advance(q, a[0]), a[1..], b, floor);
    }
  }

  // ------------------------------------------------ the text of one value

  function Out(depth: int): Scanner { Scanner(Outside, depth) }
  function In(depth: int): Scanner { Scanner(Inside, depth) }

  /** `t` starts and ends outside strings at depth `d` and never goes below it. */
  predicate Closed(t: Text, d: int) {
    Scan(Out(d), t) == Out(d) && Above(Out(d), t, d)
  }

  /** `t` starts and ends inside a string. */
  predicate Quoted(t: Text, d: int) {
    Scan(In(d), t) == In(d) && Above(In(d), t, d)
  }

  lemma ClosedAppend(a: Text, b: Text, d: int)
    requires Closed(a, d) && Closed(b, d)
    ensures Closed(a + b, d)
  {
    ScanAppend(Out(d), a, b, d);
  }

  lemma QuotedAppend(a: Text, b: Text, d: int)
    requires Quoted(a, d) && Quoted(b, d)
    ensures Quoted(a + b, d)
  {
    ScanAppend(In(d), a, b, d);
  }

  lemma {:induction false} NeutralClosed(t: Text, d: int)
    requires forall i :: 0 <= i < |t| ==> t[i] !in {QUOTE, BACKSLASH, OPEN_BRACE, CLOSE_BRACE}
    ensures Closed(t, d)
  {
    if t != [] {
      NeutralClosed(t[1..], d);
    }
  }

  lemma {:induction false} PlainQuoted(t: Text, d: int)
    requires forall i :: 0 <= i < |t| ==> t[i] !in {QUOTE, BACKSLASH}
    ensures Quoted(t, d)
  {
    if t != [] {
      PlainQuoted(t[1..], d);
    }
  }

  lemma EscapeSequenceQuoted(c: CodeUnit, d: int)
    ensures Quoted([BACKSLASH, c], d)
  {
    var q := Scanner(Escaped, d);
    assert [BACKSLASH, c][1..] == [c] && [c][1..] == [];
    assert Advance(In(d), BACKSLASH) == q && Advance(q, c) == In(d);
    assert Scan(q, [c]) == In(d) && Above(q, [c], d);
  }

  lemma EscapeUnitQuoted(u: CodeUnit, d: int)
    ensures Quoted(EscapeUnit(u), d)
  {
    if |EscapeUnit(u)| == 1 {
      PlainQuoted([u], d);
    } else if |EscapeUnit(u)| == 2 {
      EscapeSequenceQuoted(EscapeUnit(u)[1], d);
    } else {
      var digits := EscapeUnit(u)[2..];
      PlainQuoted(digits, d);
      EscapeSequenceQuoted(117, d);
      QuotedAppend([BACKSLASH, 117], digits, d);
      assert EscapeUnit(u) == [BACKSLASH, 117] + digits;
    }
  }

  lemma {:induction false} EscapeQuoted(s: Text, d: int)
    ensures Quoted(Escape(s), d)
    decreases |s|
  {
    if s == [] {
    } else if |s| >= 2 && IsHigh(s[0]) && IsLow(s[1]) {
      EscapeQuoted(s[2..], d);
      PlainQuoted([s[0], s[1]], d);
      QuotedAppend([s[0], s[1]], Escape(s[2..]), d);
    } else {
      EscapeQuoted(s[1..], d);
      EscapeUnitQuoted(s[0], d);
      QuotedAppend(EscapeUnit(s[0]), Escape(s[1..]), d);
    }
  }

  lemma QuoteClosed(s: Text, d: int)
    ensures Closed(Quote(s), d)
  {
    EscapeQuoted(s, d);
    var t := Escape(s) + [QUOTE];
    ScanAppend(In(d), Escape(s), [QUOTE], d);
    assert [QUOTE][1..] == [];
    assert Scan(In(d), [QUOTE]) == Out(d) && Above(In(d), [QUOTE], d);
    assert Quote(s) == [QUOTE] + t;
    assert ([QUOTE] + t)[1..] == t;
    assert Advance(Out(d), QUOTE) == In(d);
  }

  lemma {:induction false} SerializeClosed(v: Json, d: int)
    requires WellFormed(v)
    ensures Closed(Serialize(v), d)
    decreases v, 1
  {
    match v
    case JNull => NeutralClosed(NULL, d);
    case JBool(b) => NeutralClosed(TRUE, d); NeutralClosed(FALSE, d);
    case JNum(token) => NeutralClosed(token, d);
    case JStr(s) => QuoteClosed(s, d);
    case JArr(items) =>
      ItemsClosed(items, d);
      NeutralClosed([OPEN_BRACKET], d);
      NeutralClosed([CLOSE_BRACKET], d);
      ClosedAppend([OPEN_BRACKET], SerializeItems(items), d);
      ClosedAppend([OPEN_BRACKET] + SerializeItems(items), [CLOSE_BRACKET], d);
    case JObj(members) =>
      MembersClosed(members, d + 1);
      BracesClosed(SerializeMembers(members), d);
  }

  /** Braces around a closed text: outside strings the depth inside them is higher by one. */
  lemma BracesClosed(inner: Text, d: int)
    requires Closed(inner, d + 1)
    ensures Closed([OPEN_BRACE] + inner + [CLOSE_BRACE], d)
    ensures Above(Out(d + 1), inner, d + 1)
  {
    var t := inner + [CLOSE_BRACE];
    ScanAppend(Out(d + 1), inner, [CLOSE_BRACE], d);
    AboveWeaken(Out(d + 1), inner, d + 1, d);
    assert [CLOSE_BRACE][1..] == [];
    assert Scan(Out(d + 1), [CLOSE_BRACE]) == Out(d) && Above(Out(d + 1), [CLOSE_BRACE], d);
    assert [OPEN_BRACE] + inner + [CLOSE_BRACE] == [OPEN_BRACE] + t;
    assert ([OPEN_BRACE] + t)[1..] == t;
    assert Advance(Out(d), OPEN_BRACE) == Out(d + 1);
  }

  lemma {:induction false} AboveWeaken(q: Scanner, s: Text, high: int, low: int)
    requires low <= high && Above(q, s, high)
    ensures Above(q, s, low)
    decreases |s|
  {
    if s != [] {
      AboveWeaken(Advance(q, s[0]), s[1..], high, low);
    }
  }

  lemma {:induction false} ItemsClosed(items: seq<Json>, d: int)
    requires forall i :: 0 <= i < |items| ==> WellFormed(items[i])
    ensures Closed(SerializeItems(items), d)
    decreases items, 0
  {
    if items != [] {
      SerializeClosed(items[0], d);
      if |items| > 1 {
        ItemsClosed(items[1..], d);
        NeutralClosed([COMMA], d);
        ClosedAppend(Serialize(items[0]), [COMMA], d);
        ClosedAppend(Serialize(items[0]) + [COMMA], SerializeItems(items[1..]), d);
      }
    }
  }

  lemma {:induction false} MemberClosed(m: Member, d: int)
    requires WellFormed(m.value)
    ensures Closed(SerializeMember(m), d)
    decreases m, 2
  {
    QuoteClosed(m.key, d);
    NeutralClosed([COLON], d);
    SerializeClosed(m.value, d);
    ClosedAppend(Quote(m.key), [COLON], d);
    ClosedAppend(Quote(m.key) + [COLON], Serialize(m.value), d);
  }

  lemma {:induction false} MembersClosed(members: seq<Member>, d: int)
    requires forall i :: 0 <= i < |members| ==> WellFormed(members[i].value)
    ensures Closed(SerializeMembers(members), d)
    decreases members, 0
  {
    if members != [] {
      MemberClosed(members[0], d);
      if |members| > 1 {
        MembersClosed(members[1..], d);
        NeutralClosed([COMMA], d);
        ClosedAppend(SerializeMember(members[0]), [COMMA], d);
        ClosedAppend(SerializeMember(members[0]) + [COMMA], SerializeMembers(members[1..]), d);
      }
    }
  }

  // ------------------------------------------------------- two views of a suffix

  /** One scanner is inside a string exactly where the other is outside. */
  predicate Opposite(p: Scanner, q: Scanner) {
    (p.mode == Outside && q.mode == Inside) || (p.mode == Inside && q.mode == Outside)
  }

  lemma {:induction false} BrokenStays(q: Scanner, s: Text)
    requires q.mode == Broken
    ensures Scan(q, s) == q
  {
    if s != [] {
      BrokenStays(q, s[1..]);
    }
  }

  /** Opposite scanners stay opposite, or one of them meets a backslash outside strings. */
  lemma {:induction false} OppositeStays(p: Scanner, q: Scanner, s: Text)
    requires Opposite(p, q)
    ensures Scan(p, s).mode == Broken || Scan(q, s).mode == Broken || Opposite(Scan(p, s), Scan(q, s))
    decreases |s|
  {
    if s == [] {
    } else if s[0] == BACKSLASH {
      BrokenStays(Advance(if p.mode == Outside then p else q, s[0]), s[1..]);
    } else {
      OppositeStays(Advance(p, s[0]), Advance(q, s[0]), s[1..]);
    }
  }

  lemma {:induction false} DepthShift(q: Scanner, s: Text, k: int)
    ensures Scan(q.(depth := q.depth + k), s) == Scan(q, s).(depth := Scan(q, s).depth + k)
    decreases |s|
  {
    if s != [] {
      DepthShift(Advance(q, s[0]), s[1..], k);
    }
  }

  /** From a state with an open brace, scanning an object's text never ends outside strings at
      depth zero. */
  lemma ReadFromWithin(q: Scanner, w: Json)
    requires w.JObj? && WellFormed(w) && q.depth >= 1
    ensures Scan(q, Serialize(w)) != Out(0)
  {
    var s := Serialize(w);
    SerializeClosed(w, 0);
    assert s[0] == OPEN_BRACE;
    match q.mode
    case Outside => DepthShift(Out(0), s, q.depth);
    case Inside => OppositeStays(Out(0), q, s);
    case Escaped =>
      assert Advance(Out(0), s[0]) == Out(1);
      OppositeStays(Out(1), Advance(q, s[0]), s[1..]);
    case Broken => BrokenStays(q, s);
  }

  lemma {:induction false} AbovePrefix(q: Scanner, a: Text, b: Text, floor: int)
    requires Above(q, a + b, floor)
    ensures Scan(q, a).depth >= floor
  {
    ScanAppend(q, a, b, floor);
    assert Scan(q, a).depth >= floor;
  }

  /** Within an object's text, behind a nonempty proper prefix, at least one brace is open. */
  lemma OpenBehindPrefix(v: Json, a: Text, b: Text)
    requires v.JObj? && WellFormed(v)
    requires Serialize(v) == a + b && a != [] && b != []
    ensures Scan(Out(0), a).depth >= 1
  {
    var inner := SerializeMembers(v.members);
    MembersClosed(v.members, 1);
    var a', b' := a[1..], b[..|b| - 1];
    assert a + b == [OPEN_BRACE] + inner + [CLOSE_BRACE];
    assert a' + b' == (a + b)[1..|a + b| - 1] == inner;
    AbovePrefix(Out(1), a', b', 1);
    assert a[0] == (a + b)[0] == OPEN_BRACE;
    assert Advance(Out(0), a[0]) == Out(1);
  }

  /** No proper suffix of an object's text is an object's text. */
  lemma ObjectTextsSuffixFree(v: Json, w: Json, a: Text)
    requires v.JObj? && WellFormed(v) && w.JObj? && WellFormed(w)
    requires Serialize(v) == a + Serialize(w)
    ensures a == [] && v == w
  {
    SerializeClosed(v, 0);
    ScanAppend(Out(0), a, Serialize(w), 0);
    if a != [] {
      OpenBehindPrefix(v, a, Serialize(w));
      ReadFromWithin(Scan(Out(0), a), w);
    }
    assert a == [] ==> a + Serialize(w) == Serialize(w);
    JsonReader.SerializeInjective(v, w);
  }
}
