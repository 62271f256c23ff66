/** A reader for compact JSON text, and the proof that it undoes `Serialize`. */
module JsonReader {
  import opened Results
  import opened Texts
  import opened Json

  // ----------------------------------------------------------------- strings

  function HexValue(c: CodeUnit): Option<int>
    ensures HexValue(c).Some? ==> 0 <= HexValue(c).value < 16
  {
    if 48 <= c <= 57 then Some(c - 48)
    else if 97 <= c <= 102 then Some(c - 87)
    else if 65 <= c <= 70 then Some(c - 55)
    else None
  }

  function ReadHex4(s: Text): Option<CodeUnit>
    requires |s| >= 4
  {
    var a, b, c, d := HexValue(s[0]), HexValue(s[1]), HexValue(s[2]), HexValue(s[3]);
    if a.Some? && b.Some? && c.Some? && d.Some?
    then Some(a.value * 0x1000 + b.value * 0x100 + c.value * 16 + d.value)
    else None
  }

  /** The code unit that starts `s`, which is inside a string literal, and the text behind it. */
  function ReadUnit(s: Text): (r: Option<(CodeUnit, Text)>)
    ensures r.Some? ==> |r.value.1| < |s|
  {
    if s == [] || s[0] == QUOTE || s[0] < 32 then None
    else if s[0] != BACKSLASH then Some((s[0], s[1..]))
    else if |s| == 1 then None
    else if s[1] == 117 then
      if |s| < 6 then None
      else match ReadHex4(s[2..]) { case None => None case Some(u) => Some((u, s[6..])) }
    else if s[1] == QUOTE || s[1] == BACKSLASH || s[1] == 47 then Some((s[1], s[2..]))
    else if s[1] == 98 then Some((8, s[2..]))
    else if s[1] == 116 then Some((9, s[2..]))
    else if s[1] == 110 then Some((10, s[2..]))
    else if s[1] == 102 then Some((12, s[2..]))
    else if s[1] == 114 then Some((13, s[2..]))
    else None
  }

  /** The rest of a string literal whose opening quote has been read. */
  function ReadString(s: Text): (r: Option<(Text, Text)>)
    ensures r.Some? ==> |r.value.1| < |s|
    decreases |s|
  {
    if s == [] then None
    else if s[0] == QUOTE then Some(([], s[1..]))
    else match ReadUnit(s)
      case None => None
      case Some((u, rest)) =>
        match ReadString(rest)
        case None => None
        case Some((us, tail)) => Some(([u] + us, tail))
  }

  // ------------------------------------------------------------------ values

  function NumberLength(s: Text): (n: nat)
    ensures n <= |s|
  {
    if s == [] || !IsNumberChar(s[0]) then 0 else 1 + NumberLength(s[1..])
  }

  function ReadValue(s: Text): (r: Option<(Json, Text)>)
    ensures r.Some? ==> |r.value.1| < |s|
    decreases |s|, 1
  {
    if s == [] then None
    else if NULL <= s then Some((JNull, s[4..]))
    else if TRUE <= s then Some((JBool(true), s[4..]))
    else if FALSE <= s then Some((JBool(false), s[5..]))
    else if s[0] == QUOTE then
      match ReadString(s[1..]) { case None => None case Some((t, rest)) => Some((JStr(t), rest)) }
    else if s[0] == OPEN_BRACKET then
      if |s| > 1 && s[1] == CLOSE_BRACKET then Some((JArr([]), s[2..]))
      else match ReadItems(s[1..]) { case None => None case Some((items, rest)) => Some((JArr(items), rest)) }
    else if s[0] == OPEN_BRACE then
      if |s| > 1 && s[1] == CLOSE_BRACE then Some((JObj([]), s[2..]))
      else match ReadMembers(s[1..]) { case None => None case Some((ms, rest)) => Some((JObj(ms), rest)) }
    else if IsDigit(s[0]) || s[0] == 45 then
      var n := NumberLength(s);
      if n == 0 then None else Some((JNum(s[..n]), s[n..]))
    else None
  }

  /** One or more items up to and including the closing bracket. */
  function ReadItems(s: Text): (r: Option<(seq<Json>, Text)>)
    ensures r.Some? ==> |r.value.1| < |s|
    decreases |s|, 2
  {
    match ReadValue(s)
    case None => None
    case Some((v, rest)) =>
      if rest == [] then None
      else if rest[0] == CLOSE_BRACKET then Some(([v], rest[1..]))
      else if rest[0] != COMMA then None
      else match ReadItems(rest[1..]) { case None => None case Some((vs, tail)) => Some(([v] + vs, tail)) }
  }

  function ReadMember(s: Text): (r: Option<(Member, Text)>)
    ensures r.Some? ==> |r.value.1| < |s|
    decreases |s|, 2
  {
    if s == [] || s[0] != QUOTE then None
    else match ReadString(s[1..])
      case None => None
      case Some((key, rest)) =>
        if rest == [] || rest[0] != COLON then None
        else match ReadValue(rest[1..])
          case None => None
          case Some((v, tail)) => Some((Member(key, v), tail))
  }

  /** One or more members up to and including the closing brace. */
  function ReadMembers(s: Text): (r: Option<(seq<Member>, Text)>)
    ensures r.Some? ==> |r.value.1| < |s|
    decreases |s|, 3
  {
    match ReadMember(s)
    case None => None
    case Some((m, rest)) =>
      if rest == [] then None
      else if rest[0] == CLOSE_BRACE then Some(([m], rest[1..]))
      else if rest[0] != COMMA then None
      else match ReadMembers(rest[1..]) { case None => None case Some((ms, tail)) => Some(([m] + ms, tail)) }
  }

  /** `JSON.parse` of compact text: one value and nothing behind it. */
  function Parse(s: Text): Option<Json>
  {
    match ReadValue(s)
    case None => None
    case Some((v, rest)) => if rest == [] then Some(v) else None
  }

  // -------------------------------------------------------------- round trip

  lemma HexDigitValue(d: int)
    requires 0 <= d < 16
    ensures HexValue(HexDigit(d)) == Some(d)
  {
  }

  lemma HexPlaces(u: CodeUnit)
    ensures u == u / 0x1000 * 0x1000 + u / 0x100 % 16 * 0x100 + u / 16 % 16 * 16 + u % 16
    ensures u / 0x1000 < 16
  {
    var x := u / 16;
    var y := x / 16;
    assert u / 0x100 == y && u / 0x1000 == y / 16;
    assert u == 16 * x + u % 16 && x == 16 * y + x % 16 && y == 16 * (y / 16) + y % 16;
  }

  lemma ReadHexDigits(u: CodeUnit)
    ensures ReadHex4(UnicodeEscape(u)[2..]) == Some(u)
  {
    var a, b, c, d := u / 0x1000, u / 0x100 % 16, u / 16 % 16, u % 16;
    HexPlaces(u);
    ReadHexPlaces(a, b, c, d, u);
    assert UnicodeEscape(u)[2..] == [HexDigit(a), HexDigit(b), HexDigit(c), HexDigit(d)];
  }

  lemma ReadHexPlaces(a: int, b: int, c: int, d: int, u: CodeUnit)
    requires 0 <= a < 16 && 0 <= b < 16 && 0 <= c < 16 && 0 <= d < 16
    requires u == a * 0x1000 + b * 0x100 + c * 16 + d
    ensures ReadHex4([HexDigit(a), HexDigit(b), HexDigit(c), HexDigit(d)]) == Some(u)
  {
    HexDigitValue(a);
    HexDigitValue(b);
    HexDigitValue(c);
    HexDigitValue(d);
  }

  lemma ReadHex4Prefix(digits: Text, rest: Text)
    requires |digits| == 4
    ensures ReadHex4(digits + rest) == ReadHex4(digits)
  {
  }

  lemma ReadHexEscape(u: CodeUnit, rest: Text)
    ensures ReadUnit(UnicodeEscape(u) + rest) == Some((u, rest))
  {
    var s := UnicodeEscape(u) + rest;
    ReadHexDigits(u);
    ReadHex4Prefix(UnicodeEscape(u)[2..], rest);
    assert s[2..] == UnicodeEscape(u)[2..] + rest;
    assert s[6..] == rest;
  }

  lemma ReadEscapedUnit(u: CodeUnit, rest: Text)
    ensures ReadUnit(EscapeUnit(u) + rest) == Some((u, rest))
    ensures EscapeUnit(u)[0] != QUOTE
  {
    var s := EscapeUnit(u) + rest;
    if |EscapeUnit(u)| == 6 {
      ReadHexEscape(u, rest);
    } else if |EscapeUnit(u)| == 1 {
      assert s[1..] == rest;
    } else {
      assert s[2..] == rest;
    }
  }

  /** Reading a string literal that starts with a unit readable as `u`. */
  lemma ReadStringStep(head: Text, tail: Text, u: CodeUnit, us: Text, rest: Text)
    requires head != [] && head[0] != QUOTE
    requires ReadUnit(head + tail) == Some((u, tail))
    requires ReadString(tail) == Some((us, rest))
    ensures ReadString(head + tail) == Some(([u] + us, rest))
  {
  }

  lemma ReadPair(high: CodeUnit, low: CodeUnit, tail: Text, us: Text, rest: Text)
    requires IsHigh(high) && IsLow(low)
    requires ReadString(tail) == Some((us, rest))
    ensures ReadString([high, low] + tail) == Some(([high, low] + us, rest))
  {
    assert ([low] + tail)[1..] == tail;
    ReadStringStep([low], tail, low, us, rest);
    assert ([high] + ([low] + tail))[1..] == [low] + tail;
    ReadStringStep([high], [low] + tail, high, [low] + us, rest);
    assert [high, low] + tail == [high] + ([low] + tail);
    assert [high, low] + us == [high] + ([low] + us);
  }

  lemma ReadSingle(u: CodeUnit, tail: Text, us: Text, rest: Text)
    requires ReadString(tail) == Some((us, rest))
    ensures ReadString(EscapeUnit(u) + tail) == Some(([u] + us, rest))
  {
    ReadEscapedUnit(u, tail);
    ReadStringStep(EscapeUnit(u), tail, u, us, rest);
  }

  lemma EscapeSingle(s: Text)
    requires s != [] && !(|s| >= 2 && IsHigh(s[0]) && IsLow(s[1]))
    ensures Escape(s) == EscapeUnit(s[0]) + Escape(s[1..])
  {
  }

  lemma EscapePair(s: Text)
    requires |s| >= 2 && IsHigh(s[0]) && IsLow(s[1])
    ensures Escape(s) == [s[0], s[1]] + Escape(s[2..])
  {
  }

  /** Moving the tail out of a concatenation of three. */
  lemma Regroup(head: Text, middle: Text, rest: Text)
    ensures head + middle + [QUOTE] + rest == head + (middle + [QUOTE] + rest)
  {
  }

  lemma {:induction false} ReadEscaped(s: Text, rest: Text)
    ensures ReadString(Escape(s) + [QUOTE] + rest) == Some((s, rest))
    decreases |s|
  {
    if s == [] {
      assert [] + [QUOTE] + rest == [QUOTE] + rest;
      assert ([QUOTE] + rest)[1..] == rest;
    } else if |s| >= 2 && IsHigh(s[0]) && IsLow(s[1]) {
      ReadEscaped(s[2..], rest);
      ReadPair(s[0], s[1], Escape(s[2..]) + [QUOTE] + rest, s[2..], rest);
      EscapePair(s);
      Regroup([s[0], s[1]], Escape(s[2..]), rest);
      assert [s[0], s[1]] + s[2..] == s;
    } else {
      ReadEscaped(s[1..], rest);
      ReadSingle(s[0], Escape(s[1..]) + [QUOTE] + rest, s[1..], rest);
      EscapeSingle(s);
      Regroup(EscapeUnit(s[0]), Escape(s[1..]), rest);
      assert [s[0]] + s[1..] == s;
    }
  }

  lemma {:induction false} NumberLengthOfToken(t: Text, rest: Text)
    requires forall i :: 0 <= i < |t| ==> IsNumberChar(t[i])
    requires rest == [] || !IsNumberChar(rest[0])
    ensures NumberLength(t + rest) == |t|
  {
    if t == [] {
      assert t + rest == rest;
    } else {
      assert (t + rest)[1..] == t[1..] + rest;
      NumberLengthOfToken(t[1..], rest);
    }
  }

  /** The first code unit of a value's text tells its kind. */
  lemma FirstUnit(v: Json)
    requires WellFormed(v)
    ensures Serialize(v) != []
    ensures Serialize(v)[0] == match v {
              case JNull => 110
              case JBool(b) => if b then 116 else 102
              case JNum(token) => token[0]
              case JStr(_) => QUOTE
              case JArr(_) => OPEN_BRACKET
              case JObj(_) => OPEN_BRACE }
  {
  }

  /** Texts that start with a character of no literal are read by that character. */
  lemma NoLiteral(s: Text)
    requires s != [] && s[0] != 110 && s[0] != 116 && s[0] != 102
    ensures !(NULL <= s) && !(TRUE <= s) && !(FALSE <= s)
  {
    assert NULL[0] == 110 && TRUE[0] == 116 && FALSE[0] == 102;
  }

  lemma ReadLiteral(v: Json, rest: Text)
    requires v.JNull? || v.JBool?
    ensures ReadValue(Serialize(v) + rest) == Some((v, rest))
  {
    var s := Serialize(v) + rest;
    assert s[0] == Serialize(v)[0] && s[|Serialize(v)|..] == rest;
    assert Serialize(v) <= s;
    assert NULL[0] == 110 && TRUE[0] == 116 && FALSE[0] == 102;
  }

  lemma ReadNumber(token: Text, rest: Text)
    requires IsNumberToken(token)
    requires rest == [] || !IsNumberChar(rest[0])
    ensures ReadValue(token + rest) == Some((JNum(token), rest))
  {
    var s := token + rest;
    assert s[0] == token[0];
    NoLiteral(s);
    NumberLengthOfToken(token, rest);
    assert s[..|token|] == token && s[|token|..] == rest;
  }

  /** Reading back what `Serialize` wrote yields the value and leaves the text behind it. */
  lemma {:induction false} ReadSerialized(v: Json, rest: Text)
    requires WellFormed(v)
    requires rest == [] || !IsNumberChar(rest[0])
    ensures ReadValue(Serialize(v) + rest) == Some((v, rest))
    decreases v, 1
  {
    match v
    case JNull => ReadLiteral(v, rest);
    case JBool(_) => ReadLiteral(v, rest);
    case JNum(token) => ReadNumber(token, rest);
    case JStr(t) =>
      var s := [QUOTE] + (Escape(t) + [QUOTE] + rest);
      assert Serialize(v) + rest == s && s[1..] == Escape(t) + [QUOTE] + rest;
      NoLiteral(s);
      ReadEscaped(t, rest);
    case JArr(items) => ReadSerializedArray(items, rest);
    case JObj(members) => ReadSerializedObject(members, rest);
  }

  lemma {:induction false} ReadSerializedArray(items: seq<Json>, rest: Text)
    requires forall i :: 0 <= i < |items| ==> WellFormed(items[i])
    ensures ReadValue(Serialize(JArr(items)) + rest) == Some((JArr(items), rest))
    decreases items, 3
  {
    var s := [OPEN_BRACKET] + (SerializeItems(items) + [CLOSE_BRACKET] + rest);
    assert Serialize(JArr(items)) + rest == s;
    assert s[1..] == SerializeItems(items) + [CLOSE_BRACKET] + rest;
    NoLiteral(s);
    if items == [] {
      assert s[2..] == rest;
    } else {
      FirstUnit(items[0]);
      assert s[1] == Serialize(items[0])[0];
      ReadSerializedItems(items, rest);
    }
  }

  lemma {:induction false} ReadSerializedObject(members: seq<Member>, rest: Text)
    requires forall i :: 0 <= i < |members| ==> WellFormed(members[i].value)
    ensures ReadValue(Serialize(JObj(members)) + rest) == Some((JObj(members), rest))
    decreases members, 3
  {
    var s := [OPEN_BRACE] + (SerializeMembers(members) + [CLOSE_BRACE] + rest);
    assert Serialize(JObj(members)) + rest == s;
    assert s[1..] == SerializeMembers(members) + [CLOSE_BRACE] + rest;
    NoLiteral(s);
    if members == [] {
      assert s[2..] == rest;
    } else {
      assert s[1] == QUOTE;
      ReadSerializedMembers(members, rest);
    }
  }

  lemma {:induction false} ReadSerializedItems(items: seq<Json>, rest: Text)
    requires items != []
    requires forall i :: 0 <= i < |items| ==> WellFormed(items[i])
    ensures ReadItems(SerializeItems(items) + [CLOSE_BRACKET] + rest) == Some((items, rest))
    decreases items, 0
  {
    if |items| == 1 {
      var tail := [CLOSE_BRACKET] + rest;
      assert SerializeItems(items) + [CLOSE_BRACKET] + rest == Serialize(items[0]) + tail;
      assert tail[1..] == rest && items == [items[0]];
      ReadSerialized(items[0], tail);
    } else {
      var more := SerializeItems(items[1..]) + [CLOSE_BRACKET] + rest;
      ReadSerialized(items[0], [COMMA] + more);
      ReadSerializedItems(items[1..], rest);
      ReadItemsStep(items[0], items[1..], more, rest);
      Reassociate(Serialize(items[0]), SerializeItems(items[1..]), [CLOSE_BRACKET], rest);
      assert [items[0]] + items[1..] == items;
    }
  }

  /** One item, a comma, and more items. */
  lemma ReadItemsStep(v: Json, vs: seq<Json>, more: Text, rest: Text)
    requires ReadValue(Serialize(v) + ([COMMA] + more)) == Some((v, [COMMA] + more))
    requires ReadItems(more) == Some((vs, rest))
    ensures ReadItems(Serialize(v) + ([COMMA] + more)) == Some(([v] + vs, rest))
  {
    assert ([COMMA] + more)[1..] == more;
  }

  /** A key, a colon and a value. */
  lemma ReadMemberStep(literal: Text, key: Text, text: Text, v: Json, rest: Text)
    requires ReadString(literal) == Some((key, [COLON] + text))
    requires ReadValue(text) == Some((v, rest))
    ensures ReadMember([QUOTE] + literal) == Some((Member(key, v), rest))
  {
    assert ([QUOTE] + literal)[1..] == literal;
    assert ([COLON] + text)[1..] == text;
  }

  lemma SplitMember(m: Member, rest: Text)
    ensures SerializeMember(m) + rest ==
              [QUOTE] + (Escape(m.key) + [QUOTE] + ([COLON] + (Serialize(m.value) + rest)))
  {
  }

  lemma {:induction false} ReadSerializedMember(m: Member, rest: Text)
    requires WellFormed(m.value)
    requires rest == [] || !IsNumberChar(rest[0])
    ensures ReadMember(SerializeMember(m) + rest) == Some((m, rest))
    decreases m, 2
  {
    var text := Serialize(m.value) + rest;
    ReadEscaped(m.key, [COLON] + text);
    ReadSerialized(m.value, rest);
    ReadMemberStep(Escape(m.key) + [QUOTE] + ([COLON] + text), m.key, text, m.value, rest);
    SplitMember(m, rest);
  }

  lemma Reassociate(a: Text, b: Text, c: Text, rest: Text)
    ensures a + [COMMA] + b + c + rest == a + ([COMMA] + (b + c + rest))
  {
  }

  /** One member, a comma, and more members. */
  lemma ReadMembersStep(m: Member, ms: seq<Member>, more: Text, rest: Text)
    requires ReadMember(SerializeMember(m) + ([COMMA] + more)) == Some((m, [COMMA] + more))
    requires ReadMembers(more) == Some((ms, rest))
    ensures ReadMembers(SerializeMember(m) + ([COMMA] + more)) == Some(([m] + ms, rest))
  {
    assert ([COMMA] + more)[1..] == more;
  }

  lemma {:induction false} ReadSerializedMembers(members: seq<Member>, rest: Text)
    requires members != []
    requires forall i :: 0 <= i < |members| ==> WellFormed(members[i].value)
    ensures ReadMembers(SerializeMembers(members) + [CLOSE_BRACE] + rest) == Some((members, rest))
    decreases members, 0
  {
    if |members| == 1 {
      var tail := [CLOSE_BRACE] + rest;
      assert SerializeMembers(members) + [CLOSE_BRACE] + rest == SerializeMember(members[0]) + tail;
      assert tail[1..] == rest && members == [members[0]];
      ReadSerializedMember(members[0], tail);
    } else {
      var more := SerializeMembers(members[1..]) + [CLOSE_BRACE] + rest;
      ReadSerializedMember(members[0], [COMMA] + more);
      ReadSerializedMembers(members[1..], rest);
      ReadMembersStep(members[0], members[1..], more, rest);
      Reassociate(SerializeMember(members[0]), SerializeMembers(members[1..]), [CLOSE_BRACE], rest);
      assert [members[0]] + members[1..] == members;
    }
  }

  /** `JSON.parse(JSON.stringify(v))` is `v`. */
  lemma RoundTrip(v: Json)
    requires WellFormed(v)
    ensures Parse(Serialize(v)) == Some(v)
  {
    assert Serialize(v) + [] == Serialize(v);
    ReadSerialized(v, []);
  }

  /** Different values have different texts. */
  lemma SerializeInjective(v: Json, w: Json)
    requires WellFormed(v) && WellFormed(w)
    ensures Serialize(v) == Serialize(w) <==> v == w
  {
    RoundTrip(v);
    RoundTrip(w);
  }
}
