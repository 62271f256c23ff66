/** JSON values and their compact text, as `JSON.stringify` writes it. */
module Json {
  import opened Texts

  /** A number is identified with its rendered token. */
  datatype Json =
    | JNull
    | JBool(b: bool)
    | JNum(token: Text)
    | JStr(s: Text)
    | JArr(items: seq<Json>)
    | JObj(members: seq<Member>)

  datatype Member = Member(key: Text, value: Json)

  const QUOTE: CodeUnit := 34
  const COMMA: CodeUnit := 44
  const OPEN_BRACKET: CodeUnit := 91
  const BACKSLASH: CodeUnit := 92
  const CLOSE_BRACKET: CodeUnit := 93
  const OPEN_BRACE: CodeUnit := 123
  const CLOSE_BRACE: CodeUnit := 125

  const NULL: Text := [110, 117, 108, 108]
  const TRUE: Text := [116, 114, 117, 101]
  const FALSE: Text := [102, 97, 108, 115, 101]

  predicate IsDigit(c: CodeUnit) { 48 <= c <= 57 }

  /** Digits, `+`, `-`, `.`, `E` and `e`. */
  predicate IsNumberChar(c: CodeUnit) {
    IsDigit(c) || c == 43 || c == 45 || c == 46 || c == 69 || c == 101
  }

  /** Every number of section 6 of RFC 8259 is such a token. */
  predicate IsNumberToken(t: Text) {
    && t != []
    && (IsDigit(t[0]) || t[0] == 45)
    && forall i :: 0 <= i < |t| ==> IsNumberChar(t[i])
  }

  /** What `JSON.parse` can yield: number tokens, and objects whose keys are distinct. */
  predicate WellFormed(v: Json)
    decreases v
  {
    match v
    case JNum(token) => IsNumberToken(token)
    case JArr(items) => forall i :: 0 <= i < |items| ==> WellFormed(items[i])
    case JObj(members) =>
      && DistinctKeys(members)
      && forall i :: 0 <= i < |members| ==> WellFormed(members[i].value)
    case _ => true
  }

  predicate DistinctKeys(members: seq<Member>) {
    forall i, j :: 0 <= i < j < |members| ==> members[i].key != members[j].key
  }

  // ---------------------------------------------------------------- strings

  predicate IsHigh(u: CodeUnit) { 0xD800 <= u <= 0xDBFF }
  predicate IsLow(u: CodeUnit) { 0xDC00 <= u <= 0xDFFF }

  function HexDigit(d: int): CodeUnit
    requires 0 <= d < 16
  {
    if d < 10 then 48 + d else 87 + d
  }

  function UnicodeEscape(u: CodeUnit): Text {
    [BACKSLASH, 117, HexDigit(u / 0x1000), HexDigit(u / 0x100 % 16), HexDigit(u / 16 % 16), HexDigit(u % 16)]
  }

  /** One code unit that is not half of a surrogate pair. */
  function EscapeUnit(u: CodeUnit): Text {
    if u == QUOTE || u == BACKSLASH then [BACKSLASH, u]
    else if u == 8 then [BACKSLASH, 98]
    else if u == 9 then [BACKSLASH, 116]
    else if u == 10 then [BACKSLASH, 110]
    else if u == 12 then [BACKSLASH, 102]
    else if u == 13 then [BACKSLASH, 114]
    else if u < 32 || IsHigh(u) || IsLow(u) then UnicodeEscape(u)
    else [u]
  }

  /** Surrogate pairs are written as they are; lone surrogates are escaped. */
  function Escape(s: Text): Text {
    if s == [] then []
    else if |s| >= 2 && IsHigh(s[0]) && IsLow(s[1]) then [s[0], s[1]] + Escape(s[2..])
    else EscapeUnit(s[0]) + Escape(s[1..])
  }

  function Quote(s: Text): Text {
    [QUOTE] + Escape(s) + [QUOTE]
  }

  // ------------------------------------------------------------------ values

  function Serialize(v: Json): Text
    decreases v, 1
  {
    match v
    case JNull => NULL
    case JBool(b) => if b then TRUE else FALSE
    case JNum(token) => token
    case JStr(s) => Quote(s)
    case JArr(items) => [OPEN_BRACKET] + SerializeItems(items) + [CLOSE_BRACKET]
    case JObj(members) => [OPEN_BRACE] + SerializeMembers(members) + [CLOSE_BRACE]
  }

  function SerializeItems(items: seq<Json>): Text
    decreases items, 0
  {
    if items == [] then []
    else if |items| == 1 then Serialize(items[0])
    else Serialize(items[0]) + [COMMA] + SerializeItems(items[1..])
  }

  function SerializeMember(m: Member): Text
    decreases m, 2
  {
    Quote(m.key) + [COLON] + Serialize(m.value)
  }

  function SerializeMembers(members: seq<Member>): Text
    decreases members, 0
  {
    if members == [] then []
    else if |members| == 1 then SerializeMember(members[0])
    else SerializeMember(members[0]) + [COMMA] + SerializeMembers(members[1..])
  }
}
