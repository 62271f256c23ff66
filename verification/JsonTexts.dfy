/** JSON text spelled out. */
module JsonTexts {
  import opened Texts
  import opened Json

  /** Punctuation and literals. */
  lemma Punctuation()
    ensures Ascii("{}[],:\"\\") ==
              [OPEN_BRACE, CLOSE_BRACE, OPEN_BRACKET, CLOSE_BRACKET, COMMA, COLON, QUOTE, BACKSLASH]
    ensures Ascii("null") == NULL && Ascii("true") == TRUE && Ascii("false") == FALSE
  {
  }

  /** Seven code units are escaped with a sign or a letter. */
  lemma ShortEscapes()
    ensures EscapeUnit(34) == Ascii("\\\"") && EscapeUnit(92) == Ascii("\\\\")
    ensures EscapeUnit(8) == Ascii("\\b") && EscapeUnit(9) == Ascii("\\t") && EscapeUnit(10) == Ascii("\\n")
    ensures EscapeUnit(12) == Ascii("\\f") && EscapeUnit(13) == Ascii("\\r")
  {
  }

  /** Other control characters and lone surrogates get four lower-case hex digits. */
  lemma HexEscapes()
    ensures EscapeUnit(0) == Ascii("\\u0000") && EscapeUnit(31) == Ascii("\\u001f")
    ensures EscapeUnit(0xD834) == Ascii("\\ud834")
    ensures EscapeUnit(0xDEAF) == Ascii("\\udeaf")
  {
    assert Ascii("\\u0000") == [92, 117, 48, 48, 48, 48] && Ascii("\\u001f") == [92, 117, 48, 48, 49, 102];
    assert Ascii("\\ud834") == [92, 117, 100, 56, 51, 52];
    assert Ascii("\\udeaf") == [92, 117, 100, 101, 97, 102];
  }

  /** Everything else stands for itself, surrogate pairs included. */
  lemma NoEscape(u: CodeUnit, high: CodeUnit, low: CodeUnit)
    requires u >= 32 && u != 34 && u != 92 && !(0xD800 <= u <= 0xDFFF)
    requires 0xD800 <= high <= 0xDBFF && 0xDC00 <= low <= 0xDFFF
    ensures Escape([u]) == [u] && Escape([high, low]) == [high, low]
  {
    assert [u][1..] == [] && [high, low][2..] == [];
    assert Escape([u]) == EscapeUnit(u) + Escape([]);
  }

  lemma TwoItems(v: Json, w: Json)
    ensures Serialize(JArr([v, w])) == [OPEN_BRACKET] + (Serialize(v) + [COMMA] + Serialize(w)) + [CLOSE_BRACKET]
  {
    var items := [v, w];
    assert items[1..] == [w];
    assert SerializeItems(items[1..]) == Serialize(w);
    assert SerializeItems(items) == Serialize(v) + [COMMA] + Serialize(w);
  }

  lemma TwoMembers(m: Member, n: Member)
    ensures Serialize(JObj([m, n])) ==
              [OPEN_BRACE] + (SerializeMember(m) + [COMMA] + SerializeMember(n)) + [CLOSE_BRACE]
  {
    var members := [m, n];
    assert members[1..] == [n];
    assert SerializeMembers(members[1..]) == SerializeMember(n);
    assert SerializeMembers(members) == SerializeMember(m) + [COMMA] + SerializeMember(n);
  }

  lemma PlainKey(u: CodeUnit, v: Json)
    requires 97 <= u <= 122
    ensures SerializeMember(Member([u], v)) == [34, u, 34, 58] + Serialize(v)
  {
    NoEscape(u, 0xD800, 0xDC00);
    assert Quote([u]) == [34, u, 34];
    assert [34, u, 34] + [58] == [34, u, 34, 58];
  }

  /** The members of an object in braces, keys in quotes, no white space. */
  lemma ObjectText()
    ensures Serialize(JObj([Member([97], JArr([JNum([49]), JNull])), Member([98], JBool(true))]))
              == Ascii("{\"a\":[1,null],\"b\":true}")
  {
    var v := JArr([JNum([49]), JNull]);
    TwoItems(JNum([49]), JNull);
    assert Serialize(v) == [91, 49, 44, 110, 117, 108, 108, 93];
    PlainKey(97, v);
    PlainKey(98, JBool(true));
    TwoMembers(Member([97], v), Member([98], JBool(true)));
    Golden();
  }

  lemma Golden()
    ensures Ascii("{\"a\":[1,null],\"b\":true}") ==
              [123] + ([34, 97, 34, 58] + [91, 49, 44, 110, 117, 108, 108, 93] + [44]
                       + ([34, 98, 34, 58] + [116, 114, 117, 101])) + [125]
  {
  }
}
