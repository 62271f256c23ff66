/** Text as JavaScript sees it: sequences of UTF-16 code units, and the composite
    `employee::location` key used by the ledger and by the HCM balance map. */
module Texts {

  type CodeUnit = u: int | 0 <= u < 0x1_0000
  type Text = seq<CodeUnit>

  const COLON: CodeUnit := 58

  /** An ASCII literal as text. */
  function Ascii(s: string): (t: Text)
  {
    seq(|s|, i requires 0 <= i < |s| => s[i] as int % 0x1_0000)
  }

  datatype BalanceKey = BalanceKey(employeeId: Text, locationId: Text)

  /** `${employeeId}::${locationId}`. */
  function KeyText(key: BalanceKey): Text
  {
    key.employeeId + [COLON, COLON] + key.locationId
  }

  predicate PlainId(id: Text) {
    COLON !in id
  }

  /** Two employees can be given locations that make their key texts collide exactly when one
      employee id followed by `::` is a prefix of the other one followed by `::`. */
  lemma KeyTextCollision(e: Text, f: Text)
    requires e != f
    ensures (exists k, m :: KeyText(BalanceKey(e, k)) == KeyText(BalanceKey(f, m)))
       <==> (e + [COLON, COLON] <= f + [COLON, COLON] || f + [COLON, COLON] <= e + [COLON, COLON])
  {
    var a, b := e + [COLON, COLON], f + [COLON, COLON];
    forall k, m | KeyText(BalanceKey(e, k)) == KeyText(BalanceKey(f, m))
      ensures a <= b || b <= a
    {
      assert a + k == b + m;
      if |a| <= |b| {
        assert a == (a + k)[..|a|] == (b + m)[..|a|] == b[..|a|];
      } else {
        assert b == (b + m)[..|b|] == (a + k)[..|b|] == a[..|b|];
      }
    }
    if a <= b {
      assert KeyText(BalanceKey(e, b[|a|..])) == b == KeyText(BalanceKey(f, []));
    } else if b <= a {
      assert KeyText(BalanceKey(f, a[|b|..])) == a == KeyText(BalanceKey(e, []));
    }
  }

  function FirstColon(t: Text): nat
  {
    if t == [] || t[0] == COLON then 0 else 1 + FirstColon(t[1..])
  }

  lemma {:induction false} FirstColonOfKey(key: BalanceKey)
    requires PlainId(key.employeeId)
    ensures FirstColon(KeyText(key)) == |key.employeeId|
    decreases |key.employeeId|
  {
    var e := key.employeeId;
    if e != [] {
      FirstColonOfKey(BalanceKey(e[1..], key.locationId));
      assert KeyText(key)[1..] == KeyText(BalanceKey(e[1..], key.locationId));
    }
  }

  /** Employee ids without a colon never collide. */
  lemma KeyTextInjective(x: BalanceKey, y: BalanceKey)
    requires PlainId(x.employeeId) && PlainId(y.employeeId)
    requires KeyText(x) == KeyText(y)
    ensures x == y
  {
    var e, f := x.employeeId, y.employeeId;
    FirstColonOfKey(x);
    FirstColonOfKey(y);
    assert e == KeyText(x)[..|e|] && f == KeyText(y)[..|e|];
    assert x.locationId == KeyText(x)[|e| + 2..] && y.locationId == KeyText(y)[|e| + 2..];
  }
}
