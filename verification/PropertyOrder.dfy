/** The order in which a JavaScript object lists its keys, and objects filled in by assignment. */
module PropertyOrder {
  import opened Texts
  import opened Json

  /** The key `__proto__`. */
  const PROTO: Text := [95, 95, 112, 114, 111, 116, 111, 95, 95]

  /** The default order of `Array.prototype.sort` on strings. */
  predicate LexLess(a: Text, b: Text)
  {
    b != [] && (a == [] || a[0] < b[0] || (a[0] == b[0] && LexLess(a[1..], b[1..])))
  }

  /** At the first difference the smaller code unit comes first, and a proper prefix comes before. */
  lemma {:induction false} LexLessExactly(a: Text, b: Text)
    ensures LexLess(a, b) <==>
              exists k :: 0 <= k <= |a| && k < |b| && a[..k] == b[..k] && (k == |a| || a[k] < b[k])
  {
    if a != [] && b != [] {
      LexLessExactly(a[1..], b[1..]);
      if LexLess(a, b) && !(a[0] < b[0]) {
        var k :| 0 <= k <= |a[1..]| && k < |b[1..]| && a[1..][..k] == b[1..][..k]
                 && (k == |a[1..]| || a[1..][k] < b[1..][k]);
        assert a[..k + 1] == [a[0]] + a[1..][..k] && b[..k + 1] == [b[0]] + b[1..][..k];
      }
      if k :| 0 <= k <= |a| && k < |b| && a[..k] == b[..k] && (k == |a| || a[k] < b[k]) {
        if k > 0 {
          assert a[..k][0] == b[..k][0] && a[..k][1..] == a[1..][..k - 1] && b[..k][1..] == b[1..][..k - 1];
        }
      }
    } else if b != [] {
      assert a[..0] == b[..0];
    }
  }

  lemma {:induction false} LexTransitive(a: Text, b: Text, c: Text)
    requires LexLess(a, b) && LexLess(b, c)
    ensures LexLess(a, c)
  {
    if a != [] && a[0] == b[0] && b[0] == c[0] {
      LexTransitive(a[1..], b[1..], c[1..]);
    }
  }

  lemma {:induction false} LexTotal(a: Text, b: Text)
    ensures !(LexLess(a, b) && LexLess(b, a))
    ensures LexLess(a, b) || LexLess(b, a) <==> a != b
  {
    if a != [] && b != [] {
      assert a == [a[0]] + a[1..] && b == [b[0]] + b[1..];
      LexTotal(a[1..], b[1..]);
    }
  }

  function DigitValue(c: CodeUnit): nat
    requires IsDigit(c)
  {
    c as int - 48
  }

  /** The number a decimal string denotes. */
  function Decimal(digits: Text): nat
    requires forall i :: 0 <= i < |digits| ==> IsDigit(digits[i])
  {
    if digits == [] then 0
    else Decimal(digits[..|digits| - 1]) * 10 + DigitValue(digits[|digits| - 1])
  }

  /** Array indices are listed before all other keys, in numeric order. */
  predicate IsArrayIndex(key: Text) {
    && key != []
    && (forall i :: 0 <= i < |key| ==> IsDigit(key[i]))
    && (key[0] == 48 ==> |key| == 1)
    && Decimal(key) <= 0xFFFF_FFFE
  }

  /** Digits without a leading zero are an array index below 2^32 - 1; no other key is one. */
  lemma ArrayIndexExactly(key: Text)
    ensures IsArrayIndex(key) <==>
              key != [] && (forall i :: 0 <= i < |key| ==> 48 <= key[i] <= 57) && (key[0] == 48 ==> |key| == 1)
              && Decimal(key) < 4_294_967_295
  {
  }

  /** One more digit is worth its value, and the digits before it ten times as much. */
  lemma DecimalDigit(digits: Text, d: CodeUnit)
    requires forall i :: 0 <= i < |digits| ==> IsDigit(digits[i])
    requires 48 <= d <= 57
    ensures Decimal(digits + [d]) == 10 * Decimal(digits) + (d as int - 48)
  {
    assert (digits + [d])[..|digits|] == digits;
  }

  lemma {:induction false} DecimalPositive(a: Text)
    requires a != [] && forall i :: 0 <= i < |a| ==> IsDigit(a[i])
    requires a[0] != 48
    ensures Decimal(a) > 0
  {
    if |a| > 1 {
      DecimalPositive(a[..|a| - 1]);
    }
  }

  lemma {:induction false} DecimalInjective(a: Text, b: Text)
    requires forall i :: 0 <= i < |a| ==> IsDigit(a[i])
    requires forall i :: 0 <= i < |b| ==> IsDigit(b[i])
    requires (a != [] ==> a[0] != 48) && (b != [] ==> b[0] != 48)
    requires Decimal(a) == Decimal(b)
    ensures a == b
  {
    if a != [] { DecimalPositive(a); }
    if b != [] { DecimalPositive(b); }
    if a != [] && b != [] {
      var x, y := a[..|a| - 1], b[..|b| - 1];
      assert a == x + [a[|a| - 1]] && b == y + [b[|b| - 1]];
      assert Decimal(x) == Decimal(a) / 10 && Decimal(y) == Decimal(b) / 10;
      DecimalInjective(x, y);
    }
  }

  lemma ArrayIndexInjective(a: Text, b: Text)
    requires IsArrayIndex(a) && IsArrayIndex(b) && Decimal(a) == Decimal(b)
    ensures a == b
  {
    assert forall d: CodeUnit :: [d][..0] == [];
    if a[0] != 48 { DecimalPositive(a); }
    if b[0] != 48 { DecimalPositive(b); }
    if a[0] == 48 {
      assert a == [48] && b[0] == 48 && b == [48];
    } else {
      DecimalInjective(a, b);
    }
  }

  /** Key order of an object whose keys were assigned in lexicographic order. */
  predicate KeyLess(a: Text, b: Text) {
    if IsArrayIndex(a) && IsArrayIndex(b) then Decimal(a) < Decimal(b)
    else if IsArrayIndex(a) || IsArrayIndex(b) then IsArrayIndex(a)
    else LexLess(a, b)
  }

  lemma KeyTotal(a: Text, b: Text)
    ensures !(KeyLess(a, b) && KeyLess(b, a))
    ensures KeyLess(a, b) || KeyLess(b, a) <==> a != b
  {
    LexTotal(a, b);
    if IsArrayIndex(a) && IsArrayIndex(b) && Decimal(a) == Decimal(b) {
      ArrayIndexInjective(a, b);
    }
  }

  lemma KeyTransitive(a: Text, b: Text, c: Text)
    requires KeyLess(a, b) && KeyLess(b, c)
    ensures KeyLess(a, c)
  {
    if !IsArrayIndex(a) {
      LexTransitive(a, b, c);
    }
  }

  predicate KeySorted(members: seq<Member>) {
    forall i, j :: 0 <= i < j < |members| ==> KeyLess(members[i].key, members[j].key)
  }

  predicate LexSorted(members: seq<Member>) {
    forall i, j :: 0 <= i < j < |members| ==> LexLess(members[i].key, members[j].key)
  }

  // ------------------------------------------------------------------ sorting

  function InsertByKey(m: Member, sorted: seq<Member>): seq<Member> {
    if sorted == [] || LexLess(m.key, sorted[0].key) then [m] + sorted
    else [sorted[0]] + InsertByKey(m, sorted[1..])
  }

  /** The members in the order of `Object.keys(...).sort()`. */
  function SortByKey(members: seq<Member>): seq<Member> {
    if members == [] then [] else InsertByKey(members[0], SortByKey(members[1..]))
  }

  lemma {:induction false} InsertByKeySorts(m: Member, sorted: seq<Member>)
    requires LexSorted(sorted)
    requires forall i :: 0 <= i < |sorted| ==> sorted[i].key != m.key
    ensures LexSorted(InsertByKey(m, sorted))
    ensures forall x :: x in InsertByKey(m, sorted) <==> x == m || x in sorted
  {
    var r := InsertByKey(m, sorted);
    if sorted == [] {
    } else if LexLess(m.key, sorted[0].key) {
      forall j | 1 <= j < |sorted| ensures LexLess(m.key, sorted[j].key) {
        LexTransitive(m.key, sorted[0].key, sorted[j].key);
      }
    } else {
      LexTotal(m.key, sorted[0].key);
      InsertByKeySorts(m, sorted[1..]);
      var tail := InsertByKey(m, sorted[1..]);
      assert forall x :: x in sorted <==> x == sorted[0] || x in sorted[1..];
      forall j | 0 <= j < |tail| ensures LexLess(sorted[0].key, tail[j].key) {
        assert tail[j] in tail;
      }
    }
  }

  /** Sorting distinct keys orders them strictly and keeps exactly the same members. */
  lemma {:induction false} SortByKeySorts(members: seq<Member>)
    requires DistinctKeys(members)
    ensures LexSorted(SortByKey(members))
    ensures forall x :: x in SortByKey(members) <==> x in members
  {
    if members != [] {
      SortByKeySorts(members[1..]);
      var rest := SortByKey(members[1..]);
      assert forall x :: x in members <==> x == members[0] || x in members[1..];
      forall i | 0 <= i < |rest| ensures rest[i].key != members[0].key {
        assert rest[i] in members[1..];
      }
      InsertByKeySorts(members[0], rest);
    }
  }

  // --------------------------------------------------------------- assignment

  function InsertIndex(out: seq<Member>, m: Member): seq<Member>
    requires IsArrayIndex(m.key)
  {
    if out == [] || !IsArrayIndex(out[0].key) || Decimal(m.key) < Decimal(out[0].key) then [m] + out
    else [out[0]] + InsertIndex(out[1..], m)
  }

  /** `out[m.key] = m.value` on a plain object.  Assigning `__proto__` sets the prototype or does
      nothing; it never creates a member. */
  function SetProperty(out: seq<Member>, m: Member): seq<Member> {
    if m.key == PROTO then out
    else if exists i :: 0 <= i < |out| && out[i].key == m.key then
      seq(|out|, i requires 0 <= i < |out| => if out[i].key == m.key then m else out[i])
    else if IsArrayIndex(m.key) then InsertIndex(out, m)
    else out + [m]
  }

  /** The object after assigning all the members in turn. */
  function Assemble(members: seq<Member>): seq<Member> {
    if members == [] then []
    else SetProperty(Assemble(members[..|members| - 1]), members[|members| - 1])
  }

  /** For example 9 comes before 10, and both before a. */
  lemma IndicesFirst(ten: Json, nine: Json, a: Json)
    ensures Assemble([Member([49, 48], ten), Member([57], nine), Member([97], a)]) ==
              [Member([57], nine), Member([49, 48], ten), Member([97], a)]
  {
    var x, y, z := Member([49, 48], ten), Member([57], nine), Member([97], a);
    assert Decimal([]) == 0;
    DecimalDigit([], 49);
    DecimalDigit([49], 48);
    DecimalDigit([], 57);
    assert [49, 48] == [49] + [48] && [] + [49] == [49] && [] + [57] == [57];
    assert Assemble([x]) == [x] by {
      assert [x][..0] == [];
    }
    assert [x, y][..1] == [x] && [x, y, z][..2] == [x, y];
  }

  lemma {:induction false} InsertIndexSorts(out: seq<Member>, m: Member)
    requires KeySorted(out) && IsArrayIndex(m.key)
    requires forall i :: 0 <= i < |out| ==> out[i].key != m.key
    ensures KeySorted(InsertIndex(out, m))
    ensures forall x :: x in InsertIndex(out, m) <==> x == m || x in out
  {
    if out == [] {
    } else if !IsArrayIndex(out[0].key) || Decimal(m.key) < Decimal(out[0].key) {
      assert KeyLess(m.key, out[0].key);
      forall j | 1 <= j < |out| ensures KeyLess(m.key, out[j].key) {
        KeyTransitive(m.key, out[0].key, out[j].key);
      }
    } else {
      KeyTotal(m.key, out[0].key);
      InsertIndexSorts(out[1..], m);
      var tail := InsertIndex(out[1..], m);
      assert forall x :: x in out <==> x == out[0] || x in out[1..];
      forall j | 0 <= j < |tail| ensures KeyLess(out[0].key, tail[j].key) {
        assert tail[j] in tail;
      }
    }
  }

  lemma SetPropertySorts(out: seq<Member>, m: Member)
    requires KeySorted(out) && m.key != PROTO
    requires forall x :: x in out ==> LexLess(x.key, m.key)
    ensures KeySorted(SetProperty(out, m))
    ensures forall x :: x in SetProperty(out, m) <==> x == m || x in out
  {
    LexTotal(m.key, m.key);
    forall i | 0 <= i < |out| ensures LexLess(out[i].key, m.key) && out[i].key != m.key {
      assert out[i] in out;
    }
    if IsArrayIndex(m.key) {
      InsertIndexSorts(out, m);
    }
  }

  /** Assigning keys in lexicographic order lists them in key order and loses only `__proto__`. */
  lemma {:induction false} AssembleSorts(members: seq<Member>)
    requires LexSorted(members)
    ensures KeySorted(Assemble(members))
    ensures forall x :: x in Assemble(members) <==> x in members && x.key != PROTO
  {
    if members != [] {
      var front, last := members[..|members| - 1], members[|members| - 1];
      AssembleSorts(front);
      assert forall x :: x in members <==> x in front || x == last;
      if last.key != PROTO {
        SetPropertySorts(Assemble(front), last);
      }
    }
  }

  /** A strictly sorted list of members is determined by the set of its members. */
  lemma {:induction false} SortedUnique(a: seq<Member>, b: seq<Member>)
    requires KeySorted(a) && KeySorted(b)
    requires forall x :: x in a <==> x in b
    ensures a == b
  {
    if a == [] {
      assert forall i :: 0 <= i < |b| ==> b[i] in b;
    } else {
      assert a[0] in b;
      var j :| 0 <= j < |b| && b[j] == a[0];
      assert b[0] in a;
      var i :| 0 <= i < |a| && a[i] == b[0];
      KeyTotal(a[0].key, b[0].key);
      assert i == 0 && j == 0;
      forall x ensures x in a[1..] <==> x in b[1..] {
        KeyTotal(a[0].key, a[0].key);
        assert x in a <==> x == a[0] || x in a[1..];
        assert x in b <==> x == b[0] || x in b[1..];
      }
      SortedUnique(a[1..], b[1..]);
      assert a == [a[0]] + a[1..] && b == [b[0]] + b[1..];
    }
  }
}
