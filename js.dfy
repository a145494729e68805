/**
 * The parts of the JavaScript runtime that the timesheet application relies on:
 * numbers that may be NaN, the string functions it calls (trim, split, join,
 * toLowerCase, padStart, String(n), parseInt, Number), the array functions
 * filter, reduce-to-a-sum and reverse, and plain objects used as string-keyed
 * records, whose Object.keys order is insertion order.
 */
module Js {

  datatype Option<T> = None | Some(value: T)

  /** A JavaScript number as this application uses it: an integer, or NaN. */
  datatype Num = Int(value: int) | NaN

  /* ---------------------------------------------------------------------- */
  /* Arrays                                                                  */
  /* ---------------------------------------------------------------------- */

  predicate Distinct<T(==)>(s: seq<T>) {
    forall i, j :: 0 <= i < j < |s| ==> s[i] != s[j]
  }

  /** A list without repetitions has as many elements as its set. */
  lemma {:induction false} DistinctCard<T>(s: seq<T>)
    requires Distinct(s)
    ensures |(set x | x in s)| == |s|
  {
    if s != [] {
      var init := s[..|s| - 1];
      var last := s[|s| - 1];
      assert Distinct(init);
      DistinctCard(init);
      assert (set x | x in s) == (set x | x in init) + {last};
      assert last !in (set x | x in init);
    }
  }

  /** The predicate `x => !ids.includes(x)`. */
  function NotIn<T(==)>(ids: seq<T>): T -> bool {
    x => x !in ids
  }

  /** Array.prototype.filter: the elements of s satisfying p, in their order. */
  function Filter<T(==,!new)>(s: seq<T>, p: T -> bool): (r: seq<T>)
    ensures |r| <= |s|
    ensures forall x :: x in r <==> x in s && p(x)
  {
    if s == [] then []
    else
      var init := s[..|s| - 1];
      var last := s[|s| - 1];
      assert s == init + [last];
      if p(last) then Filter(init, p) + [last] else Filter(init, p)
  }

  lemma {:induction false} FilterAppend<T(!new)>(a: seq<T>, b: seq<T>, p: T -> bool)
    ensures Filter(a + b, p) == Filter(a, p) + Filter(b, p)
  {
    if b == [] {
      assert a + b == a;
    } else {
      var b' := b[..|b| - 1];
      assert (a + b)[..|a + b| - 1] == a + b';
      FilterAppend(a, b', p);
    }
  }

  lemma {:induction false} FilterKeepsDistinct<T(!new)>(s: seq<T>, p: T -> bool)
    requires Distinct(s)
    ensures Distinct(Filter(s, p))
  {
    if s != [] {
      var init := s[..|s| - 1];
      assert Distinct(init);
      FilterKeepsDistinct(init, p);
      assert s[|s| - 1] !in init;
    }
  }

  /** Filter with a predicate that holds of every element returns its argument. */
  lemma {:induction false} FilterAll<T(!new)>(s: seq<T>, p: T -> bool)
    requires forall x :: x in s ==> p(x)
    ensures Filter(s, p) == s
  {
    if s != [] {
      assert s == s[..|s| - 1] + [s[|s| - 1]];
      FilterAll(s[..|s| - 1], p);
    }
  }

  /** Two predicates that agree on s filter it the same way. */
  lemma {:induction false} FilterCongruent<T(!new)>(s: seq<T>, p: T -> bool, q: T -> bool)
    requires forall x :: x in s ==> p(x) == q(x)
    ensures Filter(s, p) == Filter(s, q)
  {
    if s != [] {
      assert s == s[..|s| - 1] + [s[|s| - 1]];
      FilterCongruent(s[..|s| - 1], p, q);
    }
  }

  /** Filtering by p and then by q is filtering by their conjunction r. */
  lemma {:induction false} FilterFilter<T(!new)>(s: seq<T>, p: T -> bool, q: T -> bool, r: T -> bool)
    requires forall x :: r(x) == (p(x) && q(x))
    ensures Filter(Filter(s, p), q) == Filter(s, r)
  {
    if s != [] {
      var init := s[..|s| - 1];
      FilterFilter(init, p, q, r);
      var last := s[|s| - 1];
      if p(last) {
        assert Filter(s, p)[..|Filter(s, p)| - 1] == Filter(init, p);
      }
    }
  }

  /** The array reduce `(total, x) => total + f(x)` started at 0. */
  function SumOf<T>(s: seq<T>, f: T -> int): int
  {
    if s == [] then 0 else SumOf(s[..|s| - 1], f) + f(s[|s| - 1])
  }

  lemma {:induction false} SumOfAppend<T>(a: seq<T>, b: seq<T>, f: T -> int)
    ensures SumOf(a + b, f) == SumOf(a, f) + SumOf(b, f)
  {
    if b == [] {
      assert a + b == a;
    } else {
      var b' := b[..|b| - 1];
      assert (a + b)[..|a + b| - 1] == a + b';
      SumOfAppend(a, b', f);
    }
  }

  /** Array.prototype.reverse on a copy. */
  function Reverse<T>(s: seq<T>): (r: seq<T>)
    ensures |r| == |s|
    ensures forall i :: 0 <= i < |s| ==> r[i] == s[|s| - 1 - i]
  {
    if s == [] then [] else [s[|s| - 1]] + Reverse(s[..|s| - 1])
  }

  /* ---------------------------------------------------------------------- */
  /* Strings                                                                 */
  /* ---------------------------------------------------------------------- */

  /** The WhiteSpace and LineTerminator code points that trim and parseInt skip. */
  predicate IsWhitespace(c: char) {
    c == ' ' || c == '\t' || c == '\n' || c == '\r' || c == '\U{B}' || c == '\U{C}' ||
    c == '\U{A0}' || c == '\U{1680}' || ('\U{2000}' <= c <= '\U{200A}') ||
    c == '\U{2028}' || c == '\U{2029}' || c == '\U{202F}' || c == '\U{205F}' ||
    c == '\U{3000}' || c == '\U{FEFF}'
  }

  function TrimStart(s: string): (r: string)
    ensures |r| <= |s| && r == s[|s| - |r|..]
    ensures forall i :: 0 <= i < |s| - |r| ==> IsWhitespace(s[i])
    ensures r == [] || !IsWhitespace(r[0])
  {
    if s != [] && IsWhitespace(s[0]) then
      var r := TrimStart(s[1..]);
      assert s[1..][|s| - 1 - |r|..] == s[|s| - |r|..];
      assert forall i :: 1 <= i < |s| - |r| ==> s[i] == s[1..][i - 1];
      r
    else s
  }

  function TrimEnd(s: string): (r: string)
    ensures |r| <= |s| && r == s[..|r|]
    ensures forall i :: |r| <= i < |s| ==> IsWhitespace(s[i])
    ensures r == [] || !IsWhitespace(r[|r| - 1])
  {
    if s != [] && IsWhitespace(s[|s| - 1]) then
      var r := TrimEnd(s[..|s| - 1]);
      assert s[..|s| - 1][..|r|] == s[..|r|];
      assert forall i :: |r| <= i < |s| - 1 ==> s[i] == s[..|s| - 1][i];
      r
    else s
  }

  /** String.prototype.trim. */
  function Trim(s: string): string
  {
    TrimEnd(TrimStart(s))
  }

  lemma TrimNoWhitespace(s: string)
    requires s == [] || (!IsWhitespace(s[0]) && !IsWhitespace(s[|s| - 1]))
    ensures Trim(s) == s
  {
  }

  /** toLowerCase on the ASCII letters; every other character is kept. */
  function LowerAscii(s: string): (r: string)
    ensures |r| == |s|
    ensures forall i :: 0 <= i < |s| ==>
      r[i] == if 'A' <= s[i] <= 'Z' then (s[i] as int + 32) as char else s[i]
  {
    if s == [] then []
    else
      var c := s[0];
      [if 'A' <= c <= 'Z' then (c as int + 32) as char else c] + LowerAscii(s[1..])
  }

  /** A string that has s's characters, upper case lowered, is s lowered. */
  lemma LowerAsciiOf(s: string, t: string)
    requires |s| == |t|
    requires forall i :: 0 <= i < |s| ==> t[i] == if 'A' <= s[i] <= 'Z' then (s[i] as int + 32) as char else s[i]
    ensures LowerAscii(s) == t
  {
  }

  /** Array.prototype.join. */
  function Join(parts: seq<string>, sep: string): string
  {
    if |parts| == 0 then ""
    else if |parts| == 1 then parts[0]
    else Join(parts[..|parts| - 1], sep) + sep + parts[|parts| - 1]
  }

  function IndexOf(s: string, c: char): (r: Option<nat>)
    ensures r.None? <==> c !in s
    ensures r.Some? ==> r.value < |s| && s[r.value] == c && c !in s[..r.value]
  {
    if s == [] then None
    else if s[0] == c then Some(0)
    else match IndexOf(s[1..], c)
      case None => None
      case Some(i) => assert s[1..][..i] == s[1..i + 1]; Some(i + 1)
  }

  /** String.prototype.split with a one-character separator. */
  function Split(s: string, sep: char): (r: seq<string>)
    ensures |r| >= 1
    ensures forall i :: 0 <= i < |r| ==> sep !in r[i]
    ensures Join(r, [sep]) == s
    decreases |s|
  {
    match IndexOf(s, sep)
    case None => [s]
    case Some(i) =>
      var rest := Split(s[i + 1..], sep);
      var r := [s[..i]] + rest;
      JoinCons(s[..i], rest, [sep]);
      assert s == s[..i] + [sep] + s[i + 1..];
      assert forall j :: 0 < j < |r| ==> r[j] == rest[j - 1];
      r
  }

  lemma {:induction false} JoinCons(p: string, rest: seq<string>, sep: string)
    requires |rest| >= 1
    ensures Join([p] + rest, sep) == p + sep + Join(rest, sep)
    decreases |rest|
  {
    if |rest| > 1 {
      var init := rest[..|rest| - 1];
      JoinCons(p, init, sep);
      assert ([p] + rest)[..|[p] + rest| - 1] == [p] + init;
    } else {
      assert [p] + rest == [p, rest[0]];
    }
  }

  /** Joining parts that do not contain the separator and splitting again gives the parts back. */
  lemma {:induction false} SplitJoin(parts: seq<string>, sep: char)
    requires |parts| >= 1
    requires forall i :: 0 <= i < |parts| ==> sep !in parts[i]
    ensures Split(Join(parts, [sep]), sep) == parts
    decreases |parts|
  {
    if |parts| == 1 {
      assert IndexOf(parts[0], sep).None?;
    } else {
      var rest := parts[1..];
      assert parts == [parts[0]] + rest;
      JoinCons(parts[0], rest, [sep]);
      var s := Join(parts, [sep]);
      var p := parts[0];
      assert s == p + [sep] + Join(rest, [sep]);
      IndexOfPrefix(p, sep, Join(rest, [sep]));
      SplitJoin(rest, sep);
      assert s[..|p|] == p;
      assert s[|p| + 1..] == Join(rest, [sep]);
    }
  }

  /** Three parts joined by a separator they do not contain split back into those parts. */
  lemma SplitThree(a: string, b: string, c: string, sep: char)
    requires sep !in a && sep !in b && sep !in c
    ensures Split(a + [sep] + b + [sep] + c, sep) == [a, b, c]
  {
    assert Join([a, b], [sep]) == a + [sep] + b;
    assert Join([a, b, c], [sep]) == a + [sep] + b + [sep] + c by {
      assert [a, b, c][..2] == [a, b];
    }
    SplitJoin([a, b, c], sep);
  }

  lemma IndexOfPrefix(p: string, c: char, t: string)
    requires c !in p
    ensures IndexOf(p + [c] + t, c) == Some(|p|)
  {
    var s := p + [c] + t;
    assert s[|p|] == c && s[..|p|] == p;
  }

  /* ---------------------------------------------------------------------- */
  /* Numbers and their decimal text                                          */
  /* ---------------------------------------------------------------------- */

  predicate IsDigit(c: char) {
    '0' <= c <= '9'
  }

  predicate AllDigits(s: string) {
    forall i :: 0 <= i < |s| ==> IsDigit(s[i])
  }

  function DigitChar(d: int): (c: char)
    requires 0 <= d < 10
    ensures IsDigit(c)
  {
    ('0' as int + d) as char
  }

  /** The value of a string of decimal digits. */
  function DigitsValue(s: string): (n: nat)
    requires AllDigits(s)
  {
    if s == [] then 0
    else DigitsValue(s[..|s| - 1]) * 10 + (s[|s| - 1] as int - '0' as int)
  }

  /** String(n) for a non-negative integer. */
  function NatToString(n: nat): (s: string)
    ensures |s| >= 1 && AllDigits(s)
    ensures '-' !in s && '/' !in s && ':' !in s
  {
    if n < 10 then [DigitChar(n)] else NatToString(n / 10) + [DigitChar(n % 10)]
  }

  /** String(n) reads back as n and has no leading zero. */
  lemma {:induction false} NatToStringValue(n: nat)
    ensures DigitsValue(NatToString(n)) == n
    ensures |NatToString(n)| > 1 ==> NatToString(n)[0] != '0'
  {
    if n >= 10 {
      NatToStringValue(n / 10);
      var s := NatToString(n);
      assert s[..|s| - 1] == NatToString(n / 10);
    }
  }

  /** The number of digits String(n) writes for the magnitudes dates use. */
  lemma NatToStringLength(n: nat)
    ensures n < 10 ==> |NatToString(n)| == 1
    ensures 10 <= n < 100 ==> |NatToString(n)| == 2
    ensures 1000 <= n < 10000 ==> |NatToString(n)| == 4
  {
    if 10 <= n < 100 {
      NatToStringStep(n);
    } else if 1000 <= n < 10000 {
      var a := n / 10;
      var b := a / 10;
      assert 100 <= a < 1000 && 10 <= b < 100 && b / 10 < 10;
      NatToStringStep(n);
      NatToStringStep(a);
      NatToStringStep(b);
    }
  }

  /** Above 9, String(n) is one digit longer than String(n / 10). */
  lemma NatToStringStep(n: nat)
    requires n >= 10
    ensures |NatToString(n)| == |NatToString(n / 10)| + 1
  {
  }

  /** String(i) for an integer. */
  function IntToString(i: int): string
  {
    if i < 0 then "-" + NatToString(-i) else NatToString(i)
  }

  function NumToString(n: Num): string
  {
    match n
    case NaN => "NaN"
    case Int(i) => IntToString(i)
  }

  /** padStart(2, '0'). */
  function Pad2(s: string): (r: string)
    ensures |r| == if |s| < 2 then 2 else |s|
    ensures r[|r| - |s|..] == s
    ensures forall i :: 0 <= i < |r| - |s| ==> r[i] == '0'
  {
    if |s| == 0 then "00" else if |s| == 1 then "0" + s else s
  }

  lemma {:induction false} LeadingZero(s: string)
    requires AllDigits(s)
    ensures AllDigits("0" + s) && DigitsValue("0" + s) == DigitsValue(s)
    decreases |s|
  {
    if s != [] {
      var t := "0" + s;
      assert t[..|t| - 1] == "0" + s[..|s| - 1];
      LeadingZero(s[..|s| - 1]);
    }
  }

  /** Padding the text of n to two digits keeps it a digit string of value n. */
  lemma Pad2Value(n: nat)
    ensures AllDigits(Pad2(NatToString(n)))
    ensures DigitsValue(Pad2(NatToString(n))) == n
    ensures '-' !in Pad2(NatToString(n)) && '/' !in Pad2(NatToString(n))
  {
    var s := NatToString(n);
    NatToStringValue(n);
    if |s| == 1 {
      LeadingZero(s);
    }
  }

  /** The longest prefix of s made of decimal digits. */
  function DigitPrefix(s: string): (r: string)
    ensures |r| <= |s| && r == s[..|r|] && AllDigits(r)
    ensures |r| < |s| ==> !IsDigit(s[|r|])
  {
    if s != [] && IsDigit(s[0]) then [s[0]] + DigitPrefix(s[1..]) else []
  }

  lemma DigitPrefixAll(s: string)
    requires AllDigits(s)
    ensures DigitPrefix(s) == s
  {
  }

  /** parseInt(s, 10). */
  function ParseInt(s: string): Num
  {
    var t := TrimStart(s);
    var negative := t != [] && t[0] == '-';
    var body := if t != [] && (t[0] == '-' || t[0] == '+') then t[1..] else t;
    var digits := DigitPrefix(body);
    if digits == [] then NaN
    else if negative then Int(-(DigitsValue(digits) as int))
    else Int(DigitsValue(digits))
  }

  /** parseInt of a non-empty digit string is its value. */
  lemma ParseIntDigits(s: string)
    requires s != [] && AllDigits(s)
    ensures ParseInt(s) == Int(DigitsValue(s))
  {
    assert !IsWhitespace(s[0]);
    assert TrimStart(s) == s;
    DigitPrefixAll(s);
  }

  /** parseInt reads back what String and padStart(2, '0') wrote. */
  lemma ParseIntPad2(n: nat)
    ensures ParseInt(Pad2(NatToString(n))) == Int(n)
  {
    Pad2Value(n);
    ParseIntDigits(Pad2(NatToString(n)));
  }

  /**
   * Number(s) for the strings this application converts: surrounding white
   * space is ignored, the empty string is 0, and an optionally signed run of
   * decimal digits is its value. Every other string is NaN here.
   */
  function ToNumber(s: string): Num
  {
    var t := Trim(s);
    var body := if t != [] && (t[0] == '-' || t[0] == '+') then t[1..] else t;
    if t == [] then Int(0)
    else if body == [] || !AllDigits(body) then NaN
    else if t[0] == '-' then Int(-(DigitsValue(body) as int))
    else Int(DigitsValue(body))
  }

  /** Number of a non-empty digit string is its value. */
  lemma ToNumberDigits(s: string)
    requires s != [] && AllDigits(s)
    ensures ToNumber(s) == Int(DigitsValue(s))
  {
    TrimNoWhitespace(s);
  }

  /** JavaScript truthiness of a string. */
  predicate NonEmpty(s: string) {
    s != []
  }

  /* ---------------------------------------------------------------------- */
  /* Plain objects used as records                                           */
  /* ---------------------------------------------------------------------- */

  /**
   * A plain object used as Record<string, V>: its values, and its keys in
   * Object.keys order (the order in which they were first assigned).
   */
  datatype Record<V> = Record(keys: seq<string>, values: map<string, V>) {

    predicate Valid() {
      Distinct(keys) && (set k | k in keys) == values.Keys
    }

    /** `record[k] = v`. */
    function Put(k: string, v: V): (r: Record<V>)
      requires Valid()
      ensures r.Valid()
      ensures r.values == values[k := v]
      ensures k in values ==> r.keys == keys
      ensures k !in values ==> r.keys == keys + [k]
    {
      if k in values then Record(keys, values[k := v]) else Record(keys + [k], values[k := v])
    }

    /** `delete record[k]`. */
    function Delete(k: string): (r: Record<V>)
      requires Valid()
      ensures r.Valid()
      ensures r.values == values - {k}
      ensures r.keys == Filter(keys, NotIn([k]))
    {
      FilterKeepsDistinct(keys, NotIn([k]));
      Record(Filter(keys, NotIn([k])), values - {k})
    }
  }

  function EmptyRecord<V>(): (r: Record<V>)
    ensures r.Valid() && r.keys == [] && r.values == map[]
  {
    Record([], map[])
  }

  /** `ids.forEach(id => record[id] = v)`. */
  function PutAll<V>(d: Record<V>, ids: seq<string>, v: V): (r: Record<V>)
    requires d.Valid()
    ensures r.Valid()
    ensures |r.keys| >= |d.keys| && r.keys[..|d.keys|] == d.keys
  {
    if ids == [] then d else PutAll(d, ids[..|ids| - 1], v).Put(ids[|ids| - 1], v)
  }

  /** `ids.forEach(id => delete record[id])`. */
  function DeleteAll<V>(d: Record<V>, ids: seq<string>): (r: Record<V>)
    requires d.Valid()
    ensures r.Valid()
  {
    if ids == [] then d else DeleteAll(d, ids[..|ids| - 1]).Delete(ids[|ids| - 1])
  }

  /** `ids.forEach(id => delete record[id])` run on a copy of the record. */
  method DeleteEach<V>(d: Record<V>, ids: seq<string>) returns (r: Record<V>)
    requires d.Valid()
    ensures r == DeleteAll(d, ids)
  {
    r := d;
    var i := 0;
    while i < |ids|
      invariant 0 <= i <= |ids|
      invariant r == DeleteAll(d, ids[..i])
    {
      assert ids[..i + 1][..i] == ids[..i];
      r := r.Delete(ids[i]);
      i := i + 1;
    }
    assert ids[..i] == ids;
  }

  /**
   * Assigning v to every id keeps the other entries, adds the ids as keys and
   * maps every id to v.
   */
  lemma {:induction false} PutAllValues<V>(d: Record<V>, ids: seq<string>, v: V)
    requires d.Valid()
    ensures forall k :: k in PutAll(d, ids, v).values <==> k in d.values || k in ids
    ensures forall k :: k in ids ==> PutAll(d, ids, v).values[k] == v
    ensures forall k :: k in d.values && k !in ids ==> PutAll(d, ids, v).values[k] == d.values[k]
  {
    if ids != [] {
      var init, last := ids[..|ids| - 1], ids[|ids| - 1];
      PutAllValues(d, init, v);
      PutAllStep(d, ids, v);
      InSnoc(ids);
    }
  }

  /** One more id assigns one more key. */
  lemma PutAllStep<V>(d: Record<V>, ids: seq<string>, v: V)
    requires d.Valid() && ids != []
    ensures PutAll(d, ids, v).values == PutAll(d, ids[..|ids| - 1], v).values[ids[|ids| - 1] := v]
  {
  }

  /** An element of a non-empty sequence is its last element or one before it. */
  lemma InSnoc<T>(s: seq<T>)
    requires s != []
    ensures forall k :: k in s <==> k in s[..|s| - 1] || k == s[|s| - 1]
  {
    assert s == s[..|s| - 1] + [s[|s| - 1]];
  }

  /** One more id deletes one more key. */
  lemma DeleteAllStep<V>(d: Record<V>, ids: seq<string>)
    requires d.Valid() && ids != []
    ensures DeleteAll(d, ids) == DeleteAll(d, ids[..|ids| - 1]).Delete(ids[|ids| - 1])
  {
  }

  /** Deleting every id removes exactly those ids. */
  lemma {:induction false} DeleteAllValues<V>(d: Record<V>, ids: seq<string>)
    requires d.Valid()
    ensures forall k :: k in DeleteAll(d, ids).values <==> k in d.values && k !in ids
    ensures forall k :: k in DeleteAll(d, ids).values ==> DeleteAll(d, ids).values[k] == d.values[k]
  {
    if ids != [] {
      var init := ids[..|ids| - 1];
      var last := ids[|ids| - 1];
      DeleteAllValues(d, init);
      DeleteAllStep(d, ids);
      InSnoc(ids);
    }
  }

  /** Deleting every id keeps the order of the other keys. */
  lemma {:induction false} DeleteAllKeys<V>(d: Record<V>, ids: seq<string>)
    requires d.Valid()
    ensures DeleteAll(d, ids).keys == Filter(d.keys, NotIn(ids))
  {
    if ids != [] {
      var init := ids[..|ids| - 1];
      var last := ids[|ids| - 1];
      DeleteAllKeys(d, init);
      DeleteAllStep(d, ids);
      InSnoc(ids);
      FilterFilter(d.keys, NotIn(init), NotIn([last]), NotIn(ids));
    } else {
      FilterAll(d.keys, NotIn(ids));
    }
  }
}
