/**
 The sort pass of `sort_chapters` (scrape.py:499-511): Python's stable
 `sorted` keyed by `chapter_key`, which reads a chapter number as a decimal,
 falls back to its first `\d+\.?\d*` token, and otherwise sorts it last.
 */
module ChapterSort {
  import opened Wrappers
  import opened Text
  import opened Chapters

  /** A sort key: a finite decimal value, or `float('inf')`. */
  datatype Key = Finite(value: real) | Inf

  /** The order `sorted` uses on keys; `inf` equals `inf`. */
  predicate KeyLe(a: Key, b: Key) {
    match (a, b)
    case (_, Inf) => true
    case (Inf, Finite(_)) => false
    case (Finite(x), Finite(y)) => x <= y
  }

  predicate AllDigits(s: string) {
    forall i :: 0 <= i < |s| ==> IsDigit(s[i])
  }

  /** The natural number written by a string of decimal digits. */
  function DigitsValue(s: string): nat
    requires AllDigits(s)
  {
    if s == [] then 0 else DigitsValue(s[..|s| - 1]) * 10 + (s[|s| - 1] as int - '0' as int)
  }

  function Pow10(n: nat): (p: nat)
    ensures p >= 1
  {
    if n == 0 then 1 else 10 * Pow10(n - 1)
  }

  /** The value of `whole.frac`, either part possibly empty. */
  function DecimalValue(whole: string, frac: string): (v: real)
    requires AllDigits(whole) && AllDigits(frac)
    ensures v >= 0.0
  {
    DigitsValue(whole) as real + DigitsValue(frac) as real / Pow10(|frac|) as real
  }

  /** Number of leading decimal digits of `s`. */
  function DigitRun(s: string): (k: nat)
    ensures k <= |s| && AllDigits(s[..k])
    ensures k < |s| ==> !IsDigit(s[k])
  {
    if s != [] && IsDigit(s[0]) then 1 + DigitRun(s[1..]) else 0
  }

  /** `float(s)` for a string that is, once ASCII whitespace is stripped, a plain
      decimal: an optional sign, digits, and an optional point followed by
      digits, with at least one digit in all. Anything else fails. */
  function ParseDecimal(s: string): Option<real> {
    var t := Strip(s);
    if t != [] && (t[0] == '-' || t[0] == '+') then
      match ParseUnsigned(t[1..])
      case None => None
      case Some(m) => Some(if t[0] == '-' then -m else m)
    else ParseUnsigned(t)
  }

  /** Digits, and an optional point followed by digits, with at least one digit in all. */
  function ParseUnsigned(body: string): Option<real> {
    var k := DigitRun(body);
    if k == |body| then (if k > 0 then Some(DecimalValue(body[..k], "")) else None)
    else if body[k] != '.' then None
    else
      var frac := body[k + 1..];
      if AllDigits(frac) && (k > 0 || |frac| > 0) then Some(DecimalValue(body[..k], frac)) else None
  }

  lemma ParseUnsignedHasDigit(body: string)
    requires ParseUnsigned(body).Some?
    ensures exists i :: 0 <= i < |body| && IsDigit(body[i])
  {
    var k := DigitRun(body);
    var j := if 0 < k then 0 else k + 1;
    assert IsDigit(body[j]);
  }

  /** A string `float` accepts holds a decimal digit. */
  lemma ParseDecimalHasDigit(s: string)
    requires ParseDecimal(s).Some?
    ensures exists i :: 0 <= i < |s| && IsDigit(s[i])
  {
    var t := Strip(s);
    var off := if t != [] && (t[0] == '-' || t[0] == '+') then 1 else 0;
    var body := t[off..];
    ParseUnsignedHasDigit(body);
    var j :| 0 <= j < |body| && IsDigit(body[j]);
    assert t[off + j] in s;
  }

  /** The first match of `\d+\.?\d*` in `s`, read as a float: the first run of
      digits, and when a point follows it, the point and the digits after it. */
  function FirstNumberToken(s: string): (r: Option<real>)
    ensures r.Some? <==> exists i :: 0 <= i < |s| && IsDigit(s[i])
  {
    var i := FirstDigit(s);
    if i == |s| then None
    else
      var rest := s[i..];
      var k := DigitRun(rest);
      var whole := rest[..k];
      if k < |rest| && rest[k] == '.' then
        var after := rest[k + 1..];
        Some(DecimalValue(whole, after[..DigitRun(after)]))
      else Some(DecimalValue(whole, ""))
  }

  /** Index of the first decimal digit of `s`, or `|s|`. */
  function FirstDigit(s: string): (i: nat)
    ensures i <= |s|
    ensures i < |s| ==> IsDigit(s[i])
    ensures forall j :: 0 <= j < i ==> !IsDigit(s[j])
  {
    if s == [] then 0 else if IsDigit(s[0]) then 0 else 1 + FirstDigit(s[1..])
  }

  /** `chapter_key` on a present number: a number sorts last exactly when it
      holds no decimal digit at all. */
  function ChapterKey(number: string): (k: Key)
    ensures k == Inf <==> forall i :: 0 <= i < |number| ==> !IsDigit(number[i])
  {
    match ParseDecimal(number)
    case Some(v) => ParseDecimalHasDigit(number); Finite(v)
    case None =>
      match FirstNumberToken(number)
      case Some(v) => Finite(v)
      case None => Inf
  }

  /** A number written with digits only sorts by its integer value. */
  lemma {:induction false} ChapterKeyOfDigits(number: string)
    requires number != [] && AllDigits(number)
    ensures ChapterKey(number) == Finite(DigitsValue(number) as real)
  {
    StripNoSpace(number);
    DigitRunAll(number);
    assert number[..|number|] == number;
  }

  /** `str(n)` reads back as `n`. */
  lemma {:induction false} NatToStringValue(n: nat)
    ensures DigitsValue(NatToString(n)) == n
  {
    var s := NatToString(n);
    if n >= 10 {
      NatToStringValue(n / 10);
      assert s[..|s| - 1] == NatToString(n / 10);
    }
  }

  /** A chapter numbered `str(n)` sorts by `n`. */
  lemma ChapterKeyOfNat(n: nat)
    ensures ChapterKey(NatToString(n)) == Finite(n as real)
  {
    ChapterKeyOfDigits(NatToString(n));
    NatToStringValue(n);
  }

  lemma {:induction false} DigitRunAll(s: string)
    requires AllDigits(s)
    ensures DigitRun(s) == |s|
  {
    if s != [] {
      DigitRunAll(s[1..]);
    }
  }

  // ---------------------------------------------------------------------------
  // The stable sort

  /** Every chapter has a number: `chapter_key` raises on a null number. */
  predicate Numbered(s: seq<Chapter>) {
    forall i :: 0 <= i < |s| ==> s[i].number.Some?
  }

  /** `chapter_key` on a chapter; only ever applied to numbered chapters. */
  function SortKey(c: Chapter): Key {
    match c.number
    case Some(n) => ChapterKey(n)
    case None => Inf
  }

  /** Keys never decrease along the list. */
  ghost predicate SortedBy<T>(s: seq<T>, key: T -> Key) {
    forall i, j :: 0 <= i < j < |s| ==> KeyLe(key(s[i]), key(s[j]))
  }

  /** The elements of `s` whose key is `k`, in their order in `s`. */
  function WithKey<T>(s: seq<T>, key: T -> Key, k: Key): seq<T> {
    if s == [] then []
    else (if key(s[0]) == k then [s[0]] else []) + WithKey(s[1..], key, k)
  }

  /** Places `x` before the first element whose key is not below its own, so
      that `x` stays ahead of the elements with an equal key. */
  function InsertBy<T>(x: T, sorted: seq<T>, key: T -> Key): (r: seq<T>)
    ensures |r| == |sorted| + 1
  {
    if sorted == [] then [x]
    else if KeyLe(key(x), key(sorted[0])) then [x] + sorted
    else [sorted[0]] + InsertBy(x, sorted[1..], key)
  }

  /** Python's `sorted(s, key=key)`: a stable sort, written as insertion sort. */
  function SortBy<T>(s: seq<T>, key: T -> Key): (r: seq<T>)
    ensures |r| == |s|
  {
    if s == [] then [] else InsertBy(s[0], SortBy(s[1..], key), key)
  }

  /** `sort_chapters`: `sorted(chapters, key=chapter_key)`; a chapter whose
      number is null makes `chapter_key` raise, hence the precondition. */
  function SortChapters(chapters: seq<Chapter>): (r: seq<Chapter>)
    requires Numbered(chapters)
    ensures |r| == |chapters|
    ensures multiset(r) == multiset(chapters)
  {
    SortByPermutation(chapters, SortKey);
    SortBy(chapters, SortKey)
  }

  lemma KeyLeTotal(a: Key, b: Key)
    ensures KeyLe(a, b) || KeyLe(b, a)
    ensures KeyLe(a, b) && KeyLe(b, a) ==> a == b
  {
  }

  lemma {:induction false} InsertPermutation<T>(x: T, sorted: seq<T>, key: T -> Key)
    ensures multiset(InsertBy(x, sorted, key)) == multiset(sorted) + multiset{x}
  {
    if sorted != [] && !KeyLe(key(x), key(sorted[0])) {
      InsertPermutation(x, sorted[1..], key);
      assert sorted == [sorted[0]] + sorted[1..];
    }
  }

  lemma {:induction false} InsertSorted<T>(x: T, sorted: seq<T>, key: T -> Key)
    requires SortedBy(sorted, key)
    ensures SortedBy(InsertBy(x, sorted, key), key)
  {
    if sorted != [] && !KeyLe(key(x), key(sorted[0])) {
      var tail := sorted[1..];
      InsertSorted(x, tail, key);
      KeyLeTotal(key(x), key(sorted[0]));
      InsertLowerBound(x, tail, key, key(sorted[0]));
      var ins := InsertBy(x, tail, key);
      var r := InsertBy(x, sorted, key);
      assert r == [sorted[0]] + ins;
      forall i, j | 0 <= i < j < |r| ensures KeyLe(key(r[i]), key(r[j])) {
        if i > 0 {
          assert r[i] == ins[i - 1] && r[j] == ins[j - 1];
        } else {
          assert r[j] == ins[j - 1];
        }
      }
    }
  }

  /** A key below `x` and below every element stays below every element once
      `x` is inserted. */
  lemma {:induction false} InsertLowerBound<T>(x: T, sorted: seq<T>, key: T -> Key, lo: Key)
    requires KeyLe(lo, key(x))
    requires forall m :: 0 <= m < |sorted| ==> KeyLe(lo, key(sorted[m]))
    ensures forall j :: 0 <= j < |InsertBy(x, sorted, key)| ==> KeyLe(lo, key(InsertBy(x, sorted, key)[j]))
  {
    if sorted != [] && !KeyLe(key(x), key(sorted[0])) {
      var tail := sorted[1..];
      assert forall m :: 0 <= m < |tail| ==> tail[m] == sorted[m + 1];
      InsertLowerBound(x, tail, key, lo);
      var ins := InsertBy(x, tail, key);
      assert InsertBy(x, sorted, key) == [sorted[0]] + ins;
    }
  }

  /** Inserting puts `x` ahead of every element with the same key. */
  lemma {:induction false} InsertWithKey<T>(x: T, sorted: seq<T>, key: T -> Key, k: Key)
    ensures WithKey(InsertBy(x, sorted, key), key, k) ==
      (if key(x) == k then [x] else []) + WithKey(sorted, key, k)
  {
    if sorted == [] {
      assert InsertBy(x, sorted, key) == [x];
      assert WithKey([x], key, k) == (if key(x) == k then [x] else []) + WithKey([], key, k);
    } else {
      var r := InsertBy(x, sorted, key);
      var head := if key(sorted[0]) == k then [sorted[0]] else [];
      assert WithKey(sorted, key, k) == head + WithKey(sorted[1..], key, k);
      if KeyLe(key(x), key(sorted[0])) {
        assert r == [x] + sorted;
        assert r[1..] == sorted;
      } else {
        InsertWithKey(x, sorted[1..], key, k);
        assert r[0] == sorted[0] && r[1..] == InsertBy(x, sorted[1..], key);
        assert key(sorted[0]) != key(x);
        assert WithKey(r, key, k) == head + WithKey(r[1..], key, k);
      }
    }
  }

  /** The sort returns a permutation of its input. */
  lemma {:induction false} SortByPermutation<T>(s: seq<T>, key: T -> Key)
    ensures multiset(SortBy(s, key)) == multiset(s)
  {
    if s != [] {
      SortByPermutation(s[1..], key);
      InsertPermutation(s[0], SortBy(s[1..], key), key);
      assert s == [s[0]] + s[1..];
    }
  }

  /** The sort orders its input by non-decreasing key. */
  lemma {:induction false} SortBySorted<T>(s: seq<T>, key: T -> Key)
    ensures SortedBy(SortBy(s, key), key)
  {
    if s != [] {
      SortBySorted(s[1..], key);
      InsertSorted(s[0], SortBy(s[1..], key), key);
    }
  }

  /** The sort is stable: for every key, the elements with that key keep their order. */
  lemma {:induction false} SortByStable<T>(s: seq<T>, key: T -> Key, k: Key)
    ensures WithKey(SortBy(s, key), key, k) == WithKey(s, key, k)
  {
    if s != [] {
      SortByStable(s[1..], key, k);
      InsertWithKey(s[0], SortBy(s[1..], key), key, k);
    }
  }

  /** `sort_chapters` returns a permutation of its input, ordered by
      non-decreasing `chapter_key`, and chapters with equal keys keep their order. */
  lemma SortChaptersCorrect(chapters: seq<Chapter>, k: Key)
    requires Numbered(chapters)
    ensures multiset(SortChapters(chapters)) == multiset(chapters)
    ensures forall i, j :: 0 <= i < j < |chapters| ==>
      KeyLe(SortKey(SortChapters(chapters)[i]), SortKey(SortChapters(chapters)[j]))
    ensures WithKey(SortChapters(chapters), SortKey, k) == WithKey(chapters, SortKey, k)
  {
    SortByPermutation(chapters, SortKey);
    SortBySorted(chapters, SortKey);
    SortByStable(chapters, SortKey, k);
  }

  lemma {:induction false} DigitRunPrefix(w: string, rest: string)
    requires AllDigits(w)
    requires rest == [] || !IsDigit(rest[0])
    ensures DigitRun(w + rest) == |w|
  {
    if w != [] {
      assert (w + rest)[1..] == w[1..] + rest;
      DigitRunPrefix(w[1..], rest);
    }
  }

  lemma {:induction false} FirstDigitAfter(p: string, d: string)
    requires forall i :: 0 <= i < |p| ==> !IsDigit(p[i])
    requires d != [] && IsDigit(d[0])
    ensures FirstDigit(p + d) == |p|
  {
    if p != [] {
      assert (p + d)[1..] == p[1..] + d;
      FirstDigitAfter(p[1..], d);
    }
  }

  lemma ParseUnsignedDecimal(whole: string, frac: string)
    requires whole != [] && AllDigits(whole) && AllDigits(frac)
    ensures ParseUnsigned(whole + ['.'] + frac) == Some(DecimalValue(whole, frac))
  {
    var s := whole + ['.'] + frac;
    DigitRunPrefix(whole, ['.'] + frac);
    assert s == whole + (['.'] + frac);
    assert DigitRun(s) == |whole|;
    assert s[..|whole|] == whole;
    assert s[|whole| + 1..] == frac;
  }

  /** A number written `whole.frac` sorts by its decimal value. */
  lemma ChapterKeyOfDecimal(whole: string, frac: string)
    requires whole != [] && frac != [] && AllDigits(whole) && AllDigits(frac)
    ensures ChapterKey(whole + ['.'] + frac) == Finite(DecimalValue(whole, frac))
  {
    var s := whole + ['.'] + frac;
    assert s[0] == whole[0] && s[|s| - 1] == frac[|frac| - 1];
    StripNoSpace(s);
    ParseUnsignedDecimal(whole, frac);
    assert ParseDecimal(s) == ParseUnsigned(s);
  }

  lemma ParseUnsignedNoLead(s: string)
    requires s != [] && !IsDigit(s[0]) && s[0] != '.'
    ensures ParseUnsigned(s).None?
  {
    assert DigitRun(s) == 0;
  }

  lemma ParseDecimalLetter(s: string)
    requires s != [] && 'a' <= s[0] <= 'z' && !IsSpace(s[|s| - 1])
    ensures ParseDecimal(s).None?
  {
    StripNoSpace(s);
    ParseUnsignedNoLead(s);
  }

  lemma {:induction false} FirstNumberTokenDigits(prefix: string, digits: string)
    requires forall i :: 0 <= i < |prefix| ==> !IsDigit(prefix[i])
    requires digits != [] && AllDigits(digits)
    ensures FirstNumberToken(prefix + digits) == Some(DigitsValue(digits) as real)
  {
    var s := prefix + digits;
    FirstDigitAfter(prefix, digits);
    assert s[|prefix|..] == digits;
    DigitRunAll(digits);
    assert digits[..|digits|] == digits;
  }

  /** A number made of a word that starts with a letter and holds no digit,
      followed by digits, sorts by the value of those digits. */
  lemma ChapterKeyOfToken(prefix: string, digits: string)
    requires prefix != [] && 'a' <= prefix[0] <= 'z'
    requires forall i :: 0 <= i < |prefix| ==> !IsDigit(prefix[i])
    requires digits != [] && AllDigits(digits)
    ensures ChapterKey(prefix + digits) == Finite(DigitsValue(digits) as real)
  {
    var s := prefix + digits;
    assert s[0] == prefix[0] && s[|s| - 1] == digits[|digits| - 1];
    ParseDecimalLetter(s);
    FirstNumberTokenDigits(prefix, digits);
  }

  /** Five chapters keyed 3, 1, 2.5, 10 and infinity come out in key order. */
  lemma SortFive<T>(a: T, b: T, c: T, d: T, e: T, key: T -> Key)
    requires key(a) == Finite(3.0) && key(b) == Finite(1.0) && key(c) == Finite(2.5)
    requires key(d) == Finite(10.0) && key(e) == Inf
    ensures SortBy([a, b, c, d, e], key) == [b, c, a, d, e]
  {
    var s := [a, b, c, d, e];
    assert s[1..] == [b, c, d, e];
    assert s[1..][1..] == [c, d, e];
    assert s[1..][1..][1..] == [d, e];
    assert s[1..][1..][1..][1..] == [e];
    assert SortBy([e], key) == [e];
    assert SortBy([d, e], key) == [d, e];
    assert SortBy([c, d, e], key) == [c, d, e];
    assert InsertBy(b, [c, d, e], key) == [b, c, d, e];
    assert [b, c, d, e][1..] == [c, d, e];
    assert [c, d, e][1..] == [d, e];
    assert InsertBy(a, [d, e], key) == [a, d, e];
    assert InsertBy(a, [c, d, e], key) == [c, a, d, e];
    assert InsertBy(a, [b, c, d, e], key) == [b, c, a, d, e];
  }

  lemma DecimalExampleValue()
    ensures DecimalValue("2", "5") == 2.5
  {
    assert DigitsValue("5") == 5;
    assert DigitsValue("2") == 2;
  }

  /** A one-digit number sorts by that digit. */
  lemma KeyOfOneDigit(s: string)
    requires |s| == 1 && IsDigit(s[0])
    ensures ChapterKey(s) == Finite((s[0] as int - '0' as int) as real)
  {
    ChapterKeyOfDigits(s);
    assert s[..0] == [];
  }

  lemma KeyOfDecimalExample(s: string)
    requires s == "2.5"
    ensures ChapterKey(s) == Finite(2.5)
  {
    assert s == "2" + ['.'] + "5";
    ChapterKeyOfDecimal("2", "5");
    DecimalExampleValue();
  }

  lemma TenValue()
    ensures DigitsValue("10") == 10
  {
    assert "10"[..1] == "1";
  }

  lemma TokenExampleText()
    ensures "abc " + "10" == "abc 10"
  {
  }

  lemma KeyOfTokenExample(s: string)
    requires s == "abc 10"
    ensures ChapterKey(s) == Finite(10.0)
  {
    TokenExampleText();
    ChapterKeyOfToken("abc ", "10");
    TenValue();
  }

  lemma KeyOfWordExample(s: string)
    requires s == "xyz"
    ensures ChapterKey(s) == Inf
  {
    assert |s| == 3 && s[0] == 'x' && s[1] == 'y' && s[2] == 'z';
    assert forall i :: 0 <= i < |s| ==> !IsDigit(s[i]);
  }

  lemma ExampleKeys(a: Chapter, b: Chapter, c: Chapter, d: Chapter, e: Chapter)
    requires a.number == Some("3") && b.number == Some("1") && c.number == Some("2.5")
    requires d.number == Some("abc 10") && e.number == Some("xyz")
    ensures SortKey(a) == Finite(3.0) && SortKey(b) == Finite(1.0) && SortKey(c) == Finite(2.5)
    ensures SortKey(d) == Finite(10.0) && SortKey(e) == Inf
  {
    KeyOfOneDigit(a.number.value);
    KeyOfOneDigit(b.number.value);
    KeyOfDecimalExample(c.number.value);
    KeyOfTokenExample(d.number.value);
    KeyOfWordExample(e.number.value);
  }

  /** Chapters numbered "3", "1", "2.5", "abc 10" and
      "xyz" sort as 1, 2.5, 3, 10 and then "xyz" (key infinity). */
  lemma SortExample(a: Chapter, b: Chapter, c: Chapter, d: Chapter, e: Chapter)
    requires a.number == Some("3") && b.number == Some("1") && c.number == Some("2.5")
    requires d.number == Some("abc 10") && e.number == Some("xyz")
    ensures SortChapters([a, b, c, d, e]) == [b, c, a, d, e]
  {
    ExampleKeys(a, b, c, d, e);
    SortFive(a, b, c, d, e, SortKey);
  }
}
