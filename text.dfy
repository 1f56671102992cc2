/**
 * The string primitives the search engine relies on, modelled after the
 * Python built-ins it calls: `str.isspace`, `str.strip`, `str.split()`
 * (no argument), `str.lower`, `str.isdigit`, `int(...)` and the substring
 * test `part in text`.
 */
module Text {

  /** The characters for which Python's `str.isspace()` holds. */
  predicate IsSpace(c: char) {
    || c == ' ' || c == '\t' || c == '\n' || c == '\r'
    || c == '\U{B}' || c == '\U{C}'
    || ('\U{1C}' <= c <= '\U{1F}')
    || c == '\U{85}' || c == '\U{A0}' || c == '\U{1680}'
    || ('\U{2000}' <= c <= '\U{200A}')
    || c == '\U{2028}' || c == '\U{2029}' || c == '\U{202F}'
    || c == '\U{205F}' || c == '\U{3000}'
  }

  /** Every character of `s` is whitespace (vacuously so for the empty string). */
  predicate IsBlank(s: string) {
    forall i :: 0 <= i < |s| ==> IsSpace(s[i])
  }

  /** A token produced by `str.split()`: non-empty, without whitespace. */
  predicate IsWord(w: string) {
    w != [] && forall i :: 0 <= i < |w| ==> !IsSpace(w[i])
  }

  /** A concatenation is all whitespace exactly when both parts are. */
  lemma BlankConcat(a: string, b: string)
    ensures IsBlank(a + b) <==> IsBlank(a) && IsBlank(b)
  {
    if IsBlank(a + b) {
      forall i | 0 <= i < |a| ensures IsSpace(a[i]) { assert a[i] == (a + b)[i]; }
      forall i | 0 <= i < |b| ensures IsSpace(b[i]) { assert b[i] == (a + b)[|a| + i]; }
    }
  }

  /** The number of whitespace characters `s` starts with. */
  function LeadingSpaces(s: string): (n: nat)
    ensures n <= |s|
    ensures forall i :: 0 <= i < n ==> IsSpace(s[i])
    ensures n < |s| ==> !IsSpace(s[n])
  {
    if s != [] && IsSpace(s[0]) then 1 + LeadingSpaces(s[1..]) else 0
  }

  /** The length of `s` once its trailing whitespace is cut off. */
  function ContentEnd(s: string): (n: nat)
    ensures n <= |s|
    ensures forall i :: n <= i < |s| ==> IsSpace(s[i])
    ensures n > 0 ==> !IsSpace(s[n - 1])
  {
    if s != [] && IsSpace(s[|s| - 1]) then ContentEnd(s[..|s| - 1]) else |s|
  }

  /** `s.lstrip()`: drops the leading whitespace. */
  function TrimStart(s: string): (r: string)
    ensures |r| <= |s| && r == s[|s| - |r|..]
    ensures forall i :: 0 <= i < |s| - |r| ==> IsSpace(s[i])
    ensures r == [] || !IsSpace(r[0])
    ensures r == [] <==> IsBlank(s)
  {
    s[LeadingSpaces(s)..]
  }

  /** `s.rstrip()`: drops the trailing whitespace. */
  function TrimEnd(s: string): (r: string)
    ensures |r| <= |s| && r == s[..|r|]
    ensures forall i :: |r| <= i < |s| ==> IsSpace(s[i])
    ensures r == [] || !IsSpace(r[|r| - 1])
    ensures r == [] <==> IsBlank(s)
  {
    s[..ContentEnd(s)]
  }

  /** `r` is the slice of `s` starting at `i`, with only whitespace before and after it. */
  predicate BlankAround(s: string, r: string, i: nat) {
    && i + |r| <= |s| && s[i..i + |r|] == r
    && (forall j :: 0 <= j < i ==> IsSpace(s[j]))
    && (forall j :: i + |r| <= j < |s| ==> IsSpace(s[j]))
  }

  /**
   * `s.strip()`: what is left once leading and trailing whitespace is gone;
   * it is empty exactly when `s` is blank.
   */
  function Strip(s: string): (r: string)
    ensures |r| <= |s|
    ensures r == [] <==> IsBlank(s)
    ensures r == [] || (!IsSpace(r[0]) && !IsSpace(r[|r| - 1]))
    ensures exists i :: 0 <= i <= |s| && BlankAround(s, r, i)
  {
    StripBlank(s);
    StripEnds(s);
    StripAround(s);
    TrimEnd(TrimStart(s))
  }

  /** A prefix of a suffix is a slice. */
  lemma SliceOfSuffix(s: string, i: nat, k: nat)
    requires i + k <= |s|
    ensures s[i..][..k] == s[i..i + k]
  {
  }

  /** Stripping leaves nothing exactly when the string is all whitespace. */
  lemma StripBlank(s: string)
    ensures TrimEnd(TrimStart(s)) == [] <==> IsBlank(s)
  {
    assert TrimStart(s) != [] ==> !IsBlank(TrimStart(s));
  }

  /** A stripped string neither starts nor ends with whitespace. */
  lemma StripEnds(s: string)
    ensures var r := TrimEnd(TrimStart(s));
      r == [] || (!IsSpace(r[0]) && !IsSpace(r[|r| - 1]))
  {
    var t := TrimStart(s);
    var r := TrimEnd(t);
    if r != [] {
      assert r[0] == t[0];
    }
  }

  /** A stripped string is the slice of `s` left between its leading and its trailing whitespace. */
  lemma StripAround(s: string)
    ensures BlankAround(s, TrimEnd(TrimStart(s)), |s| - |TrimStart(s)|)
  {
    var t := TrimStart(s);
    var r := TrimEnd(t);
    var i := |s| - |t|;
    assert s[i..i + |r|] == r by {
      SliceOfSuffix(s, i, |r|);
    }
    assert forall j :: i + |r| <= j < |s| ==> IsSpace(s[j]) by {
      forall j | i + |r| <= j < |s| ensures IsSpace(s[j]) {
        assert s[j] == t[j - i];
      }
    }
  }

  /** The length of the word `s` starts with. */
  function WordLength(s: string): (n: nat)
    requires s != [] && !IsSpace(s[0])
    ensures 0 < n <= |s|
    ensures forall i :: 0 <= i < n ==> !IsSpace(s[i])
    ensures n < |s| ==> IsSpace(s[n])
  {
    if |s| == 1 || IsSpace(s[1]) then 1 else 1 + WordLength(s[1..])
  }

  /**
   * `s.split()`: the maximal runs of non-whitespace characters, in order;
   * runs of whitespace separate tokens and no empty token is produced.
   */
  function Split(s: string): (words: seq<string>)
    ensures forall i :: 0 <= i < |words| ==> IsWord(words[i])
    ensures words == [] <==> IsBlank(s)
    decreases |s|
  {
    if s == [] then []
    else if IsSpace(s[0]) then
      var rest := Split(s[1..]);
      assert s == [s[0]] + s[1..];
      BlankConcat([s[0]], s[1..]);
      rest
    else
      var n := WordLength(s);
      [s[..n]] + Split(s[n..])
  }

  /** `part` occurs in `text` starting at index `i`. */
  predicate OccursAt(text: string, part: string, i: nat) {
    i + |part| <= |text| && text[i..i + |part|] == part
  }

  /** Python's `part in text` for strings: `part` occurs contiguously in `text`. */
  predicate Contains(text: string, part: string)
    ensures part == [] ==> Contains(text, part)
    ensures Contains(text, part) ==> |part| <= |text|
  {
    assert part == [] ==> OccursAt(text, part, 0);
    exists i :: 0 <= i <= |text| - |part| && OccursAt(text, part, i)
  }

  /** `str.lower()` on the letters of the two corpus alphabets: Latin A-Z and Cyrillic. */
  function LowerChar(c: char): char {
    if 'A' <= c <= 'Z' then (c as int + 32) as char
    else if '\U{410}' <= c <= '\U{42F}' then (c as int + 32) as char
    else if '\U{400}' <= c <= '\U{40F}' then (c as int + 80) as char
    else c
  }

  /** A capital of the two corpus alphabets: Latin A-Z or Cyrillic U+0400..U+042F. */
  predicate IsUpper(c: char) {
    ('A' <= c <= 'Z') || ('\U{400}' <= c <= '\U{42F}')
  }

  /**
   * `s.lower()`: no capital is left, every other character is kept, and each
   * capital becomes its own small letter (Latin and U+0410..U+042F shift by 32,
   * U+0400..U+040F by 80).
   */
  function Lower(s: string): (r: string)
    ensures |r| == |s|
    ensures forall i :: 0 <= i < |r| ==> !IsUpper(r[i])
    ensures forall i :: 0 <= i < |s| && !IsUpper(s[i]) ==> r[i] == s[i]
    ensures forall i :: 0 <= i < |s| && IsUpper(s[i]) ==>
      r[i] as int == s[i] as int + (if '\U{400}' <= s[i] <= '\U{40F}' then 80 else 32)
  {
    seq(|s|, i requires 0 <= i < |s| => LowerChar(s[i]))
  }

  /** `s.isdigit()` for ASCII digits: non-empty and every character a digit. */
  predicate IsDigits(s: string)
    ensures IsDigits(s) ==> !IsBlank(s)
  {
    assert s != [] && IsBlank(s) ==> IsSpace(s[0]);
    s != [] && forall i :: 0 <= i < |s| ==> '0' <= s[i] <= '9'
  }

  /** `int(s)` for a string of decimal digits. */
  function DecimalValue(s: string): (v: nat)
    requires forall i :: 0 <= i < |s| ==> '0' <= s[i] <= '9'
    ensures v == 0 <==> forall i :: 0 <= i < |s| ==> s[i] == '0'
  {
    if s == [] then 0
    else DecimalValue(s[..|s| - 1]) * 10 + (s[|s| - 1] as int - '0' as int)
  }

  /** `str(n)` for a natural number: its decimal digits, without leading zeros. */
  function DecimalString(n: nat): (s: string)
    ensures IsDigits(s)
    ensures s[0] == '0' ==> n == 0
  {
    if n < 10 then [('0' as int + n) as char]
    else DecimalString(n / 10) + [('0' as int + n % 10) as char]
  }

  // ----- lemmas -----

  /** Lower-casing twice is lower-casing once. */
  lemma LowerIdempotent(s: string)
    ensures Lower(Lower(s)) == Lower(s)
  {
    forall i | 0 <= i < |s| ensures LowerChar(LowerChar(s[i])) == LowerChar(s[i]) {
    }
  }

  /** `int(str(n)) == n`. */
  lemma {:induction false} DecimalRoundTrip(n: nat)
    ensures DecimalValue(DecimalString(n)) == n
  {
    if n >= 10 {
      DecimalRoundTrip(n / 10);
      var s := DecimalString(n);
      assert s[..|s| - 1] == DecimalString(n / 10);
    }
  }

  /** Leading zeros do not change the value: `int("07") == int("7")`. */
  lemma {:induction false} LeadingZero(s: string)
    requires forall i :: 0 <= i < |s| ==> '0' <= s[i] <= '9'
    ensures DecimalValue(['0'] + s) == DecimalValue(s)
  {
    if s != [] {
      LeadingZero(s[..|s| - 1]);
      assert (['0'] + s)[..|s|] == ['0'] + s[..|s| - 1];
    }
  }

  /** Every string contains itself: Python's `t in t` is true. */
  lemma ContainsSelf(t: string)
    ensures Contains(t, t)
  {
    assert OccursAt(t, t, 0);
  }

  /** Stripping a stripped string changes nothing. */
  lemma StripIdempotent(s: string)
    ensures Strip(Strip(s)) == Strip(s)
  {
    var r := Strip(s);
    assert LeadingSpaces(r) == 0;
    assert ContentEnd(r) == |r|;
  }

  /**
   * `query.lower().strip()` is a fixed point of itself, and it keeps the
   * query's class: blank exactly when the stripped query is blank, all
   * digits exactly when the stripped query is, and then the same digits.
   */
  lemma NormalisedQuery(q: string)
    ensures var n := Strip(Lower(q));
      && Strip(Lower(n)) == n
      && (n == [] <==> Strip(q) == [])
      && (IsDigits(n) <==> IsDigits(Strip(q)))
      && (IsDigits(Strip(q)) ==> n == Strip(q))
  {
    NormalisedFixed(q);
    NormalisedBlank(q);
    if IsDigits(Strip(q)) {
      NormalisedDigits(q);
    }
    LowerKeepsDigits(q);
  }

  /** The normalised query normalises to itself. */
  lemma NormalisedFixed(q: string)
    ensures Strip(Lower(Strip(Lower(q)))) == Strip(Lower(q))
  {
    var l := Lower(q);
    var n := Strip(l);
    StripNoUpper(l);
    LowerFixedPoint(n);
    StripIdempotent(l);
  }

  /** Stripping a string without capitals leaves a string without capitals. */
  lemma StripNoUpper(s: string)
    requires forall j :: 0 <= j < |s| ==> !IsUpper(s[j])
    ensures forall j :: 0 <= j < |Strip(s)| ==> !IsUpper(Strip(s)[j])
  {
    var r := Strip(s);
    var i :| 0 <= i <= |s| && BlankAround(s, r, i);
    forall j | 0 <= j < |r| ensures !IsUpper(r[j]) {
      assert r[j] == s[i + j];
    }
  }

  /** A string without capitals is its own lower-case form. */
  lemma LowerFixedPoint(s: string)
    requires forall j :: 0 <= j < |s| ==> !IsUpper(s[j])
    ensures Lower(s) == s
  {
  }

  /** The normalised query is empty exactly when the stripped query is. */
  lemma NormalisedBlank(q: string)
    ensures Strip(Lower(q)) == [] <==> Strip(q) == []
  {
    var l := Lower(q);
    forall j | 0 <= j < |q| ensures IsSpace(l[j]) <==> IsSpace(q[j]) {
      LowerCharClass(q[j]);
    }
    assert IsBlank(l) <==> IsBlank(q);
  }

  /** A query whose stripped form is all digits has no capital, so lower-casing keeps it. */
  lemma NormalisedDigits(q: string)
    requires IsDigits(Strip(q))
    ensures Lower(q) == q
  {
    SpacesAndDigits(q);
    assert forall j :: 0 <= j < |q| ==> !IsUpper(q[j]);
  }

  /** Lower-casing a string made of whitespace and digits alone means it had no capital. */
  lemma LowerKeepsDigits(q: string)
    ensures IsDigits(Strip(Lower(q))) ==> Lower(q) == q
  {
    var l := Lower(q);
    if IsDigits(Strip(l)) {
      SpacesAndDigits(l);
      forall j | 0 <= j < |q| ensures !IsUpper(q[j]) {
        assert l[j] == LowerChar(q[j]);
        LowerCharClass(q[j]);
      }
    }
  }

  /** Lower-casing keeps whitespace, digits and every character that is not a capital. */
  lemma LowerCharClass(c: char)
    ensures IsSpace(LowerChar(c)) <==> IsSpace(c)
    ensures IsUpper(c) ==> !IsSpace(LowerChar(c)) && !('0' <= LowerChar(c) <= '9')
  {
  }

  /** A string whose stripped form is all digits holds nothing but whitespace and digits. */
  lemma SpacesAndDigits(s: string)
    requires IsDigits(Strip(s))
    ensures forall j :: 0 <= j < |s| ==> IsSpace(s[j]) || '0' <= s[j] <= '9'
  {
    var r := Strip(s);
    var i :| 0 <= i <= |s| && BlankAround(s, r, i);
    forall j | 0 <= j < |s| ensures IsSpace(s[j]) || '0' <= s[j] <= '9' {
      if i <= j < i + |r| {
        assert s[j] == r[j - i];
      }
    }
  }


  /** A whitespace character splits a string into the words before it and the words after it. */
  lemma {:induction false} SplitAtSpace(a: string, c: char, b: string)
    requires IsSpace(c)
    ensures Split(a + [c] + b) == Split(a) + Split(b)
    decreases |a|
  {
    if a == [] {
      SplitSkipSpace(a + [c] + b);
      assert (a + [c] + b)[1..] == b;
    } else if IsSpace(a[0]) {
      SplitLeadingSpace(a, c, b);
      SplitAtSpace(a[1..], c, b);
    } else {
      var m := WordLength(a);
      SplitFirstWord(a, c, b);
      SplitAtSpace(a[m..], c, b);
      ConcatAssoc([a[..m]], Split(a[m..]), Split(b));
    }
  }

  /** Joining word lists is associative. */
  lemma ConcatAssoc(x: seq<string>, y: seq<string>, z: seq<string>)
    ensures x + (y + z) == (x + y) + z
  {
  }

  /** `split()` skips a leading whitespace character. */
  lemma SplitSkipSpace(s: string)
    requires s != [] && IsSpace(s[0])
    ensures Split(s) == Split(s[1..])
  {
  }

  /** A leading whitespace character of `a` is skipped, whatever follows `a`. */
  lemma SplitLeadingSpace(a: string, c: char, b: string)
    requires a != [] && IsSpace(a[0])
    ensures Split(a + [c] + b) == Split(a[1..] + [c] + b)
    ensures Split(a) == Split(a[1..])
  {
    SplitSkipSpace(a + [c] + b);
    assert (a + [c] + b)[1..] == a[1..] + [c] + b;
  }

  /** The first word of `a` stays the first word when whitespace and more text follow `a`. */
  lemma SplitFirstWord(a: string, c: char, b: string)
    requires IsSpace(c) && a != [] && !IsSpace(a[0])
    ensures Split(a + [c] + b) == [a[..WordLength(a)]] + Split(a[WordLength(a)..] + [c] + b)
    ensures Split(a) == [a[..WordLength(a)]] + Split(a[WordLength(a)..])
  {
    var s := a + [c] + b;
    var m := WordLength(a);
    assert forall i :: 0 <= i < m ==> s[i] == a[i];
    assert m < |s| && IsSpace(s[m]) by {
      if m < |a| { assert s[m] == a[m]; } else { assert s[m] == c; }
    }
    WordLengthFirstSpace(s, m);
    assert s[..m] == a[..m];
    assert s[m..] == a[m..] + [c] + b;
  }

  /** The word length is the position of the first whitespace, or the whole length. */
  lemma WordLengthFirstSpace(s: string, n: nat)
    requires 0 < n <= |s| && !IsSpace(s[0])
    requires forall i :: 0 <= i < n ==> !IsSpace(s[i])
    requires n < |s| ==> IsSpace(s[n])
    ensures WordLength(s) == n
  {
  }

  /** A string that is a single word splits into exactly itself. */
  lemma {:induction false} SplitWord(w: string)
    requires IsWord(w)
    ensures Split(w) == [w]
  {
    var n := WordLength(w);
    assert n == |w|;
    assert w[..n] == w;
    assert w[n..] == [];
  }
}
