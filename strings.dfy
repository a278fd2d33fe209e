/** The .NET string operations the SCIM core relies on: string.IsNullOrWhiteSpace,
    ordinal string.Split with a string separator, lower-casing, and the decimal
    text of an Int32. */
module Strings {
  import opened Common

  /** char.IsWhiteSpace: the Unicode space, line and paragraph separators,
      U+0009 to U+000D and U+0085. */
  predicate IsWhiteSpace(c: char) {
    || c == ' '
    || '\U{0009}' <= c <= '\U{000D}'
    || c == '\U{0085}' || c == '\U{00A0}' || c == '\U{1680}'
    || '\U{2000}' <= c <= '\U{200A}'
    || c == '\U{2028}' || c == '\U{2029}' || c == '\U{202F}' || c == '\U{205F}' || c == '\U{3000}'
  }

  /** string.IsNullOrWhiteSpace, with None standing for null. */
  predicate IsNullOrWhiteSpace(s: Option<string>) {
    s.None? || forall i :: 0 <= i < |s.value| ==> IsWhiteSpace(s.value[i])
  }

  predicate OccursAt(s: string, sep: string, i: nat) {
    i + |sep| <= |s| && s[i..i + |sep|] == sep
  }

  predicate Contains(s: string, sep: string) {
    exists i :: 0 <= i <= |s| && OccursAt(s, sep, i)
  }

  lemma OccursAtShift(s: string, sep: string, i: nat)
    requires |s| > 0
    ensures OccursAt(s[1..], sep, i) <==> OccursAt(s, sep, i + 1)
  {
    if i + |sep| <= |s[1..]| {
      assert s[1..][i..i + |sep|] == s[i + 1..i + 1 + |sep|];
    }
  }

  /** The ordinal search string.Split performs: the first occurrence of sep. */
  function Find(s: string, sep: string): (r: Option<nat>)
    requires |sep| > 0
    ensures r.None? <==> !Contains(s, sep)
    ensures r.Some? ==> OccursAt(s, sep, r.value)
    ensures r.Some? ==> forall j :: 0 <= j < r.value ==> !OccursAt(s, sep, j)
    decreases |s|
  {
    if |s| < |sep| then None
    else if s[..|sep|] == sep then assert OccursAt(s, sep, 0); Some(0)
    else
      var rest := Find(s[1..], sep);
      assert !OccursAt(s, sep, 0);
      forall j | 0 <= j <= |s[1..]|
        ensures OccursAt(s[1..], sep, j) <==> OccursAt(s, sep, j + 1)
      {
        OccursAtShift(s, sep, j);
      }
      match rest
      case None =>
        assert forall j :: 1 <= j <= |s| ==> !OccursAt(s, sep, j) by {
          forall j | 1 <= j <= |s| ensures !OccursAt(s, sep, j) {
            OccursAtShift(s, sep, j - 1);
          }
        }
        None
      case Some(i) =>
        assert forall j :: 1 <= j < i + 1 ==> !OccursAt(s, sep, j) by {
          forall j | 1 <= j < i + 1 ensures !OccursAt(s, sep, j) {
            OccursAtShift(s, sep, j - 1);
          }
        }
        Some(i + 1)
  }

  /** string.Split(sep) with StringSplitOptions.None: the pieces between
      non-overlapping occurrences of sep, found left to right. */
  function Split(s: string, sep: string): (parts: seq<string>)
    requires |sep| > 0
    ensures |parts| >= 1
    decreases |s|
  {
    match Find(s, sep)
    case None => [s]
    case Some(i) => [s[..i]] + Split(s[i + |sep|..], sep)
  }

  /** Split yields exactly two pieces when, and only when, sep occurs once in
      the left-to-right scan; the pieces are the text around that occurrence. */
  lemma SplitInTwo(s: string, sep: string)
    requires |sep| > 0
    ensures |Split(s, sep)| == 2 <==>
              Find(s, sep).Some? && !Contains(s[Find(s, sep).value + |sep|..], sep)
    ensures |Split(s, sep)| == 2 ==>
              Split(s, sep) == [s[..Find(s, sep).value], s[Find(s, sep).value + |sep|..]]
  {
    match Find(s, sep)
    case None =>
    case Some(i) =>
      var rest := s[i + |sep|..];
      assert Split(s, sep) == [s[..i]] + Split(rest, sep);
      match Find(rest, sep)
      case None =>
      case Some(k) =>
        assert |Split(rest, sep)| >= 2;
  }

  /** Lower-casing of one character, on the ASCII letters. */
  function ToLowerChar(c: char): (r: char)
    ensures 'A' <= c <= 'Z' ==> r as int == c as int + 32
    ensures !('A' <= c <= 'Z') ==> r == c
  {
    if 'A' <= c <= 'Z' then (c as int + 32) as char else c
  }

  /** string.ToLower, character by character. */
  function ToLower(s: string): (r: string)
    ensures |r| == |s|
    ensures forall i :: 0 <= i < |s| ==> r[i] == ToLowerChar(s[i])
  {
    seq(|s|, i requires 0 <= i < |s| => ToLowerChar(s[i]))
  }

  /** A text equals a lower-case ASCII word after ToLower exactly when it
      spells that word with each letter in either case. */
  lemma {:induction false} ToLowerMatchesEitherCase(s: string, word: string)
    requires forall i :: 0 <= i < |word| ==> 'a' <= word[i] <= 'z'
    ensures ToLower(s) == word <==>
              |s| == |word| &&
              forall i :: 0 <= i < |s| ==> s[i] == word[i] || s[i] as int == word[i] as int - 32
  {
    if ToLower(s) == word {
      forall i | 0 <= i < |s|
        ensures s[i] == word[i] || s[i] as int == word[i] as int - 32
      {
        assert ToLower(s)[i] == ToLowerChar(s[i]);
      }
    }
    if |s| == |word| && forall i :: 0 <= i < |s| ==> s[i] == word[i] || s[i] as int == word[i] as int - 32 {
      forall i | 0 <= i < |s|
        ensures ToLower(s)[i] == word[i]
      {
        assert ToLower(s)[i] == ToLowerChar(s[i]);
      }
    }
  }

  predicate IsDigit(c: char) { '0' <= c <= '9' }

  predicate IsDecimal(s: string) {
    |s| > 0 && forall i :: 0 <= i < |s| ==> IsDigit(s[i])
  }

  function DigitChar(d: nat): (c: char)
    requires d < 10
    ensures IsDigit(c) && c as int - '0' as int == d
  {
    ('0' as int + d) as char
  }

  /** Int32.ToString of a non-negative value: most significant digit first. */
  function NatToString(n: nat): (r: string)
    ensures IsDecimal(r)
    decreases n
  {
    if n < 10 then [DigitChar(n)] else NatToString(n / 10) + [DigitChar(n % 10)]
  }

  /** The value of a decimal text; the inverse of NatToString. */
  function DecimalValue(s: string): nat
    requires IsDecimal(s)
    decreases |s|
  {
    var d := s[|s| - 1] as int - '0' as int;
    if |s| == 1 then d else DecimalValue(s[..|s| - 1]) * 10 + d
  }

  lemma {:induction false} DecimalRoundTrip(n: nat)
    ensures DecimalValue(NatToString(n)) == n
    decreases n
  {
    if n >= 10 {
      DecimalRoundTrip(n / 10);
      var s := NatToString(n);
      assert s[..|s| - 1] == NatToString(n / 10);
    }
  }

  /** Int32.ToString: a minus sign before the digits of a negative value. */
  function IntToString(n: int): (r: string)
    ensures n >= 0 ==> IsDecimal(r)
    ensures n < 0 ==> |r| > 1 && r[0] == '-' && IsDecimal(r[1..])
  {
    if n < 0 then "-" + NatToString(-n) else NatToString(n)
  }

  predicate IsIntText(s: string) {
    IsDecimal(s) || (|s| > 1 && s[0] == '-' && IsDecimal(s[1..]))
  }

  function IntValue(s: string): int
    requires IsIntText(s)
  {
    if s[0] == '-' then -(DecimalValue(s[1..]) as int) else DecimalValue(s)
  }

  /** The text IntToString gives reads back as the same number, so two
      different Ids never share a wire id. */
  lemma IntToStringRoundTrip(n: int)
    ensures IsIntText(IntToString(n)) && IntValue(IntToString(n)) == n
  {
    if n < 0 {
      DecimalRoundTrip(-n);
      assert IntToString(n)[1..] == NatToString(-n);
    } else {
      DecimalRoundTrip(n);
    }
  }

  lemma IntToStringInjective(a: int, b: int)
    ensures IntToString(a) == IntToString(b) <==> a == b
  {
    IntToStringRoundTrip(a);
    IntToStringRoundTrip(b);
  }
}
