/**
 The string operations the catalogue relies on: `str.strip()`, `str.lower()`,
 `int(...)` on a string, `str(...)` on an integer and the substring test
 `needle in haystack`. Each is a simplified but explicit model of the Python
 built-in; the simplifications are listed in README.md.
 */
module Text {
  import opened Wrappers

  /**
   The characters Python's `str.isspace` accepts: those `strip()` skips. `int()` skips
   them too, except U+001C-U+001F.
   */
  predicate IsSpace(c: char) {
    || ('\t' <= c <= '\r')
    || ('\U{1C}' <= c <= '\U{1F}')
    || c == ' ' || c == '\U{85}' || c == '\U{A0}' || c == '\U{1680}'
    || ('\U{2000}' <= c <= '\U{200A}')
    || c == '\U{2028}' || c == '\U{2029}' || c == '\U{202F}' || c == '\U{205F}' || c == '\U{3000}'
  }

  /** The first position at or after `from` that holds no white space, or `|s|`. */
  function SkipLeading(s: string, from: nat): (a: nat)
    requires from <= |s|
    ensures from <= a <= |s|
    ensures a < |s| ==> !IsSpace(s[a])
    ensures forall k :: from <= k < a ==> IsSpace(s[k])
    decreases |s| - from
  {
    if from < |s| && IsSpace(s[from]) then SkipLeading(s, from + 1) else from
  }

  /** The end of `s[lo..hi]` once its trailing white space is dropped. */
  function SkipTrailing(s: string, lo: nat, hi: nat): (b: nat)
    requires lo <= hi <= |s|
    ensures lo <= b <= hi
    ensures b > lo ==> !IsSpace(s[b - 1])
    ensures forall k :: b <= k < hi ==> IsSpace(s[k])
    decreases hi - lo
  {
    if hi > lo && IsSpace(s[hi - 1]) then SkipTrailing(s, lo, hi - 1) else hi
  }

  /** `r` is the slice of `s` that starts at `a`, and only white space lies outside it. */
  ghost predicate TrimmedFrom(s: string, r: string, a: nat) {
    && a + |r| <= |s| && r == s[a..a + |r|]
    && (forall k :: 0 <= k < a ==> IsSpace(s[k]))
    && (forall k :: a + |r| <= k < |s| ==> IsSpace(s[k]))
  }

  /** Python's `s.strip()`: drop white space at both ends. */
  function Strip(s: string): (r: string)
    ensures r == [] || (!IsSpace(r[0]) && !IsSpace(r[|r| - 1]))
    ensures exists a: nat :: TrimmedFrom(s, r, a)
  {
    var a := SkipLeading(s, 0);
    var r := s[a..SkipTrailing(s, a, |s|)];
    assert TrimmedFrom(s, r, a);
    r
  }

  /** `not s.strip()`: the string is empty once its white space is removed. */
  predicate IsBlank(s: string) {
    Strip(s) == []
  }

  /** A string is blank exactly when every character in it is white space. */
  lemma BlankIffAllSpace(s: string)
    ensures IsBlank(s) <==> forall k :: 0 <= k < |s| ==> IsSpace(s[k])
  {
    var a := SkipLeading(s, 0);
    assert a < |s| ==> SkipTrailing(s, a, |s|) > a;
  }

  /** A string with a non-space character at both ends is its own strip. */
  lemma StripOfTrimmed(s: string)
    requires s != [] && !IsSpace(s[0]) && !IsSpace(s[|s| - 1])
    ensures Strip(s) == s
  {
  }

  /**
   Python's `str.lower()` on one character: ASCII `A`-`Z`, Cyrillic `А`-`Я`
   and the Cyrillic capitals U+0400-U+040F (`Ё` among them) map to their small letters.
   */
  function LowerChar(c: char): (r: char)
    ensures 'A' <= c <= 'Z' ==> r as int == c as int + 32
    ensures '\U{410}' <= c <= '\U{42F}' ==> r as int == c as int + 0x20
    ensures '\U{400}' <= c <= '\U{40F}' ==> r as int == c as int + 0x50
    ensures !('A' <= c <= 'Z') && !('\U{400}' <= c <= '\U{42F}') ==> r == c
  {
    if 'A' <= c <= 'Z' then (c as int + 32) as char
    else if '\U{410}' <= c <= '\U{42F}' then (c as int + 0x20) as char
    else if '\U{400}' <= c <= '\U{40F}' then (c as int + 0x50) as char
    else c
  }

  /** Python's `s.lower()`, character by character. */
  function Lower(s: string): (r: string)
    ensures |r| == |s|
    ensures forall k :: 0 <= k < |s| ==> r[k] == LowerChar(s[k])
  {
    seq(|s|, k requires 0 <= k < |s| => LowerChar(s[k]))
  }

  /** Lowering twice is lowering once. */
  lemma LowerIdempotent(s: string)
    ensures Lower(Lower(s)) == Lower(s)
  {
  }

  /** `needle` occurs in `haystack` starting at position `i`. */
  ghost predicate OccursAt(needle: string, haystack: string, i: nat) {
    i + |needle| <= |haystack| && haystack[i..i + |needle|] == needle
  }

  /** Python's `needle in haystack` for strings. */
  predicate Contains(needle: string, haystack: string)
    decreases |haystack|
  {
    (|needle| <= |haystack| && haystack[..|needle|] == needle)
    || (|haystack| > 0 && Contains(needle, haystack[1..]))
  }

  /** `Contains` holds exactly when the needle occurs at some position of the haystack. */
  lemma {:induction false} ContainsIff(needle: string, haystack: string)
    ensures Contains(needle, haystack) <==> exists i: nat :: OccursAt(needle, haystack, i)
    decreases |haystack|
  {
    if |needle| <= |haystack| && haystack[..|needle|] == needle {
      assert OccursAt(needle, haystack, 0);
    } else if |haystack| > 0 {
      ContainsIff(needle, haystack[1..]);
      if Contains(needle, haystack[1..]) {
        var i: nat :| OccursAt(needle, haystack[1..], i);
        assert haystack[1..][i..i + |needle|] == haystack[i + 1..i + 1 + |needle|];
        assert OccursAt(needle, haystack, i + 1);
      } else {
        forall i: nat | OccursAt(needle, haystack, i) ensures false {
          assert i != 0;
          assert haystack[i..i + |needle|] == haystack[1..][i - 1..i - 1 + |needle|];
          assert OccursAt(needle, haystack[1..], i - 1);
        }
      }
    }
  }

  /** The empty string is in every string; nothing else is in the empty string. */
  lemma ContainsEmpty(needle: string, haystack: string)
    ensures Contains([], haystack)
    ensures Contains(needle, []) <==> needle == []
  {
  }

  predicate IsDigit(c: char) {
    '0' <= c <= '9'
  }

  /** A non-empty run of the ASCII decimal digits. */
  predicate IsDigits(s: string) {
    |s| > 0 && forall k :: 0 <= k < |s| ==> IsDigit(s[k])
  }

  /** The value of a run of decimal digits, most significant first. */
  function DigitsValue(s: string): (n: nat)
    requires forall k :: 0 <= k < |s| ==> IsDigit(s[k])
  {
    if s == [] then 0
    else
      assert IsDigit(s[|s| - 1]);
      var last: nat := s[|s| - 1] as int - '0' as int;
      DigitsValue(s[..|s| - 1]) * 10 + last
  }

  /**
   Python's `int(s)` for a string in base 10: surrounding white space is
   skipped, an optional `+` or `-` sign precedes a non-empty run of digits.
   `None` stands for the `ValueError` main.py catches.
   */
  function ParseInt(s: string): (r: Option<int>)
    ensures r.Some? ==> exists k :: 0 <= k < |s| && IsDigit(s[k])
  {
    var t := Strip(s);
    if |t| > 0 && (t[0] == '-' || t[0] == '+') then
      var digits := t[1..];
      if IsDigits(digits) then
        assert t[1] == digits[0];
        var magnitude: int := DigitsValue(digits);
        Some(if t[0] == '-' then -magnitude else magnitude)
      else None
    else if IsDigits(t) then
      assert t[0] in t;
      Some(DigitsValue(t))
    else None
  }

  function DigitChar(d: nat): (c: char)
    requires d < 10
    ensures IsDigit(c) && c as int - '0' as int == d
  {
    ('0' as int + d) as char
  }

  /** Python's `str(n)` for a natural number: its decimal digits without leading zeros. */
  function NatToString(n: nat): (s: string)
    ensures IsDigits(s)
    ensures DigitsValue(s) == n
    ensures s[0] == '0' ==> s == "0"
  {
    if n < 10 then [DigitChar(n)]
    else
      var high := NatToString(n / 10);
      var s := high + [DigitChar(n % 10)];
      assert s[..|s| - 1] == high;
      assert s[0] == high[0];
      s
  }

  /** Python's `str(n)` for an integer: a minus sign before the digits of a negative number. */
  function IntToString(n: int): (s: string)
    ensures s != [] && !IsSpace(s[0]) && !IsSpace(s[|s| - 1])
  {
    if n < 0 then "-" + NatToString(-n) else NatToString(n)
  }

  /** `int(str(n)) == n`: parsing the rendering of an integer gives it back. */
  lemma ParseIntToString(n: int)
    ensures ParseInt(IntToString(n)) == Some(n)
  {
    var s := IntToString(n);
    StripOfTrimmed(s);
    if n < 0 {
      assert s[1..] == NatToString(-n);
    } else {
      assert IsDigit(s[0]);
    }
  }
}
