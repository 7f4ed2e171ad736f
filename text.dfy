/** The string operations tasks.py relies on: `str.strip()` and the decimal form of an `int`
    inside an f-string. */
module Text {

  /** The characters Python's `str.isspace()` accepts; `str.strip()` removes exactly these. */
  predicate IsSpace(c: char) {
    || c == ' '
    || ('\t' <= c <= '\r')
    || ('\U{1C}' <= c <= '\U{1F}')
    || c == '\U{85}' || c == '\U{A0}' || c == '\U{1680}'
    || ('\U{2000}' <= c <= '\U{200A}')
    || c == '\U{2028}' || c == '\U{2029}' || c == '\U{202F}' || c == '\U{205F}' || c == '\U{3000}'
  }

  /** Every character of `s` is whitespace; the empty string is blank. */
  predicate IsBlank(s: string) {
    forall k | 0 <= k < |s| :: IsSpace(s[k])
  }

  /** The length of the run of whitespace at the start of `s`. */
  function LeadingSpaces(s: string): (n: nat)
    ensures n <= |s|
    ensures forall k | 0 <= k < n :: IsSpace(s[k])
    ensures n < |s| ==> !IsSpace(s[n])
  {
    if s != [] && IsSpace(s[0]) then 1 + LeadingSpaces(s[1..]) else 0
  }

  /** Where the run of whitespace at the end of `s` begins. */
  function TrailingStart(s: string): (m: nat)
    ensures m <= |s|
    ensures forall k | m <= k < |s| :: IsSpace(s[k])
    ensures m > 0 ==> !IsSpace(s[m - 1])
  {
    if s != [] && IsSpace(s[|s| - 1]) then TrailingStart(s[..|s| - 1]) else |s|
  }

  /** Python's `str.strip()`: drops the leading whitespace, then the trailing whitespace of what
      is left, so that the result neither starts nor ends with whitespace (see `TrimIsInfix`
      for what is dropped). */
  function Trim(s: string): (r: string)
    ensures |r| <= |s|
    ensures r == [] || (!IsSpace(r[0]) && !IsSpace(r[|r| - 1]))
  {
    var u := s[LeadingSpaces(s)..];
    u[..TrailingStart(u)]
  }

  /** The stripped text is the part of `s` between its leading and its trailing run of
      whitespace, which are all that is dropped. */
  lemma TrimIsInfix(s: string)
    ensures var i := LeadingSpaces(s);
      && i + |Trim(s)| <= |s|
      && (forall j | 0 <= j < |Trim(s)| :: Trim(s)[j] == s[i + j])
      && (forall k | 0 <= k < i :: IsSpace(s[k]))
      && (forall k | i + |Trim(s)| <= k < |s| :: IsSpace(s[k]))
  {
    var i := LeadingSpaces(s);
    var u := s[i..];
    var m := TrailingStart(u);
    forall j | 0 <= j < m ensures Trim(s)[j] == s[i + j] {
      assert Trim(s)[j] == u[j];
    }
    forall k | i + m <= k < |s| ensures IsSpace(s[k]) {
      assert s[k] == u[k - i];
    }
  }

  /** The stripped text is empty exactly when the input was blank. */
  lemma TrimEmptyIffBlank(s: string)
    ensures Trim(s) == [] <==> IsBlank(s)
  {
    var i := LeadingSpaces(s);
    if Trim(s) != [] {
      assert !IsSpace(s[i]) by {
        assert s[i] == Trim(s)[0];
      }
    }
  }

  /** Stripping twice is stripping once. */
  lemma TrimIdempotent(s: string)
    ensures Trim(Trim(s)) == Trim(s)
  {
    var r := Trim(s);
    if r != [] {
      TrimOfTrimmed(r);
    }
  }

  /** Text with no whitespace at either end is left as it is. */
  lemma TrimOfTrimmed(s: string)
    requires s != [] && !IsSpace(s[0]) && !IsSpace(s[|s| - 1])
    ensures Trim(s) == s
  {
    assert LeadingSpaces(s) == 0;
    assert s[0..] == s;
    assert TrailingStart(s) == |s|;
  }

  /** The decimal digit character for `d`. */
  function DigitChar(d: nat): (c: char)
    requires d < 10
    ensures '0' <= c <= '9'
  {
    ('0' as int + d) as char
  }

  /** The value of a decimal digit character. */
  function DigitValue(c: char): (d: nat)
    requires '0' <= c <= '9'
    ensures d < 10 && DigitChar(d) == c
  {
    c as int - '0' as int
  }

  predicate IsDigits(s: string) {
    forall k | 0 <= k < |s| :: '0' <= s[k] <= '9'
  }

  /** The decimal text of `n`, as `str(n)` gives it: digits only, at least one, and no
      leading zero (a text starting with `0` is `"0"` itself). */
  function NatText(n: nat): (r: string)
    ensures r != [] && IsDigits(r)
    ensures r[0] == '0' ==> r == "0"
    decreases n
  {
    if n < 10 then [DigitChar(n)] else NatText(n / 10) + [DigitChar(n % 10)]
  }

  /** The decimal text of `n`, as `str(n)` gives it: a minus sign when negative, then the
      digits without leading zeros. */
  function IntText(n: int): (r: string)
    ensures n < 0 <==> (r != [] && r[0] == '-')
    ensures n >= 0 ==> IsDigits(r)
    ensures var d := if n < 0 then r[1..] else r; d != [] && IsDigits(d) && (d[0] == '0' ==> d == "0")
  {
    if n < 0 then "-" + NatText(-n) else NatText(n)
  }

  /** The number a string of decimal digits denotes (independent reading of `NatText`). */
  function DigitsValue(s: string): nat
    requires IsDigits(s)
  {
    if s == [] then 0 else 10 * DigitsValue(s[..|s| - 1]) + DigitValue(s[|s| - 1])
  }

  /** The number an optionally signed decimal string denotes. */
  function SignedValue(s: string): int
    requires (s != [] && s[0] == '-' && IsDigits(s[1..])) || IsDigits(s)
  {
    if s != [] && s[0] == '-' then -(DigitsValue(s[1..]) as int) else DigitsValue(s)
  }

  /** Reading back the decimal text of a natural number gives the number. */
  lemma {:induction false} NatTextValue(n: nat)
    ensures DigitsValue(NatText(n)) == n
    decreases n
  {
    if n >= 10 {
      var r := NatText(n);
      assert r[..|r| - 1] == NatText(n / 10);
      NatTextValue(n / 10);
    }
  }

  /** Reading back the decimal text of an integer gives the integer. */
  lemma IntTextValue(n: int)
    ensures var r := IntText(n); ((r != [] && r[0] == '-' && IsDigits(r[1..])) || IsDigits(r)) && SignedValue(r) == n
  {
    if n < 0 {
      NatTextValue(-n);
      assert IntText(n)[1..] == NatText(-n);
    } else {
      NatTextValue(n);
    }
  }

  /** Distinct integers are written differently. */
  lemma IntTextInjective(a: int, b: int)
    requires IntText(a) == IntText(b)
    ensures a == b
  {
    IntTextValue(a);
    IntTextValue(b);
  }
}
