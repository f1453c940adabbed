/** Character-level rules of the Java string operations the core relies on:
    `equalsIgnoreCase`, `isBlank`, and the decimal rendering of `%d` and
    `String.valueOf(int)`. */
module Text {

  /** Lower-cases the ASCII letters A-Z and leaves every other character alone. */
  function LowerAscii(c: char): (r: char)
    ensures 'A' <= c <= 'Z' ==> 'a' <= r <= 'z' && r as int - c as int == 32
    ensures !('A' <= c <= 'Z') ==> r == c
  {
    if 'A' <= c <= 'Z' then (c as int + 32) as char else c
  }

  /** `String.equalsIgnoreCase`, with case folding restricted to ASCII letters. */
  predicate EqualsIgnoreCase(a: string, b: string)
  {
    |a| == |b| && forall i :: 0 <= i < |a| ==> LowerAscii(a[i]) == LowerAscii(b[i])
  }

  lemma EqualsIgnoreCaseReflexive(a: string)
    ensures EqualsIgnoreCase(a, a)
  {
  }

  /** `Character.isWhitespace`: the Unicode space, line and paragraph separators
      other than the three non-breaking spaces, plus the ASCII controls
      U+0009-U+000D and U+001C-U+001F. */
  predicate IsJavaWhitespace(c: char)
  {
    || c == ' ' || ('\t' <= c <= '\r') || ('\U{1C}' <= c <= '\U{1F}')
    || c == '\U{1680}' || ('\U{2000}' <= c <= '\U{2006}') || ('\U{2008}' <= c <= '\U{200A}')
    || c == '\U{2028}' || c == '\U{2029}' || c == '\U{205F}' || c == '\U{3000}'
  }

  /** `String.isBlank`: empty or whitespace only. */
  predicate IsBlank(s: string)
  {
    forall i :: 0 <= i < |s| ==> IsJavaWhitespace(s[i])
  }

  predicate IsDigit(c: char)
  {
    '0' <= c <= '9'
  }

  predicate AllDigits(s: string)
  {
    forall i :: 0 <= i < |s| ==> IsDigit(s[i])
  }

  function DigitChar(d: nat): (c: char)
    requires d < 10
    ensures IsDigit(c)
  {
    ('0' as int + d) as char
  }

  function DigitValue(c: char): (d: nat)
    requires IsDigit(c)
    ensures d < 10 && DigitChar(d) == c
  {
    c as int - '0' as int
  }

  /** Shortest decimal rendering of a natural number, most significant digit first. */
  function NatToDecimal(n: nat): (s: string)
    ensures 1 <= |s| && AllDigits(s)
    ensures |s| > 1 ==> s[0] != '0'
    decreases n
  {
    if n < 10 then [DigitChar(n)] else NatToDecimal(n / 10) + [DigitChar(n % 10)]
  }

  /** The number a string of decimal digits denotes. */
  function DecimalValue(s: string): nat
    requires AllDigits(s)
    decreases |s|
  {
    if s == [] then 0 else DecimalValue(s[..|s| - 1]) * 10 + DigitValue(s[|s| - 1])
  }

  /** Decimal rendering and reading are inverse. */
  lemma {:induction false} DecimalRoundTrip(n: nat)
    ensures DecimalValue(NatToDecimal(n)) == n
    decreases n
  {
    if n >= 10 {
      var s := NatToDecimal(n);
      assert s[..|s| - 1] == NatToDecimal(n / 10);
      DecimalRoundTrip(n / 10);
      assert DigitValue(DigitChar(n % 10)) == n % 10;
    } else {
      assert DigitValue(DigitChar(n)) == n;
    }
  }

  /** Java's `%d` / `String.valueOf(int)`: a minus sign before the magnitude of a
      negative number. */
  function IntToDecimal(i: int): (s: string)
    ensures i >= 0 ==> AllDigits(s) && DecimalValue(s) == i
    ensures i < 0 ==> |s| >= 2 && s[0] == '-' && AllDigits(s[1..]) && DecimalValue(s[1..]) == -i
  {
    DecimalRoundTrip(if i < 0 then -i else i);
    if i < 0 then "-" + NatToDecimal(-i) else NatToDecimal(i)
  }

  /** Length of the longest prefix of `s` made of decimal digits. */
  function DigitSpan(s: string): (n: nat)
    ensures n <= |s| && AllDigits(s[..n])
    ensures n < |s| ==> !IsDigit(s[n])
  {
    if s == [] || !IsDigit(s[0]) then 0
    else
      var k := DigitSpan(s[1..]);
      assert s[..1 + k] == [s[0]] + s[1..][..k];
      1 + k
  }

  /** A run of digits followed by a non-digit is read exactly up to its end. */
  lemma {:induction false} DigitSpanOfRun(d: string, rest: string)
    requires AllDigits(d)
    requires rest == [] || !IsDigit(rest[0])
    ensures DigitSpan(d + rest) == |d|
    decreases |d|
  {
    if d != [] {
      assert (d + rest)[1..] == d[1..] + rest;
      DigitSpanOfRun(d[1..], rest);
    } else {
      assert d + rest == rest;
    }
  }
}
