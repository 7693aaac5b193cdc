/** Character-level helpers shared by the carousel status line and the project
    filter: decimal rendering of naturals (JavaScript template-literal
    interpolation of a non-negative integer) with its inverse, and ASCII
    lower-casing. */
module Text {

  predicate IsDigit(c: char) {
    '0' <= c <= '9'
  }

  predicate AllDigits(s: string) {
    forall i :: 0 <= i < |s| ==> IsDigit(s[i])
  }

  function DigitChar(d: nat): (c: char)
    requires d < 10
    ensures IsDigit(c)
  {
    ('0' as int + d) as char
  }

  function DigitValue(c: char): (d: nat)
    requires IsDigit(c)
    ensures d < 10
  {
    c as int - '0' as int
  }

  /** The decimal text of `n`, most significant digit first, no sign, no
      leading zero. */
  function NatToString(n: nat): (s: string)
    ensures |s| >= 1 && AllDigits(s)
    ensures |s| > 1 ==> s[0] != '0'
    decreases n
  {
    if n < 10 then [DigitChar(n)]
    else NatToString(n / 10) + [DigitChar(n % 10)]
  }

  /** The value of a string of decimal digits (the empty string reads as 0). */
  function DigitsToNat(s: string): nat
    requires AllDigits(s)
  {
    if |s| == 0 then 0
    else DigitsToNat(s[..|s| - 1]) * 10 + DigitValue(s[|s| - 1])
  }

  /** Reading back the decimal text of `n` gives `n`. */
  lemma {:induction false} DigitsToNatOfNatToString(n: nat)
    ensures DigitsToNat(NatToString(n)) == n
    decreases n
  {
    var s := NatToString(n);
    if n >= 10 {
      DigitsToNatOfNatToString(n / 10);
      assert s[..|s| - 1] == NatToString(n / 10);
    }
  }

  /** A decimal text as `NatToString` writes it: at least one digit, and no
      leading zero unless the number is 0 itself. */
  predicate Canonical(d: string) {
    |d| >= 1 && AllDigits(d) && (|d| > 1 ==> d[0] != '0')
  }

  lemma {:induction false} DigitsToNatPositive(d: string)
    requires |d| >= 1 && AllDigits(d) && d[0] != '0'
    ensures DigitsToNat(d) >= 1
    decreases |d|
  {
    if |d| > 1 {
      DigitsToNatPositive(d[..|d| - 1]);
    }
  }

  /** Every canonical decimal text is the rendering of the number it denotes,
      so rendering is onto the canonical texts. */
  lemma {:induction false} NatToStringOfDigitsToNat(d: string)
    requires Canonical(d)
    ensures NatToString(DigitsToNat(d)) == d
    decreases |d|
  {
    var n := |d|;
    if n == 1 {
      assert d == [d[0]];
    } else {
      var p := d[..n - 1];
      assert p[0] == d[0];
      NatToStringOfDigitsToNat(p);
      DigitsToNatPositive(p);
      var q := DigitsToNat(p);
      var v := DigitValue(d[n - 1]);
      assert DigitsToNat(d) == q * 10 + v;
      assert (q * 10 + v) / 10 == q && (q * 10 + v) % 10 == v;
      assert d == p + [d[n - 1]];
    }
  }

  lemma SplitConcat(p: string, q: string)
    ensures (p + q)[..|p|] == p && (p + q)[|p|..] == q
  {
  }

  /** Length of the longest all-digit prefix of `s`. */
  function DigitSpan(s: string): (k: nat)
    ensures k <= |s| && AllDigits(s[..k])
    ensures k < |s| ==> !IsDigit(s[k])
    decreases |s|
  {
    if |s| == 0 || !IsDigit(s[0]) then 0
    else
      var k := 1 + DigitSpan(s[1..]);
      assert s[..k] == [s[0]] + s[1..][..k - 1];
      k
  }

  /** A digit run followed by a non-digit (or by nothing) is exactly the
      digit span. */
  lemma {:induction false} DigitSpanOfDigitsThen(d: string, t: string)
    requires AllDigits(d)
    requires |t| > 0 ==> !IsDigit(t[0])
    ensures DigitSpan(d + t) == |d|
    decreases |d|
  {
    if |d| > 0 {
      assert (d + t)[1..] == d[1..] + t;
      DigitSpanOfDigitsThen(d[1..], t);
    } else {
      assert d + t == t;
    }
  }

  /** ASCII lower-casing of one character; every other character is left alone. */
  function LowerChar(c: char): char {
    if 'A' <= c <= 'Z' then (c as int + 32) as char else c
  }

  /** `String.prototype.toLowerCase`, restricted to ASCII letters. */
  function ToLower(s: string): (r: string)
    ensures |r| == |s|
    ensures forall i :: 0 <= i < |s| ==> r[i] == LowerChar(s[i])
  {
    seq(|s|, i requires 0 <= i < |s| => LowerChar(s[i]))
  }
}
