/**
 Decimal digit characters, the decimal rendering of a natural number
 (what `Number.prototype.toString` produces for a non-negative integer
 below 2^53, where every integer is represented exactly) and its inverse,
 the parse of a digit string.
 */
module Decimal {

  /** An ASCII decimal digit: what `\d` matches in a JavaScript regular
      expression. */
  predicate IsDigit(c: char) {
    '0' <= c <= '9'
  }

  predicate AllDigits(s: string) {
    forall i :: 0 <= i < |s| ==> IsDigit(s[i])
  }

  /** The numeric value of a digit character, as `Number(c)` gives it. */
  function Value(c: char): (d: nat)
    requires IsDigit(c)
    ensures d < 10
    ensures d == 0 <==> c == '0'
  {
    c as int - '0' as int
  }

  /** The digit character of a value below ten. */
  function Char(d: nat): (c: char)
    requires d < 10
    ensures IsDigit(c)
    ensures Value(c) == d
  {
    ('0' as int + d) as char
  }

  /** `Char` and `Value` are inverse on digit characters. */
  lemma CharOfValue(c: char)
    requires IsDigit(c)
    ensures Char(Value(c)) == c
  {
  }

  function Pow10(k: nat): (r: nat)
    ensures r >= 1
  {
    if k == 0 then 1 else 10 * Pow10(k - 1)
  }

  lemma {:induction false} Pow10Monotone(i: nat, j: nat)
    requires i <= j
    ensures Pow10(i) <= Pow10(j)
    decreases j
  {
    if i < j {
      Pow10Monotone(i, j - 1);
    }
  }

  /** Decimal rendering with no sign and no leading zero: the text
      `n.toString()` yields for a non-negative integer below 2^53. Its
      length is the number of decimal digits of `n`. */
  function ToDecimal(n: nat): (s: string)
    ensures |s| >= 1 && AllDigits(s)
    ensures n < Pow10(|s|)
    ensures |s| > 1 ==> Pow10(|s| - 1) <= n
    ensures s[0] == '0' ==> n == 0
  {
    if n < 10 then [Char(n)] else ToDecimal(n / 10) + [Char(n % 10)]
  }

  /** The number a digit string denotes, most significant digit first. */
  function FromDecimal(s: string): (n: nat)
    requires AllDigits(s)
    ensures n < Pow10(|s|)
    ensures |s| >= 1 && s[0] != '0' ==> Pow10(|s| - 1) <= n
  {
    if |s| == 0 then 0
    else FromDecimal(s[..|s| - 1]) * 10 + Value(s[|s| - 1])
  }

  /** Parsing a rendering gives the number back. */
  lemma {:induction false} FromToDecimal(n: nat)
    ensures FromDecimal(ToDecimal(n)) == n
  {
    var s := ToDecimal(n);
    if n >= 10 {
      var p := ToDecimal(n / 10);
      assert s == p + [Char(n % 10)];
      assert s[..|s| - 1] == p;
      FromToDecimal(n / 10);
    }
  }

  /** Rendering a parse gives the text back, exactly when the text has no
      leading zero (or is the single digit "0"). */
  lemma {:induction false} ToFromDecimal(s: string)
    requires |s| >= 1 && AllDigits(s)
    requires s[0] != '0' || |s| == 1
    ensures ToDecimal(FromDecimal(s)) == s
    decreases |s|
  {
    var last := s[|s| - 1];
    CharOfValue(last);
    if |s| == 1 {
      assert s[..0] == [];
      assert s == [last];
    } else {
      var p := s[..|s| - 1];
      assert p[0] == s[0];
      ToFromDecimal(p);
      var n := FromDecimal(s);
      assert n == FromDecimal(p) * 10 + Value(last);
      assert FromDecimal(p) >= 1;
      assert n / 10 == FromDecimal(p) && n % 10 == Value(last);
      assert s == p + [last];
    }
  }

  /** The rendering is exactly ten digits long precisely for the numbers
      from 10^9 up to, but excluding, 10^10. */
  lemma TenDigitRange(n: nat)
    ensures |ToDecimal(n)| == 10 <==> Pow10(9) <= n < Pow10(10)
  {
    var s := ToDecimal(n);
    if |s| < 10 {
      Pow10Monotone(|s|, 9);
    } else if |s| > 10 {
      Pow10Monotone(10, |s| - 1);
    }
  }
}
