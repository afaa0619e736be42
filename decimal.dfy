/**
 * Decimal text of integers as JavaScript writes and reads it: `String(n)`
 * for an integer `n`, and `parseInt(text)` without a radix. The input
 * buffers of the reducer append a digit by concatenating it onto the
 * buffer's text and parsing the result back.
 */
module Decimal {
  import opened Wrappers

  predicate IsDigit(c: char) {
    '0' <= c <= '9'
  }

  /** One decimal digit character, the only payload the digit-entry actions carry. */
  type Digit = c: char | IsDigit(c) witness '0'

  function DigitValue(c: char): (v: nat)
    requires IsDigit(c)
    ensures v < 10
  {
    (c as int) - ('0' as int)
  }

  function DigitChar(v: nat): (c: char)
    requires v < 10
    ensures IsDigit(c) && DigitValue(c) == v
  {
    (('0' as int) + v) as char
  }

  predicate AllDigits(s: string) {
    forall i :: 0 <= i < |s| ==> IsDigit(s[i])
  }

  /** The number a string of digits denotes, read most significant digit first. */
  function DigitsValue(s: string): (v: nat)
    requires AllDigits(s)
  {
    if s == [] then 0 else DigitsValue(s[..|s| - 1]) * 10 + DigitValue(s[|s| - 1])
  }

  /** Appending one digit to a digit string shifts its value one decimal place. */
  lemma DigitsValueAppend(s: string, d: char)
    requires AllDigits(s) && IsDigit(d)
    ensures AllDigits(s + [d])
    ensures DigitsValue(s + [d]) == DigitsValue(s) * 10 + DigitValue(d)
  {
    assert (s + [d])[..|s|] == s;
  }

  /** The canonical decimal text of a natural number: digits only, no leading zero. */
  function ShowNat(n: nat): (r: string)
    ensures |r| > 0 && AllDigits(r)
    ensures |r| > 1 ==> r[0] != '0'
    ensures DigitsValue(r) == n
  {
    if n < 10 then [DigitChar(n)]
    else
      var prefix := ShowNat(n / 10);
      DigitsValueAppend(prefix, DigitChar(n % 10));
      prefix + [DigitChar(n % 10)]
  }

  /** `String(n)` for an integer `n`: a minus sign for negative numbers, then the digits. */
  function Show(n: int): (r: string)
    ensures |r| > 0
    ensures (r[0] == '-') == (n < 0)
  {
    if n < 0 then "-" + ShowNat(-n) else ShowNat(n)
  }

  /** The length of the longest prefix of `s` made of digits. */
  function DigitRun(s: string): (k: nat)
    ensures k <= |s|
    ensures AllDigits(s[..k])
    ensures k < |s| ==> !IsDigit(s[k])
  {
    if s == [] || !IsDigit(s[0]) then 0
    else
      var k := 1 + DigitRun(s[1..]);
      assert s[..k] == [s[0]] + s[1..][..k - 1];
      k
  }

  /**
   * `parseInt(s)`: an optional sign, then the longest run of digits; `None`
   * stands for `NaN`, the result when no digit follows the sign.
   */
  function ParseInt(s: string): (r: Option<int>) {
    var negative := |s| > 0 && s[0] == '-';
    var rest := if |s| > 0 && (s[0] == '-' || s[0] == '+') then s[1..] else s;
    var k := DigitRun(rest);
    if k == 0 then None
    else if negative then Some(-(DigitsValue(rest[..k]) as int))
    else Some(DigitsValue(rest[..k]))
  }

  /** A string made only of digits is read in full. */
  lemma {:induction false} DigitRunAll(s: string)
    requires AllDigits(s)
    ensures DigitRun(s) == |s|
  {
    if s != [] {
      DigitRunAll(s[1..]);
    }
  }

  /** `parseInt` reads a non-empty digit string as its value. */
  lemma ParseDigits(s: string)
    requires |s| > 0 && AllDigits(s)
    ensures ParseInt(s) == Some(DigitsValue(s))
  {
    DigitRunAll(s);
    assert s[..|s|] == s;
    assert IsDigit(s[0]);
  }

  /** `parseInt` reads a minus sign followed by a non-empty digit string as the negated value. */
  lemma ParseNegatedDigits(s: string)
    requires |s| > 0 && AllDigits(s)
    ensures ParseInt("-" + s) == Some(-(DigitsValue(s) as int))
  {
    var t := "-" + s;
    assert t[0] == '-' && t[1..] == s;
    DigitRunAll(s);
    assert s[..|s|] == s;
  }

  /** `parseInt(String(n)) == n`: the text form of an integer reads back as that integer. */
  lemma ShowRoundTrip(n: int)
    ensures ParseInt(Show(n)) == Some(n)
  {
    if n < 0 {
      ParseNegatedDigits(ShowNat(-n));
    } else {
      ParseDigits(ShowNat(n));
    }
  }

  /** Concatenating a digit onto the text of `n` and parsing gives the number with one more digit. */
  lemma ParseShowAppend(n: int, d: Digit)
    ensures ParseInt(Show(n) + [d]) == Some(if n >= 0 then n * 10 + DigitValue(d) else n * 10 - DigitValue(d))
  {
    if n < 0 {
      ParseNegatedAppend(-n, d);
    } else {
      ParseNatAppend(n, d);
    }
  }

  /** `ParseShowAppend` for a natural number. */
  lemma ParseNatAppend(k: nat, d: Digit)
    ensures ParseInt(ShowNat(k) + [d]) == Some(k * 10 + DigitValue(d))
  {
    var t := ShowNat(k);
    DigitsValueAppend(t, d);
    ParseDigits(t + [d]);
  }

  /** `ParseShowAppend` for a negative number `-k`: the digit goes behind the sign and the digits. */
  lemma ParseNegatedAppend(k: nat, d: Digit)
    ensures ParseInt(("-" + ShowNat(k)) + [d]) == Some(-(k * 10 + DigitValue(d)))
  {
    var t := ShowNat(k);
    assert ("-" + t) + [d] == "-" + (t + [d]);
    DigitsValueAppend(t, d);
    ParseNegatedDigits(t + [d]);
  }

  /**
   * `parseInt(n + d)` for a number `n` and a digit string `d`: JavaScript's `+`
   * turns `n` into text and concatenates. The result is the decimal shift of
   * `n` with `d` as its new last digit, away from zero for negative `n`.
   */
  function AppendDigit(n: int, d: Digit): (r: int)
    ensures n >= 0 ==> r == n * 10 + DigitValue(d)
    ensures n < 0 ==> r == n * 10 - DigitValue(d)
  {
    ParseShowAppend(n, d);
    ParseInt(Show(n) + [d]).value
  }

  /** The canonical text of `10n + d` for a positive `n` is the text of `n` followed by `d`. */
  lemma ShowNatAppend(n: nat, d: Digit)
    requires n > 0
    ensures ShowNat(n * 10 + DigitValue(d)) == ShowNat(n) + [d]
  {
    var m := n * 10 + DigitValue(d);
    assert m / 10 == n && m % 10 == DigitValue(d);
    assert DigitChar(DigitValue(d)) == d;
  }

  /** The same for the text of a negative number: the digit goes after the digits, behind the sign. */
  lemma ShowNegatedAppend(k: nat, d: Digit)
    requires k > 0
    ensures Show(-(k * 10 + DigitValue(d))) == Show(-(k as int)) + [d]
  {
    ShowNatAppend(k, d);
    var u := ShowNat(k);
    assert "-" + (u + [d]) == ("-" + u) + [d];
  }

  /**
   * For a non-zero `n`, the number `AppendDigit` produces is written as the
   * text of `n` with `d` after it: typing a digit reads like appending it.
   */
  lemma AppendDigitText(n: int, d: Digit)
    requires n != 0
    ensures Show(AppendDigit(n, d)) == Show(n) + [d]
  {
    if n > 0 {
      AppendDigitTextPositive(n, d);
    } else {
      AppendDigitTextNegative(-n, d);
    }
  }

  /** `AppendDigitText` for a positive number. */
  lemma AppendDigitTextPositive(n: nat, d: Digit)
    requires n > 0
    ensures Show(AppendDigit(n, d)) == Show(n) + [d]
  {
    ShowNatAppend(n, d);
  }

  /** `AppendDigitText` for a negative number `-k`. */
  lemma AppendDigitTextNegative(k: nat, d: Digit)
    requires k > 0
    ensures Show(AppendDigit(-(k as int), d)) == Show(-(k as int)) + [d]
  {
    ShowNegatedAppend(k, d);
  }
}
