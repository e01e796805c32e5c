/** Exact decimal printing of rationals, and what it makes of timestamps.

A rational is a numerator over a positive denominator, not necessarily reduced: the digits produced do
not depend on that. */
module Decimal {
  import opened Search

  function Pow10(n: nat): (p: nat)
    ensures p > 0
  {
    if n == 0 then 1 else 10 * Pow10(n - 1)
  }

  function Abs(x: int): nat { if x < 0 then -x else x }

  /** The nearest integer to a/b, halves up. */
  function HalfUp(a: nat, b: nat): nat
    requires b > 0
  {
    (2 * a + b) / (2 * b)
  }

  /** What printing num/den to `places` digits means, in units of 10^-places. */
  function Printed(num: int, den: nat, places: nat): int
    requires den > 0
  {
    var r: int := HalfUp(Abs(num) * Pow10(places), den);
    if num < 0 then -r else r
  }

  // Reading decimal strings.

  predicate IsDigit(c: char) { '0' <= c <= '9' }

  function Digit(c: char): nat
    requires IsDigit(c)
  {
    c as int - '0' as int
  }

  predicate AllDigits(s: string) { forall i :: 0 <= i < |s| ==> IsDigit(s[i]) }

  function ValueOf(s: string): nat
    requires AllDigits(s)
  {
    if s == [] then 0 else 10 * ValueOf(s[..|s| - 1]) + Digit(s[|s| - 1])
  }

  /** An optional sign, digits, and optionally a point and at most `places` digits. The point comes with
  digits after it, unless none were asked for. */
  ghost predicate Reads(s: string, places: nat, negative: bool, whole: string, point: bool, fraction: string) {
    && AllDigits(whole) && AllDigits(fraction) && whole != [] && |fraction| <= places
    && (fraction != [] ==> point)
    && (point ==> fraction != [] || places == 0)
    && s == (if negative then "-" else "") + whole + (if point then "." + fraction else "")
  }

  /** The value such a string denotes, in units of 10^-places. */
  function Denotes(places: nat, negative: bool, whole: string, fraction: string): int
    requires AllDigits(whole) && AllDigits(fraction) && |fraction| <= places
  {
    var v := ValueOf(whole + fraction) * Pow10(places - |fraction|);
    if negative then -v else v
  }

  /** Where the point is, or the length if there is none. */
  function PointIndex(s: string): (k: nat)
    ensures k <= |s|
  {
    if s == "" || s[0] == '.' then 0 else 1 + PointIndex(s[1..])
  }

  function ReadUnsigned(digits: string, places: nat, negative: bool): Option<int> {
    var k := PointIndex(digits);
    var whole, fraction := digits[..k], if k < |digits| then digits[k + 1..] else "";
    if whole == "" || !AllDigits(whole) || !AllDigits(fraction) || |fraction| > places then None
    else Some(Denotes(places, negative, whole, fraction))
  }

  /** A plain reader of decimal strings: the value, in units of 10^-places. */
  function ReadDecimal(s: string, places: nat): Option<int> {
    if s != "" && s[0] == '-' then ReadUnsigned(s[1..], places, true) else ReadUnsigned(s, places, false)
  }

  lemma {:induction false} PointAfter(whole: string, rest: string)
    requires AllDigits(whole) && (rest == "" || rest[0] == '.')
    ensures PointIndex(whole + rest) == |whole|
    decreases |whole|
  {
    if whole == "" {
      assert whole + rest == rest;
    } else {
      PointAfter(whole[1..], rest);
      assert (whole + rest)[1..] == whole[1..] + rest;
      assert IsDigit((whole + rest)[0]);
    }
  }

  lemma ReadsUnsigned(places: nat, negative: bool, whole: string, rest: string, fraction: string)
    requires AllDigits(whole) && AllDigits(fraction) && whole != "" && |fraction| <= places
    requires rest == "." + fraction || (rest == "" && fraction == "")
    ensures ReadUnsigned(whole + rest, places, negative) == Some(Denotes(places, negative, whole, fraction))
  {
    hide Denotes;
    PointAfter(whole, rest);
    var digits := whole + rest;
    assert digits[..|whole|] == whole;
    if rest != "" {
      assert digits[|whole| + 1..] == fraction;
    }
  }

  /** The reader sees the parts a string was put together from. */
  lemma ReadsBack(s: string, places: nat, negative: bool, whole: string, point: bool, fraction: string)
    requires Reads(s, places, negative, whole, point, fraction)
    ensures ReadDecimal(s, places) == Some(Denotes(places, negative, whole, fraction))
    ensures negative <==> s != "" && s[0] == '-'
  {
    hide ReadUnsigned, Denotes;
    var rest := if point then "." + fraction else "";
    ReadsUnsigned(places, negative, whole, rest, fraction);
    assert IsDigit(whole[0]);
    assert s == (if negative then "-" else "") + (whole + rest);
    assert if negative then s[1..] == whole + rest else s == whole + rest;
  }

  // Printing.

  function DigitChar(d: nat): (c: char)
    requires d < 10
    ensures IsDigit(c) && Digit(c) == d
  {
    (d + '0' as int) as char
  }

  lemma TwoDigits(s: string)
    requires |s| == 2 && AllDigits(s)
    ensures ValueOf(s) == 10 * (s[0] as int - '0' as int) + (s[1] as int - '0' as int)
  {
    assert s[..1] == [s[0]] && s[..1][..0] == "";
    assert ValueOf(s[..1]) == Digit(s[0]);
  }

  lemma ReadExample()
    ensures ReadDecimal("-1.5", 4) == Some(-15_000) && ReadDecimal("1.5", 4) == Some(15_000)
  {
    hide ValueOf, ReadDecimal;
    assert "1" + "5" == "15" && "-" + "1" + ("." + "5") == "-1.5";
    TwoDigits("15");
    assert Pow10(3) == 10 * Pow10(2) && Pow10(2) == 10 * Pow10(1);
    ReadsBack("-1.5", 4, true, "1", true, "5");
    assert "" + "1" + ("." + "5") == "1.5";
    ReadsBack("1.5", 4, false, "1", true, "5");
  }

  function NatToString(n: nat): (s: string)
    ensures s != [] && AllDigits(s) && ValueOf(s) == n
    ensures n < 10 ==> s == [DigitChar(n)]
  {
    if n < 10 then [DigitChar(n)]
    else
      var s := NatToString(n / 10) + [DigitChar(n % 10)];
      assert s[..|s| - 1] == NatToString(n / 10);
      s
  }

  lemma ValueMore(s: string, c: char)
    requires AllDigits(s) && IsDigit(c)
    ensures AllDigits(s + [c]) && ValueOf(s + [c]) == 10 * ValueOf(s) + Digit(c)
  {
    assert (s + [c])[..|s|] == s;
  }

  lemma DivBounds(x: nat, y: nat)
    requires y > 0
    ensures y * (x / y) <= x < y * (x / y) + y
    ensures x % y == x - y * (x / y)
  {
  }

  lemma QuotientIs(x: nat, y: nat, q: nat)
    requires y > 0 && y * q <= x < y * q + y
    ensures x / y == q
  {
    DivBounds(x, y);
    var k := x / y - q;
    assert y * k == y * (x / y) - y * q;
    SmallMultiple(y, k);
  }

  lemma SmallMultiple(y: int, k: int)
    requires -y < y * k < y
    ensures k == 0
  {
  }

  lemma TenFactor(x: nat, y: nat)
    ensures (10 * x) * y == 10 * (x * y)
  {
  }

  lemma Pow10Sum(a: nat, b: nat)
    ensures Pow10(a + b) == Pow10(a) * Pow10(b)
  {
    if a > 0 {
      Pow10Sum(a - 1, b);
      TenFactor(Pow10(a - 1), Pow10(b));
    }
  }

  /** Long division with `places` digits of n/(10*den), where n is 10*a + 5*den, rounds a/den half up. */
  lemma LongDivisionRounds(a: nat, den: nat, v: nat, rem: nat)
    requires den > 0 && rem < 10 * den
    requires 10 * a + 5 * den == v * (10 * den) + rem
    ensures v == HalfUp(a, den)
  {
    assert 2 * a + den == (2 * den) * v + rem / 5 by {
      assert v * (10 * den) == 5 * ((2 * den) * v);
      assert rem == 5 * (2 * a + den - (2 * den) * v);
    }
    QuotientIs(2 * a + den, 2 * den, v);
  }

  /** After `i` digits, `v` is what has been printed and `rem` what remains of n/d. */
  ghost predicate Printing(n: nat, d: nat, i: nat, v: nat, rem: nat) {
    n * Pow10(i) == v * d + rem && rem < d
  }

  lemma WholePart(n: nat, d: nat)
    requires d > 0
    ensures Printing(n, d, 0, n / d, n % d)
  {
    DivBounds(n, d);
  }

  lemma TenTimes(n: nat, p: nat)
    ensures n * (10 * p) == 10 * (n * p)
  {
  }

  lemma OneMoreDigit(v: nat, q: nat, d: nat)
    ensures (10 * v + q) * d == 10 * (v * d) + d * q
  {
  }

  lemma PrintingMore(n: nat, d: nat, i: nat, v: nat, rem: nat, q: nat, rest: nat)
    requires Printing(n, d, i, v, rem) && rem * 10 == d * q + rest && rest < d
    ensures Printing(n, d, i + 1, 10 * v + q, rest)
  {
    TenTimes(n, Pow10(i));
    OneMoreDigit(v, q, d);
  }

  lemma NextDigit(n: nat, d: nat, i: nat, v: nat, rem: nat)
    requires d > 0 && Printing(n, d, i, v, rem)
    ensures rem * 10 / d < 10
    ensures Printing(n, d, i + 1, 10 * v + rem * 10 / d, rem * 10 % d)
  {
    DivBounds(rem * 10, d);
    PrintingBound(n, d, i, v, rem);
    hide Printing, Pow10;
    DigitBound(rem, d, rem * 10 / d);
    PrintingMore(n, d, i, v, rem, rem * 10 / d, rem * 10 % d);
  }

  lemma PrintingBound(n: nat, d: nat, i: nat, v: nat, rem: nat)
    requires Printing(n, d, i, v, rem)
    ensures rem < d
  {
  }

  lemma DigitBound(rem: nat, d: nat, q: nat)
    requires rem < d && d * q <= rem * 10
    ensures q < 10
  {
    assert d * q < d * 10;
  }

  lemma ScaleUp(n: nat, d: nat, v: nat, rem: nat, p: nat, up: nat)
    requires n * p == v * d + rem
    ensures n * (p * up) == (v * up) * d + rem * up
  {
    assert n * (p * up) == (n * p) * up == (v * d + rem) * up == (v * up) * d + rem * up;
  }

  lemma CancelScale(n: nat, d: nat, v: nat, rem: nat, p: nat)
    requires p > 0
    requires n * p == v * (d * p) + rem && rem < d * p
    ensures rem / p < d && n == v * d + rem / p
  {
    var r := n - v * d;
    assert v * (d * p) == (v * d) * p;
    assert p * r == rem;
    SignOf(p, r);
    Cancel(p, r, d);
    QuotientIs(rem, p, r);
  }

  lemma SignOf(p: nat, r: int)
    requires p > 0 && p * r >= 0
    ensures r >= 0
  {
  }

  lemma Cancel(p: nat, a: int, b: int)
    requires p > 0 && p * a < b * p
    ensures a < b
  {
  }

  lemma DigitsRound(n: nat, den: nat, a: nat, p: nat, v: nat, rem: nat)
    requires den > 0 && p > 0 && n == 10 * a + 5 * den
    requires n * p == v * ((10 * den) * p) + rem && rem < (10 * den) * p
    ensures v == HalfUp(a, den)
  {
    CancelScale(n, 10 * den, v, rem, p);
    LongDivisionRounds(a, den, v, rem / p);
  }

  lemma NextPower(x: nat, places: nat)
    ensures x * Pow10(places + 1) == 10 * (x * Pow10(places)) == (10 * x) * Pow10(places)
  {
    assert Pow10(places + 1) == 10 * Pow10(places);
    assert x * (10 * Pow10(places)) == 10 * (x * Pow10(places)) == (10 * x) * Pow10(places);
  }

  /** Where the digits stop, because they came out even or because there are enough, they amount to the
  rounded value: n/d is num/den plus half a unit of the last place. */
  lemma DigitsSuffice(num: nat, den: nat, places: nat, i: nat, v: nat, rem: nat)
    requires den > 0 && i <= places && (i < places ==> rem == 0)
    requires Printing(num * Pow10(places + 1) + 5 * den, den * Pow10(places + 1), i, v, rem)
    ensures v * Pow10(places - i) == HalfUp(num * Pow10(places), den)
  {
    var n, d := num * Pow10(places + 1) + 5 * den, den * Pow10(places + 1);
    NextPower(num, places);
    NextPower(den, places);
    Pow10Sum(i, places - i);
    ScaleUp(n, d, v, rem, Pow10(i), Pow10(places - i));
    var left := if i < places then 0 else rem;
    assert left == rem * Pow10(places - i);
    DigitsRound(n, den, num * Pow10(places), Pow10(places), v * Pow10(places - i), left);
  }

  /** The digits after the point. */
  method AppendFraction(start: string, numerator: nat, denominator: nat, remainder0: nat, places: nat,
                        ghost whole: string)
    returns (result: string, ghost fraction: string, ghost remainder: nat)
    requires denominator > 0 && remainder0 != 0
    requires AllDigits(whole) && Printing(numerator, denominator, 0, ValueOf(whole), remainder0)
    ensures |fraction| <= places && AllDigits(fraction) && AllDigits(whole + fraction)
    ensures result == start + fraction && (fraction == [] ==> places == 0)
    ensures Printing(numerator, denominator, |fraction|, ValueOf(whole + fraction), remainder)
    ensures |fraction| < places ==> remainder == 0
  {
    hide Printing, Pow10, ValueOf, NatToString, Digit;
    result, fraction := start, "";
    var rem: nat := remainder0;
    assert whole + fraction == whole;
    for i := 0 to places
      invariant i == |fraction| && AllDigits(fraction) && AllDigits(whole + fraction)
      invariant result == start + fraction
      invariant Printing(numerator, denominator, i, ValueOf(whole + fraction), rem)
      invariant rem != 0
    {
      NextDigit(numerator, denominator, i, ValueOf(whole + fraction), rem);
      rem := rem * 10;
      var quotient: nat := rem / denominator;
      rem := rem % denominator;
      result := result + NatToString(quotient);
      ValueMore(whole + fraction, DigitChar(quotient));
      assert whole + (fraction + [DigitChar(quotient)]) == whole + fraction + [DigitChar(quotient)];
      fraction := fraction + [DigitChar(quotient)];
      if rem == 0 {
        break;
      }
    }
    remainder := rem;
  }

  /** num/den with half a unit of the last place added. */
  method AddHalf(num: nat, den: nat, places: nat) returns (numerator: nat, denominator: nat)
    requires den > 0
    ensures numerator == num * Pow10(places + 1) + 5 * den && denominator == den * Pow10(places + 1)
    ensures denominator > 0
  {
    numerator, denominator := num * Pow10(places + 1) + 5 * den, den * Pow10(places + 1);
  }

  method DivRem(n: nat, d: nat) returns (q: nat, r: nat)
    requires d > 0
    ensures q == n / d && r == n % d && Printing(n, d, 0, q, r)
  {
    WholePart(n, d);
    q, r := n / d, n % d;
  }

  /** Prints num/den with at most `places` digits after the point: reading it back gives the rounded number. */
  method Rat2Dec(num: int, den: nat, places: nat) returns (result: string)
    requires den > 0
    ensures ReadDecimal(result, places) == Some(Printed(num, den, places))
    ensures num < 0 <==> result != "" && result[0] == '-'
  {
    hide ReadDecimal, ValueOf, NatToString;
    var sign := if num < 0 then "-" else "";
    var numerator, denominator := AddHalf(Abs(num), den, places);
    var quotient, remainder := DivRem(numerator, denominator);
    ghost var rest: nat := remainder;
    ghost var whole, fraction := NatToString(quotient), "";
    result := sign + NatToString(quotient);
    assert whole + fraction == whole;
    if remainder != 0 {
      result := result + ".";
      result, fraction, rest := AppendFraction(result, numerator, denominator, remainder, places, whole);
      assert result == sign + whole + ("." + fraction);
    }
    DigitsSuffice(Abs(num), den, places, |fraction|, ValueOf(whole + fraction), rest);
    ReadsBack(result, places, num < 0, whole, remainder != 0, fraction);
  }
}
