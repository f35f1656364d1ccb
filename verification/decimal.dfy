/** Decimal rendering of integers, as JavaScript template strings print them. */
module Decimal {
  import opened Wrappers

  predicate IsDigit(c: char) {
    '0' <= c <= '9'
  }

  function DigitChar(d: int): (c: char)
    requires 0 <= d < 10
    ensures IsDigit(c)
  {
    "0123456789"[d]
  }

  function DigitValue(c: char): (d: int)
    requires IsDigit(c)
    ensures 0 <= d < 10
  {
    c as int - '0' as int
  }

  lemma DigitCharValue(d: int)
    requires 0 <= d < 10
    ensures DigitValue(DigitChar(d)) == d
  {
  }

  /** The number a string of decimal digits denotes (the empty string denotes 0). */
  function DigitsValue(s: string): nat
    requires forall i :: 0 <= i < |s| ==> IsDigit(s[i])
  {
    if |s| == 0 then 0 else DigitsValue(s[..|s| - 1]) * 10 + DigitValue(s[|s| - 1])
  }

  /** The shortest decimal numeral of `n`: no leading zero unless `n` is zero. */
  function NatToString(n: nat): (s: string)
    ensures |s| > 0
    ensures forall i :: 0 <= i < |s| ==> IsDigit(s[i])
    ensures |s| > 1 ==> s[0] != '0'
    decreases n
  {
    if n < 10 then [DigitChar(n)]
    else NatToString(n / 10) + [DigitChar(n % 10)]
  }

  /** Reading the numeral back gives the number. */
  lemma {:induction false} NatToStringRoundTrip(n: nat)
    ensures DigitsValue(NatToString(n)) == n
    decreases n
  {
    var s := NatToString(n);
    if n < 10 {
      DigitCharValue(n);
    } else {
      NatToStringRoundTrip(n / 10);
      DigitCharValue(n % 10);
      assert s[..|s| - 1] == NatToString(n / 10);
    }
  }

  /** Like `NatToString`, with a leading minus sign for negative values. */
  function IntToString(i: int): (s: string)
    ensures |s| > 0
    ensures (s[0] == '-') <==> i < 0
  {
    if i < 0 then "-" + NatToString(-i) else NatToString(i)
  }

  // ---------------------------------------------------------------------
  // Parsing, as `parseInt(s, 10)` reads a string

  /** The ASCII white space `parseInt` skips before the number. */
  predicate IsSpace(c: char) {
    c == ' ' || c == '\t' || c == '\n' || c == '\r' || c == '\U{000B}' || c == '\U{000C}'
  }

  /** `s` without its leading white space. */
  function SkipSpace(s: string): (r: string)
    ensures |r| <= |s| && r == s[|s| - |r|..]
    ensures forall i :: 0 <= i < |s| - |r| ==> IsSpace(s[i])
    ensures |r| > 0 ==> !IsSpace(r[0])
  {
    if |s| > 0 && IsSpace(s[0]) then
      var r := SkipSpace(s[1..]);
      assert s[1..][|s| - 1 - |r|..] == s[|s| - |r|..];
      r
    else s
  }

  /** The longest prefix of `s` made of decimal digits. */
  function DigitPrefix(s: string): (d: string)
    ensures |d| <= |s| && d == s[..|d|]
    ensures forall i :: 0 <= i < |d| ==> IsDigit(d[i])
    ensures |d| < |s| ==> !IsDigit(s[|d|])
  {
    if |s| > 0 && IsDigit(s[0]) then [s[0]] + DigitPrefix(s[1..]) else []
  }

  /** The value of the digits at the start of `u`; absent when `u` does not start with one. */
  function ParseDigits(u: string): (r: Option<int>)
    ensures (forall i :: 0 <= i < |u| ==> !IsDigit(u[i])) ==> r.None?
    ensures r.Some? ==> r.value >= 0
  {
    var d := DigitPrefix(u);
    if |d| == 0 then None
    else
      assert d[0] == u[0];
      Some(DigitsValue(d))
  }

  function Negated(r: Option<int>): Option<int> {
    match r
    case None => None
    case Some(v) => Some(-v)
  }

  /** What follows the leading white space and an optional sign. */
  function AfterSign(s: string): string {
    var t := SkipSpace(s);
    if |t| > 0 && (t[0] == '-' || t[0] == '+') then t[1..] else t
  }

  /**
    `parseInt(s, 10)`: after leading white space and an optional sign, the
    value of the longest run of digits; absent (`NaN`) when there is none.
    Anything after the digits is ignored.
   */
  function ParseInt(s: string): (r: Option<int>)
    ensures (forall i :: 0 <= i < |s| ==> !IsDigit(s[i])) ==> r.None?
  {
    var t := SkipSpace(s);
    if |t| > 0 && t[0] == '-' then Negated(ParseDigits(t[1..]))
    else if |t| > 0 && t[0] == '+' then ParseDigits(t[1..])
    else ParseDigits(t)
  }

  /** A string of digits is its own longest digit prefix. */
  lemma {:induction false} DigitPrefixAll(s: string)
    requires forall i :: 0 <= i < |s| ==> IsDigit(s[i])
    ensures DigitPrefix(s) == s
  {
    if |s| > 0 {
      DigitPrefixAll(s[1..]);
      assert s == [s[0]] + s[1..];
    }
  }

  /** A numeral followed by text that does not start with a digit parses to its value. */
  lemma ParseIntOfNumeral(d: string, rest: string)
    requires |d| > 0 && !IsSpace(d[0]) && forall i :: 0 <= i < |d| ==> IsDigit(d[i])
    requires |rest| > 0 ==> !IsDigit(rest[0])
    ensures ParseInt(d + rest) == Some(DigitsValue(d))
  {
    var s := d + rest;
    assert s[0] == d[0];
    assert SkipSpace(s) == s;
    var p := DigitPrefix(s);
    assert p == d by {
      DigitPrefixAll(d);
      DigitPrefixAppend(d, rest);
    }
  }

  /** Digits stop at the first non-digit: appending such text does not lengthen the prefix. */
  lemma {:induction false} DigitPrefixAppend(d: string, rest: string)
    requires forall i :: 0 <= i < |d| ==> IsDigit(d[i])
    requires |rest| > 0 ==> !IsDigit(rest[0])
    ensures DigitPrefix(d + rest) == d
  {
    if |d| == 0 {
      assert d + rest == rest;
    } else {
      DigitPrefixAppend(d[1..], rest);
      assert (d + rest)[1..] == d[1..] + rest;
      assert d == [d[0]] + d[1..];
    }
  }

  /** A minus sign followed by digits parses to the negated value. */
  lemma ParseIntOfNegative(d: string)
    requires |d| > 0 && forall i :: 0 <= i < |d| ==> IsDigit(d[i])
    ensures ParseInt("-" + d).Some? && ParseInt("-" + d).value == -(DigitsValue(d) as int)
  {
    var s := "-" + d;
    assert s[0] == '-' && !IsSpace(s[0]);
    assert SkipSpace(s) == s;
    assert s[1..] == d;
    DigitPrefixAll(d);
  }

  /** A plus sign followed by digits parses to their value. */
  lemma ParseIntOfPositive(d: string)
    requires |d| > 0 && forall i :: 0 <= i < |d| ==> IsDigit(d[i])
    ensures ParseInt("+" + d) == Some(DigitsValue(d))
  {
    var s := "+" + d;
    assert s[0] == '+' && !IsSpace(s[0]);
    assert SkipSpace(s) == s;
    assert s[1..] == d;
    DigitPrefixAll(d);
  }

  /**
    A number is read exactly when a digit follows the leading white space
    and the optional sign; otherwise the result is absent (`NaN`).
   */
  lemma ParseIntDefined(s: string)
    ensures ParseInt(s).Some? <==> |AfterSign(s)| > 0 && IsDigit(AfterSign(s)[0])
  {
    var u := AfterSign(s);
    if |u| > 0 && IsDigit(u[0]) {
      assert |DigitPrefix(u)| > 0;
    }
  }

  /** Text starting with neither white space, a sign nor a digit is not a number ("a5"). */
  lemma ParseIntNotNumeral(c: char, rest: string)
    requires !IsSpace(c) && !IsDigit(c) && c != '-' && c != '+'
    ensures ParseInt([c] + rest).None?
  {
    var s := [c] + rest;
    assert s[0] == c;
    assert SkipSpace(s) == s;
    ParseIntDefined(s);
  }

  /** A sign not followed by a digit is not a number ("--5", "-x9", "+"). */
  lemma ParseIntSignNotNumeral(sign: char, rest: string)
    requires sign == '-' || sign == '+'
    requires |rest| == 0 || !IsDigit(rest[0])
    ensures ParseInt([sign] + rest).None?
  {
    var s := [sign] + rest;
    assert s[0] == sign && !IsSpace(sign);
    assert SkipSpace(s) == s;
    assert s[1..] == rest;
    ParseIntDefined(s);
  }

  /** Leading white space does not change what is read. */
  lemma {:induction false} ParseIntSkipsSpace(w: string, s: string)
    requires forall i :: 0 <= i < |w| ==> IsSpace(w[i])
    ensures ParseInt(w + s) == ParseInt(s)
  {
    SkipSpaceAppend(w, s);
  }

  lemma {:induction false} SkipSpaceAppend(w: string, s: string)
    requires forall i :: 0 <= i < |w| ==> IsSpace(w[i])
    ensures SkipSpace(w + s) == SkipSpace(s)
  {
    if |w| > 0 {
      assert (w + s)[0] == w[0];
      assert (w + s)[1..] == w[1..] + s;
      SkipSpaceAppend(w[1..], s);
    } else {
      assert w + s == s;
    }
  }

  /** Reading back what `IntToString` prints gives the number. */
  lemma ParseIntRoundTrip(i: int)
    ensures ParseInt(IntToString(i)) == Some(i)
  {
    if i < 0 {
      NatToStringRoundTrip(-i);
      ParseIntOfNegative(NatToString(-i));
    } else {
      NatToStringRoundTrip(i);
      ParseIntOfNumeral(NatToString(i), []);
      assert NatToString(i) + [] == NatToString(i);
    }
  }
}
