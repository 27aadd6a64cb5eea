/**
 * The JavaScript number and string primitives the two pages lean on:
 * decimal text of integers, `parseInt(s, 10)`, `Number(s)`, `padStart(2, '0')`
 * and `Math.round` of a percentage. Numbers are integers or NaN; the pages
 * only ever hold integer timestamps, minutes and head counts, and NaN is what
 * they get back from reading a store value that is not a number.
 */
module Js {

  /** A JavaScript number as the pages use it: an integer, or NaN. */
  datatype Num = Int(value: int) | NaN

  predicate IsDigit(c: char) { '0' <= c <= '9' }

  predicate AllDigits(s: string) { forall i :: 0 <= i < |s| ==> IsDigit(s[i]) }

  /** The white space `parseInt` skips and `Number` trims (the ASCII part of it). */
  predicate IsSpace(c: char) { c == ' ' || c == '\t' || c == '\n' || c == '\r' }

  function DigitChar(d: nat): (c: char)
    requires d < 10
    ensures IsDigit(c)
  {
    "0123456789"[d]
  }

  function DigitVal(c: char): (d: nat)
    requires IsDigit(c)
    ensures d < 10 && DigitChar(d) == c
  {
    (c as int) - ('0' as int)
  }

  /** Value of a string of decimal digits, read most significant digit first. */
  function DigitsValue(s: string): nat
    requires AllDigits(s)
  {
    if s == [] then 0 else DigitsValue(s[..|s| - 1]) * 10 + DigitVal(s[|s| - 1])
  }

  /** `n.toString()` for a natural number: decimal digits, no leading zero. */
  function NatToString(n: nat): (s: string)
    ensures |s| >= 1 && AllDigits(s)
    ensures s[0] == '0' ==> n == 0
    ensures n < 10 <==> |s| == 1
    decreases n
  {
    if n < 10 then [DigitChar(n)] else NatToString(n / 10) + [DigitChar(n % 10)]
  }

  /** `i.toString()` for an integer. */
  function IntToString(i: int): string
  {
    if i < 0 then "-" + NatToString(-i) else NatToString(i)
  }

  /** Template-literal / `toString` text of a number. */
  function NumToString(n: Num): string
  {
    match n
    case Int(i) => IntToString(i)
    case NaN => "NaN"
  }

  /** Reading the decimal text of a natural number gives the number back. */
  lemma {:induction false} NatToStringValue(n: nat)
    ensures DigitsValue(NatToString(n)) == n
  {
    if n >= 10 {
      var s := NatToString(n);
      var p := NatToString(n / 10);
      assert s == p + [DigitChar(n % 10)];
      assert s[..|s| - 1] == p && s[|s| - 1] == DigitChar(n % 10);
      NatToStringValue(n / 10);
      DigitRoundTrip(n % 10);
      DivModPositive(n, 10);
    }
  }

  lemma DigitRoundTrip(d: nat)
    requires d < 10
    ensures DigitVal(DigitChar(d)) == d
  {
  }

  /** Decimal text of n with a leading zero has the same value. */
  lemma {:induction false} LeadingZeroValue(s: string)
    requires AllDigits(s)
    ensures AllDigits("0" + s) && DigitsValue("0" + s) == DigitsValue(s)
  {
    var z := "0" + s;
    if s != [] {
      assert z[..|z| - 1] == "0" + s[..|s| - 1];
      LeadingZeroValue(s[..|s| - 1]);
    }
  }

  /** The longest prefix of s made of decimal digits. */
  function DigitPrefix(s: string): (d: string)
    ensures AllDigits(d) && |d| <= |s| && d == s[..|d|]
    ensures |d| < |s| ==> !IsDigit(s[|d|])
  {
    if s != [] && IsDigit(s[0]) then [s[0]] + DigitPrefix(s[1..]) else []
  }

  /** The digit prefix stops exactly where the digits stop. */
  lemma {:induction false} DigitPrefixOf(d: string, rest: string)
    requires AllDigits(d)
    requires rest == [] || !IsDigit(rest[0])
    ensures DigitPrefix(d + rest) == d
  {
    if d != [] {
      assert (d + rest)[1..] == d[1..] + rest;
      DigitPrefixOf(d[1..], rest);
    }
  }

  function TrimStart(s: string): (t: string)
    ensures |t| <= |s| && t == s[|s| - |t|..]
    ensures t == [] || !IsSpace(t[0])
  {
    if s != [] && IsSpace(s[0]) then TrimStart(s[1..]) else s
  }

  function TrimEnd(s: string): (t: string)
    ensures |t| <= |s| && t == s[..|t|]
    ensures t == [] || !IsSpace(t[|t| - 1])
  {
    if s != [] && IsSpace(s[|s| - 1]) then TrimEnd(s[..|s| - 1]) else s
  }

  /** The number a leading run of decimal digits spells; NaN when there is none. */
  function LeadingDigits(u: string): Num
  {
    var d := DigitPrefix(u);
    if d == [] then NaN else Int(DigitsValue(d))
  }

  /** Unary minus; NaN stays NaN. */
  function Negate(n: Num): Num
  {
    match n
    case Int(i) => Int(-i)
    case NaN => NaN
  }

  /**
   * `parseInt(s, 10)`: skip leading white space, take one optional sign,
   * then as many decimal digits as follow; NaN when there are none.
   */
  function ParseInt(s: string): Num
  {
    var t := TrimStart(s);
    if t != [] && t[0] == '-' then Negate(LeadingDigits(t[1..]))
    else if t != [] && t[0] == '+' then LeadingDigits(t[1..])
    else LeadingDigits(t)
  }

  /**
   * `Number(s)` restricted to integers: surrounding white space is trimmed,
   * the empty string is 0, an optional sign followed by decimal digits is
   * that integer, and everything else is NaN.
   */
  function ToNumber(s: string): Num
  {
    var t := TrimEnd(TrimStart(s));
    if t == [] then Int(0)
    else
      var signed := t[0] == '-' || t[0] == '+';
      var u := if signed then t[1..] else t;
      if u != [] && AllDigits(u) then
        Int(if t[0] == '-' then 0 - DigitsValue(u) else DigitsValue(u))
      else NaN
  }

  /** Trimming leaves alone a string that starts and ends with no white space. */
  lemma TrimNothing(s: string)
    requires s != [] && !IsSpace(s[0]) && !IsSpace(s[|s| - 1])
    ensures TrimStart(s) == s && TrimEnd(s) == s
  {
  }

  /** `parseInt` of a string of decimal digits is their value. */
  lemma ParseIntOfDigits(digits: string)
    requires digits != [] && AllDigits(digits)
    ensures ParseInt(digits) == Int(DigitsValue(digits))
  {
    DigitPrefixOf(digits, []);
    assert digits + [] == digits;
    TrimNothing(digits);
  }

  /** `parseInt` of a minus sign and decimal digits is minus their value. */
  lemma ParseIntOfNegative(digits: string)
    requires digits != [] && AllDigits(digits)
    ensures ParseInt("-" + digits) == Int(0 - DigitsValue(digits))
  {
    var s := "-" + digits;
    assert s[0] == '-' && s[1..] == digits;
    assert TrimStart(s) == s by {
      assert !IsSpace(s[0]);
    }
    assert LeadingDigits(digits) == Int(DigitsValue(digits)) by {
      DigitPrefixOf(digits, []);
      assert digits + [] == digits;
    }
  }

  /** `parseInt` reads back what `toString` wrote. */
  lemma ParseIntRoundTrip(i: int)
    ensures ParseInt(IntToString(i)) == Int(i)
  {
    var n: nat := if i < 0 then -i else i;
    NatToStringValue(n);
    if i < 0 {
      ParseIntOfNegative(NatToString(n));
    } else {
      ParseIntOfDigits(NatToString(n));
    }
  }

  /** `Number` reads back what `toString` wrote, NaN included. */
  lemma ToNumberRoundTrip(n: Num)
    ensures ToNumber(NumToString(n)) == n
  {
    match n
    case NaN =>
      ToNumberOfNaN();
    case Int(i) =>
      ToNumberOfInt(i);
  }

  lemma ToNumberOfInt(i: int)
    ensures ToNumber(IntToString(i)) == Int(i)
  {
    if i < 0 {
      ToNumberOfNegative(i);
    } else {
      ToNumberOfNat(i);
    }
  }

  lemma ToNumberOfNaN()
    ensures ToNumber("NaN") == NaN
  {
    var s := "NaN";
    TrimNothing(s);
    assert !IsDigit(s[0]);
  }

  lemma ToNumberOfNat(i: int)
    requires i >= 0
    ensures ToNumber(IntToString(i)) == Int(i)
  {
    var d := NatToString(i);
    NatToStringValue(i);
    ToNumberOfDigits(d, i);
    assert IntToString(i) == d;
  }

  lemma ToNumberOfDigits(d: string, m: nat)
    requires d != [] && AllDigits(d) && DigitsValue(d) == m
    ensures ToNumber(d) == Int(m)
  {
    assert IsDigit(d[0]) && IsDigit(d[|d| - 1]);
    TrimNothing(d);
    assert TrimEnd(TrimStart(d)) == d;
    assert d[0] != '-' && d[0] != '+';
  }

  lemma ToNumberOfNegative(i: int)
    requires i < 0
    ensures ToNumber(IntToString(i)) == Int(i)
  {
    NatToStringValue(-i);
    ToNumberOfMinus(i, NatToString(-i));
  }

  lemma ToNumberOfMinus(i: int, d: string)
    requires i < 0 && d == NatToString(-i) && DigitsValue(d) == -i
    ensures ToNumber(IntToString(i)) == Int(i)
  {
    var t := "-" + d;
    assert IntToString(i) == t;
    assert t[|t| - 1] == d[|d| - 1] && t[1..] == d;
    TrimNothing(t);
    assert TrimEnd(TrimStart(t)) == t && t[0] == '-';
  }

  /** `s.padStart(2, '0')`. */
  function Pad2(s: string): string
  {
    if |s| == 0 then "00" else if |s| == 1 then "0" + s else s
  }

  /** Two-digit text of a number below 100, zero-padded. */
  lemma Pad2Digits(n: nat)
    requires n < 100
    ensures var p := Pad2(NatToString(n)); |p| == 2 && AllDigits(p) && DigitsValue(p) == n
  {
    NatToStringValue(n);
    if n < 10 {
      LeadingZeroValue(NatToString(n));
    } else {
      assert NatToString(n / 10) == [DigitChar(n / 10)];
    }
  }

  /** Euclidean division by a positive divisor. */
  lemma DivModPositive(x: int, d: int)
    requires d > 0
    ensures x == d * (x / d) + x % d && 0 <= x % d < d
  {
  }

  /** A product with a positive factor has the sign of the other factor. */
  lemma ProductSign(d: int, k: int)
    requires d > 0
    ensures k < 0 ==> d * k <= -d
    ensures k > 100 ==> d * k >= d * 101
  {
  }

  /**
   * `Math.round(p / t * 100)` computed on exact rationals: the nearest
   * integer to 100p/t, halves rounded up.
   */
  function RoundRate(p: int, t: int): (r: int)
    requires t > 0
    ensures 2 * t * r - t <= 200 * p < 2 * t * r + t
    ensures 0 <= p ==> 0 <= r
    ensures 0 <= p <= t ==> r <= 100
  {
    var d := 2 * t;
    var q := (200 * p + t) / d;
    DivModPositive(200 * p + t, d);
    ProductSign(d, q);
    q
  }
}
