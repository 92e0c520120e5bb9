/** Java's long and its decimal text: String.valueOf(long) and
    Long.parseLong(String), the pair that carries the user id through the
    JWT kid header. */
module JavaLong {
  import opened Outcomes

  const MIN_LONG := -0x8000_0000_0000_0000
  const MAX_LONG := 0x7FFF_FFFF_FFFF_FFFF

  predicate InRange(n: int)
  {
    MIN_LONG <= n <= MAX_LONG
  }

  predicate IsDigit(c: char)
  {
    '0' <= c <= '9'
  }

  predicate AllDigits(s: string)
  {
    forall i :: 0 <= i < |s| ==> IsDigit(s[i])
  }

  function DigitChar(d: nat): (c: char)
    requires d < 10
    ensures IsDigit(c)
  {
    ('0' as int + d) as char
  }

  function DigitValue(c: char): (d: nat)
    requires IsDigit(c)
    ensures d < 10 && DigitChar(d) == c
  {
    c as int - '0' as int
  }

  /** Decimal digits of a natural number, most significant first, no leading zero. */
  function NatToDecimal(n: nat): (s: string)
    decreases n
  {
    if n < 10 then [DigitChar(n)] else NatToDecimal(n / 10) + [DigitChar(n % 10)]
  }

  /** String.valueOf(long): a minus sign for negatives, then the digits. */
  function ValueOf(n: int): string
  {
    if n < 0 then "-" + NatToDecimal(-n) else NatToDecimal(n)
  }

  /** The number a string of digits denotes (leading zeros allowed). */
  function DigitsValue(s: string): nat
    requires AllDigits(s)
  {
    if s == [] then 0 else DigitsValue(s[..|s| - 1]) * 10 + DigitValue(s[|s| - 1])
  }

  /** Long.parseLong(s, 10) over ASCII digits: an optional sign, at least one
      digit, and a value inside the long range; anything else throws
      NumberFormatException (None here). */
  function ParseLong(s: string): (r: Option<int>)
    ensures r.Some? ==> InRange(r.value)
    ensures r.Some? ==> |s| > 0 && AllDigits(if s[0] == '-' || s[0] == '+' then s[1..] else s)
    // the value is the digits' value, negated after a minus sign
    ensures r.Some? ==>
      var digits := if s[0] == '-' || s[0] == '+' then s[1..] else s;
      r.value == if s[0] == '-' then 0 - DigitsValue(digits) else DigitsValue(digits)
    // and every signed, non-empty digit string whose value fits is accepted
    ensures |s| > 0 ==>
      var digits := if s[0] == '-' || s[0] == '+' then s[1..] else s;
      (&& |digits| > 0 && AllDigits(digits)
       && InRange(if s[0] == '-' then 0 - DigitsValue(digits) else DigitsValue(digits)))
      ==> r.Some?
  {
    if |s| == 0 then None
    else
      var digits := if s[0] == '-' || s[0] == '+' then s[1..] else s;
      if |digits| == 0 || !AllDigits(digits) then None
      else
        var v: int := if s[0] == '-' then 0 - DigitsValue(digits) as int else DigitsValue(digits);
        if InRange(v) then Some(v) else None
  }

  /** The digits of n are a non-empty digit string denoting n, led by a non-sign. */
  lemma {:induction false} NatToDecimalDenotes(n: nat)
    ensures |NatToDecimal(n)| > 0 && AllDigits(NatToDecimal(n))
    ensures DigitsValue(NatToDecimal(n)) == n
    decreases n
  {
    if n >= 10 {
      NatToDecimalDenotes(n / 10);
      var prefix := NatToDecimal(n / 10);
      var s := prefix + [DigitChar(n % 10)];
      assert s[..|s| - 1] == prefix;
      assert DigitValue(s[|s| - 1]) == n % 10;
    }
  }

  /** Long.parseLong(String.valueOf(n)) == n for every long n. */
  lemma ParseValueOf(n: int)
    requires InRange(n)
    ensures ParseLong(ValueOf(n)) == Some(n)
  {
    var s := ValueOf(n);
    if n < 0 {
      var d := NatToDecimal(-n);
      NatToDecimalDenotes(-n);
      assert s == "-" + d && s[0] == '-' && s[1..] == d;
      assert 0 - DigitsValue(d) as int == n;
    } else {
      NatToDecimalDenotes(n);
      assert IsDigit(s[0]);
      assert DigitsValue(s) == n;
    }
  }

  /** So String.valueOf is injective on longs. */
  lemma ValueOfInjective(m: int, n: int)
    requires InRange(m) && InRange(n) && ValueOf(m) == ValueOf(n)
    ensures m == n
  {
    ParseValueOf(m);
    ParseValueOf(n);
  }
}
