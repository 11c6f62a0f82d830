/**
  Integer rendering with the `%d` verb: an int64 written in base ten, with a
  leading '-' for negative values and no leading zeros. ParseDecimal is its
  inverse, so the plain "N B" text of a size can be read back to the size.
 */
module Decimal {

  datatype Option<T> = None | Some(value: T)

  predicate IsDigit(c: char) {
    '0' <= c <= '9'
  }

  predicate AllDigits(s: string) {
    forall i :: 0 <= i < |s| ==> IsDigit(s[i])
  }

  /** The character for a single base-ten digit. */
  function DigitChar(d: nat): (c: char)
    requires d < 10
    ensures IsDigit(c) && (c as int) - ('0' as int) == d
  {
    (d + '0' as int) as char
  }

  /** The base-ten digits of `n`, most significant first, with no leading zero. */
  function NatDigits(n: nat): (s: string)
    ensures |s| >= 1 && AllDigits(s)
    ensures s[0] == '0' <==> n == 0
    decreases n
  {
    if n < 10 then [DigitChar(n)] else NatDigits(n / 10) + [DigitChar(n % 10)]
  }

  /** The text `%d` produces for `x`. */
  function IntText(x: int): (s: string)
    ensures |s| >= 1
    ensures s[0] == '-' <==> x < 0
    ensures x >= 0 ==> AllDigits(s) && (s[0] == '0' <==> x == 0)
    ensures x < 0 ==> AllDigits(s[1..]) && |s| >= 2 && s[1] != '0'
  {
    if x < 0 then "-" + NatDigits(-x) else NatDigits(x)
  }

  /** The value of a string of digits, read most significant first. */
  function DigitsValue(s: string): nat
    requires AllDigits(s)
  {
    if s == [] then 0
    else 10 * DigitsValue(s[..|s| - 1]) + ((s[|s| - 1] as int) - ('0' as int))
  }

  /** Reads an optionally signed decimal integer; None when `s` is not one. */
  function ParseDecimal(s: string): (r: Option<int>)
    ensures r.Some? ==> |s| >= 1
  {
    if |s| >= 2 && s[0] == '-' && AllDigits(s[1..]) then
      var magnitude: int := DigitsValue(s[1..]);
      Some(-magnitude)
    else if |s| >= 1 && AllDigits(s) then Some(DigitsValue(s))
    else None
  }

  lemma {:induction false} DigitsRoundTrip(n: nat)
    ensures DigitsValue(NatDigits(n)) == n
    decreases n
  {
    if n >= 10 {
      var s := NatDigits(n);
      DigitsRoundTrip(n / 10);
      assert s[..|s| - 1] == NatDigits(n / 10);
    }
  }

  /** Reading back the `%d` text of any integer gives that integer. */
  lemma IntTextRoundTrip(x: int)
    ensures ParseDecimal(IntText(x)) == Some(x)
  {
    var s := IntText(x);
    if x < 0 {
      assert s[1..] == NatDigits(-x);
      DigitsRoundTrip(-x);
    } else {
      DigitsRoundTrip(x);
    }
  }

  /** Different integers have different `%d` texts. */
  lemma IntTextInjective(x: int, y: int)
    requires IntText(x) == IntText(y)
    ensures x == y
  {
    IntTextRoundTrip(x);
    IntTextRoundTrip(y);
  }
}
