/**
  The `fmt` verbs the core formats with: `%d` on integers and `%t` on booleans.
  `ParseDecimal` reads a decimal string back and is the inverse `%d` is proved against.
 */
module GoFmt {

  predicate IsDigit(c: char)
  {
    '0' <= c <= '9'
  }

  predicate IsDigits(s: string)
  {
    forall i :: 0 <= i < |s| ==> IsDigit(s[i])
  }

  function DigitChar(d: nat): (c: char)
    requires d < 10
    ensures IsDigit(c) && (c as int) - ('0' as int) == d
  {
    ('0' as int + d) as char
  }

  /** The decimal digits of `n`, most significant first, with no leading zero. */
  function FormatNat(n: nat): (s: string)
    ensures |s| > 0 && IsDigits(s)
    ensures s[0] == '0' ==> n == 0 && s == "0"
  {
    if n < 10 then [DigitChar(n)] else FormatNat(n / 10) + [DigitChar(n % 10)]
  }

  /** `%d`: an optional minus sign followed by the digits of the magnitude. */
  function FormatInt(i: int): (s: string)
    ensures |s| > 0
    ensures s[0] == '-' <==> i < 0
  {
    if i < 0 then "-" + FormatNat(-i) else FormatNat(i)
  }

  /** `%t`. */
  function FormatBool(b: bool): (s: string)
    ensures s == "true" || s == "false"
    ensures s == "true" <==> b
  {
    if b then "true" else "false"
  }

  /** The number a string of decimal digits denotes. */
  function DigitsValue(s: string): nat
    requires IsDigits(s)
  {
    if s == [] then 0
    else 10 * DigitsValue(s[..|s| - 1]) + ((s[|s| - 1] as int) - ('0' as int))
  }

  /** Reads an integer written as `%d` writes it. */
  function ParseDecimal(s: string): int
    requires |s| > 0
    requires IsDigits(s) || (s[0] == '-' && IsDigits(s[1..]))
  {
    if s[0] == '-' then 0 - DigitsValue(s[1..]) else DigitsValue(s)
  }

  lemma {:induction false} FormatNatRoundTrip(n: nat)
    ensures DigitsValue(FormatNat(n)) == n
  {
    if n >= 10 {
      var s := FormatNat(n);
      var prefix := FormatNat(n / 10);
      assert s[..|s| - 1] == prefix;
      FormatNatRoundTrip(n / 10);
    }
  }

  /** `%d` loses nothing: the integer can be read back from its rendering. */
  lemma FormatIntRoundTrip(i: int)
    ensures var s := FormatInt(i);
      (IsDigits(s) || (s[0] == '-' && IsDigits(s[1..]))) && ParseDecimal(s) == i
  {
    if i < 0 {
      assert FormatInt(i)[1..] == FormatNat(-i);
      FormatNatRoundTrip(-i);
    } else {
      FormatNatRoundTrip(i);
    }
  }
}
