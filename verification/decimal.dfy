/** The `%d` rendering of a non-negative Go `int`, as `fmt.Sprintf` writes it:
    decimal digits, most significant first, no sign and no leading zeros. */
module DecimalFormat {

  predicate IsDigit(c: char) {
    '0' <= c <= '9'
  }

  predicate AllDigits(s: string) {
    forall i :: 0 <= i < |s| ==> IsDigit(s[i])
  }

  function DigitChar(d: nat): (c: char)
    requires d < 10
    ensures IsDigit(c)
    ensures c as int - '0' as int == d
  {
    (d + '0' as int) as char
  }

  /** Decimal rendering of `n`. */
  function FormatInt(n: nat): (s: string)
    ensures |s| > 0 && AllDigits(s)
    ensures s[0] == '0' ==> n == 0
    decreases n
  {
    if n < 10 then [DigitChar(n)]
    else FormatInt(n / 10) + [DigitChar(n % 10)]
  }

  /** The number a string of decimal digits denotes (an independent reading of
      `FormatInt`'s output, least significant digit last). */
  function ParseDigits(s: string): nat
    requires AllDigits(s)
    decreases |s|
  {
    if |s| == 0 then 0
    else ParseDigits(s[..|s| - 1]) * 10 + (s[|s| - 1] as int - '0' as int)
  }

  /** Reading back a rendering gives the number rendered. */
  lemma {:induction false} ParseFormatInt(n: nat)
    ensures ParseDigits(FormatInt(n)) == n
    decreases n
  {
    var s := FormatInt(n);
    if n >= 10 {
      ParseFormatInt(n / 10);
      assert s[..|s| - 1] == FormatInt(n / 10);
    }
  }

  /** Distinct indices render to distinct strings. */
  lemma FormatIntInjective(m: nat, n: nat)
    ensures FormatInt(m) == FormatInt(n) ==> m == n
  {
    ParseFormatInt(m);
    ParseFormatInt(n);
  }

  /** Number of decimal digits at the end of `s`. */
  function TrailingDigits(s: string): (n: nat)
    ensures n <= |s|
    decreases |s|
  {
    if |s| == 0 || !IsDigit(s[|s| - 1]) then 0
    else 1 + TrailingDigits(s[..|s| - 1])
  }

  /** The digits after the dash of `prefix + "-" + digits` are exactly `digits`. */
  lemma {:induction false} TrailingDigitsAfterDash(prefix: string, digits: string)
    requires AllDigits(digits)
    ensures TrailingDigits(prefix + "-" + digits) == |digits|
    decreases |digits|
  {
    var s := prefix + "-" + digits;
    if |digits| > 0 {
      var d' := digits[..|digits| - 1];
      assert s[..|s| - 1] == prefix + "-" + d';
      TrailingDigitsAfterDash(prefix, d');
    } else {
      assert s[|s| - 1] == '-';
    }
  }
}
