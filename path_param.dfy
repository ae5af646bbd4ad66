/**
 * Route parameters. The controllers turn the `:id` and `:employeeId`
 * segments into numbers with JavaScript's unary `+` before calling a
 * service; the client builds those segments from numeric ids with a
 * template literal, i.e. in decimal.
 */
module PathParam {
  import opened Common
  import opened Clock

  predicate AllDigits(s: string) {
    forall k :: 0 <= k < |s| ==> IsDigit(s[k])
  }

  /** The value of a string of decimal digits, most significant first. */
  function DigitsValue(s: string): nat
    requires AllDigits(s)
  {
    if |s| == 0 then 0 else DigitsValue(s[..|s| - 1]) * 10 + Digit(s[|s| - 1])
  }

  /**
   * `+segment` for a non-empty segment: the number it spells when it is all
   * decimal digits, None (standing for NaN, which equals no stored id)
   * otherwise.
   */
  function ToId(segment: string): (r: Option<nat>)
    ensures r.Some? <==> |segment| > 0 && AllDigits(segment)
  {
    if |segment| > 0 && AllDigits(segment) then Some(DigitsValue(segment)) else None
  }

  /** The decimal spelling of `n` that the client puts in a URL. */
  function Decimal(n: nat): (s: string)
    ensures |s| > 0 && AllDigits(s)
    ensures s[0] != '0' || n == 0
  {
    if n < 10 then [DigitChar(n)] else Decimal(n / 10) + [DigitChar(n % 10)]
  }

  /** An id the client formats reaches the service unchanged. */
  lemma {:induction false} ToIdDecimal(n: nat)
    ensures ToId(Decimal(n)) == Some(n)
  {
    DigitsValueDecimal(n);
  }

  lemma {:induction false} DigitsValueDecimal(n: nat)
    ensures DigitsValue(Decimal(n)) == n
  {
    if n >= 10 {
      var s := Decimal(n);
      assert s[..|s| - 1] == Decimal(n / 10);
      DigitsValueDecimal(n / 10);
    }
  }
}
