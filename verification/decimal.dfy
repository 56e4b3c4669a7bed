/**
 * Decimal text of task ids: `String(n)` for a counter value and the part of
 * JavaScript's `Number(text)` that the task repositories rely on.
 */
module Decimal {
  import opened Wrappers

  predicate IsDigit(c: char) {
    '0' <= c <= '9'
  }

  predicate AllDigits(s: string) {
    forall i :: 0 <= i < |s| ==> IsDigit(s[i])
  }

  function DigitChar(d: nat): (c: char)
    requires d < 10
    ensures IsDigit(c)
  {
    (48 + d) as char
  }

  function DigitValue(c: char): (d: nat)
    requires IsDigit(c)
    ensures d < 10
  {
    (c as int - 48) as nat
  }

  /** `String(n)` for a non-negative integer: shortest decimal text, no leading zero. */
  function NatToString(n: nat): (s: string)
    ensures |s| >= 1 && AllDigits(s)
    ensures |s| > 1 ==> s[0] != '0'
  {
    if n < 10 then [DigitChar(n)] else NatToString(n / 10) + [DigitChar(n % 10)]
  }

  /** The value of a string of decimal digits (leading zeros allowed, "" is 0). */
  function ParseDigits(s: string): nat
    requires AllDigits(s)
  {
    if |s| == 0 then 0 else 10 * ParseDigits(s[..|s| - 1]) + DigitValue(s[|s| - 1])
  }

  /** Reading back the text of a counter value gives the value. */
  lemma {:induction false} ParseNatToString(n: nat)
    ensures ParseDigits(NatToString(n)) == n
  {
    var s := NatToString(n);
    if n >= 10 {
      ParseNatToString(n / 10);
      assert s[..|s| - 1] == NatToString(n / 10);
    }
  }

  /**
   * Distinct counter values have distinct texts, so generated ids never
   * collide while the counter stays an exact double (below 2^53).
   */
  lemma NatToStringInjective(a: nat, b: nat)
    requires a != b
    ensures NatToString(a) != NatToString(b)
  {
    ParseNatToString(a);
    ParseNatToString(b);
  }

  /**
   * JavaScript `Number(text)` restricted to the texts the repositories meet:
   * the empty text is 0, a run of decimal digits is its value, and anything
   * else is NaN (None). Signs, fractions, exponents, hex and surrounding
   * whitespace are not modelled.
   */
  function JsNumber(s: string): (r: Option<nat>)
    ensures s == "" ==> r == Some(0)
    ensures r.None? <==> !AllDigits(s)
  {
    if AllDigits(s) then Some(ParseDigits(s)) else None
  }

  /** `Number(String(n))` is `n`. */
  lemma JsNumberOfNatToString(n: nat)
    ensures JsNumber(NatToString(n)) == Some(n)
  {
    ParseNatToString(n);
  }
}
