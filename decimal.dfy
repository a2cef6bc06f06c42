/** Decimal rendering of non-negative integers, as a JavaScript template literal
    `${n}` produces it, and the parser that inverts it. */
module Decimal {
  import opened Wrappers

  const DIGITS: string := "0123456789"

  predicate IsDigit(c: char)
  {
    '0' <= c <= '9'
  }

  predicate AllDigits(s: string)
  {
    forall i | 0 <= i < |s| :: IsDigit(s[i])
  }

  /** `${n}` for a non-negative integer n: its digits, most significant first, without leading zeros. */
  function NatToString(n: nat): (r: string)
    ensures |r| >= 1 && AllDigits(r)
    ensures r[0] == '0' <==> n == 0
    decreases n
  {
    if n < 10 then [DIGITS[n]] else NatToString(n / 10) + [DIGITS[n % 10]]
  }

  /** The number a string of decimal digits denotes; the empty string denotes 0. */
  function DigitsValue(s: string): nat
    requires AllDigits(s)
  {
    if |s| == 0 then 0 else 10 * DigitsValue(s[..|s| - 1]) + (s[|s| - 1] as int - '0' as int)
  }

  function ParseNat(s: string): Option<nat>
  {
    if |s| > 0 && AllDigits(s) then Some(DigitsValue(s)) else None
  }

  lemma DigitValue(d: nat)
    requires d < 10
    ensures DIGITS[d] as int - '0' as int == d
  {
  }

  /** Rendering a number and parsing it back gives the number. */
  lemma {:induction false} ParseNatToString(n: nat)
    ensures ParseNat(NatToString(n)) == Some(n)
    decreases n
  {
    var r := NatToString(n);
    DigitValue(n % 10);
    if n < 10 {
      assert r == [DIGITS[n]];
      assert r[..0] == [];
      assert DigitsValue(r) == 10 * DigitsValue([]) + n;
    } else {
      ParseNatToString(n / 10);
      var prefix := NatToString(n / 10);
      assert r[..|r| - 1] == prefix;
      assert r[|r| - 1] == DIGITS[n % 10];
      assert DigitsValue(r) == 10 * (n / 10) + n % 10;
    }
  }
}
