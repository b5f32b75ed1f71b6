/** Unsigned decimal numerals, as fmt prints them and strconv.ParseUint reads them. */
module Decimal {
  import opened Options

  function Digit(d: nat): char
    requires d < 10
  {
    ('0' as int + d) as char
  }

  /** The shortest numeral of `n`. */
  function Numeral(n: nat): string {
    if n < 10 then [Digit(n)] else Numeral(n / 10) + [Digit(n % 10)]
  }

  predicate IsNumeral(s: string) { s != "" && forall i | 0 <= i < |s| :: '0' <= s[i] <= '9' }

  /** The number a string of digits stands for. */
  function NumberOf(s: string): nat
    requires forall i | 0 <= i < |s| :: '0' <= s[i] <= '9'
  {
    if s == "" then 0 else 10 * NumberOf(s[..|s| - 1]) + (s[|s| - 1] as int - '0' as int)
  }

  lemma {:induction false} NumeralReadsBack(n: nat)
    ensures IsNumeral(Numeral(n)) && NumberOf(Numeral(n)) == n
  {
    if n >= 10 {
      NumeralReadsBack(n / 10);
      assert Numeral(n)[..|Numeral(n)| - 1] == Numeral(n / 10);
    } else {
      assert Numeral(n)[..0] == "";
    }
  }

  /** strconv.ParseUint in base 10: digits only, and a value below `limit`. */
  function ParseUint(s: string, limit: nat): Option<nat> {
    if IsNumeral(s) && NumberOf(s) < limit then Some(NumberOf(s)) else None
  }

  lemma DigitsAreDecimal(n: nat)
    ensures n < 10 ==> Numeral(n) == ["0123456789"[n]]
    ensures n >= 10 ==> Numeral(n) == Numeral(n / 10) + ["0123456789"[n % 10]]
  {
  }
}
