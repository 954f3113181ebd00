/** Decimal texts of natural numbers. */
module Decimals {

  predicate Digit(c: char) { '0' <= c <= '9' }

  function DigitValue(c: char): int { c as int - '0' as int }

  function DigitChar(d: int): (c: char)
    requires 0 <= d < 10
    ensures Digit(c) && DigitValue(c) == d
  {
    (d + '0' as int) as char
  }

  function Number(s: string): int {
    if s == "" then 0 else 10 * Number(s[..|s| - 1]) + DigitValue(s[|s| - 1])
  }

  function Decimal(n: nat): string {
    if n < 10 then [DigitChar(n)] else Decimal(n / 10) + [DigitChar(n % 10)]
  }

  lemma {:induction false} DecimalRoundTrip(n: nat)
    ensures Number(Decimal(n)) == n
    ensures Decimal(n) != "" && forall c :: c in Decimal(n) ==> Digit(c)
  {
    if n < 10 {
      assert Decimal(n)[..0] == "";
    } else {
      DecimalRoundTrip(n / 10);
      assert Decimal(n)[..|Decimal(n)| - 1] == Decimal(n / 10);
    }
  }
}
