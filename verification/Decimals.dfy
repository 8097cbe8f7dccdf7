/** Decimal numerals, as Java and Python print them. */
module Decimals {

  function Digit(d: nat): char
    requires d < 10
  {
    "0123456789"[d]
  }

  function Decimal(n: nat): string {
    if n < 10 then [Digit(n)] else Decimal(n / 10) + [Digit(n % 10)]
  }

  predicate IsDigit(c: char) {
    '0' <= c <= '9'
  }

  lemma {:induction false} DecimalDigits(n: nat)
    ensures Decimal(n) != "" && forall i | 0 <= i < |Decimal(n)| :: IsDigit(Decimal(n)[i])
  {
    if n >= 10 {
      DecimalDigits(n / 10);
    }
  }

  lemma LastDigit(n: nat)
    ensures var s := Decimal(n); s != "" && s[|s| - 1] == Digit(n % 10) && (n < 10 <==> |s| == 1)
    ensures n >= 10 ==> Decimal(n)[..|Decimal(n)| - 1] == Decimal(n / 10)
  {
    DecimalDigits(n / 10);
  }

  lemma {:induction false} DecimalIsInjective(a: nat, b: nat)
    requires Decimal(a) == Decimal(b)
    ensures a == b
  {
    LastDigit(a);
    LastDigit(b);
    if a >= 10 {
      DecimalIsInjective(a / 10, b / 10);
    }
  }
}
