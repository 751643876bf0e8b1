/** Decimal numerals as `{}` prints them and `parse` reads them. */
module Numerals {
  function Digit(d: nat): char
    requires d < 10
  {
    "0123456789"[d]
  }

  predicate IsDigit(c: char) {
    '0' <= c <= '9'
  }

  function Value(c: char): nat {
    if IsDigit(c) then (c as int) - ('0' as int) else 0
  }

  function Decimal(n: nat): (s: string)
    ensures s != []
  {
    if n < 10 then [Digit(n)] else Decimal(n / 10) + [Digit(n % 10)]
  }

  function FromDecimal(s: string): nat {
    if s == [] then 0 else 10 * FromDecimal(s[..|s| - 1]) + Value(s[|s| - 1])
  }

  predicate AllDigits(s: string) {
    forall i :: 0 <= i < |s| ==> IsDigit(s[i])
  }

  lemma {:induction false} DecimalRoundTrip(n: nat)
    ensures AllDigits(Decimal(n)) && FromDecimal(Decimal(n)) == n
  {
    if n >= 10 {
      DecimalRoundTrip(n / 10);
      assert Decimal(n)[..|Decimal(n)| - 1] == Decimal(n / 10);
    } else {
      assert Decimal(n)[..0] == [];
    }
  }

  /** Digits alone, below a bound, as `str::parse` takes them after an optional sign. */
  function ParseDigits(s: string, bound: nat): (r: int)
    ensures -1 <= r < bound || r == -1
  {
    if s == [] || !AllDigits(s) || FromDecimal(s) >= bound then -1 else FromDecimal(s)
  }
}
