/** Numbers in decimal. */
module Decimals {
  import opened Limits

  predicate IsDigit(c: char) { '0' <= c <= '9' }

  function Decimal(n: nat): (s: string)
    ensures s != "" && forall k :: 0 <= k < |s| ==> IsDigit(s[k])
  {
    (if n < 10 then "" else Decimal(n / 10)) + ['0' + (n % 10) as char]
  }

  function SignedDecimal(v: int): string { if v < 0 then "-" + Decimal(-v) else Decimal(v) }

  function Pow10(k: nat): nat { if k == 0 then 1 else 10 * Pow10(k - 1) }

  lemma {:induction false} DecimalLength(n: nat, k: nat)
    requires k >= 1 && n < Pow10(k)
    ensures |Decimal(n)| <= k
  {
    if n >= 10 {
      DecimalLength(n / 10, k - 1);
    }
  }

  lemma Pow10Of20()
    ensures Pow10(20) == 100_000_000_000_000_000_000
  {
    assert Pow10(2) == 100 && Pow10(4) == 10_000 && Pow10(6) == 1_000_000 && Pow10(8) == 100_000_000;
    assert Pow10(10) == 100 * Pow10(8) && Pow10(12) == 100 * Pow10(10) && Pow10(14) == 100 * Pow10(12);
    assert Pow10(16) == 100 * Pow10(14) && Pow10(18) == 100 * Pow10(16) && Pow10(20) == 100 * Pow10(18);
  }

  lemma DecimalFits(d: nat)
    requires d <= ULONG_MAX
    ensures |Decimal(d)| <= 20
  {
    Pow10Of20();
    DecimalLength(d, 20);
  }

  lemma SignedDecimalLength(v: int)
    requires LLONG_MIN <= v <= ULONG_MAX
    ensures 1 <= |SignedDecimal(v)| <= 21
  {
    DecimalFits(if v < 0 then -v else v);
  }
}
