/** What all components say of numbers. */
module Numbers {
  function Min(a: int, b: int): int { if a < b then a else b }

  function Power(base: nat, n: nat): nat { if n == 0 then 1 else base * Power(base, n - 1) }

  /** Moving one factor from the power into the coefficient. */
  lemma PowerStep(d: int, base: nat, n: nat)
    ensures d * Power(base, n + 1) == d * Power(base, n) * base
  {
    assert d * (base * Power(base, n)) == d * Power(base, n) * base;
  }
}
