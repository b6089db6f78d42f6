/** Powers of two over the integers, and the few facts about them the other modules need. */
module PowerOfTwo {

  function Pow2(n: nat): (r: nat)
    ensures r > 0
  {
    if n == 0 then 1 else 2 * Pow2(n - 1)
  }

  /** m * 2^s: the mantissa m at exponent s. */
  function At(m: nat, s: nat): nat {
    MulMono(0, m, Pow2(s));
    m * Pow2(s)
  }

  lemma NextPower(n: nat)
    ensures Pow2(n + 1) == 2 * Pow2(n)
  {}

  lemma {:induction false} Pow2Add(a: nat, b: nat)
    ensures Pow2(a + b) == Pow2(a) * Pow2(b)
    decreases a
  {
    if a == 0 {
    } else {
      Pow2Add(a - 1, b);
      assert a + b - 1 == a - 1 + b;
      MulAssoc(2, Pow2(a - 1), Pow2(b));
    }
  }

  lemma AtAdd(m: nat, a: nat, b: nat)
    ensures At(At(m, a), b) == At(m, a + b)
  {
    Pow2Add(a, b);
    MulAssoc(m, Pow2(a), Pow2(b));
  }

  lemma {:induction false} Pow2Mono(a: nat, b: nat)
    requires a <= b
    ensures Pow2(a) <= Pow2(b)
    ensures a < b ==> 2 * Pow2(a) <= Pow2(b)
    decreases b
  {
    if a < b {
      Pow2Mono(a, b - 1);
    }
  }

  /** Pow2 is strictly monotone, so it can be cancelled. */
  lemma Pow2Less(a: nat, b: nat)
    requires Pow2(a) < Pow2(b)
    ensures a < b
  {
    if b <= a {
      Pow2Mono(b, a);
    }
  }

  lemma MulAssoc(x: int, y: int, z: int)
    ensures x * (y * z) == (x * y) * z
  {}

  lemma MulComm(x: int, y: int)
    ensures x * y == y * x
  {}

  lemma MulDist(x: int, y: int, z: int)
    ensures x * (y + z) == x * y + x * z
    ensures (y + z) * x == y * x + z * x
    ensures (y - z) * x == y * x - z * x
  {}

  lemma MulMono(x: int, y: int, z: int)
    requires x <= y && 0 <= z
    ensures x * z <= y * z
    ensures z * x <= z * y
    ensures x < y && 0 < z ==> x * z < y * z
  {}

  lemma MulCancelLe(x: int, y: int, z: int)
    requires 0 < z && x * z <= y * z
    ensures x <= y
  {
    if x > y { MulMono(y, x, z); }
  }

  lemma MulCancelLt(x: int, y: int, z: int)
    requires 0 < z && x * z < y * z
    ensures x < y
  {
    if x >= y { MulMono(y, x, z); }
  }

  lemma MulCancel(x: int, y: int, z: int)
    requires z != 0 && x * z == y * z
    ensures x == y
  {}

  /** Quotient and remainder are determined by a decomposition. */
  lemma DivModUnique(a: int, d: int, q: int, r: int)
    requires 0 < d && 0 <= r < d
    requires a == q * d + r
    ensures a / d == q && a % d == r
  {
    var q', r' := a / d, a % d;
    assert a == q' * d + r';
    assert (q - q') * d == r' - r by { MulDist(d, q, q'); }
    if q > q' {
      MulMono(1, q - q', d);
    } else if q < q' {
      MulMono(q - q', -1, d);
    }
  }

  /** Dividing twice is dividing by the product. */
  lemma DivDiv(a: int, b: int, c: int)
    requires 0 < b && 0 < c
    ensures 0 < b * c
    ensures a / (b * c) == (a / b) / c
    ensures a % (b * c) == ((a / b) % c) * b + a % b
  {
    MulMono(1, b, c);
    DivDivParts(a, b, c, a / b, a % b, (a / b) / c, (a / b) % c);
  }

  lemma DivDivParts(a: int, b: int, c: int, q: int, r: int, q2: int, r2: int)
    requires 0 < b && 0 < c && 0 < b * c
    requires 0 <= r < b && 0 <= r2 < c
    requires a == q * b + r && q == q2 * c + r2
    ensures a / (b * c) == q2 && a % (b * c) == r2 * b + r
  {
    assert a == q2 * (b * c) + (r2 * b + r) by {
      MulDist(b, q2 * c, r2);
      MulAssoc(q2, c, b);
      MulComm(b, c);
    }
    assert 0 <= r2 * b by { MulMono(0, r2, b); }
    assert r2 * b + r < b * c by {
      MulMono(r2, c - 1, b);
      MulDist(b, c, 1);
      MulComm(b, c);
    }
    DivModUnique(a, b * c, q2, r2 * b + r);
  }

  /** Scaling both sides of a division scales the remainder only. */
  lemma DivModScale(a: int, d: int, k: int)
    requires 0 < d && 0 < k
    ensures 0 < d * k
    ensures (a * k) / (d * k) == a / d
    ensures (a * k) % (d * k) == (a % d) * k
  {
    MulMono(1, d, k);
    var q, r := a / d, a % d;
    assert a == q * d + r;
    calc {
      a * k;
      (q * d + r) * k;
      { MulDist(k, q * d, r); MulAssoc(q, d, k); }
      q * (d * k) + r * k;
    }
    MulMono(0, r, k);
    MulMono(r, d, k);
    DivModUnique(a * k, d * k, q, r * k);
  }

  lemma QuotientBounds(a: int, d: int)
    requires 0 < d
    ensures (a / d) * d <= a < (a / d) * d + d
    ensures 0 <= a ==> 0 <= a / d
  {}

  lemma ExactQuotient(a: int, d: int)
    requires 0 < d && a % d == 0
    ensures a == (a / d) * d
  {}

  /** A multiple has remainder zero. */
  lemma ModMultiple(q: int, d: int)
    requires 0 < d
    ensures (q * d) % d == 0 && (q * d) / d == q
  {
    DivModUnique(q * d, d, q, 0);
  }

  /** Adding a multiple of the divisor leaves the remainder. */
  lemma ModShift(a: int, d: int, k: int)
    requires 0 < d
    ensures (a + k * d) % d == a % d
    ensures (a + k * d) / d == a / d + k
  {
    var q, r := a / d, a % d;
    assert a == q * d + r;
    assert a + k * d == (q + k) * d + r by { MulDist(d, q, k); }
    DivModUnique(a + k * d, d, q + k, r);
  }
}
