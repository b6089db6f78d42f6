/**
 scalbn: scaling by a power of two in at most three multiplications that together round once. The source's constants
 1023, -1022 and 53 are the largest exponent, the smallest exponent and the precision of binary64.
 */
module Scalbn {
  import opened PowerOfTwo
  import opened Ieee
  import opened Rounding
  import opened Floats

  lemma Binary64IsWide(f: Format)
    requires f == BINARY64
    ensures IsWide(f) && Emax(f) == 1023 && Emin(f) == -1022
  {
    assert Pow2(10) == 1024;
  }

  lemma Binary32IsWide(f: Format)
    requires f == BINARY32
    ensures IsWide(f) && Emax(f) == 127 && Emin(f) == -126 && WordBits(f) == 32
  {
    assert Pow2(7) == 128;
  }

  lemma Range(f: Format)
    ensures Limit(f) == Pow2(f.mant + 2 * Emax(f))
  {
    Pow2Mono(1, f.exp);
    Pow2Add(f.mant, Pow2(f.exp) - 2);
  }

  lemma Vanishes(f: Format, v: nat, k: nat)
    requires Representable(f, v) && f.mant + 2 * Emax(f) + 1 <= k
    ensures Round(f, v, k) == Finite(0)
  {
    Range(f);
    if BitLen(v) > f.mant + 2 * Emax(f) { Pow2Mono(f.mant + 2 * Emax(f), BitLen(v) - 1); }
    RoundTiny(f, v, k);
  }

  lemma TwoUp(f: Format, x: Float, u: nat, n: int)
    requires IsFloat(f, x) && 2 * u <= n
    ensures ScaleB(f, ScaleB(f, ScaleB(f, x, u), u), n - 2 * u) == ScaleB(f, x, n)
  {
    ScaleUpTwice(f, x, u, u);
    ScaleUpTwice(f, x, 2 * u, n - 2 * u);
  }

  /** Three upward steps are enough: what they overflow, the exact scaling overflows too. */
  lemma ThreeUp(f: Format, x: Float, u: nat, n: int)
    requires IsFloat(f, x) && IsWide(f) && u == Emax(f) && 3 * u <= n
    ensures ScaleB(f, ScaleB(f, ScaleB(f, x, u), u), u) == ScaleB(f, x, n)
  {
    TwoUp(f, x, u, 3 * u);
    Range(f);
    Pow2Mono(f.mant + 2 * u, 3 * u);
    ScaleUpSaturates(f, x, 3 * u, n);
  }

  lemma TwoDown(f: Format, x: Float, d: nat, n: int)
    requires IsFloat(f, x) && 0 < d && f.mant + 2 <= d && n <= -2 * d - f.mant - 2
    ensures ScaleB(f, ScaleB(f, ScaleB(f, x, 0 - d), 0 - d), n + 2 * d) == ScaleB(f, x, n)
  {
    ScaleDownTwice(f, x, d, d);
    ScaleDownTwice(f, x, 2 * d, -n - 2 * d);
  }

  /** Three downward steps are enough: both they and the exact scaling give zero. */
  lemma ThreeDown(f: Format, x: Float, d: nat, n: int)
    requires IsFloat(f, x) && IsWide(f) && d == Emax(f) - f.mant - 2 && n <= Emin(f) - 2 * d
    ensures ScaleB(f, ScaleB(f, ScaleB(f, x, 0 - d), 0 - d), Emin(f)) == ScaleB(f, x, n)
  {
    TwoDown(f, x, d, Emin(f) - 2 * d);
    if x.Num? {
      Vanishes(f, x.mag, 2 * d - Emin(f));
      Vanishes(f, x.mag, -n);
    }
  }

  /** The word with only an exponent field is the power of two. */
  lemma PowerWord(f: Format, n: int)
    requires IsWide(f) && Emin(f) <= n <= Emax(f)
    ensures 0 <= n + UnitExp(f)
    ensures IsWord(f, (Emax(f) + n) * Pow2(f.mant)) && ToFloat(f, (Emax(f) + n) * Pow2(f.mant)) == TwoTo(f, false, n)
  {
    var P, e := Pow2(f.mant), Emax(f) + n;
    Pow2Add(f.mant, e - 1);
    assert f.mant + (e - 1) == n + UnitExp(f);
    assert Pow2(f.exp) == 2 * Pow2(f.exp - 1);
    assert Pow2(f.mant + 1) == 2 * P;
    assert Pack(f, P, e) == e * P;
    PackMag(f, P * Pow2(e - 1), P, e);
    assert Pow2(WordBits(f)) == 2 * Pow2(f.exp + f.mant);
    DivModUnique(e * P, Pow2(f.exp + f.mant), 0, e * P);
  }

  /** At most two early products, and one by the word built from what is left of n. */
  method Scalbn(f: Format, x: Float, n0: int) returns (r: Float)
    requires IsWide(f) && IsFloat(f, x)
    ensures r == ScaleB(f, x, n0)
  {
    var y, n := x, n0;
    if n > Emax(f) {
      y, n := Upward(f, x, n0);
    } else if n < Emin(f) {
      y, n := Downward(f, x, n0);
    }
    PowerWord(f, n);
    TimesPower(f, y, n);
    r := Mul(f, y, ToFloat(f, (Emax(f) + n) * Pow2(f.mant)));
  }

  /** The branch of large exponents: up to two early products, then a clamp. */
  method Upward(f: Format, x: Float, n0: int) returns (y: Float, n: int)
    requires IsWide(f) && IsFloat(f, x) && Emax(f) < n0
    ensures 0 <= n <= Emax(f) && ScaleB(f, y, n) == ScaleB(f, x, n0)
  {
    hide Pow2, Mul, ScaleB, TwoTo, IsFloat, Limit;
    var up := Emax(f);
    ScaleUpTwice(f, x, up, n0 - up);
    TimesPower(f, x, up);
    y, n := Mul(f, x, TwoTo(f, false, up)), n0 - up;
    if n > up {
      TwoUp(f, x, up, n0);
      TimesPower(f, y, up);
      y, n := Mul(f, y, TwoTo(f, false, up)), n - up;
      if n > up {
        ThreeUp(f, x, up, n0);
        n := up;
      }
    }
  }

  /** The branch of small exponents. */
  method Downward(f: Format, x: Float, n0: int) returns (y: Float, n: int)
    requires IsWide(f) && IsFloat(f, x) && n0 < Emin(f)
    ensures Emin(f) <= n <= 0 && ScaleB(f, y, n) == ScaleB(f, x, n0)
  {
    hide Pow2, Mul, ScaleB, TwoTo, IsFloat, Limit;
    var d := Emax(f) - f.mant - 2;
    assert 0 - d == Emin(f) + f.mant + 1;
    ScaleDownTwice(f, x, d, 0 - n0 - d);
    TimesPower(f, x, 0 - d);
    y, n := Mul(f, x, TwoTo(f, false, 0 - d)), n0 + d;
    if n < Emin(f) {
      TwoDown(f, x, d, n0);
      TimesPower(f, y, 0 - d);
      y, n := Mul(f, y, TwoTo(f, false, 0 - d)), n + d;
      if n < Emin(f) {
        ThreeDown(f, x, d, n0);
        n := Emin(f);
      }
    }
  }
}
