/**
 The scheduler's mean in floating point. It divides two integers, which gives the double nearest to the quotient, and
 rounds that up. Up to 2^53 the result is the exact quotient rounded up; just above it need not be.
 */
module SchedulerMean {
  import opened PowerOfTwo
  import opened Ieee
  import opened Rounding
  import opened Floats
  import Scalbn
  import SchedulerUpdate

  /** The number one. */
  function Unit(f: Format): nat
    requires IsWide(f)
  {
    Pow2(UnitExp(f))
  }

  /** No magnitude of the format is nearer to t / c than v. */
  ghost predicate IsQuotient(f: Format, t: nat, c: nat, v: nat)
    requires IsWide(f)
  {
    Representable(f, v) && forall w: nat :: Representable(f, w) ==> NoNearer(t * Unit(f), v * c, w * c)
  }

  ghost predicate NoNearer(x: int, v: int, w: int) { Gap(v, x) <= Gap(w, x) }

  /** What math.ceil(a / c) gives when v is the magnitude of the double a / c. */
  function CeilOf(f: Format, a: int, v: nat): int
    requires IsWide(f)
  {
    SchedulerUpdate.CeilDiv(SignedMag(a < 0, v), Unit(f))
  }

  /** With mant + 1 significant bits, n steps of 2^-e are a number of the format. */
  lemma Step(f: Format, n: nat, e: nat)
    requires IsWide(f) && e <= f.mant + 1 && n <= Pow2(f.mant + 1)
    ensures 0 <= n * Pow2(UnitExp(f) - e) && Representable(f, n * Pow2(UnitExp(f) - e))
  {
    hide Pow2, Limit, Representable;
    var j := UnitExp(f) - e;
    MulMono(n, Pow2(f.mant + 1), Pow2(j));
    MulMono(0, n, Pow2(j));
    Pow2Add(f.mant + 1, j);
    Scalbn.Range(f);
    Pow2Mono(f.mant + 1 + j, f.mant + 2 * Emax(f));
    CutRepresentable(f, n, j);
  }

  /** Steps of D stand next to both ends of the interval from K to K + 1, nearer to the quotient than the ends are. */
  lemma Inside(t: nat, c: nat, K: nat, E: nat, D: nat, v: nat)
    requires 0 < E && 0 < D && K * c < t < (K + 1) * c && c < 2 * E
    requires NoNearer(t * (E * D), v * c, ((K * E + 1) * D) * c)
    requires NoNearer(t * (E * D), v * c, (((K + 1) * E - 1) * D) * c)
    ensures K * (E * D) < v < (K + 1) * (E * D)
  {
    var U, x := E * D, t * (E * D);
    var A, B := (K * U) * c, ((K + 1) * U) * c;
    Ends(K, c, t, U);
    NextSteps(K, c, E, D);
    StepShort(c, E, D);
    if v <= K * U { MulMono(v, K * U, c); }
    if (K + 1) * U <= v { MulMono((K + 1) * U, v, c); }
  }

  lemma Ends(K: nat, c: nat, t: nat, U: nat)
    requires 0 < U && K * c < t < (K + 1) * c
    ensures (K * U) * c + U <= t * U && t * U + U <= ((K + 1) * U) * c
  {
    MulMono(K * c + 1, t, U);
    MulMono(t + 1, (K + 1) * c, U);
    MulDist(U, K * c, 1);
    MulDist(U, t, 1);
    assert (K * c) * U == (K * U) * c;
    assert ((K + 1) * c) * U == ((K + 1) * U) * c;
  }

  lemma NextSteps(K: nat, c: nat, E: nat, D: nat)
    ensures ((K * E + 1) * D) * c == (K * (E * D)) * c + D * c
    ensures (((K + 1) * E - 1) * D) * c == ((K + 1) * (E * D)) * c - D * c
  {
    MulDist(D, K * E, 1);
    MulDist(D, (K + 1) * E, 1);
    MulAssoc(K, E, D);
    MulAssoc(K + 1, E, D);
    MulDist(c, K * (E * D), D);
    MulDist(c, (K + 1) * (E * D), D);
  }

  lemma StepShort(c: nat, E: nat, D: nat)
    requires 0 < c < 2 * E && 0 < D
    ensures 0 < D * c < 2 * (E * D)
  {
    MulMono(c, 2 * E, D);
    MulMono(0, c, D);
    MulAssoc(2, E, D);
  }

  /** A quotient that is no integer comes out strictly between the same two integers. */
  lemma RoundedInside(f: Format, t: nat, c: nat, v: nat)
    requires IsWide(f) && 0 < c <= Pow2(f.mant + 1) && t <= Pow2(f.mant + 1) && t % c != 0 && IsQuotient(f, t, c, v)
    ensures (t / c) * Unit(f) < v < (t / c + 1) * Unit(f)
  {
    hide Representable, UnitExp, BitLen, Pow2, NoNearer, IsWide, IsQuotient, Unit;
    StrictlyBetween(t, c);
    QuotientShort(t, c, t / c, f.mant + 1);
    RoundedBetween(f, t, c, v, t / c, f.mant + 1 - BitLen(t / c));
  }

  lemma StrictlyBetween(t: nat, c: nat)
    requires 0 < c && t % c != 0
    ensures 0 <= t / c && (t / c) * c < t < (t / c + 1) * c
  {
    QuotientBounds(t, c);
    MulDist(c, t / c, 1);
    ModMultiple(t / c, c);
  }

  lemma RoundedBetween(f: Format, t: nat, c: nat, v: nat, K: nat, e: nat)
    requires IsWide(f) && e <= f.mant + 1 && K < Pow2(f.mant + 1 - e) && IsQuotient(f, t, c, v)
    requires K * c < t < (K + 1) * c && c < 2 * Pow2(e)
    ensures K * Unit(f) < v < (K + 1) * Unit(f)
  {
    hide Representable, UnitExp, BitLen, Pow2, NoNearer, IsWide, Unit, IsQuotient;
    UnitSplits(f, e);
    var E, D := Pow2(e), Pow2(UnitExp(f) - e);
    StepsFit(K, f.mant + 1 - e, e, f.mant + 1);
    Step(f, K * E + 1, e);
    Step(f, (K + 1) * E - 1, e);
    Nearest(f, t, c, v, (K * E + 1) * D);
    Nearest(f, t, c, v, ((K + 1) * E - 1) * D);
    Inside(t, c, K, E, D, v);
  }

  lemma Nearest(f: Format, t: nat, c: nat, v: nat, w: nat)
    requires IsWide(f) && IsQuotient(f, t, c, v) && Representable(f, w)
    ensures NoNearer(t * Unit(f), v * c, w * c)
  {
  }

  lemma UnitSplits(f: Format, e: nat)
    requires IsWide(f) && e <= f.mant + 1
    ensures e <= UnitExp(f) && Unit(f) == Pow2(e) * Pow2(UnitExp(f) - e)
  {
    Pow2Add(e, UnitExp(f) - e);
  }

  lemma StepsFit(K: nat, b: nat, e: nat, p: nat)
    requires K < Pow2(b) && b + e == p
    ensures 0 <= K * Pow2(e) + 1 <= Pow2(p) && 0 <= (K + 1) * Pow2(e) - 1 <= Pow2(p)
  {
    Pow2Add(b, e);
    MulMono(K + 1, Pow2(b), Pow2(e));
    MulDist(Pow2(e), K, 1);
    MulMono(0, K, Pow2(e));
  }

  lemma QuotientShort(t: nat, c: nat, K: nat, p: nat)
    requires 0 < c <= Pow2(p) && t <= Pow2(p) && K * c < t
    ensures BitLen(K) <= p && c < 2 * Pow2(p - BitLen(K))
  {
    if K > 0 {
      LongQuotient(t, c, K, BitLen(K), p);
    }
  }

  lemma LongQuotient(t: nat, c: nat, K: nat, b: nat, p: nat)
    requires 0 < c && 0 < K && t <= Pow2(p) && K * c < t && 0 < b && Pow2(b - 1) <= K
    ensures b <= p && c < 2 * Pow2(p - b)
  {
    hide Pow2;
    MulMono(1, c, K);
    if p < b { Pow2Mono(p, b - 1); }
    Pow2Add(b - 1, p - b + 1);
    NextPower(p - b);
    MulMono(Pow2(b - 1), K, c);
    MulComm(c, Pow2(b - 1));
    MulComm(Pow2(p - b + 1), Pow2(b - 1));
    MulCancelLt(c, Pow2(p - b + 1), Pow2(b - 1));
  }

  /** An integer quotient is its own nearest double. */
  lemma RoundedExactly(f: Format, t: nat, c: nat, v: nat)
    requires IsWide(f) && 0 < c && t <= Pow2(f.mant + 1) && t % c == 0 && IsQuotient(f, t, c, v)
    ensures v == (t / c) * Unit(f)
  {
    hide Representable, IsWide, Pow2, UnitExp;
    var K, e := t / c, f.mant - f.mant;
    QuotientBounds(t, c);
    ExactQuotient(t, c);
    MulMono(1, c, K);
    Step(f, K, e);
    var w := K * Unit(f);
    assert w * c == t * Unit(f) by { MulAssoc(K, Unit(f), c); MulAssoc(K, c, Unit(f)); MulComm(Unit(f), c); }
    assert NoNearer(t * Unit(f), v * c, w * c);
    MulCancel(v, w, c);
  }

  /** For sums and counts up to 2^53, the floating-point mean rounded up is the exact one. */
  lemma MeanIsExact(f: Format, a: int, c: nat, v: nat)
    requires IsWide(f) && 0 < c <= Pow2(f.mant + 1) && Abs(a) <= Pow2(f.mant + 1)
    requires IsQuotient(f, Abs(a), c, v)
    ensures CeilOf(f, a, v) == SchedulerUpdate.CeilDiv(a, c)
  {
    hide IsQuotient, IsWide, Pow2;
    var t, U := Abs(a), Unit(f);
    var K := t / c;
    QuotientBounds(t, c);
    if t % c == 0 {
      RoundedExactly(f, t, c, v);
      ExactQuotient(t, c);
      CeilIs(t, c, K, K);
      CeilIs(v, U, K, K);
    } else {
      RoundedInside(f, t, c, v);
      MulDist(c, K, 1);
      CeilIs(t, c, K, K + 1);
      CeilIs(v, U, K, K + 1);
    }
  }

  /** Rounding up, for both signs, from the integers on either side. */
  lemma CeilIs(t: nat, c: nat, lo: int, hi: int)
    requires 0 < c && lo * c <= t <= hi * c && lo <= hi <= lo + 1 && (lo != hi ==> lo * c < t < hi * c)
    ensures SchedulerUpdate.CeilDiv(t, c) == hi && SchedulerUpdate.CeilDiv(0 - t, c) == 0 - lo
  {
    MulDist(c, lo, 1);
    if lo == hi {
      DivModUnique(0 - t, c, 0 - hi, 0);
      DivModUnique(t, c, lo, 0);
    } else {
      DivModUnique(0 - t, c, 0 - hi, hi * c - t);
      DivModUnique(t, c, lo, t - lo * c);
    }
  }

  /** The bound cannot be raised: with one task and a sum of 2^53 + 1 no double at all gives the mean. */
  lemma MeanIsLost(f: Format, v: nat)
    requires IsWide(f) && Representable(f, v)
    ensures CeilOf(f, Pow2(f.mant + 1) + 1, v) != SchedulerUpdate.CeilDiv(Pow2(f.mant + 1) + 1, 1)
  {
    hide Representable, Pow2, IsWide, UnitExp;
    var M, U := Pow2(f.mant), Unit(f);
    NextPower(f.mant);
    NextPower(UnitExp(f));
    SchedulerUpdate.CeilDivBounds(v, U);
    SchedulerUpdate.CeilDivBounds(2 * M + 1, 1);
    if CeilOf(f, 2 * M + 1, v) == 2 * M + 1 {
      Pow2Add(f.mant, UnitExp(f) + 1);
      MulAssoc(M, 2, U);
      Spacing(f, v, UnitExp(f) + 1);
      NextMultiple(v, M, U);
    }
  }

  /** No multiple of 2 U lies between. */
  lemma NextMultiple(v: nat, M: nat, U: nat)
    requires 0 < U && v % (2 * U) == 0 && (2 * M) * U < v
    ensures (2 * M + 1) * U < v
  {
    var q := v / (2 * U);
    ExactQuotient(v, 2 * U);
    MulAssoc(M, 2, U);
    MulCancelLt(M, q, 2 * U);
    MulMono(M + 1, q, 2 * U);
    MulDist(2 * U, M, 1);
    MulDist(U, 2 * M, 1);
  }
}
