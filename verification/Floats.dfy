/** Floating-point data as values, with the correctly rounded operations the libm code performs on them. */
module Floats {
  import opened PowerOfTwo
  import opened Ieee
  import opened Rounding

  function Emax(f: Format): nat { Pow2(f.exp - 1) - 1 }

  function Emin(f: Format): int { 1 - Emax(f) }

  /** The exponent range is wide against the precision. */
  predicate IsWide(f: Format) { 3 * f.mant + 6 <= Emax(f) }

  /** A magnitude times 2^-UnitExp is the value. */
  function UnitExp(f: Format): nat
    requires IsWide(f)
  {
    Emax(f) + f.mant - 1
  }

  datatype Float = Nan | Inf(neg: bool) | Num(neg: bool, mag: nat)

  /** A value the format can hold. */
  ghost predicate IsFloat(f: Format, x: Float) {
    x.Num? ==> Representable(f, x.mag)
  }

  function FloatOf(neg: bool, r: Rounding.Rounded): Float {
    match r
    case Finite(m) => Num(neg, m)
    case Infinite => Inf(neg)
  }

  /** a * 2^n, in units, rounded once. */
  function RoundAt(f: Format, a: nat, n: int): Rounding.Rounded {
    if n >= 0 then Round(f, At(a, n), 0) else Round(f, a, -n)
  }

  /** x * 2^n computed exactly and rounded once. */
  function ScaleB(f: Format, x: Float, n: int): Float {
    match x
    case Nan => Nan
    case Inf(s) => Inf(s)
    case Num(s, m) => FloatOf(s, RoundAt(f, m, n))
  }

  function Negate(x: Float): Float {
    match x
    case Nan => Nan
    case Inf(s) => Inf(!s)
    case Num(s, m) => Num(!s, m)
  }

  function SignedMag(neg: bool, m: nat): int { if neg then -(m as int) else m }

  function Abs(a: int): nat { if a < 0 then -a else a }

  /** The correctly rounded sum; an exact zero from different signs is positive. */
  function Add(f: Format, x: Float, y: Float): Float {
    if x.Nan? || y.Nan? then Nan
    else if x.Inf? then (if y.Inf? && x.neg != y.neg then Nan else x)
    else if y.Inf? then y
    else
      var t := SignedMag(x.neg, x.mag) + SignedMag(y.neg, y.mag);
      if t == 0 then Num(x.neg && y.neg, 0) else FloatOf(t < 0, Round(f, Abs(t), 0))
  }

  /** The correctly rounded product. */
  function Mul(f: Format, x: Float, y: Float): Float
    requires IsWide(f)
  {
    if x.Nan? || y.Nan? then Nan
    else if x.Inf? || y.Inf? then (if x == Num(x.neg, 0) || y == Num(y.neg, 0) then Nan else Inf(x.neg != y.neg))
    else FloatOf(x.neg != y.neg, Round(f, x.mag * y.mag, UnitExp(f)))
  }

  /** The power of two 2^n as a floating-point value. */
  function TwoTo(f: Format, neg: bool, n: int): Float
    requires IsWide(f) && 0 <= n + UnitExp(f)
  {
    Num(neg, Pow2(n + UnitExp(f)))
  }

  /** A product with a power of two scales exactly and rounds once. */
  lemma TimesPower(f: Format, x: Float, n: int)
    requires IsWide(f) && 0 <= n + UnitExp(f)
    ensures Mul(f, x, TwoTo(f, false, n)) == ScaleB(f, x, n) == Mul(f, TwoTo(f, false, n), x)
  {
    hide Round, BitLen;
    if x.Num? {
      RoundAtIs(f, x.mag, n, n + UnitExp(f), UnitExp(f));
    }
  }

  /** The value of a word. */
  function ToFloat(f: Format, x: nat): Float {
    if IsFinite(f, x) then Num(Sign(f, x) == 1, Mag(f, x))
    else if Frac(f, x) == 0 then Inf(Sign(f, x) == 1)
    else Nan
  }

  /** Few significant bits, scaled up: no rounding, only overflow. */
  lemma RoundUpward(f: Format, v: nat, n: nat, zero: nat)
    requires Representable(f, v) && zero == 0
    ensures Round(f, At(v, n), zero) == if At(v, n) >= Limit(f) then Infinite else Finite(At(v, n))
  {
    DropDivides(f, v, n, At(v, n));
    RoundDivisible(f, At(v, n), zero);
  }

  lemma RoundDivisible(f: Format, a: nat, zero: nat)
    requires a % Pow2(Drop(f, BitLen(a))) == 0 && zero == 0
    ensures Round(f, a, zero) == if a >= Limit(f) then Infinite else Finite(a)
  {
    var d := Drop(f, BitLen(a));
    var q := a / Pow2(d);
    ExactQuotient(a, Pow2(d));
    assert RneShift(a, d) == q by { RneMultiple(q, d); }
    RoundIs(f, a, zero, d, q);
  }

  lemma DropDivides(f: Format, v: nat, n: nat, b: nat)
    requires Representable(f, v) && b == v * Pow2(n)
    ensures b % Pow2(Drop(f, BitLen(b))) == 0
  {
    if v == 0 {
      ZeroDivides(b, Pow2(Drop(f, BitLen(b))));
    } else {
      BitLenShift(v, n);
      ShiftedDrop(f, v, n, BitLen(b));
    }
  }

  lemma ZeroDivides(z: int, d: nat)
    requires z == 0 && 0 < d
    ensures z % d == 0
  {
    DivModUnique(z, d, 0, 0);
  }

  lemma ShiftedDrop(f: Format, v: nat, n: nat, len: nat)
    requires Representable(f, v) && len == BitLen(v) + n
    ensures (v * Pow2(n)) % Pow2(Drop(f, len)) == 0
  {
    RepresentableForm(f, v);
    ShiftDivides(v, v / Pow2(Drop(f, BitLen(v))), Drop(f, BitLen(v)), n, Drop(f, len));
  }

  lemma RepresentableForm(f: Format, v: nat)
    requires Representable(f, v)
    ensures v == (v / Pow2(Drop(f, BitLen(v)))) * Pow2(Drop(f, BitLen(v)))
  {
    ExactQuotient(v, Pow2(Drop(f, BitLen(v))));
  }

  lemma ShiftDivides(v: nat, q: nat, c: nat, n: nat, d: nat)
    requires v == q * Pow2(c) && d <= c + n
    ensures (v * Pow2(n)) % Pow2(d) == 0
  {
    Pow2Add(c, n);
    MulAssoc(q, Pow2(c), Pow2(n));
    Divides(q, c + n, d);
  }

  /** Scaling up twice is scaling up once by the sum. */
  lemma ScaleUpTwice(f: Format, x: Float, a: nat, b: nat)
    requires IsFloat(f, x)
    ensures IsFloat(f, ScaleB(f, x, a))
    ensures ScaleB(f, ScaleB(f, x, a), b) == ScaleB(f, x, a + b)
  {
    if x.Num? {
      var zero := a - a;
      RoundUpward(f, x.mag, a, zero);
      RoundUpward(f, x.mag, a + b, zero);
      AtAdd(x.mag, a, b);
      var v := At(x.mag, a);
      if v < Limit(f) {
        DropDivides(f, x.mag, a, v);
        RoundUpward(f, v, b, zero);
      } else {
        MulMono(1, Pow2(b), v);
      }
    }
  }

  /** Scaling a nonzero number up far enough overflows, and scaling it up further still does. */
  lemma ScaleUpSaturates(f: Format, x: Float, a: nat, b: nat)
    requires IsFloat(f, x) && Limit(f) <= Pow2(a) && a <= b
    ensures ScaleB(f, x, a) == ScaleB(f, x, b)
  {
    if x.Num? {
      Saturates(f, x.mag, a);
      Pow2Mono(a, b);
      Saturates(f, x.mag, b);
    }
  }

  lemma Saturates(f: Format, v: nat, a: nat)
    requires Representable(f, v) && Limit(f) <= Pow2(a)
    ensures Round(f, At(v, a), 0) == if v == 0 then Finite(0) else Infinite
  {
    var zero := a - a;
    RoundUpward(f, v, a, zero);
    LimitPositive(f);
    if v > 0 { MulMono(1, v, Pow2(a)); }
  }

  /** Less than half a unit rounds to nothing. */
  lemma RoundTiny(f: Format, a: nat, k: nat)
    requires BitLen(a) + 1 <= k
    ensures Round(f, a, k) == Finite(0)
  {
    Pow2Mono(BitLen(a) + 1, k);
    DivModUnique(a, Pow2(k), 0, a);
    RoundIs(f, a, k, k, 0);
    assert 0 * Pow2(k - k) == 0;
    LimitPositive(f);
  }

  lemma LimitPositive(f: Format)
    ensures 0 < Limit(f)
  {
    Pow2Mono(1, f.exp);
    MulMono(1, Pow2(f.mant), Pow2(Pow2(f.exp) - 2));
  }

  /**
   A first downward step that loses bits leaves so small a number that any second step of mant + 2 or more takes it
   to zero, as the one-step scaling does; so the two steps round like one.
   */
  lemma ScaleDownTwice(f: Format, x: Float, a: nat, b: nat)
    requires IsFloat(f, x) && 0 < a && f.mant + 2 <= b
    ensures IsFloat(f, ScaleB(f, x, -(a as int)))
    ensures ScaleB(f, ScaleB(f, x, -(a as int)), -(b as int)) == ScaleB(f, x, -((a + b) as int))
  {
    if x.Num? {
      if x.mag % Pow2(a) == 0 {
        DownExactly(f, x.mag, a, b, x.mag / Pow2(a));
      } else {
        DownInexactly(f, x.mag, a, b);
      }
    }
  }

  lemma DownExactly(f: Format, v: nat, a: nat, b: nat, q: int)
    requires Representable(f, v) && v % Pow2(a) == 0 && q == v / Pow2(a) && 0 < a && 0 < b
    ensures 0 <= q && Representable(f, q) && Round(f, v, a) == Finite(q)
    ensures Round(f, v, a + b) == Round(f, q, b)
  {
    QuotientBounds(v, Pow2(a));
    ExactQuotient(v, Pow2(a));
    assert v == At(q, a);
    QuotientRepresentable(f, v, a, q);
    RoundExact(f, q, a);
    assert b + a == a + b;
    RoundScale(f, q, b, a);
  }

  lemma DownInexactly(f: Format, v: nat, a: nat, b: nat)
    requires Representable(f, v) && v % Pow2(a) != 0 && f.mant + 2 <= b
    ensures Round(f, v, a).Finite? && Representable(f, Round(f, v, a).mag)
    ensures Round(f, v, a + b) == Finite(0) && Round(f, Round(f, v, a).mag, b) == Finite(0)
  {
    var L := BitLen(v);
    if f.mant + 1 + a <= L {
      RepresentableForm(f, v);
      Divides(v / Pow2(Drop(f, L)), Drop(f, L), a);
    }
    RoundTiny(f, v, a + b);
    SmallQuotient(f, v, a);
    RoundTiny(f, Round(f, v, a).mag, b);
  }

  lemma QuotientRepresentable(f: Format, v: nat, a: nat, q: nat)
    requires Representable(f, v) && v == q * Pow2(a)
    ensures Representable(f, q)
  {
    var d, c := Drop(f, BitLen(v)), Drop(f, BitLen(q));
    MulMono(1, Pow2(a), q);
    if q == 0 {
      ModMultiple(0, Pow2(c));
    } else if c == 0 {
      assert Pow2(c) == 1;
    } else {
      BitLenShift(q, a);
      assert d == c + a;
      Pow2Add(c, a);
      var t := v / Pow2(d);
      ExactQuotient(v, Pow2(d));
      MulAssoc(t, Pow2(c), Pow2(a));
      MulCancel(q, t * Pow2(c), Pow2(a));
      ModMultiple(t, Pow2(c));
    }
  }

  lemma SmallQuotient(f: Format, v: nat, a: nat)
    requires BitLen(v) <= f.mant + a
    ensures Round(f, v, a).Finite? && Representable(f, Round(f, v, a).mag)
    ensures BitLen(Round(f, v, a).mag) <= f.mant + 1
  {
    var n := RneShift(v, a);
    RoundIs(f, v, a, a, n);
    Pow2Mono(BitLen(v), f.mant + a);
    Pow2Add(f.mant, a);
    RneMono(v, Pow2(f.mant + a), Pow2(a));
    RneMultiple(Pow2(f.mant), a);
    assert n <= Pow2(f.mant);
    var zero := a - a;
    assert n * Pow2(zero) == n;
    BitLenMono(n, Pow2(f.mant));
    BitLenUnique(Pow2(f.mant), f.mant);
    LimitLarge(f);
    CutRepresentable(f, n, zero);
  }

  lemma LimitLarge(f: Format)
    ensures 2 * Pow2(f.mant) <= Limit(f)
  {
    Pow2Mono(2, f.exp);
    assert Pow2(2) == 4;
    Pow2Mono(1, Pow2(f.exp) - 2);
    assert Pow2(1) == 2;
    MulMono(2, Pow2(Pow2(f.exp) - 2), Pow2(f.mant));
  }

  /** The rounded scaled value does not depend on how the scaling is written. */
  lemma RoundAtIs(f: Format, a: nat, n: int, p: nat, q: nat)
    requires p - q == n
    ensures RoundAt(f, a, n) == Round(f, At(a, p), q)
  {
    var zero := p - p;
    if n >= 0 {
      AtAdd(a, n, q);
      RoundScale(f, At(a, n), zero, q);
    } else {
      RoundScale(f, a, -n, p);
    }
  }

  lemma RoundAtScale(f: Format, a: nat, j: nat, n: int)
    ensures RoundAt(f, At(a, j), n) == RoundAt(f, a, n + j)
  {
    var p, q := Abs(n) + n, Abs(n);
    assert At(At(a, j), p) == At(a, j + p) by { AtAdd(a, j, p); }
    RoundAtIs(f, At(a, j), n, p, q);
    RoundAtIs(f, a, n + j, j + p, q);
  }
}
