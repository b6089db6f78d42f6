/**
 The answers of fma, of scalbn and of a sum on every kind of operand, said of the operands alone: when it is not a
 number, which infinity it is, the sign of every zero, and otherwise that no number of the format is nearer to the exact
 result.
 */
module FloatLaws {
  import opened PowerOfTwo
  import opened Ieee
  import opened Rounding
  import opened Floats
  import opened Fma

  predicate IsZero(x: Float) { x.Num? && x.mag == 0 }

  /** No number answers: an operand is none, zero meets infinity, or the sum is of opposite infinities. */
  predicate IsInvalid(x: Float, y: Float, z: Float) {
    || x.Nan? || y.Nan? || z.Nan?
    || (x.Inf? && IsZero(y)) || (IsZero(x) && y.Inf?)
    || ((x.Inf? || y.Inf?) && z.Inf? && z.neg != (x.neg != y.neg))
  }

  lemma SpecialOperands(f: Format, x: Float, y: Float, z: Float, r: Float)
    requires IsWide(f) && IsFma(f, x, y, z, r)
    ensures r.Nan? <==> IsInvalid(x, y, z)
    ensures !IsInvalid(x, y, z) && (x.Inf? || y.Inf?) ==> r == Inf(x.neg != y.neg)
    ensures x.Num? && y.Num? && z.Inf? ==> r == z
  {
    hide Round;
    if x.Num? && y.Num? && (x.mag == 0 || y.mag == 0) { ZeroProduct(f, x, y); }
  }

  lemma ZeroProduct(f: Format, x: Float, y: Float)
    requires IsWide(f) && x.Num? && y.Num? && (x.mag == 0 || y.mag == 0)
    ensures Mul(f, x, y) == Num(x.neg != y.neg, 0)
  {
    hide Round;
    assert x.mag * y.mag == 0;
    RoundZero(f, UnitExp(f));
  }

  /** A product with a zero leaves the addend as it is; of two zeros, only two negative ones have a negative sum. */
  lemma ZeroFactor(f: Format, x: Float, y: Float, z: Float, r: Float)
    requires IsWide(f) && IsFma(f, x, y, z, r) && IsFloat(f, z)
    requires x.Num? && y.Num? && z.Num? && (x.mag == 0 || y.mag == 0)
    ensures r == if z.mag != 0 then z else Num(x.neg != y.neg && z.neg, 0)
  {
    hide Round, Representable, IsWide, Mul;
    ZeroProduct(f, x, y);
    if z.mag != 0 {
      var zero := z.mag - z.mag;
      RoundInteger(f, z.mag, zero);
    }
  }

  /**
   r is t / 2^k rounded to the format: the infinity of its sign from the midpoint past the largest number on, and else
   a number of the format with its sign, nearer than which there is none, a tie going to the even one.
   */
  ghost predicate IsRounded(f: Format, t: int, k: nat, r: Float) {
    if 2 * Abs(t) >= OverflowAt(f) * Pow2(k) then r == Inf(t < 0)
    else r.Num? && r.neg == (t < 0) && Representable(f, r.mag) && IsClosest(f, Abs(t), k, r.mag)
  }

  ghost predicate IsClosest(f: Format, a: nat, k: nat, m: nat) {
    forall w: nat | Representable(f, w) :: IsCloser(f, a, k, m, w)
  }

  ghost predicate IsCloser(f: Format, a: nat, k: nat, m: nat, w: nat) {
    && Gap(m * Pow2(k), a) <= Gap(w * Pow2(k), a)
    && (Gap(m * Pow2(k), a) == Gap(w * Pow2(k), a) && w != m ==> (m / Pow2(Precision(f, a, k) - k)) % 2 == 0)
  }

  lemma RoundedOnce(f: Format, t: int, k: nat)
    ensures IsRounded(f, t, k, FloatOf(t < 0, Round(f, Abs(t), k)))
  {
    hide Round, Representable, OverflowAt, Precision;
    var a := Abs(t);
    RoundOverflows(f, a, k);
    if Round(f, a, k).Finite? {
      ZeroRepresentable(f);
      RoundNearest(f, a, k, 0);
      forall w: nat | Representable(f, w) ensures IsCloser(f, a, k, Round(f, a, k).mag, w) {
        RoundNearest(f, a, k, w);
      }
    }
  }

  lemma ZeroRepresentable(f: Format)
    ensures Representable(f, 0)
  {
    LimitPositive(f);
    Pow2Mono(0, Drop(f, BitLen(0)));
    DivModUnique(0, Pow2(Drop(f, BitLen(0))), 0, 0);
  }

  /** A zero sum is negative only from two negative zeros; any other sum is rounded once. */
  ghost predicate SumIsRounded(f: Format, x: Float, y: Float, r: Float)
    requires x.Num? && y.Num?
  {
    var t := SignedMag(x.neg, x.mag) + SignedMag(y.neg, y.mag);
    if t == 0 then r == Num(x.neg && y.neg, 0) else IsRounded(f, t, 0, r)
  }

  lemma AddNearest(f: Format, x: Float, y: Float)
    requires x.Num? && y.Num?
    ensures SumIsRounded(f, x, y, Add(f, x, y))
  {
    hide IsRounded, Round;
    var zero := x.mag - x.mag;
    RoundedOnce(f, SignedMag(x.neg, x.mag) + SignedMag(y.neg, y.mag), zero);
  }

  /** The zero addend decides the sign when the product has rounded to a negative zero. */
  predicate LosesSign(f: Format, x: Float, y: Float, z: Float)
    requires IsWide(f) && x.Num? && y.Num? && z.Num?
  {
    IsZero(z) && 2 * Times(x.mag, y.mag) <= Pow2(UnitExp(f)) && x.neg != y.neg && !z.neg
  }

  /**
   On finite operands fma rounds the exact x * y + z once, whichever of its two paths computes it, but for the one sign
   that the plain expression gets wrong. An exact zero is negative only as the sum of two negative zeros.
   */
  lemma FmaNearest(f: Format, x: Float, y: Float, z: Float, r: Float)
    requires IsWide(f) && IsFma(f, x, y, z, r)
    requires x.Num? && y.Num? && z.Num? && IsFloat(f, z)
    ensures Exact(f, x, y, z) == 0 ==> r == Num(IsZero(z) && z.neg && x.neg != y.neg, 0)
    ensures Exact(f, x, y, z) != 0 ==> (IsRounded(f, Exact(f, x, y, z), UnitExp(f), r) <==> !LosesSign(f, x, y, z))
    ensures LosesSign(f, x, y, z) ==> r == Num(false, 0)
  {
    hide Round, OverflowAt, IsClosest, Pow2, MulAdd;
    RoundedOnce(f, Exact(f, x, y, z), UnitExp(f));
    ExactZero(f, x, y, z);
    if IsZero(x) || IsZero(y) {
      ZeroFactor(f, x, y, z, r);
      if z.mag != 0 { RoundExact(f, z.mag, UnitExp(f)); }
    } else if IsZero(z) {
      ProductPlusZero(f, x, y, z);
    }
  }

  lemma ExactZero(f: Format, x: Float, y: Float, z: Float)
    requires IsWide(f) && x.Num? && y.Num? && z.Num?
    ensures IsZero(x) || IsZero(y) <==> Times(x.mag, y.mag) == 0
    ensures IsZero(z) <==> At(z.mag, UnitExp(f)) == 0
  {
    if !IsZero(x) && !IsZero(y) { MulMono(1, x.mag, y.mag); }
    if !IsZero(z) { MulMono(1, z.mag, Pow2(UnitExp(f))); }
  }

  /** The product rounded once, and the sign of the sum when it has become a zero. */
  lemma ProductPlusZero(f: Format, x: Float, y: Float, z: Float)
    requires IsWide(f) && IsNonzero(x) && IsNonzero(y) && IsZero(z)
    ensures MulAdd(f, x, y, z) == if LosesSign(f, x, y, z) then Num(false, 0)
      else FloatOf(x.neg != y.neg, Round(f, Times(x.mag, y.mag), UnitExp(f)))
  {
    hide Round, OverflowAt, Pow2, Representable;
    var a, k := Times(x.mag, y.mag), UnitExp(f);
    RoundVanishes(f, a, k);
    if Round(f, a, k).Finite? {
      ZeroRepresentable(f);
      RoundNearest(f, a, k, 0);
      var zero := x.mag - x.mag;
      RoundInteger(f, Round(f, a, k).mag, zero);
    }
  }

  /** x * 2^n: infinities and what is no number stay, and a number is the exact product rounded once. */
  ghost predicate IsScaled(f: Format, x: Float, n: int, r: Float) {
    match x
    case Nan => r.Nan?
    case Inf(s) => r == Inf(s)
    case Num(s, m) =>
      if m == 0 then r == Num(s, 0)
      else if n >= 0 then IsRounded(f, SignedMag(s, At(m, n)), 0, r)
      else IsRounded(f, SignedMag(s, m), -n, r)
  }

  lemma ScaleNearest(f: Format, x: Float, n: int)
    ensures IsScaled(f, x, n, ScaleB(f, x, n))
  {
    hide IsRounded, Round, Pow2;
    if x.Num? && n >= 0 {
      var zero := n - n;
      ShiftIsZero(x.mag, n);
      RoundedOnce(f, SignedMag(x.neg, At(x.mag, n)), zero);
      RoundZero(f, zero);
    } else if x.Num? {
      RoundedOnce(f, SignedMag(x.neg, x.mag), -n);
      RoundZero(f, -n);
    }
  }

  lemma ShiftIsZero(m: nat, n: nat)
    ensures At(m, n) == 0 <==> m == 0
  {
    if m != 0 { MulMono(1, m, Pow2(n)); }
  }

  /** The words above that of an infinity are no numbers, those below it are finite, and the top bit is the sign. */
  lemma WordKinds(f: Format, x: nat)
    requires IsWord(f, x)
    ensures var u, top := x % Pow2(f.exp + f.mant), (Pow2(f.exp) - 1) * Pow2(f.mant);
      && (ToFloat(f, x).Nan? <==> u > top) && (ToFloat(f, x).Inf? <==> u == top) && (ToFloat(f, x).Num? <==> u < top)
    ensures !ToFloat(f, x).Nan? ==> (ToFloat(f, x).neg <==> x >= Pow2(f.exp + f.mant))
  {
    hide WordBits, Pow2;
    Fields(f, x);
    Pow2Mono(1, f.exp);
    UnsignedKinds(ExpField(f, x), Frac(f, x), Pow2(f.mant), Pow2(f.exp) - 1);
    SignKinds(x, Sign(f, x), Unsigned(f, x), Pow2(f.exp + f.mant));
  }

  lemma UnsignedKinds(e: nat, r: nat, P: nat, E: nat)
    requires r < P && e <= E
    ensures e == E <==> E * P <= e * P + r
    ensures e == E && r == 0 <==> e * P + r == E * P
  {
    if e < E {
      MulMono(e + 1, E, P);
      MulDist(P, e, 1);
    }
  }

  lemma SignKinds(x: nat, s: nat, u: nat, H: nat)
    requires x == s * H + u && u < H && s < 2
    ensures s == 1 <==> x >= H
  {}
}
