/**
 fma: x * y + z with one rounding. The product is exact in two words, the addend is aligned with a sticky bit, and the
 sum's top bits, sticky again, are rounded once when they are converted.
 */
module Fma {
  import opened PowerOfTwo
  import opened Ieee
  import opened Rounding
  import opened Floats
  import opened Words
  import opened Words64
  import opened FmaParts
  import opened FmaSum
  import opened FmaRound

  function Times(a: nat, b: nat): nat { a * b }

  /** A finite value other than a zero. */
  predicate IsNonzero(x: Float) { x.Num? && x.mag != 0 }

  /** The exact x * y + z of finite values, in units of the square of the least subnormal. */
  function Exact(f: Format, x: Float, y: Float, z: Float): int
    requires IsWide(f) && x.Num? && y.Num? && z.Num?
  {
    SignedMag(x.neg != y.neg, Times(x.mag, y.mag)) + SignedMag(z.neg, At(z.mag, UnitExp(f)))
  }

  /** The exact value rounded once; an exact zero, from operands that are not zero, is positive. */
  function Fused(f: Format, x: Float, y: Float, z: Float): Float
    requires IsWide(f) && x.Num? && y.Num? && z.Num?
  {
    var t := Exact(f, x, y, z);
    if t == 0 then Num(false, 0) else FloatOf(t < 0, Round(f, Abs(t), UnitExp(f)))
  }

  /** What the source computes with two roundings when it leaves the main path. */
  function MulAdd(f: Format, x: Float, y: Float, z: Float): Float
    requires IsWide(f)
  {
    Add(f, Mul(f, x, y), z)
  }

  /**
   What fma promises: one rounding on nonzero finite operands, the plain expression where the source falls back
   on it.
   */
  ghost predicate IsFma(f: Format, x: Float, y: Float, z: Float, r: Float)
    requires IsWide(f)
  {
    if !IsNonzero(x) || !IsNonzero(y) || z == Num(z.Num? && z.neg, 0) then r == MulAdd(f, x, y, z)
    else if z.Num? then r == Fused(f, x, y, z)
    else r == z
  }

  method Fma(f: Format, x: nat, y: nat, z: nat) returns (r: Float)
    requires IsDoubleWord(f) && IsWord(f, x) && IsWord(f, y) && IsWord(f, z)
    ensures IsFma(f, ToFloat(f, x), ToFloat(f, y), ToFloat(f, z), r)
  {
    var nx := Operand(f, x);
    var ny := Operand(f, y);
    var nz := Operand(f, z);
    if nx.e >= ZeroInfNan(f) || ny.e >= ZeroInfNan(f) {
      return MulAdd(f, ToFloat(f, x), ToFloat(f, y), ToFloat(f, z));
    }
    if nz.e >= ZeroInfNan(f) {
      if nz.e > ZeroInfNan(f) {
        return MulAdd(f, ToFloat(f, x), ToFloat(f, y), ToFloat(f, z));
      }
      return ToFloat(f, z);
    }
    r := Combine(f, ToFloat(f, x), ToFloat(f, y), ToFloat(f, z), nx, ny, nz);
  }

  /** The parts stand for the value, or the exponent says that the value is zero, infinite or not a number. */
  ghost predicate PartsOf(f: Format, x: Float, p: Parts)
    requires IsWide(f)
  {
    if IsNonzero(x) then
      p.e < ZeroInfNan(f) && p.neg == x.neg && StandsFor(f, x.mag, p.m, p.e) && Representable(f, x.mag)
    else if x.Num? then p.e == ZeroInfNan(f) + 1
    else p.e == ZeroInfNan(f)
  }

  method Operand(f: Format, x: nat) returns (p: Parts)
    requires IsDoubleWord(f) && IsWord(f, x)
    ensures PartsOf(f, ToFloat(f, x), p)
  {
    p := Normalize(f, x);
    if IsFinite(f, x) { MagRepresentable(f, x); }
  }

  /** The offset of all exponents, with a word to spare. */
  function Lift(f: Format): nat { 2 * Offset(f) + WordBits(f) }

  /** Common scale of the product and the addend. */
  function CommonScale(f: Format): nat { 2 * f.mant + 4 + WordBits(f) }

  ghost predicate AreOperands(f: Format, x: Float, y: Float, z: Float, nx: Parts, ny: Parts, nz: Parts)
    requires IsWide(f)
  {
    && IsNonzero(x) && IsNonzero(y) && IsNonzero(z)
    && PartsOf(f, x, nx) && PartsOf(f, y, ny) && PartsOf(f, z, nz)
  }

  /** Two words and an exponent that round like the exact sum. */
  ghost predicate RoundsLike(f: Format, t: int, V: nat, e: int) {
    && IsDoubleWord(f) && WordBits(f) <= e + Lift(f) && V < Pow2(2 * WordBits(f) - 2)
    && (t == 0 <==> V == 0)
    && Round(f, Abs(t), UnitExp(f)) == Round(f, At(V, e + Lift(f)), UnitExp(f) + CommonScale(f))
  }

  /** The main path: multiply, align, add, take the top bits, round. */
  method Combine(f: Format, x: Float, y: Float, z: Float, nx: Parts, ny: Parts, nz: Parts) returns (r: Float)
    requires IsDoubleWord(f) && AreOperands(f, x, y, z, nx, ny, nz)
    ensures r == Fused(f, x, y, z)
  {
    hide At, BitLen, Exact, IsWide, Join, Mag, MulAdd, Pow2, Round, RoundAt, Shl, Shr, WordBits;
    ghost var t, o, k := Exact(f, x, y, z), Lift(f), UnitExp(f) + CommonScale(f);
    var hi, lo, nonzero, e, neg := Sum(f, nx, ny, nz, x, y, z);
    WordsZero(f, hi, lo);
    if !nonzero && lo == 0 {
      Cancelled(f, x, y, z);
      return MulAdd(f, x, y, z);
    }
    var i;
    i, e := TakeTop(f, hi, lo, nonzero, e, o, k);
    assert RoundAt(f, i, e + UnitExp(f)) == Round(f, At(i, e + o), k) by {
      RoundAtIs(f, i, e + UnitExp(f), e + o, k);
    }
    r := Finish(f, i, e, neg);
  }

  /** Product, alignment and sum. */
  method Sum(f: Format, nx: Parts, ny: Parts, nz: Parts, ghost x: Float, ghost y: Float, ghost z: Float)
    returns (hi: nat, lo: nat, nonzero: bool, e: int, neg: bool)
    requires IsDoubleWord(f) && AreOperands(f, x, y, z, nx, ny, nz)
    ensures lo < Pow2(WordBits(f)) && nonzero == (hi != 0)
    ensures RoundsLike(f, Exact(f, x, y, z), Join(f, hi, lo), e)
    ensures Exact(f, x, y, z) != 0 ==> neg == (Exact(f, x, y, z) < 0)
  {
    hide Abs, BitLen, CommonScale, Exact, IsWide, Lift, Mag, Pow2, Round, Shl, Shr, UnitExp, WordBits;
    WordSize(f);
    MantissaProduct(f, nx.m, ny.m);
    var rhi, rlo := Mul64(nx.m, ny.m);
    e := nx.e + ny.e;
    ghost var t, o, k := Exact(f, x, y, z), Lift(f), UnitExp(f) + CommonScale(f);
    ScaledOperands(f, x.mag, y.mag, z.mag, nx, ny, nz);
    ghost var ap, az := At(Times(nx.m, ny.m), e + o), At(nz.m, nz.e + o);
    ExactScaled(f, x, y, z, ap, az);
    assert Round(f, Abs(t), UnitExp(f)) == Round(f, At(Abs(t), CommonScale(f)), k) by {
      RoundScale(f, Abs(t), UnitExp(f), CommonScale(f));
    }
    var zhi, zlo;
    rhi, rlo, zhi, zlo, e := Align(f, rhi, rlo, nz.m, e, nz.e, o);
    neg := nx.neg != ny.neg;
    hi, lo, nonzero, neg := AddOrSubtract(f, rhi, rlo, zhi, zlo, neg, nz.neg, ap, az, e + o, k);
    WordsZero(f, hi, lo);
  }

  /** Adds or subtracts the aligned numbers, by their signs. */
  method AddOrSubtract(f: Format, rhi: nat, rlo: nat, zhi: nat, zlo: nat, negr: bool, negz: bool,
                       ghost ap: nat, ghost az: nat, ghost s: nat, ghost k: nat)
    returns (hi: nat, lo: nat, nonzero: bool, neg: bool)
    requires IsDoubleWord(f) && Fits(f, rhi, rlo) && Fits(f, zhi, zlo) && (rhi != 0 || zhi != 0) && 0 < ap
    requires Aligned(f, ap, az, Join(f, rhi, rlo), Join(f, zhi, zlo), Pow2(s))
    ensures lo < Pow2(WordBits(f)) && nonzero == (hi != 0) && Join(f, hi, lo) < Pow2(2 * WordBits(f) - 2)
    ensures negr == negz ==> neg == negr && Round(f, ap + az, k) == Round(f, At(Join(f, hi, lo), s), k) && hi != 0
    ensures negr != negz ==> neg == (if ap < az then negz else negr)
    ensures negr != negz ==> (Join(f, hi, lo) == 0 <==> ap == az)
    ensures negr != negz ==> Round(f, Gap(ap, az), k) == Round(f, At(Join(f, hi, lo), s), k)
  {
    hide WordBits, Pow2, At, Round;
    neg, nonzero := negr, true;
    if neg == negz {
      SumRounds(f, ap, az, Join(f, rhi, rlo), Join(f, zhi, zlo), s, k);
      hi, lo := AddWords(f, rhi, rlo, zhi, zlo);
    } else {
      DifferenceRounds(f, ap, az, Join(f, rhi, rlo), Join(f, zhi, zlo), s, k);
      var flip;
      hi, lo, flip := SubWords(f, rhi, rlo, zhi, zlo);
      if flip { neg := !neg; }
      nonzero := hi != 0;
    }
  }

  lemma OperandsPositive(f: Format, X: nat, Y: nat)
    requires IsWide(f) && 0 < X && 0 < Y
    ensures 0 < At(Times(X, Y), CommonScale(f)) && 0 < Times(X, Y)
  {
    MulMono(1, X, Y);
    MulMono(1, Times(X, Y), Pow2(CommonScale(f)));
  }

  lemma MantissaProduct(f: Format, m: nat, n: nat)
    requires IsDoubleWord(f) && IsMantissa(f, m) && IsMantissa(f, n)
    ensures m < B64 / 2 && n < B64 / 2 && ProductSize(f, Times(m, n))
  {
    HalfWord(f, m);
    HalfWord(f, n);
    ProductRange(m, n, f.mant + 1);
    EvenProduct(m, n);
  }

  lemma EvenProduct(m: nat, n: nat)
    requires m % 2 == 0
    ensures Times(m, n) % 2 == 0
  {
    MulAssoc(2, m / 2, n);
  }

  lemma HalfWord(f: Format, m: nat)
    requires IsDoubleWord(f) && m < Pow2(f.mant + 2)
    ensures m < B64 / 2
  {
    WordSize(f);
    Pow2Mono(f.mant + 2, WordBits(f) - 1);
    assert Pow2(WordBits(f)) == 2 * Pow2(WordBits(f) - 1);
  }

  lemma ProductRange(m: nat, n: nat, p: nat)
    requires Pow2(p) <= m < Pow2(p + 1) && Pow2(p) <= n < Pow2(p + 1)
    ensures Pow2(2 * p) <= Times(m, n) < Pow2(2 * p + 2)
  {
    Pow2Add(p, p);
    Pow2Add(p + 1, p + 1);
    assert p + p == 2 * p && p + 1 + (p + 1) == 2 * p + 2;
    MulMono(Pow2(p), m, Pow2(p));
    MulMono(Pow2(p), n, m);
    MulMono(m, Pow2(p + 1), n);
    MulMono(n, Pow2(p + 1), Pow2(p + 1));
  }

  /** Mantissas and exponents stand for the exact product and addend on one common scale. */
  lemma ScaledOperands(f: Format, X: nat, Y: nat, Z: nat, nx: Parts, ny: Parts, nz: Parts)
    requires IsDoubleWord(f)
    requires StandsFor(f, X, nx.m, nx.e) && StandsFor(f, Y, ny.m, ny.e) && StandsFor(f, Z, nz.m, nz.e)
    ensures WordBits(f) <= nx.e + ny.e + Lift(f) && 0 <= nz.e + Lift(f)
    ensures At(Times(nx.m, ny.m), nx.e + ny.e + Lift(f)) == At(Times(X, Y), CommonScale(f))
    ensures At(nz.m, nz.e + Lift(f)) == At(At(Z, UnitExp(f)), CommonScale(f))
  {
    var a, b, c, w, g := nx.e + Offset(f), ny.e + Offset(f), nz.e + Offset(f), WordBits(f), f.mant + 2;
    ProductScale(X, Y, nx.m, ny.m, a, b, g, w);
    AddendScale(Z, nz.m, c, g, Offset(f) + w);
    Pow2Add(UnitExp(f), CommonScale(f));
    MulAssoc(Z, Pow2(UnitExp(f)), Pow2(CommonScale(f)));
    assert UnitExp(f) + CommonScale(f) == g + (Offset(f) + w);
  }

  lemma ProductScale(X: nat, Y: nat, m: nat, n: nat, a: nat, b: nat, g: nat, w: nat)
    requires X * Pow2(g) == m * Pow2(a) && Y * Pow2(g) == n * Pow2(b)
    ensures (m * n) * Pow2(a + b + w) == (X * Y) * Pow2(2 * g + w)
  {
    Pow2Add(a, b);
    Pow2Add(a + b, w);
    Pow2Add(g, g);
    Pow2Add(g + g, w);
    assert g + g == 2 * g;
    FourFactors(m, n, Pow2(a), Pow2(b), Pow2(w));
    FourFactors(X, Y, Pow2(g), Pow2(g), Pow2(w));
  }

  lemma FourFactors(m: int, n: int, a: int, b: int, w: int)
    ensures (m * n) * ((a * b) * w) == ((m * a) * (n * b)) * w
  {
    assert (m * a) * (n * b) == (m * n) * (a * b);
    MulAssoc(m * n, a * b, w);
  }

  lemma AddendScale(Z: nat, m: nat, c: nat, g: nat, t: nat)
    requires Z * Pow2(g) == m * Pow2(c)
    ensures m * Pow2(c + t) == Z * Pow2(g + t)
  {
    Pow2Add(c, t);
    Pow2Add(g, t);
    MulAssoc(m, Pow2(c), Pow2(t));
    MulAssoc(Z, Pow2(g), Pow2(t));
  }

  /** The exact sum on the common scale is the sum or difference of the scaled operands, with the sign of the larger. */
  lemma ExactScaled(f: Format, x: Float, y: Float, z: Float, ap: nat, az: nat)
    requires IsDoubleWord(f) && IsNonzero(x) && IsNonzero(y) && IsNonzero(z)
    requires ap == At(Times(x.mag, y.mag), CommonScale(f)) && az == At(At(z.mag, UnitExp(f)), CommonScale(f))
    ensures 0 < ap
    ensures var t, neg := Exact(f, x, y, z), x.neg != y.neg;
      && (neg == z.neg ==> At(Abs(t), CommonScale(f)) == ap + az && t != 0 && (t < 0 <==> neg))
      && (neg != z.neg ==> At(Abs(t), CommonScale(f)) == Gap(ap, az))
      && (neg != z.neg ==> (t == 0 <==> ap == az) && (ap > az ==> (t < 0 <==> neg)) && (ap < az ==> (t < 0 <==> !neg)))
  {
    OperandsPositive(f, x.mag, y.mag);
    ScaledSums(Times(x.mag, y.mag), At(z.mag, UnitExp(f)), CommonScale(f));
  }

  lemma ScaledSums(X: nat, Z: nat, s: nat)
    ensures At(X + Z, s) == At(X, s) + At(Z, s)
    ensures X <= Z ==> At(Z - X, s) == At(Z, s) - At(X, s)
    ensures Z <= X ==> At(X - Z, s) == At(X, s) - At(Z, s)
    ensures X < Z <==> At(X, s) < At(Z, s)
    ensures X == Z <==> At(X, s) == At(Z, s)
    ensures X == 0 <==> At(X, s) == 0
  {
    var u := Pow2(s);
    MulDist(u, X, Z);
    MulDist(u, Z, X);
    if X < Z { MulMono(X, Z, u); }
    if Z < X { MulMono(Z, X, u); }
  }

  lemma WordsZero(f: Format, hi: nat, lo: nat)
    ensures Join(f, hi, lo) == 0 <==> hi == 0 && lo == 0
  {
    MulMono(0, hi, Pow2(WordBits(f)));
    if hi != 0 { MulMono(1, hi, Pow2(WordBits(f))); }
  }

  /** When the exact sum is zero both roundings of the plain expression are exact, and it is a positive zero. */
  lemma Cancelled(f: Format, x: Float, y: Float, z: Float)
    requires IsWide(f) && IsNonzero(x) && IsNonzero(y) && IsNonzero(z) && Representable(f, z.mag)
    requires Exact(f, x, y, z) == 0
    ensures MulAdd(f, x, y, z) == Num(false, 0)
  {
    OperandsPositive(f, x.mag, y.mag);
    RoundExact(f, z.mag, UnitExp(f));
    assert Mul(f, x, y) == Num(x.neg != y.neg, z.mag);
  }

  /**
   With a zero addend the plain expression rounds the product and then adds the zero, which gives the correctly rounded
   product except when that is a negative zero, from a product of no more than half the least subnormal, and the addend
   a positive one: the sum of the two zeros is positive.
   */
  lemma ZeroAddend(f: Format, x: Float, y: Float, z: Float)
    requires IsWide(f) && IsNonzero(x) && IsNonzero(y) && z.Num? && z.mag == 0
    ensures MulAdd(f, x, y, z) == FloatOf(x.neg != y.neg, Round(f, Times(x.mag, y.mag), UnitExp(f)))
      <==> !(2 * Times(x.mag, y.mag) <= Pow2(UnitExp(f)) && x.neg != y.neg && !z.neg)
  {
    RoundVanishes(f, Times(x.mag, y.mag), UnitExp(f));
    var p := Round(f, Times(x.mag, y.mag), UnitExp(f));
    assert Mul(f, x, y) == FloatOf(x.neg != y.neg, p);
    if p.Finite? {
      SmallRepresentable(f, 0);
      RoundNearest(f, Times(x.mag, y.mag), UnitExp(f), 0);
      var zero := x.mag - x.mag;
      RoundInteger(f, p.mag, zero);
    }
  }

  /** The least subnormal times its negative, plus a positive zero, shows the exception. */
  lemma ZeroAddendExample(f: Format, x: nat, y: nat, z: nat, r: Float)
    requires IsWide(f) && x == 1 && y == Pow2(f.exp + f.mant) + 1 && z == 0
    ensures IsWord(f, x) && IsWord(f, y) && IsWord(f, z)
    ensures IsFma(f, ToFloat(f, x), ToFloat(f, y), ToFloat(f, z), r) ==> r == Num(false, 0)
    ensures FloatOf(true, Round(f, Times(Mag(f, x), Mag(f, y)), UnitExp(f))) == Num(true, 0)
  {
    hide Pow2, Round, IsWide;
    LeastWord(f, x);
    WithSign(f, 1, x);
    LeastWord(f, z);
    Pow2Mono(1, UnitExp(f));
    NextPower(f.exp + f.mant);
    PowerOne();
    assert Mag(f, x) == Mag(f, y) == 1 && Times(1, 1) == 1;
    RoundVanishes(f, 1, UnitExp(f));
    ZeroAddend(f, ToFloat(f, x), ToFloat(f, y), ToFloat(f, z));
  }

  lemma PowerOne()
    ensures Pow2(1) == 2
  {}

  /** The words 0 and 1 are zero and the least subnormal. */
  lemma LeastWord(f: Format, x: nat)
    requires x <= 1
    ensures IsWord(f, x) && x < Pow2(f.exp + f.mant) && Mag(f, x) == x && Sign(f, x) == 0 && IsFinite(f, x)
  {
    Pow2Mono(1, f.mant);
    Pow2Mono(f.mant, f.exp + f.mant);
    Pow2Mono(f.mant, WordBits(f));
    Pow2Mono(2, f.exp);
    DivModUnique(x, Pow2(f.mant), 0, x);
    DivModUnique(0, Pow2(f.exp), 0, 0);
    DivModUnique(x, Pow2(f.exp + f.mant), 0, x);
  }
}
