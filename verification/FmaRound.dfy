/** The end of fma: the top 63 bits of the sum, converted to a double and scaled, with one rounding in every range. */
module FmaRound {
  import opened PowerOfTwo
  import opened Ieee
  import opened Rounding
  import opened Floats
  import opened Words
  import opened Words64
  import opened Sticky
  import opened Scalbn
  import opened FmaParts
  import opened FmaSum

  /** The number of bits a 63-bit integer has beyond the precision. */
  function Excess(f: Format): nat
    requires IsDoubleWord(f)
  {
    WordBits(f) - 2 - f.mant
  }

  /** An integer with its top bit in place 62. */
  predicate IsTop(f: Format, i: nat)
    requires IsDoubleWord(f)
  {
    Pow2(WordBits(f) - 2) <= i < Pow2(WordBits(f) - 1)
  }

  // Taking the top bits.

  /** The top 63 bits of a nonzero two-word number, the last one sticky, with the exponent that goes with them. */
  method TakeTop(f: Format, hi: nat, lo: nat, nonzero: bool, e0: int, ghost o: nat, ghost k: nat)
    returns (i: nat, e: int)
    requires IsDoubleWord(f) && lo < Pow2(WordBits(f)) && 0 < Join(f, hi, lo) < Pow2(2 * WordBits(f) - 2)
    requires WordBits(f) <= e0 + o && nonzero == (hi != 0)
    ensures IsTop(f, i) && 0 <= e + o
    ensures Round(f, At(Join(f, hi, lo), e0 + o), k) == Round(f, At(i, e + o), k)
  {
    hide WordBits, Pow2, Round, Shr, Shl, OrBit;
    var w := WordBits(f);
    WordSize(f);
    e := e0;
    var d: int;
    if nonzero {
      HighWord(f, hi, lo);
      e := e + w;
      Pow2Mono(w - 2, w);
      var r := Clz64(hi);
      TopWord(f, hi, r);
      d := r - 1;
      StickyTop(f, hi, lo, d);
      NearTop(f, Join(f, hi, lo), w - d, e0 + o, k);
      i := OrBit(At(hi, d) + Shr(lo, w - d), Shl(lo, d, w) != 0);
    } else {
      var r := Clz64(lo);
      d := r as int - 1;
      if d < 0 {
        StickyLow(f, lo);
        NearTop(f, lo, 1, e0 + o, k);
        i := OrBit(lo / 2, lo % 2 == 1);
      } else {
        ShiftLow(f, lo, r - 1, e0 + o);
        i := lo * Pow2(d);
      }
    }
    e := e - d;
  }

  lemma TopWord(f: Format, hi: nat, r: nat)
    requires IsDoubleWord(f) && hi < Pow2(WordBits(f) - 2) && r <= 63 && Pow2(63 - r) <= hi
    ensures 2 <= r
  {
    if r < 2 { Pow2Mono(62, 63 - r); }
  }

  /** The high word shifted up and filled from the low word is the number shifted right, sticky. */
  lemma StickyTop(f: Format, hi: nat, lo: nat, d: nat)
    requires IsDoubleWord(f) && lo < Pow2(WordBits(f)) && 1 <= d <= 62 && Pow2(62 - d) <= hi < Pow2(63 - d)
    ensures var w := WordBits(f); var i := OrBit(At(hi, d) + Shr(lo, w - d), Shl(lo, d, w) != 0);
      i == StickyShift(Join(f, hi, lo), w - d) && IsTop(f, i)
  {
    hide At, Pow2, WordBits;
    var w := WordBits(f);
    var j := w - d;
    assert Shl(lo, d, w) != 0 <==> lo % Pow2(j) != 0 by { LostBits(lo, j, w); }
    TopQuotient(hi, lo, d, j, w);
    assert Pow2(62) <= At(hi, d) by { ShiftBounds(hi, 62 - d, d); }
    assert Shr(lo, j) < Pow2(d) by { WordsShift(lo, d, w); }
    Room(hi, Shr(lo, j), d, 62);
  }

  lemma TopQuotient(hi: nat, lo: nat, d: nat, j: nat, w: nat)
    requires d + j == w
    ensures Shr(At(hi, w) + lo, j) == At(hi, d) + Shr(lo, j)
    ensures (At(hi, w) + lo) % Pow2(j) == lo % Pow2(j)
  {
    AtAdd(hi, d, j);
    ModShift(lo, Pow2(j), At(hi, d));
  }

  lemma Room(hi: nat, c: nat, d: nat, t: nat)
    requires d <= t && hi < Pow2(t + 1 - d) && c < Pow2(d) && 1 <= t
    ensures At(hi, d) + c < Pow2(t + 1)
    ensures OrBit(At(hi, d) + c, true) < Pow2(t + 1)
  {
    hide Pow2;
    var e := t + 1 - d;
    Pow2Add(e, d);
    MulMono(hi + 1, Pow2(e), Pow2(d));
    MulDist(Pow2(d), hi, 1);
    NextPower(t);
  }

  lemma NearTop(f: Format, v: nat, j: nat, s: nat, k: nat)
    requires IsDoubleWord(f) && IsTop(f, StickyShift(v, j))
    ensures Round(f, At(v, s), k) == Round(f, At(StickyShift(v, j), s + j), k)
  {
    StickyIsNear(v, j);
    NearScale(v, StickyShift(v, j), j, s);
    Spare(f);
    Pow2Mono(f.mant + 3, WordBits(f) - 2);
    NearRound(f, At(v, s), StickyShift(v, j), s + j, k);
  }

  lemma StickyLow(f: Format, lo: nat)
    requires IsDoubleWord(f) && Pow2(63) <= lo < Pow2(64)
    ensures var i := OrBit(lo / 2, lo % 2 == 1); i == StickyShift(lo, 1) && IsTop(f, i)
  {
    var one := lo - lo + 1;
    assert Pow2(one) == 2 * Pow2(one - 1);
    HalfRange(lo, 63);
  }

  lemma HalfRange(lo: nat, t: nat)
    requires 2 <= t && Pow2(t) <= lo < Pow2(t + 1)
    ensures Pow2(t - 1) <= lo / 2 && OrBit(lo / 2, true) < Pow2(t)
  {
    assert Pow2(t) == 2 * Pow2(t - 1) && Pow2(t + 1) == 2 * Pow2(t);
    assert Pow2(t - 1) == 2 * Pow2(t - 2);
  }

  lemma ShiftLow(f: Format, lo: nat, d: nat, s: nat)
    requires IsDoubleWord(f) && d <= 62 && Pow2(62 - d) <= lo < Pow2(63 - d) && WordBits(f) <= s
    ensures 0 <= lo * Pow2(d) && IsTop(f, lo * Pow2(d)) && At(lo, s) == At(lo * Pow2(d), s - d)
  {
    ShiftBounds(lo, 62 - d, d);
    Pow2Add(d, s - d);
    MulAssoc(lo, Pow2(d), Pow2(s - d));
  }

  // Converting and scaling.

  /** The conversion of an integer, rounding to the format's precision. */
  function FromInt(f: Format, neg: bool, i: nat): Float
    requires IsWide(f)
  {
    FloatOf(neg, RoundAt(f, i, UnitExp(f)))
  }

  /** Cutting a 63-bit integer to the precision leaves a number that fits with room to spare. */
  lemma CutTop(f: Format, i: nat)
    requires IsDoubleWord(f) && IsTop(f, i)
    ensures BitLen(i) == f.mant + 1 + Excess(f)
    ensures Pow2(f.mant) <= RneShift(i, Excess(f)) <= Pow2(f.mant + 1)
    ensures Representable(f, RneShift(i, Excess(f)))
  {
    var D := Excess(f);
    BitLenUnique(i, WordBits(f) - 2);
    Pow2Add(f.mant, D);
    Pow2Add(f.mant + 1, D);
    RneMono(Pow2(f.mant + D), i, Pow2(D));
    RneMono(i, Pow2(f.mant + 1 + D), Pow2(D));
    RneMultiple(Pow2(f.mant), D);
    RneMultiple(Pow2(f.mant + 1), D);
    SmallRepresentable(f, RneShift(i, D));
  }

  lemma SmallRepresentable(f: Format, h: nat)
    requires h <= Pow2(f.mant + 1) && IsWide(f)
    ensures Representable(f, h)
  {
    var zero := h - h;
    Range(f);
    Pow2Mono(f.mant + 2, f.mant + 2 * Emax(f));
    assert Pow2(f.mant + 2) == 2 * Pow2(f.mant + 1);
    assert h * Pow2(zero) == h;
    CutRepresentable(f, h, zero);
  }

  /** While the result is normal, rounding happens at the precision, wherever the number is scaled to. */
  lemma RoundNormal(f: Format, i: nat, n: int)
    requires IsDoubleWord(f) && IsTop(f, i) && 0 <= n + Excess(f)
    ensures RoundAt(f, i, n) == Cut(f, RneShift(i, Excess(f)), n + Excess(f))
  {
    hide Pow2, Round, RneShift, Cut, BitLen;
    var D := Excess(f);
    var p, q := Abs(n) + n, Abs(n);
    var v := At(i, p);
    RoundAtIs(f, i, n, p, q);
    CutTop(f, i);
    BitLenShift(i, p);
    RneShiftScale(i, D, p);
    RoundIs(f, v, q, D + p, RneShift(i, D));
  }

  /** A number within the precision is only scaled. */
  lemma RoundScaled(f: Format, h: nat, n: int)
    requires IsWide(f) && h <= Pow2(f.mant + 1) && 0 <= n
    ensures RoundAt(f, h, n) == Cut(f, h, n)
  {
    SmallRepresentable(f, h);
    var zero := n - n;
    RoundUpward(f, h, n, zero);
  }

  /** The converted integer: its rounded mantissa h at the unit of conversion. */
  lemma Converted(f: Format, neg: bool, i: nat)
    requires IsDoubleWord(f) && IsTop(f, i)
    ensures var h := RneShift(i, Excess(f));
      FromInt(f, neg, i) == Num(neg, At(h, Excess(f) + UnitExp(f))) && IsFloat(f, FromInt(f, neg, i))
  {
    hide RneShift, Round, Representable, Pow2;
    var h, t := RneShift(i, Excess(f)), Excess(f) + UnitExp(f);
    RoundNormal(f, i, UnitExp(f));
    assert UnitExp(f) + Excess(f) == t;
    CutTop(f, i);
    ConvertedRange(f, h, t);
    CutSmall(f, h, t);
  }

  lemma CutSmall(f: Format, h: nat, t: nat)
    requires h <= Pow2(f.mant + 1) && At(h, t) < Limit(f)
    ensures Cut(f, h, t) == Finite(At(h, t)) && Representable(f, At(h, t))
  {
    CutRepresentable(f, h, t);
  }

  lemma ConvertedRange(f: Format, h: nat, t: nat)
    requires IsDoubleWord(f) && h <= Pow2(f.mant + 1) && t <= Excess(f) + UnitExp(f) + 1
    ensures At(h, t) < Limit(f)
  {
    Range(f);
    Pow2Mono(10, f.exp - 1);
    assert Pow2(10) == 1024;
    Pow2Add(f.mant + 1, t);
    MulMono(h, Pow2(f.mant + 1), Pow2(t));
    Pow2Mono(f.mant + 1 + t + 1, f.mant + 2 * Emax(f));
    assert Pow2(f.mant + 1 + t + 1) == 2 * Pow2(f.mant + 1 + t);
  }

  /** Scaling the converted integer is scaling its mantissa. */
  lemma ScaleConverted(f: Format, h: nat, e: int)
    requires IsDoubleWord(f)
    ensures RoundAt(f, At(h, Excess(f) + UnitExp(f)), e) == RoundAt(f, h, e + UnitExp(f) + Excess(f))
  {
    RoundAtScale(f, h, Excess(f) + UnitExp(f), e);
  }

  /** In the normal range converting first and scaling afterwards rounds once. */
  lemma NormalResult(f: Format, neg: bool, i: nat, e: int)
    requires IsDoubleWord(f) && IsTop(f, i) && 0 <= e + UnitExp(f) + Excess(f)
    ensures ScaleB(f, FromInt(f, neg, i), e) == FloatOf(neg, RoundAt(f, i, e + UnitExp(f)))
  {
    var h := RneShift(i, Excess(f));
    Converted(f, neg, i);
    CutTop(f, i);
    ScaleConverted(f, h, e);
    RoundScaled(f, h, e + UnitExp(f) + Excess(f));
    RoundNormal(f, i, e + UnitExp(f));
  }

  /** Below the normal range by d bits, all bits from d down are cut at once. */
  lemma RoundSubnormal(f: Format, i: nat, d: nat)
    requires IsDoubleWord(f) && BitLen(i) <= f.mant + 1 + Excess(f) && Excess(f) < d
    ensures RoundAt(f, i, 0 - d) == Cut(f, RneShift(i, d), d - d)
  {
    RoundIs(f, i, d, d, RneShift(i, d));
  }

  // Well below the normal range: drop the excess bits, sticky, before converting.

  /** The integer whose low bits were dropped, sticky, converts exactly and rounds like the original once scaled. */
  lemma DroppedResult(f: Format, neg: bool, i: nat, j: nat, e: int)
    requires IsDoubleWord(f) && IsTop(f, i) && j == StickyShift(i, Excess(f)) && e + UnitExp(f) + Excess(f) <= -2
    ensures At(j, Excess(f)) == j * Pow2(Excess(f))
    ensures IsFloat(f, FromInt(f, neg, At(j, Excess(f))))
    ensures ScaleB(f, FromInt(f, neg, At(j, Excess(f))), e) == FloatOf(neg, RoundAt(f, i, e + UnitExp(f)))
  {
    var D := Excess(f);
    var d := 0 - e - UnitExp(f);
    DroppedTop(f, i, j);
    Converted(f, neg, At(j, D));
    RneMultiple(j, D);
    ScaleConverted(f, j, e);
    RoundAtScale(f, j, D, 0 - d);
    SameSubnormal(f, i, j, d);
  }

  lemma SameSubnormal(f: Format, i: nat, j: nat, d: nat)
    requires IsDoubleWord(f) && IsTop(f, i) && j == StickyShift(i, Excess(f)) && Excess(f) + 2 <= d
    ensures RoundAt(f, i, 0 - d) == RoundAt(f, At(j, Excess(f)), 0 - d)
  {
    var D := Excess(f);
    DroppedTop(f, i, j);
    StickyIsNear(i, D);
    NearShift(i, j, D, d);
    CutTop(f, i);
    CutTop(f, At(j, D));
    RoundSubnormal(f, i, d);
    RoundSubnormal(f, At(j, D), d);
  }

  lemma DroppedTop(f: Format, i: nat, j: nat)
    requires IsDoubleWord(f) && IsTop(f, i) && j == StickyShift(i, Excess(f))
    ensures j < Pow2(f.mant + 1) && IsTop(f, At(j, Excess(f)))
  {
    var D := Excess(f);
    Pow2Add(f.mant, D);
    Pow2Add(f.mant + 1, D);
    QuotientBounds(i, Pow2(D));
    var q := i / Pow2(D);
    if q < Pow2(f.mant) { MulMono(q + 1, Pow2(f.mant), Pow2(D)); MulDist(Pow2(D), q, 1); }
    MulCancelLt(q, Pow2(f.mant + 1), Pow2(D));
    assert Pow2(f.mant + 1) == 2 * Pow2(f.mant);
    MulMono(Pow2(f.mant), j, Pow2(D));
    MulMono(j, Pow2(f.mant + 1), Pow2(D));
  }

  // One bit below the normal range.

  lemma RneAddEven(a: nat, m: nat, k: nat)
    requires m % 2 == 0
    ensures RneShift(a + At(m, k), k) == RneShift(a, k) + m
  {
    RneNearest(a, Pow2(k));
    NearestAddEven(a, Pow2(k), RneShift(a, k), m);
    RneUnique(a + At(m, k), k, RneShift(a, k) + m);
  }

  lemma NearestAddEven(a: nat, d: nat, n: nat, m: nat)
    requires m % 2 == 0 && IsNearest(a, d, n)
    ensures 0 <= a + m * d && IsNearest(a + m * d, d, n + m)
  {
    MulMono(0, m, d);
    MulDist(d, n, m);
    assert (n + m) * d == n * d + m * d;
  }

  /** What the exact result rounds to one bit below the normal range. */
  lemma OneBit(f: Format, i: nat)
    requires IsDoubleWord(f) && IsTop(f, i)
    ensures RoundAt(f, i, 0 - Excess(f) - 1) == Finite(RneShift(i, Excess(f) + 1))
    ensures 0 < RneShift(i, Excess(f) + 1) <= Pow2(f.mant)
  {
    var d := Excess(f) + 1;
    var g := RneShift(i, d);
    CutTop(f, i);
    RoundSubnormal(f, i, d);
    Pow2Add(f.mant - 1, d);
    Pow2Add(f.mant, d);
    RneMono(Pow2(f.mant - 1 + d), i, Pow2(d));
    RneMono(i, Pow2(f.mant + d), Pow2(d));
    RneMultiple(Pow2(f.mant - 1), d);
    RneMultiple(Pow2(f.mant), d);
    var zero := d - d;
    assert Pow2(f.mant + 1) == 2 * Pow2(f.mant);
    RoundScaled(f, g, zero);
    SmallRepresentable(f, g);
    assert g * Pow2(zero) == g;
  }

  /** When the conversion rounds up to the next power of two, the result is the least normal number. */
  lemma RoundsToMinNormal(f: Format, i: nat)
    requires IsDoubleWord(f) && IsTop(f, i) && RneShift(i, Excess(f)) == Pow2(f.mant + 1)
    ensures RneShift(i, Excess(f) + 1) == Pow2(f.mant)
  {
    var D := Excess(f);
    RneNearest(i, Pow2(D));
    Pow2Add(f.mant + 1, D);
    assert Pow2(D + 1) == 2 * Pow2(D) && Pow2(f.mant + 1) == 2 * Pow2(f.mant);
    Pow2Add(f.mant, D + 1);
    assert IsNearest(i, Pow2(D + 1), Pow2(f.mant)) by {
      assert Pow2(f.mant) * Pow2(D + 1) == Pow2(f.mant + 1 + D);
      assert f.mant + 1 + D == WordBits(f) - 1;
      assert Pow2(f.mant) == 2 * Pow2(f.mant - 1);
    }
    RneUnique(i, D + 1, Pow2(f.mant));
  }

  /** An integer that lost nothing in the conversion is still only rounded by the scaling. */
  lemma ExactConversion(f: Format, neg: bool, i: nat, e: int)
    requires IsDoubleWord(f) && IsTop(f, i) && i % Pow2(Excess(f) + 1) == 0
    ensures ScaleB(f, FromInt(f, neg, i), e) == FloatOf(neg, RoundAt(f, i, e + UnitExp(f)))
  {
    hide BitLen, Excess, FloatOf, FromInt, IsTop, IsWide, Join, Mag, Pow2, Round, RoundAt, Shl, Shr, UnitExp,
      WordBits;
    var D := Excess(f);
    ExactQuotient(i, Pow2(D + 1));
    Divides(i / Pow2(D + 1), D + 1, D);
    ExactQuotient(i, Pow2(D));
    var h := i / Pow2(D);
    RneMultiple(h, D);
    Converted(f, neg, i);
    ScaleConverted(f, h, e);
    RoundAtScale(f, h, D, e + UnitExp(f));
  }

  /**
   The integer with one bit dropped, sticky, and a new top bit: its conversion cuts the original at the right
   place.
   */
  lemma ShiftedTop(f: Format, i: nat, j: nat)
    requires IsDoubleWord(f) && IsTop(f, i) && j == OrBit(i / 2, i % 2 == 1)
    ensures j < Pow2(WordBits(f) - 2) && IsTop(f, j + Pow2(WordBits(f) - 2))
    ensures RneShift(j + Pow2(WordBits(f) - 2), Excess(f)) == RneShift(i, Excess(f) + 1) + Pow2(f.mant)
  {
    hide Pow2, RneShift, IsWide;
    var D := Excess(f);
    NextPower(WordBits(f) - 2);
    NextPower(f.mant - 1);
    HalfRange(i, WordBits(f) - 2);
    HalfShift(i, j, D);
    Pow2Add(f.mant, D);
    RneAddEven(j, Pow2(f.mant), D);
  }

  lemma HalfShift(i: nat, j: nat, D: nat)
    requires j == OrBit(i / 2, i % 2 == 1) && 2 <= D
    ensures RneShift(j, D) == RneShift(i, D + 1)
  {
    var one := D - D + 1;
    assert Pow2(one) == 2 * Pow2(one - 1);
    assert j == StickyShift(i, one);
    StickyIsNear(i, one);
    NearShift(i, j, one, D + one);
    RneShiftScale(j, D, one);
  }

  /** Taking the added top bit off again after doubling is exact. */
  lemma RemoveTop(f: Format, neg: bool, g: nat, e: int)
    requires IsDoubleWord(f) && 0 < g <= Pow2(f.mant) && e + UnitExp(f) + Excess(f) == -1
    ensures var t := Excess(f) + UnitExp(f);
      var r := Num(neg, At(g + Pow2(f.mant), t));
      var d := Add(f, ScaleB(f, r, 1), Negate(TwoTo(f, neg, WordBits(f) - 1)));
      IsFloat(f, d) && ScaleB(f, d, e) == FloatOf(neg, Finite(g))
  {
    hide Add, BitLen, Excess, IsWide, Join, Mag, Negate, Representable, Round, Shl, Shr, UnitExp, WordBits;
    var t, M := Excess(f) + UnitExp(f), Pow2(f.mant);
    var a, b := At(g, t + 1), At(M, t + 1);
    assert Pow2(f.mant + 1) == 2 * M;
    assert ScaleB(f, Num(neg, At(g + M, t)), 1) == Num(neg, a + b) by {
      Doubled(f, g + M, t);
      MulDist(Pow2(t + 1), g, M);
    }
    assert TwoTo(f, neg, WordBits(f) - 1) == Num(neg, b) by { TopAt(f, t + 1); }
    assert 0 < a && Representable(f, a) by {
      ConvertedRange(f, g, t + 1);
      CutSmall(f, g, t + 1);
      MulMono(1, g, Pow2(t + 1));
    }
    SubtractTop(f, neg, a, b);
    BackDown(f, g, t + 1, e);
  }

  lemma BackDown(f: Format, g: nat, t: nat, e: int)
    requires IsDoubleWord(f) && g <= Pow2(f.mant) && e + t == 0
    ensures RoundAt(f, At(g, t), e) == Finite(g)
  {
    var zero := e + t;
    assert Pow2(f.mant + 1) == 2 * Pow2(f.mant);
    RoundAtScale(f, g, t, e);
    RoundScaled(f, g, zero);
    SmallRepresentable(f, g);
    assert g * Pow2(zero) == g;
  }

  lemma Doubled(f: Format, h: nat, t: nat)
    requires IsDoubleWord(f) && h <= Pow2(f.mant + 1) && t == Excess(f) + UnitExp(f)
    ensures RoundAt(f, At(h, t), 1) == Finite(At(h, t + 1))
  {
    var one := t - t + 1;
    RoundAtScale(f, h, t, one);
    RoundScaled(f, h, t + 1);
    ConvertedRange(f, h, t + 1);
  }

  lemma TopAt(f: Format, t: nat)
    requires IsDoubleWord(f) && t == Excess(f) + UnitExp(f) + 1
    ensures Pow2(WordBits(f) - 1 + UnitExp(f)) == At(Pow2(f.mant), t)
  {
    Pow2Add(f.mant, t);
    assert f.mant + t == WordBits(f) - 1 + UnitExp(f);
  }

  lemma SubtractTop(f: Format, neg: bool, a: nat, b: nat)
    requires 0 < a && Representable(f, a)
    ensures Add(f, Num(neg, a + b), Negate(Num(neg, b))) == Num(neg, a)
  {
    var zero := a - a;
    RoundInteger(f, a, zero);
  }

  /** The conversion of the top bits to a double and the final scaling: together one rounding of the exact value. */
  method Finish(f: Format, i: nat, e: int, neg: bool) returns (r: Float)
    requires IsDoubleWord(f) && IsTop(f, i)
    ensures r == FloatOf(neg, RoundAt(f, i, e + UnitExp(f)))
  {
    r := FromInt(f, neg, i);
    Converted(f, neg, i);
    if e < Emin(f) - (WordBits(f) - 2) {
      var done;
      r, done := BelowNormal(f, i, e, neg);
      if done {
        return;
      }
    } else {
      NormalResult(f, neg, i, e);
    }
    r := Scalbn.Scalbn(f, r, e);
  }

  /** The subnormal cases: what is returned at once, or what is still to be scaled. */
  method BelowNormal(f: Format, i: nat, e: int, neg: bool) returns (r: Float, done: bool)
    requires IsDoubleWord(f) && IsTop(f, i) && e < Emin(f) - (WordBits(f) - 2)
    ensures done ==> r == FloatOf(neg, RoundAt(f, i, e + UnitExp(f)))
    ensures !done ==> IsFloat(f, r) && ScaleB(f, r, e) == FloatOf(neg, RoundAt(f, i, e + UnitExp(f)))
  {
    var w, D := WordBits(f), Excess(f);
    done := false;
    if e == Emin(f) - (w - 1) {
      r, done := OneBitBelow(f, i, e, neg);
    } else {
      LostBits(i, D, w);
      DroppedResult(f, neg, i, OrBit(Shr(i, D), Shl(i, w - D, w) != 0), e);
      r := FromInt(f, neg, OrBit(Shr(i, D), Shl(i, w - D, w) != 0) * Pow2(D));
    }
  }

  method OneBitBelow(f: Format, i: nat, e: int, neg: bool) returns (r: Float, done: bool)
    requires IsDoubleWord(f) && IsTop(f, i) && e == Emin(f) - (WordBits(f) - 1)
    ensures done ==> r == FloatOf(neg, RoundAt(f, i, e + UnitExp(f)))
    ensures !done ==> IsFloat(f, r) && ScaleB(f, r, e) == FloatOf(neg, RoundAt(f, i, e + UnitExp(f)))
  {
    hide Pow2, RneShift, Round, BitLen, OrBit;
    var w, D := WordBits(f), Excess(f);
    r, done := FromInt(f, neg, i), false;
    assert e + UnitExp(f) + D == -1;
    OneBit(f, i);
    Converted(f, neg, i);
    MinNormalTest(f, neg, i);
    var c := TwoTo(f, neg, w - 1);
    if r == c {
      RoundsToMinNormal(f, i);
      return TwoTo(f, neg, Emin(f)), true;
    }
    LostBits(i, D + 1, w);
    if Shl(i, w - (D + 1), w) != 0 {
      r := WithTopBit(f, i, e, neg);
    } else {
      ExactConversion(f, neg, i, e);
    }
  }

  /**
   One bit is lost to the scaling: drop it, sticky, add another top bit for the conversion and take that off
   again.
   */
  method WithTopBit(f: Format, i: nat, e: int, neg: bool) returns (r: Float)
    requires IsDoubleWord(f) && IsTop(f, i) && e + UnitExp(f) + Excess(f) == -1
    ensures IsFloat(f, r) && ScaleB(f, r, e) == FloatOf(neg, RoundAt(f, i, e + UnitExp(f)))
  {
    hide Pow2, RneShift, BitLen, Round, OrBit;
    var w := WordBits(f);
    var j := OrBit(i / 2, i % 2 == 1) + Pow2(w - 2);
    ghost var g := RneShift(i, Excess(f) + 1);
    OneBit(f, i);
    ShiftedTop(f, i, OrBit(i / 2, i % 2 == 1));
    Converted(f, neg, j);
    r := FromInt(f, neg, j);
    assert r == Num(neg, At(g + Pow2(f.mant), Excess(f) + UnitExp(f)));
    RemoveTop(f, neg, g, e);
    TimesPower(f, r, 1);
    r := Add(f, Mul(f, TwoTo(f, false, 1), r), Negate(TwoTo(f, neg, w - 1)));
  }

  lemma MinNormalTest(f: Format, neg: bool, i: nat)
    requires IsDoubleWord(f) && IsTop(f, i)
    ensures FromInt(f, neg, i) == TwoTo(f, neg, WordBits(f) - 1) <==> RneShift(i, Excess(f)) == Pow2(f.mant + 1)
    ensures Emin(f) + UnitExp(f) == f.mant
  {
    var h, t := RneShift(i, Excess(f)), Excess(f) + UnitExp(f);
    Converted(f, neg, i);
    Pow2Add(f.mant + 1, t);
    assert f.mant + 1 + t == WordBits(f) - 1 + UnitExp(f);
    if At(h, t) == At(Pow2(f.mant + 1), t) { MulCancel(h, Pow2(f.mant + 1), Pow2(t)); }
  }
}