/** remquof: the remainder of the nearest-integer quotient, with the low bits of that quotient. */
module Remquo {
  import opened PowerOfTwo
  import opened Ieee
  import opened Rounding
  import opened Floats
  import opened Fmod

  const U32: nat := 0x1_0000_0000
  const U31: nat := 0x8000_0000

  /** Numbers within a factor of two of each other differ by a number of the format. */
  lemma DifferenceExact(f: Format, v: nat, y: nat)
    requires Representable(f, v) && Representable(f, y) && v <= y <= 2 * v
    ensures Representable(f, y - v)
  {
    hide Pow2, BitLen, Limit;
    var d := Drop(f, BitLen(v));
    BitLenMono(v, y);
    assert y % Pow2(d) == 0 by {
      RepresentableForm(f, y);
      Divides(y / Pow2(Drop(f, BitLen(y))), Drop(f, BitLen(y)), d);
    }
    MultipleDifference(v, y, Pow2(d));
    var t := (y - v) / Pow2(d);
    QuotientBounds(y - v, Pow2(d));
    assert t < Pow2(f.mant + 1) by {
      Pow2Add(f.mant + 1, d);
      Pow2Mono(BitLen(v), f.mant + 1 + d);
      MulCancelLt(t, Pow2(f.mant + 1), Pow2(d));
    }
    ScaledRepresentable(f, t, d);
  }

  lemma MultipleDifference(v: int, y: int, d: int)
    requires 0 < d && v % d == 0 && y % d == 0
    ensures y - v == ((y - v) / d) * d
  {
    ExactQuotient(v, d);
    ExactQuotient(y, d);
    MulDist(d, y / d, v / d);
    ModMultiple(y / d - v / d, d);
  }

  /** The word |y| as a comparison operand. */
  function Magnitude(f: Format, y: nat): Float {
    if IsFinite(f, y) then Num(false, Mag(f, y)) else Inf(false)
  }

  /** a > b for operands that are not negative. */
  predicate Greater(a: Float, b: Float) {
    b.Num? && (a.Inf? || (a.Num? && a.mag > b.mag))
  }

  /** What remquo promises for a finite divisor: n is x / y rounded to nearest even, the result is x - n * y exactly. */
  ghost predicate IsRemquo(f: Format, x: nat, y: nat, r: Outcome, quo: int)
    requires Mag(f, y) != 0
  {
    var X, Y, n := Mag(f, x), Mag(f, y), RneDiv(Mag(f, x), Mag(f, y));
    && r.Word? && IsWord(f, r.bits)
    && Mag(f, r.bits) == Gap(X, n * Y)
    && Sign(f, r.bits) == (if n * Y <= X then Sign(f, x) else 1 - Sign(f, x))
    && quo == (if Sign(f, x) == Sign(f, y) then 1 else -1) * (n % U31)
  }

  method Remquof(f: Format, x: nat, y: nat) returns (r: Outcome, quo: int)
    requires IsWord(f, x) && IsWord(f, y) && WordBits(f) == 32
    ensures r.NaN? <==> Mag(f, y) == 0 || IsNaN(f, y) || !IsFinite(f, x)
    ensures r.NaN? ==> quo == 0
    ensures r.Word? && IsFinite(f, y) ==> IsRemquo(f, x, y, r, quo)
    ensures r.Word? && !IsFinite(f, y) ==> r == Word(x) && quo == 0
  {
    quo := 0;
    var W := Pow2(WordBits(f));
    Compare(f, x, y);
    Compare(f, y, x);
    if (2 * y) % W == 0 || IsNaN(f, y) || !IsFinite(f, x) {
      return NaN, quo;
    }
    ghost var X, Y := Mag(f, x), Mag(f, y);
    if (2 * x) % W == 0 {
      QuotientOf(X, Y, 0, X);
      return Word(x), quo;
    }
    var ux, ex := Normalise(f, x);
    var uy, ey := Normalise(f, y);
    r, quo := Divide(f, x, y, ux, ex, uy, ey);
  }

  /** Everything after normalisation. */
  method Divide(f: Format, x: nat, y: nat, mx: nat, ex0: int, uy: nat, ey: int) returns (r: Outcome, quo: int)
    requires IsWord(f, x) && IsWord(f, y) && IsFinite(f, x) && !IsNaN(f, y) && Mag(f, y) != 0
    requires IsNormalised(f, mx) && Scaled(Mag(f, x), mx, ex0)
    requires IsNormalised(f, uy) && Scaled(Mag(f, y), uy, ey)
    requires if ExpField(f, x) == 0 then 0 < ex0 + f.mant && ex0 <= 0 else ex0 == ExpField(f, x)
    requires if ExpField(f, y) == 0 then 0 < ey + f.mant && ey <= 0 else ey == ExpField(f, y)
    ensures IsFinite(f, y) ==> IsRemquo(f, x, y, r, quo)
    ensures !IsFinite(f, y) ==> r == Word(x) && quo == 0
  {
    ghost var X, Y := Mag(f, x), Mag(f, y);
    FiniteExponent(f, x, y, ex0, ey);
    var ux, ex, q := mx, ex0, 0;
    ghost var V, Q := X, 0;
    if ex < ey {
      BelowDivisor(f, X, ux, ex, Y, uy, ey);
      if ex + 1 != ey {
        QuotientOf(X, Y, 0, X);
        return Word(x), 0;
      }
    } else {
      ux, q, V, Q := ReduceQuo(f, ux, ex, uy, ey, X, Y);
      if ux == 0 {
        ex := 0 - f.mant - 7;
      } else {
        ux, ex := Renormalise(f, ux, ey, V);
      }
    }
    var w := Pack(f, ux, ex);
    if ux == 0 {
      PackZero(f, ex);
    } else {
      PackMag(f, V, ux, ex);
      if ex < ey { BelowDivisor(f, V, ux, ex, Y, uy, ey); }
    }
    r, quo := Decide(f, x, y, w, ex, ey, q, ux, uy, V, Q);
  }

  lemma FiniteExponent(f: Format, x: nat, y: nat, ex: int, ey: int)
    requires IsWord(f, x) && IsWord(f, y) && IsFinite(f, x)
    requires if ExpField(f, x) == 0 then ex <= 0 else ex == ExpField(f, x)
    requires if ExpField(f, y) == 0 then 0 < ey + f.mant && ey <= 0 else ey == ExpField(f, y)
    ensures 0 < ey + f.mant && ex < Pow2(f.exp) - 1
    ensures !IsFinite(f, y) ==> ex < ey
  {
    Pow2Mono(1, f.exp);
  }

  /** The subtraction loop, counting the quotient in a 32-bit word. */
  method ReduceQuo(f: Format, m: nat, e: int, uy: nat, ey: int, ghost X: nat, ghost Y: nat)
    returns (ux: nat, q: nat, ghost V: nat, ghost Q: nat)
    requires IsNormalised(f, m) && IsNormalised(f, uy) && ey <= e && 0 < Y
    requires Scaled(X, m, e) && Scaled(Y, uy, ey)
    ensures ux < uy && V < Y && X == Q * Y + V && Scaled(V, ux, ey) && (V == 0 <==> ux == 0)
    ensures q == Q % U32
  {
    assert Pow2(f.mant + 2) == 2 * Pow2(f.mant + 1) && Pow2(f.mant + 1) == 2 * Pow2(f.mant);
    Pow2Mono(f.mant + 2, WordBits(f));
    ux, q, V, Q := m, 0, X, 0;
    var ex := e;
    while ex > ey
      invariant ey <= ex && ux < 2 * uy
      invariant Scaled(V, ux, ex) && X == (Q * Pow2(ex - ey)) * Y + V
      invariant q == Q % U32
      decreases ex - ey
    {
      ux, q, V, Q := Trial(f, ux, ex, uy, ey, q, V, Q, X, Y);
      Advance(f, ux, ex, ey, V, Q);
      ux, ex, q, Q := (2 * ux) % Pow2(WordBits(f)), ex - 1, (2 * q) % U32, 2 * Q;
    }
    ux, q, V, Q := Trial(f, ux, ex, uy, ey, q, V, Q, X, Y);
    AtDivisor(ux, uy, V, Y, ey);
  }

  /** Shifting both mantissa and quotient left one exponent down keeps the invariant. */
  lemma Advance(f: Format, ux: nat, ex: int, ey: int, V: nat, Q: nat)
    requires ey < ex && 2 * ux < Pow2(WordBits(f)) && Scaled(V, ux, ex)
    ensures (2 * ux) % Pow2(WordBits(f)) == 2 * ux && Scaled(V, 2 * ux, ex - 1)
    ensures (2 * (Q % U32)) % U32 == (2 * Q) % U32
    ensures Q * Pow2(ex - ey) == (2 * Q) * Pow2(ex - 1 - ey)
  {
    DivModUnique(2 * ux, Pow2(WordBits(f)), 0, 2 * ux);
    ScaledDouble(V, ux, ex);
    Double(Q, U32);
    MulAssoc(Q, 2, Pow2(ex - 1 - ey));
  }

  lemma AtDivisor(ux: nat, uy: nat, V: nat, Y: nat, ey: int)
    requires Scaled(V, ux, ey) && Scaled(Y, uy, ey) && ux < uy
    ensures V < Y && (V == 0 <==> ux == 0) && Pow2(ey - ey) == 1
  {
    ScaledOrder(V, ux, Y, uy, ey);
    ZeroScaled(ey);
    ScaledOrder(V, ux, 0, 0, ey);
  }

  /** One trial subtraction of the divisor, counted when it does not borrow. */
  method Trial(f: Format, m: nat, ex: int, uy: nat, ey: int, q0: nat,
      ghost V0: nat, ghost Q0: nat, ghost X: nat, ghost Y: nat)
    returns (ux: nat, q: nat, ghost V: nat, ghost Q: nat)
    requires ey <= ex && 0 < uy < Pow2(f.mant + 1) && m < 2 * uy && 0 < Y
    requires Scaled(V0, m, ex) && Scaled(Y, uy, ey)
    requires X == (Q0 * Pow2(ex - ey)) * Y + V0 && q0 == Q0 % U32
    ensures ux < uy && Scaled(V, ux, ex)
    ensures X == (Q * Pow2(ex - ey)) * Y + V && q == Q % U32
  {
    ux, q, V, Q := m, q0, V0, Q0;
    assert Pow2(f.mant + 2) == 2 * Pow2(f.mant + 1);
    NoBorrow(f, ux, uy);
    var i := (ux - uy) % Pow2(WordBits(f));
    if i / Pow2(WordBits(f) - 1) == 0 {
      V := Subtract(V, ux, Y, uy, ex, ey);
      CountOne(Q, Pow2(ex - ey), Y);
      Increment(Q, U32);
      ux, q, Q := i, (q + 1) % U32, Q + 1;
    }
  }

  /** 2 * x, for the magnitude of a word, as the sum it is. */
  function Twice(f: Format, w: nat): Float { Add(f, Num(false, Mag(f, w)), Num(false, Mag(f, w))) }

  /** The source's test for taking one more |y| off. */
  predicate RoundsUp(f: Format, y: nat, w: nat, ex: int, ey: int, q: nat) {
    ex == ey || (ex + 1 == ey &&
      (Greater(Twice(f, w), Magnitude(f, y))
      || (Twice(f, w) == Magnitude(f, y) && q % 2 == 1)))
  }

  /**
   The test decides nearest-even: equal exponents mean more than half, exponents two apart less, and doubling is
   exact between.
   */
  lemma RoundsUpIsNearest(f: Format, y: nat, w: nat, ex: int, ey: int, q: nat, ux: nat, uy: nat, V: nat,
      Q: nat, X: nat)
    requires X == Q * Mag(f, y) + V
    requires IsWord(f, y) && !IsNaN(f, y) && IsWord(f, w) && IsFinite(f, w) && Mag(f, w) == V < Mag(f, y)
    requires IsNormalised(f, uy) && Scaled(Mag(f, y), uy, ey) && q == Q % U32
    requires if ux == 0 then V == 0 && ex + 1 < ey else IsNormalised(f, ux) && Scaled(V, ux, ex) && ex <= ey
    requires !IsFinite(f, y) ==> Q == 0 && ex < ey
    ensures IsFinite(f, y) ==> (RoundsUp(f, y, w, ex, ey, q) <==> RneDiv(X, Mag(f, y)) == Q + 1)
    ensures IsFinite(f, y) ==> (!RoundsUp(f, y, w, ex, ey, q) <==> RneDiv(X, Mag(f, y)) == Q)
    ensures RoundsUp(f, y, w, ex, ey, q) ==> Mag(f, y) <= 2 * V
    ensures RoundsUp(f, y, w, ex, ey, q) ==> IsFinite(f, y)
  {
    hide BitLen, IsFinite, IsNaN, IsNormalised, IsWord, Limit, Mag, Pow2, RneDiv, Round, Scaled;
    var Y := Mag(f, y);
    QuotientOf(X, Y, Q, V);
    Doubling(f, w);
    if IsFinite(f, y) { MagRepresentable(f, y); }
    if ex + 1 < ey && ux != 0 { BelowDivisor(f, V, ux, ex, Y, uy, ey); }
    if ex == ey { AboveHalf(f, V, ux, Y, uy, ey); }
    assert q % 2 == Q % 2 by { Parity(Q); }
  }

  lemma Parity(Q: nat)
    ensures (Q % U32) % 2 == Q % 2
    ensures ((Q % U32) + 1) % U32 % U31 == (Q + 1) % U31 && (Q % U32) % U31 == Q % U31
  {
    Increment(Q, U32);
    ModHalf(Q);
    ModHalf(Q + 1);
  }

  lemma ModHalf(a: nat)
    ensures (a % U32) % U31 == a % U31 && (a % U32) % 2 == a % 2
  {
    var q, r := a / U32, a % U32;
    assert a == q * U32 + r;
    ModShift(r, U31, 2 * q);
    ModShift(r, 2, q * U31);
  }

  lemma Doubling(f: Format, w: nat)
    requires IsWord(f, w) && IsFinite(f, w)
    ensures Twice(f, w) == if 2 * Mag(f, w) >= Limit(f) then Inf(false) else Num(false, 2 * Mag(f, w))
  {
    hide BitLen, Mag, Representable, Limit, IsWord, Round;
    LimitPositive(f);
    MagRepresentable(f, w);
    var zero := f.mant - f.mant;
    var one := zero + 1;
    RoundUpward(f, Mag(f, w), one, zero);
    assert Pow2(one) == 2 * Pow2(zero) && Pow2(zero) == 1;
  }

  lemma AboveHalf(f: Format, v: nat, m: nat, y: nat, n: nat, e: int)
    requires Scaled(v, m, e) && Scaled(y, n, e) && IsNormalised(f, m) && IsNormalised(f, n)
    ensures y < 2 * v
  {
    ScaledShift(v, m, e, 1);
    assert v * Pow2(1) == 2 * v;
    ScaledDouble(2 * v, m, e + 1);
    assert Pow2(f.mant + 1) == 2 * Pow2(f.mant);
    ScaledOrder(y, n, 2 * v, 2 * m, e);
  }

  /** Chooses between V and V - |y| and assembles the result. */
  method Decide(f: Format, x: nat, y: nat, w: nat, ex: int, ey: int, q: nat,
                ghost ux: nat, ghost uy: nat, ghost V: nat, ghost Q: nat)
    returns (r: Outcome, quo: int)
    requires IsWord(f, x) && IsWord(f, y) && !IsNaN(f, y) && Mag(f, y) != 0
    requires w < Pow2(f.exp + f.mant) && Mag(f, w) == V && IsFinite(f, w)
    requires V < Mag(f, y) && Mag(f, x) == Q * Mag(f, y) + V && q == Q % U32
    requires !IsFinite(f, y) ==> Q == 0 && ex < ey
    requires IsNormalised(f, uy) && Scaled(Mag(f, y), uy, ey)
    requires if ux == 0 then V == 0 && ex + 1 < ey else IsNormalised(f, ux) && Scaled(V, ux, ex) && ex <= ey
    ensures IsFinite(f, y) ==> IsRemquo(f, x, y, r, quo)
    ensures !IsFinite(f, y) ==> r == Word(x) && quo == 0
  {
    var neg, u, k := Choose(f, y, w, ex, ey, q, ux, uy, V, Q, Mag(f, x));
    quo := k;
    if Sign(f, x) != Sign(f, y) { quo := -quo; }
    r := Word(Signed(f, x, neg, u));
    if IsFinite(f, y) {
      Assembled(f, x, y, u, quo, Q + neg, V, Q, neg);
    } else {
      SameWord(f, x, u);
    }
  }

  /** The word u with the sign of x, flipped when neg is 1. */
  function Signed(f: Format, x: nat, neg: nat, u: nat): nat {
    (if (Sign(f, x) == 1) == (neg == 1) then 0 else 1) * Pow2(f.exp + f.mant) + u
  }

  lemma SameWord(f: Format, x: nat, u: nat)
    requires IsWord(f, x) && u < Pow2(f.exp + f.mant) && Mag(f, u) == Mag(f, x)
    ensures Signed(f, x, 0, u) == x
  {
    Fields(f, x);
    MagUnsigned(f, x);
    MagInjective(f, u, Unsigned(f, x));
  }

  lemma RoundedDifference(f: Format, y: nat, w: nat)
    requires IsWord(f, y) && IsWord(f, w) && IsFinite(f, y) && IsFinite(f, w)
    requires Mag(f, w) <= Mag(f, y) <= 2 * Mag(f, w)
    ensures Representable(f, Mag(f, y) - Mag(f, w))
  {
    MagRepresentable(f, w);
    MagRepresentable(f, y);
    DifferenceExact(f, Mag(f, w), Mag(f, y));
  }

  /** Keeps V, or replaces it by |y| - V (with neg set) and counts one more. */
  method Choose(f: Format, y: nat, w: nat, ex: int, ey: int, q: nat,
                ghost ux: nat, ghost uy: nat, ghost V: nat, ghost Q: nat, ghost X: nat)
    returns (neg: nat, u: nat, k: nat)
    requires IsWord(f, y) && !IsNaN(f, y) && Mag(f, y) != 0
    requires w < Pow2(f.exp + f.mant) && Mag(f, w) == V < Mag(f, y) && IsFinite(f, w) && q == Q % U32
    requires X == Q * Mag(f, y) + V
    requires !IsFinite(f, y) ==> Q == 0 && ex < ey
    requires IsNormalised(f, uy) && Scaled(Mag(f, y), uy, ey)
    requires if ux == 0 then V == 0 && ex + 1 < ey else IsNormalised(f, ux) && Scaled(V, ux, ex) && ex <= ey
    ensures neg <= 1 && u < Pow2(f.exp + f.mant) && k == (Q + neg) % U31
    ensures IsFinite(f, y) ==> RneDiv(X, Mag(f, y)) == Q + neg
    ensures Mag(f, u) == if neg == 1 then Mag(f, y) - V else V
    ensures !IsFinite(f, y) ==> neg == 0 && u == w && k == 0
  {
    hide Encode, IsFinite, IsNaN, IsNormalised, Mag, Pow2, Representable, RneDiv, RoundsUp, Scaled;
    neg, u, k := 0, w, q;
    NextPower(f.exp + f.mant);
    RoundsUpIsNearest(f, y, w, ex, ey, q, ux, uy, V, Q, X);
    Parity(Q);
    if RoundsUp(f, y, w, ex, ey, q) {
      RoundedDifference(f, y, w);
      neg, u, k := 1, Encode(f, Mag(f, y) - Mag(f, w)), (k + 1) % U32;
    }
    k := k % U31;
  }

  lemma Assembled(f: Format, x: nat, y: nat, u: nat, quo: int, n: nat, V: nat, Q: nat, neg: nat)
    requires IsWord(f, x) && V < Mag(f, y) && Mag(f, x) == Q * Mag(f, y) + V
    requires n == RneDiv(Mag(f, x), Mag(f, y)) && neg <= 1 && n == Q + neg
    requires quo == (if Sign(f, x) == Sign(f, y) then 1 else -1) * (n % U31)
    requires u < Pow2(f.exp + f.mant) && Mag(f, u) == if neg == 1 then Mag(f, y) - V else V
    ensures IsRemquo(f, x, y, Word(Signed(f, x, neg, u)), quo)
  {
    Fields(f, x);
    WithSign(f, if (Sign(f, x) == 1) == (neg == 1) then 0 else 1, u);
    MulDist(Mag(f, y), Q, 1);
  }

  lemma CountOne(Q: nat, p: nat, Y: nat)
    ensures ((Q + 1) * p) * Y == (Q * p) * Y + p * Y
  {
    MulDist(p, Q, 1);
    MulDist(Y, Q * p, p);
  }

  lemma Increment(Q: nat, d: nat)
    requires 1 < d
    ensures (Q % d + 1) % d == (Q + 1) % d
  {
    ModShift(Q % d + 1, d, Q / d);
  }

  lemma Double(Q: nat, d: nat)
    requires 0 < d
    ensures (2 * (Q % d)) % d == (2 * Q) % d
  {
    assert 2 * (Q % d) + 2 * (Q / d) * d == 2 * Q;
    ModShift(2 * (Q % d), d, 2 * (Q / d));
  }

  lemma QuotientOf(X: nat, Y: nat, Q: nat, V: nat)
    requires 0 < Y && X == Q * Y + V && V < Y
    ensures RneDiv(X, Y) == if 2 * V > Y || (2 * V == Y && Q % 2 == 1) then Q + 1 else Q
  {
    DivModUnique(X, Y, Q, V);
  }

  lemma PackZero(f: Format, e: int)
    requires e <= 0
    ensures Pack(f, 0, e) == 0 && 0 < Pow2(f.exp + f.mant) && Mag(f, 0) == 0 && ExpField(f, 0) == 0
  {
    DivModUnique(0, Pow2(1 - e), 0, 0);
    DivModUnique(0, Pow2(f.mant), 0, 0);
    DivModUnique(0, Pow2(f.exp), 0, 0);
  }

  /** A lower exponent means a smaller number, and one lower by two less than half of it. */
  lemma BelowDivisor(f: Format, v: nat, m: nat, e: int, y: nat, n: nat, ey: int)
    requires Scaled(v, m, e) && Scaled(y, n, ey) && IsNormalised(f, m) && IsNormalised(f, n) && e < ey
    ensures v < y
    ensures e + 1 < ey ==> 2 * v < y
  {
    if y <= v { ExponentOrder(f, v, m, e, y, n, ey); }
    if e + 1 < ey && y <= 2 * v {
      ScaledShift(v, m, e, 1);
      assert v * Pow2(1) == 2 * v;
      ExponentOrder(f, 2 * v, m, e + 1, y, n, ey);
    }
  }
}
