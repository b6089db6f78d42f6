/**
 sqrtf and sqrt: the square root found bit by bit, in one word and in two. Both keep the same invariant on one
 integer; the two-word code is a refinement of the one-word step.
 */
module SquareRoot {
  import opened PowerOfTwo
  import opened Ieee
  import opened Rounding
  import opened Floats

  /**
   Correct rounding of a square root (section 5.4.1 of IEEE 754-2008): the exact root lies strictly on z's side of the
   midpoint between z and any other number w of the format. In units, the exact root squares to x * 2^UnitExp.
   */
  ghost predicate IsRoot(f: Format, x: nat, z: nat)
    requires IsWide(f)
  {
    forall w: nat :: Representable(f, w) ==> CloserThan(x * Pow2(UnitExp(f)), z, w)
  }

  /** The root of n is strictly closer to z than to w, if they differ. */
  ghost predicate CloserThan(n: int, z: nat, w: nat) {
    && (z < w ==> 4 * n < (z + w) * (z + w))
    && (w < z ==> (z + w) * (z + w) < 4 * n)
  }

  /** q is the root of n so far and r the bit about to be tried; ix holds the rest of n, scaled by r. */
  ghost predicate Partial(n: nat, ix: int, s: int, q: int, r: int) {
    && 0 < r && 0 <= q
    && ix * r == n - q * q && s == 2 * q
    && q * q <= n < (q + 2 * r) * (q + 2 * r)
  }

  /** All bits tried: q is the integer root of n and ix is zero exactly when n is its square. */
  ghost predicate Done(n: nat, ix: int, q: int) {
    && 0 <= q && ix == 2 * (n - q * q)
    && q * q <= n < (q + 1) * (q + 1)
  }

  /** q is the integer root of n, and exact or not. */
  ghost predicate IsIntegerRoot(n: nat, q: int, inexact: bool) {
    q * q <= n < (q + 1) * (q + 1) && (inexact <==> q * q != n)
  }

  lemma DoneIsRoot(n: nat, ix: int, q: int)
    requires Done(n, ix, q)
    ensures 0 <= q && IsIntegerRoot(n, q, ix != 0)
  {}

  /** Trying the bit r: it belongs to the root exactly when the comparison says so. */
  lemma TryBit(n: nat, ix: int, s: int, q: int, r: int)
    requires Partial(n, ix, s, q, r)
    ensures s + r <= ix <==> (q + r) * (q + r) <= n
    ensures s + r <= ix ==> (ix - (s + r)) * r == n - (q + r) * (q + r)
    ensures 0 <= ix < 4 * q + 4 * r
  {
    assert (q + r) * (q + r) == q * q + (2 * q + r) * r by { Square(q, r); }
    if s + r <= ix { MulMono(s + r, ix, r); } else { MulMono(ix, s + r, r); }
    MulDist(r, ix, s + r);
    assert (q + 2 * r) * (q + 2 * r) == q * q + (4 * q + 4 * r) * r by {
      Square(q, 2 * r);
      MulAssoc(2 * q + 2 * r, 2, r);
    }
    MulCancelLt(ix, 4 * q + 4 * r, r);
    MulCancelLe(0, ix, r);
  }

  lemma Square(a: int, b: int)
    ensures (a + b) * (a + b) == a * a + (2 * a + b) * b
  {}

  /** One iteration with a further bit to come. */
  lemma NextBit(n: nat, ix: int, s: int, q: int, r: int)
    requires Partial(n, ix, s, q, r) && r % 2 == 0
    ensures if s + r <= ix then Partial(n, 2 * (ix - (s + r)), s + 2 * r, q + r, r / 2)
            else Partial(n, 2 * ix, s, q, r / 2)
  {
    TryBit(n, ix, s, q, r);
    var h := r / 2;
    assert r == 2 * h;
    if s + r <= ix {
      assert (2 * (ix - (s + r))) * h == (ix - (s + r)) * r;
    } else {
      assert (2 * ix) * h == ix * r;
    }
  }

  /** The last iteration. */
  lemma LastBit(n: nat, ix: int, s: int, q: int, r: int)
    requires Partial(n, ix, s, q, r) && r == 1
    ensures if s + r <= ix then Done(n, 2 * (ix - (s + r)), q + r) else Done(n, 2 * ix, q)
  {
    TryBit(n, ix, s, q, r);
  }

  /** Before the first bit: ix alone, with the first bit's weight factored out of n. */
  lemma FirstBit(ix: nat, r: nat)
    requires 0 < r && r <= ix < 4 * r
    ensures 0 <= ix * r
    ensures Partial(ix * r, ix, 0, 0, r)
  {
    MulMono(0, ix, r);
    MulMono(ix, 4 * r, r);
    assert (2 * r) * (2 * r) == (4 * r) * r;
  }

  /** The mantissa of the result: the root rounded to even last bit when inexact. */
  function RoundRoot(q: nat, inexact: bool): nat {
    (if inexact then q + q % 2 else q) / 2
  }

  /** No tie is possible, and the rounded root is within half a unit on either side. */
  lemma RootBounds(n: nat, q: nat, inexact: bool)
    requires n % 2 == 0 && q * q <= n < (q + 1) * (q + 1) && (inexact <==> q * q != n)
    ensures var h := RoundRoot(q, inexact);
      n < (2 * h + 1) * (2 * h + 1) && (h > 0 ==> (2 * h - 1) * (2 * h - 1) < n)
  {
    var h := RoundRoot(q, inexact);
    SquareParity(q);
    if q % 2 == 1 {
      assert 2 * h - 1 == q;
      assert (q + 1) * (q + 1) <= (2 * h + 1) * (2 * h + 1) by { Square(q + 1, 1); }
    } else {
      assert 2 * h == q;
      if h > 0 { Square(q - 1, 1); }
    }
  }

  lemma SquareParity(q: int)
    ensures (q * q) % 2 == q % 2
  {
    var k := q / 2;
    if q % 2 == 0 {
      assert q * q == 2 * (k * q);
    } else {
      assert q == 2 * k + 1;
      assert q * q == 2 * (2 * (k * k) + 2 * k) + 1;
    }
  }

  lemma SquareMono(a: int, b: int)
    requires 0 <= a < b
    ensures a * a < b * b
  {
    MulMono(a, b, a);
    MulMono(a, b, b);
  }

  /** The root has half the bits. */
  lemma RootRange(n: nat, q: nat, p: nat)
    requires Pow2(2 * p) <= n < Pow2(2 * p + 2) && q * q <= n < (q + 1) * (q + 1)
    ensures Pow2(p) <= q < Pow2(p + 1)
  {
    Pow2Add(p, p);
    Pow2Add(p + 1, p + 1);
    assert p + p == 2 * p && p + 1 + (p + 1) == 2 * p + 2;
    if q + 1 <= Pow2(p) { if q + 1 < Pow2(p) { SquareMono(q + 1, Pow2(p)); } }
    if Pow2(p + 1) <= q { if Pow2(p + 1) < q { SquareMono(Pow2(p + 1), q); } }
  }

  /** The operand of the bit loop for a mantissa m at unbiased exponent d: the bit loop's n. */
  function Operand(f: Format, m: nat, d: int): nat {
    m * Pow2(f.mant + 2 + (if d % 2 == 1 then 1 else 0))
  }

  /** The exponent of the root of a mantissa at exponent e. */
  function RootExponent(f: Format, e: int): int
    requires IsWide(f)
  {
    Emax(f) - 1 + (e - Emax(f)) / 2
  }

  lemma RootExponentFits(f: Format, e: int)
    requires IsWide(f) && e <= 2 * Emax(f)
    ensures RootExponent(f, e) + 3 < Pow2(f.exp) && e < Pow2(f.exp)
  {
    assert Pow2(f.exp) == 2 * Pow2(f.exp - 1);
  }

  /** The rounded root h becomes h * 2^(Emax - 1 + d / 2), which is a number of the format nearest to the root. */
  lemma RootIsNearest(f: Format, X: nat, m: nat, e: int, q: nat, inexact: bool)
    requires IsWide(f) && IsNormalised(f, m) && Scaled(X, m, e) && 0 < e + f.mant && e < Pow2(f.exp)
    requires IsIntegerRoot(Operand(f, m, e - Emax(f)), q, inexact)
    ensures RootExponent(f, e) >= 1
    ensures Pow2(f.mant) <= RoundRoot(q, inexact) <= Pow2(f.mant + 1)
    ensures IsRoot(f, X, At(RoundRoot(q, inexact), RootExponent(f, e)))
  {
    hide IsRoot, Operand, IsNormalised, Scaled, RoundRoot, IsWide, Pow2;
    var d := e - Emax(f);
    var n, h := Operand(f, m, d), RoundRoot(q, inexact);
    OperandFacts(f, X, m, e);
    RootRange(n, q, f.mant + 1);
    RootBounds(n, q, inexact);
    RoundRange(f, q, inexact);
    NearestRoot(f, X, n, h, Emax(f) - 2 + d / 2);
  }

  lemma NearestRoot(f: Format, X: nat, n: nat, h: nat, k: nat)
    requires IsWide(f) && X * Pow2(UnitExp(f)) == n * (Pow2(k) * Pow2(k))
    requires Pow2(f.mant) <= h && Pow2(2 * f.mant + 2) <= n
    requires (2 * h - 1) * (2 * h - 1) < n < (2 * h + 1) * (2 * h + 1)
    ensures IsRoot(f, X, At(h, k + 1))
  {
    hide At, Representable, CloserThan;
    forall w: nat | Representable(f, w) ensures CloserThan(X * Pow2(UnitExp(f)), At(h, k + 1), w) {
      RootCloser(f, n, h, k, w);
    }
  }

  lemma RoundRange(f: Format, q: nat, inexact: bool)
    requires Pow2(f.mant + 1) <= q < Pow2(f.mant + 2)
    ensures Pow2(f.mant) <= RoundRoot(q, inexact) <= Pow2(f.mant + 1)
  {
    assert Pow2(f.mant + 1) == 2 * Pow2(f.mant) && Pow2(f.mant + 2) == 2 * Pow2(f.mant + 1);
  }

  lemma OperandFacts(f: Format, X: nat, m: nat, e: int)
    requires IsWide(f) && IsNormalised(f, m) && Scaled(X, m, e) && 0 < e + f.mant
    ensures var d := e - Emax(f); var n := Operand(f, m, d);
      && Emax(f) - 2 + d / 2 >= 0
      && Pow2(2 * f.mant + 2) <= n < Pow2(2 * f.mant + 4) && n % 2 == 0
      && X * Pow2(UnitExp(f)) == n * (Pow2(Emax(f) - 2 + d / 2) * Pow2(Emax(f) - 2 + d / 2))
  {
    var d := e - Emax(f);
    var g := f.mant + 2 + d % 2;
    assert Operand(f, m, d) == m * Pow2(g);
    OperandSize(f, m, g);
    ScaledShift(X, m, e, UnitExp(f));
    OperandScale(m, g, Emax(f) - 2 + d / 2, e + UnitExp(f) - 1);
  }

  lemma OperandSize(f: Format, m: nat, g: nat)
    requires IsNormalised(f, m) && f.mant + 2 <= g <= f.mant + 3
    ensures Pow2(2 * f.mant + 2) <= m * Pow2(g) < Pow2(2 * f.mant + 4) && (m * Pow2(g)) % 2 == 0
  {
    ShiftBounds(m, f.mant, g);
    Pow2Mono(2 * f.mant + 2, f.mant + g);
    Pow2Mono(f.mant + g + 1, 2 * f.mant + 4);
    var one := g - g + 1;
    Divides(m, g, one);
    assert Pow2(one) == 2 * Pow2(one - 1);
  }

  lemma OperandScale(m: nat, g: nat, k: nat, t: nat)
    requires t == g + (k + k)
    ensures m * Pow2(t) == (m * Pow2(g)) * (Pow2(k) * Pow2(k))
  {
    Pow2Add(g, k + k);
    Pow2Add(k, k);
    MulAssoc(m, Pow2(g), Pow2(k + k));
  }

  /** Every other number of the format is at least a unit away, so its midpoint with h lies beyond the root. */
  lemma RootCloser(f: Format, n: nat, h: nat, k: nat, w: nat)
    requires Representable(f, w) && Pow2(f.mant) <= h && Pow2(2 * f.mant + 2) <= n
    requires (2 * h - 1) * (2 * h - 1) < n < (2 * h + 1) * (2 * h + 1)
    ensures CloserThan(n * (Pow2(k) * Pow2(k)), At(h, k + 1), w)
  {
    var S, U, P := Pow2(k), Pow2(k + 1), Pow2(f.mant);
    assert U == 2 * S;
    Pow2Add(f.mant, k + 1);
    if P * U <= w {
      Spacing(f, w, k + 1);
      ExactQuotient(w, U);
      Midpoint(n, h, S, w, w / U);
    } else if P < h {
      Sum(P, h, U, 1);
      BelowClose(n, h, S, w);
    } else {
      Pow2Add(f.mant + 1, f.mant + 1);
      assert f.mant + 1 + (f.mant + 1) == 2 * f.mant + 2;
      assert Pow2(f.mant + 1) == 2 * h;
      BelowBinade(n, h, S, h * U + w);
    }
  }

  lemma BelowClose(n: nat, h: nat, S: nat, w: nat)
    requires 0 < S && 0 < h && w + 2 * S <= h * (2 * S) && (2 * h - 1) * (2 * h - 1) < n
    ensures CloserThan(n * (S * S), h * (2 * S), w)
  {
    assert (2 * h - 1) * (2 * S) == 2 * (h * (2 * S)) - 2 * S by { MulDist(2 * S, 2 * h, 1); MulAssoc(2, h, 2 * S); }
    Below(n, h, S, h * (2 * S) + w);
  }

  lemma Scale2(a: int, S: int)
    ensures (a * (2 * S)) * (a * (2 * S)) == 4 * ((a * a) * (S * S))
  {}

  lemma Below(n: nat, h: nat, S: nat, t: nat)
    requires 0 < S && 0 < h && t <= (2 * h - 1) * (2 * S) && (2 * h - 1) * (2 * h - 1) < n
    ensures t * t < 4 * (n * (S * S))
  {
    var b := (2 * h - 1) * (2 * S);
    if t < b { SquareMono(t, b); }
    Scale2(2 * h - 1, S);
    MulMono(1, S, S);
    MulMono((2 * h - 1) * (2 * h - 1), n, S * S);
  }

  lemma BelowBinade(n: nat, h: nat, S: nat, t: nat)
    requires 0 < S && t < 2 * (h * (2 * S)) && (2 * h) * (2 * h) <= n
    ensures t * t < 4 * (n * (S * S))
  {
    MulAssoc(2, h, 2 * S);
    SquareMono(t, (2 * h) * (2 * S));
    Scale2(2 * h, S);
    MulMono(1, S, S);
    MulMono((2 * h) * (2 * h), n, S * S);
  }

  lemma Above(n: nat, h: nat, S: nat, t: nat)
    requires 0 < S && (2 * h + 1) * (2 * S) <= t && n < (2 * h + 1) * (2 * h + 1)
    ensures 4 * (n * (S * S)) < t * t
  {
    var b := (2 * h + 1) * (2 * S);
    MulMono(0, 2 * h + 1, 2 * S);
    if b < t { SquareMono(b, t); }
    Scale2(2 * h + 1, S);
    MulMono(1, S, S);
    MulMono(n, (2 * h + 1) * (2 * h + 1), S * S);
  }

  lemma Midpoint(n: nat, h: nat, S: nat, w: nat, l: int)
    requires 0 < S && 0 < h && w == l * (2 * S)
    requires (2 * h - 1) * (2 * h - 1) < n < (2 * h + 1) * (2 * h + 1)
    ensures 0 <= h * (2 * S)
    ensures CloserThan(n * (S * S), h * (2 * S), w)
  {
    MulMono(0, h, 2 * S);
    if l > h {
      Sum(h, l, 2 * S, 1);
      Above(n, h, S, h * (2 * S) + w);
    } else if l < h {
      Sum(l, h, 2 * S, 1);
      assert (2 * h - 1) * (2 * S) == 2 * (h * (2 * S)) - 2 * S by { MulDist(2 * S, 2 * h, 1); MulAssoc(2, h, 2 * S); }
      Below(n, h, S, h * (2 * S) + w);
    }
  }

  lemma Sum(a: int, b: int, U: int, one: int)
    requires a < b && 0 < U && one == 1
    ensures a * U + U <= b * U
    ensures (2 * a + one) * U <= a * U + b * U
  {
    MulMono(a + 1, b, U);
    MulDist(U, a, 1);
    MulDist(U, a, a + 1);
    assert a + (a + 1) == 2 * a + one;
  }

  /**
   The word of root mantissa h at exponent t; a mantissa rounded up to the next power of two carries into the
   exponent by itself.
   */
  lemma RootWord(f: Format, h: nat, t: nat)
    requires Pow2(f.mant) <= h <= Pow2(f.mant + 1) && 1 <= t && t + 3 < Pow2(f.exp)
    ensures var z := h + At(t, f.mant);
      z < Pow2(f.exp + f.mant) && IsWord(f, z) && Sign(f, z) == 0 && IsFinite(f, z) && Mag(f, z) == At(h, t)
  {
    var P, z := Pow2(f.mant), h + At(t, f.mant);
    assert Pow2(f.mant + 1) == 2 * P;
    if h < 2 * P {
      assert z == Pack(f, h, t + 1) by { MulDist(P, t, 1); }
      PackMag(f, At(h, t), h, t + 1);
    } else {
      assert z == Pack(f, P, t + 2) by { MulDist(P, t, 2); }
      assert Scaled(At(h, t), P, t + 2) by { assert Pow2(t + 1) == 2 * Pow2(t); MulAssoc(P, 2, Pow2(t)); }
      PackMag(f, At(h, t), P, t + 2);
    }
    assert Pow2(WordBits(f)) == 2 * Pow2(f.exp + f.mant);
    DivModUnique(z, Pow2(f.exp + f.mant), 0, z);
  }

  /** The results that need no root: NaN for a NaN or a negative number, x itself for a zero or +infinity. */
  ghost predicate IsSqrt(f: Format, x: nat, r: Outcome)
    requires IsWide(f)
  {
    if IsNaN(f, x) then r.NaN?
    else if Mag(f, x) == 0 then r == Word(x)
    else if Sign(f, x) == 1 then r.NaN?
    else if !IsFinite(f, x) then r == Word(x)
    else
      && r.Word? && IsWord(f, r.bits) && Sign(f, r.bits) == 0 && IsFinite(f, r.bits)
      && IsRoot(f, Mag(f, x), Mag(f, r.bits))
  }

  /** From the finished bit loop to the result word. */
  lemma Conclude(f: Format, x: nat, m: nat, e: int, q: nat, ix: int)
    requires IsWide(f) && IsWord(f, x) && IsPositive(f, x)
    requires IsNormalised(f, m) && Scaled(Mag(f, x), m, e) && 0 < e + f.mant && e <= 2 * Emax(f)
    requires Done(Operand(f, m, e - Emax(f)), ix, q)
    ensures RootExponent(f, e) >= 1
    ensures IsSqrt(f, x, Word(RoundRoot(q, ix != 0) + At(RootExponent(f, e), f.mant)))
  {
    hide Done, IsIntegerRoot, IsSqrt, IsRoot, Operand, IsNormalised, RoundRoot, Scaled, Mag, RootExponent, IsWord,
      IsPositive, IsWide, Emax, At;
    RootExponentFits(f, e);
    DoneIsRoot(Operand(f, m, e - Emax(f)), ix, q);
    RootIsNearest(f, Mag(f, x), m, e, q, ix != 0);
    RootAssembled(f, x, RoundRoot(q, ix != 0), RootExponent(f, e));
  }

  lemma RootAssembled(f: Format, x: nat, h: nat, t: nat)
    requires IsWide(f) && IsWord(f, x) && IsPositive(f, x)
    requires Pow2(f.mant) <= h <= Pow2(f.mant + 1) && 1 <= t && t + 3 < Pow2(f.exp)
    requires IsRoot(f, Mag(f, x), At(h, t))
    ensures IsSqrt(f, x, Word(h + At(t, f.mant)))
  {
    RootWord(f, h, t);
  }

  predicate IsPositive(f: Format, x: nat) {
    Sign(f, x) == 0 && IsFinite(f, x) && Mag(f, x) != 0
  }

  lemma Special(f: Format, x: nat)
    requires IsWord(f, x)
    ensures Mag(f, x) == 0 <==> Unsigned(f, x) == 0
    ensures Sign(f, x) == 0 <==> x < Pow2(f.exp + f.mant)
    ensures x < Pow2(f.exp + f.mant) ==> x == Unsigned(f, x) && ExpField(f, x) == x / Pow2(f.mant)
    ensures Mag(f, x) == 0 ==> IsFinite(f, x)
    ensures !IsFinite(f, x) ==> Mag(f, x) != 0
    ensures IsFinite(f, x) ==> ExpField(f, x) < Pow2(f.exp) - 1
    ensures IsFinite(f, x) && Sign(f, x) != 1 && x != 0 ==> IsPositive(f, x)
  {
    var H := Pow2(f.exp + f.mant);
    Fields(f, x);
    Pow2Mono(1, f.exp);
    if Mag(f, x) == 0 {
      if ExpField(f, x) > 0 { MulMono(1, Pow2(f.mant) + Frac(f, x), Pow2(ExpField(f, x) - 1)); }
    }
    if Unsigned(f, x) == 0 { DivModUnique(0, Pow2(f.mant), 0, 0); }
    if x < H { DivModUnique(x, H, 0, x); } else { DivModUnique(x, H, 1, x - H); }
  }

  /** The mantissa with its top bit set, and the exponent it belongs to. */
  method NormaliseWord(f: Format, x: nat) returns (ix: nat, m: int)
    requires IsWord(f, x) && IsPositive(f, x)
    ensures IsNormalised(f, ix) && Scaled(Mag(f, x), ix, m) && 0 < m + f.mant && m < Pow2(f.exp) - 1
  {
    Special(f, x);
    Fields(f, x);
    var P := Pow2(f.mant);
    assert Pow2(f.mant + 1) == 2 * P;
    ix, m := x, x / P;
    if m == 0 {
      var i := 0;
      assert Pow2(i) == 1;
      while (ix / P) % 2 == 0
        invariant 0 < ix < 2 * P && ix == Frac(f, x) * Pow2(i) && 0 <= i
        decreases 2 * P - ix
      {
        BitClear(ix, P);
        MulAssoc(Frac(f, x), 2, Pow2(i));
        ix, i := ix * 2, i + 1;
      }
      BitClear(ix, P);
      SubnormalShift(f, Frac(f, x), ix, i);
      m := m - (i - 1);
    }
    FractionPart(f, x, ix, P);
    ix := ix % P + P;
  }

  lemma BitClear(ix: nat, P: nat)
    requires 0 < P && ix < 2 * P
    ensures (ix / P) % 2 == 0 <==> ix < P
  {
    if ix < P { DivModUnique(ix, P, 0, ix); } else { DivModUnique(ix, P, 1, ix - P); }
  }

  lemma SubnormalShift(f: Format, F: nat, ix: nat, i: nat)
    requires 0 < F < Pow2(f.mant) <= ix < Pow2(f.mant + 1) && ix == F * Pow2(i)
    ensures 1 <= i <= f.mant
  {
    if i == 0 { assert Pow2(i) == 1; }
    MulMono(1, F, Pow2(i));
    Pow2Less(i, f.mant + 1);
  }

  lemma FractionPart(f: Format, x: nat, ix: nat, P: nat)
    requires P == Pow2(f.mant)
    ensures P <= ix < 2 * P ==> ix % P + P == ix
    ensures ix % P < P
  {
    if P <= ix < 2 * P { DivModUnique(ix, P, 1, ix - P); }
  }

  /** sqrtf: the whole mantissa in one signed word. */
  method Sqrtf(f: Format, x: nat) returns (r: Outcome)
    requires IsWide(f) && IsWord(f, x)
    ensures IsSqrt(f, x, r)
  {
    Special(f, x);
    if !IsFinite(f, x) {
      r := if Frac(f, x) == 0 && Sign(f, x) == 0 then Word(x) else NaN;
      NoRoot(f, x, r);
      return;
    }
    if Sign(f, x) == 1 || x == 0 {
      r := if Unsigned(f, x) == 0 then Word(x) else NaN;
      NoRoot(f, x, r);
      return;
    }
    r := PositiveRootf(f, x);
  }

  /** The operands the bit loop never sees. */
  lemma NoRoot(f: Format, x: nat, r: Outcome)
    requires IsWide(f) && IsWord(f, x) && !IsPositive(f, x)
    requires !IsFinite(f, x) ==> r == if Frac(f, x) == 0 && Sign(f, x) == 0 then Word(x) else NaN
    requires IsFinite(f, x) ==> r == if Unsigned(f, x) == 0 then Word(x) else NaN
    ensures IsSqrt(f, x, r)
  {
    Special(f, x);
    Fields(f, x);
  }

  method PositiveRootf(f: Format, x: nat) returns (r: Outcome)
    requires IsWide(f) && IsWord(f, x) && IsPositive(f, x)
    ensures IsSqrt(f, x, r)
  {
    hide BitLen, Emax, IsPositive, IsSqrt, IsWide, IsWord, Mag, Operand, Pow2, Round, WordBits;
    var ix, m := NormaliseWord(f, x);
    ghost var M, e := ix, m;
    ExponentTop(f, e);
    m := m - Emax(f);
    if m % 2 == 1 { ix := ix + ix; }
    m := m / 2;
    ix := ix + ix;
    StartBits(f, M, e - Emax(f), ix);
    var q;
    ix, q := RootBits(f, ix, Operand(f, M, e - Emax(f)));
    Conclude(f, x, M, e, q, ix);
    if ix != 0 { q := q + q % 2; }
    assert At(Emax(f) - 1 + m, f.mant) == (Emax(f) - 1) * Pow2(f.mant) + m * Pow2(f.mant) by {
      MulDist(Pow2(f.mant), Emax(f) - 1, m);
    }
    r := Word(q / 2 + (Emax(f) - 1) * Pow2(f.mant) + m * Pow2(f.mant));
  }

  lemma ExponentTop(f: Format, e: int)
    requires e < Pow2(f.exp) - 1
    ensures e <= 2 * Emax(f)
  {
    assert Pow2(f.exp) == 2 * Pow2(f.exp - 1);
  }

  /** The doubled mantissa is the operand with the first trial bit's weight taken out. */
  lemma StartBits(f: Format, m: nat, d: int, ix: nat)
    requires IsNormalised(f, m) && ix == (if d % 2 == 1 then 4 * m else 2 * m)
    ensures Pow2(f.mant + 1) <= ix < 4 * Pow2(f.mant + 1)
    ensures Operand(f, m, d) == ix * Pow2(f.mant + 1)
  {
    var b := if d % 2 == 1 then 1 else 0;
    assert Pow2(f.mant + 2) == 2 * Pow2(f.mant + 1) && Pow2(f.mant + 3) == 4 * Pow2(f.mant + 1);
    MulAssoc(m, if b == 1 then 4 else 2, Pow2(f.mant + 1));
  }

  /** The loop's state when bit j is next, or when all bits are done (j == -1). */
  ghost predicate AtBit(f: Format, n: nat, ix: int, s: int, q: int, r: int, j: int) {
    && n < Pow2(2 * f.mant + 4) && -1 <= j <= f.mant + 1 && s == 2 * q
    && if j >= 0 then r == Pow2(j) && Partial(n, ix, s, q, r) else r == 0 && Done(n, ix, q)
  }

  lemma HalfBit(j: nat)
    ensures if j > 0 then Pow2(j) % 2 == 0 && Pow2(j) / 2 == Pow2(j - 1) else Pow2(j) == 1
  {}

  lemma BitStep(f: Format, n: nat, ix: int, s: int, q: int, r: int, j: int)
    requires IsWide(f) && AtBit(f, n, ix, s, q, r, j) && r != 0
    ensures j >= 0 && r > 0 && 0 <= ix < Pow2(WordBits(f) - 1) && s + 2 * r < Pow2(WordBits(f) - 1)
    ensures if s + r <= ix then AtBit(f, n, 2 * (ix - (s + r)), s + 2 * r, q + r, r / 2, j - 1)
            else AtBit(f, n, 2 * ix, s, q, r / 2, j - 1)
  {
    hide Partial, Done, IsWide, WordBits;
    Pow2Mono(j, f.mant + 1);
    FitsWord(f, n, ix, s, q, r);
    if j > 0 {
      HalfBit(j);
      NextBit(n, ix, s, q, r);
    } else {
      LastBit(n, ix, s, q, r);
    }
  }

  /** Every intermediate value fits the signed word. */
  lemma FitsWord(f: Format, n: nat, ix: int, s: int, q: int, r: int)
    requires IsWide(f) && Partial(n, ix, s, q, r) && r <= Pow2(f.mant + 1) && n < Pow2(2 * f.mant + 4)
    ensures 0 <= ix < Pow2(WordBits(f) - 1) && s + 2 * r < Pow2(WordBits(f) - 1)
  {
    TryBit(n, ix, s, q, r);
    RootBelow(n, q, f.mant + 2);
    WideExponent(f);
    var P := Pow2(f.mant + 1);
    SmallWord(f, P);
    assert ix < 16 * P && s + 2 * r < 16 * P;
  }

  /** The last doubling of the remainder does not overflow either. */
  lemma DoneFits(f: Format, n: nat, ix: int, q: int)
    requires IsWide(f) && Done(n, ix, q) && n < Pow2(2 * f.mant + 4)
    ensures 0 <= ix < Pow2(WordBits(f) - 1) && 2 * q < Pow2(WordBits(f) - 1)
  {
    RootBelow(n, q, f.mant + 2);
    WideExponent(f);
    SmallWord(f, Pow2(f.mant + 1));
  }

  /** What the loop holds fits the signed word before, between and after all turns. */
  ghost predicate InWord(f: Format, ix: int, s: int, q: int, r: int) {
    var M := Pow2(WordBits(f) - 1);
    0 <= ix < M && 0 <= q < M && 0 <= s && s + 2 * r < M
  }

  lemma StateFits(f: Format, n: nat, ix: int, s: int, q: int, r: int, j: int)
    requires IsWide(f) && AtBit(f, n, ix, s, q, r, j)
    ensures InWord(f, ix, s, q, r)
  {
    hide Pow2, WordBits, IsWide;
    if j >= 0 {
      Pow2Mono(j, f.mant + 1);
      FitsWord(f, n, ix, s, q, r);
    } else {
      DoneFits(f, n, ix, q);
    }
  }

  lemma SmallWord(f: Format, P: nat)
    requires 5 <= f.exp && P == Pow2(f.mant + 1)
    ensures Pow2(f.mant + 2) == 2 * P && 16 * P <= Pow2(WordBits(f) - 1)
  {
    assert Pow2(f.mant + 3) == 4 * P;
    assert Pow2(f.mant + 4) == 8 * P;
    assert Pow2(f.mant + 5) == 16 * P;
    Pow2Mono(f.mant + 5, WordBits(f) - 1);
  }

  lemma RootBelow(n: nat, q: int, p: nat)
    requires 0 <= q && q * q <= n < Pow2(2 * p)
    ensures q < Pow2(p)
  {
    Pow2Add(p, p);
    assert p + p == 2 * p;
    if Pow2(p) <= q { if Pow2(p) < q { SquareMono(Pow2(p), q); } }
  }

  lemma WideExponent(f: Format)
    requires IsWide(f)
    ensures 5 <= f.exp
  {
    if f.exp <= 4 { Pow2Mono(f.exp - 1, 3); }
  }

  lemma OperandBound(f: Format, start: nat)
    requires start < 4 * Pow2(f.mant + 1)
    ensures 0 <= start * Pow2(f.mant + 1) < Pow2(2 * f.mant + 4)
  {
    assert Pow2(f.mant + 2) == 2 * Pow2(f.mant + 1) && Pow2(f.mant + 3) == 4 * Pow2(f.mant + 1);
    Pow2Add(f.mant + 3, f.mant + 1);
    assert f.mant + 3 + (f.mant + 1) == 2 * f.mant + 4;
    MulMono(start, Pow2(f.mant + 3), Pow2(f.mant + 1));
    MulMono(0, start, Pow2(f.mant + 1));
  }

  /** The bit loop of sqrtf. */
  method RootBits(f: Format, start: nat, ghost n: nat) returns (ix: int, q: nat)
    requires IsWide(f) && Pow2(f.mant + 1) <= start < 4 * Pow2(f.mant + 1) && n == start * Pow2(f.mant + 1)
    ensures Done(n, ix, q) && InWord(f, ix, 2 * q, q, 0)
  {
    var s, r, t;
    ix, q, s, r := start, 0, 0, Pow2(f.mant + 1);
    FirstBit(start, r);
    OperandBound(f, start);
    ghost var j: int := f.mant + 1;
    StateFits(f, n, ix, s, q, r, j);
    while r != 0
      invariant AtBit(f, n, ix, s, q, r, j) && InWord(f, ix, s, q, r)
      decreases j
    {
      BitStep(f, n, ix, s, q, r, j);
      t := s + r;
      if t <= ix {
        s, ix, q := t + r, ix - t, q + r;
      }
      ix, r, j := ix + ix, r / 2, j - 1;
      StateFits(f, n, ix, s, q, r, j);
    }
  }
}
