/** The shift-and-subtract remainder of fmod (binary64) and fmodf (binary32): one loop nest at two widths. */
module Fmod {
  import opened PowerOfTwo
  import opened Ieee

  /** A word-sized subtraction has a clear top bit exactly when it did not borrow. */
  lemma NoBorrow(f: Format, m: nat, n: nat)
    requires m < Pow2(f.mant + 2) && n < Pow2(f.mant + 2)
    ensures var i := (m - n) % Pow2(WordBits(f));
      && (i / Pow2(WordBits(f) - 1) == 0 <==> n <= m)
      && (n <= m ==> i == m - n)
  {
    var top, W := Pow2(WordBits(f) - 1), Pow2(WordBits(f));
    assert W == 2 * top;
    Pow2Mono(f.mant + 2, WordBits(f) - 1);
    if n <= m {
      DivModUnique(m - n, W, 0, m - n);
      DivModUnique(m - n, top, 0, m - n);
    } else {
      DivModUnique(m - n, W, -1, m - n + W);
      DivModUnique(m - n + W, top, 1, m - n + top);
    }
  }

  /** Taking the aligned divisor off the running value leaves the remainder unchanged. */
  lemma Subtract(v: nat, m: nat, y: nat, n: nat, e: int, ey: int) returns (v': nat)
    requires 0 < y && 0 < n <= m && ey <= e
    requires Scaled(v, m, e) && Scaled(y, n, ey)
    ensures v == v' + Pow2(e - ey) * y
    ensures Scaled(v', m - n, e) && v' % y == v % y
    ensures v' == 0 <==> m == n
  {
    ScaledShift(y, n, ey, e - ey);
    var w := y * Pow2(e - ey);
    ScaledOrder(v, m, w, n, e);
    ScaledSub(v, m, w, n, e);
    v' := v - w;
    ModShift(v', y, Pow2(e - ey));
  }

  method Fmod(f: Format, x: nat, y: nat) returns (r: Outcome)
    requires IsWord(f, x) && IsWord(f, y)
    ensures r.NaN? <==> Mag(f, y) == 0 || IsNaN(f, y) || !IsFinite(f, x)
    ensures r.Word? ==> IsWord(f, r.bits) && Sign(f, r.bits) == Sign(f, x)
    ensures r.Word? ==> Mag(f, r.bits) == Mag(f, x) % Mag(f, y)
  {
    var W, H := Pow2(WordBits(f)), Pow2(f.exp + f.mant);
    Compare(f, x, y);
    if (2 * y) % W == 0 || IsNaN(f, y) || !IsFinite(f, x) {
      return NaN;
    }
    ghost var X, Y := Mag(f, x), Mag(f, y);
    if (2 * x) % W <= (2 * y) % W {
      if (2 * x) % W == (2 * y) % W {
        ModMultiple(1, Y);
        SignedZero(f, x);
        return Word(Sign(f, x) * H);
      }
      DivModUnique(X, Y, 0, X);
      return Word(x);
    }
    var ux, ex := Normalise(f, x);
    var uy, ey := Normalise(f, y);
    ExponentOrder(f, X, ux, ex, Y, uy, ey);
    ghost var V;
    ux, V := Reduce(f, ux, ex, uy, ey, X, Y);
    if ux == 0 {
      SignedZero(f, x);
      return Word(Sign(f, x) * H);
    }
    r := Assemble(f, x, ux, ey, V);
  }

  /** Renormalises the remainder's mantissa, packs it and puts the sign of x back. */
  method Assemble(f: Format, x: nat, m: nat, e: int, ghost V: nat) returns (r: Outcome)
    requires IsWord(f, x) && 0 < m < Pow2(f.mant + 1) && Scaled(V, m, e) && e < Pow2(f.exp)
    ensures r.Word? && IsWord(f, r.bits) && Sign(f, r.bits) == Sign(f, x) && Mag(f, r.bits) == V
  {
    var ux, ex := Renormalise(f, m, e, V);
    Fields(f, x);
    PackMag(f, V, ux, ex);
    WithSign(f, Sign(f, x), Pack(f, ux, ex));
    r := Word(Sign(f, x) * Pow2(f.exp + f.mant) + Pack(f, ux, ex));
  }

  /**
   The subtraction loop and the last subtraction after it; the result is the remainder's mantissa at exponent ey,
   0 for none.
   */
  method Reduce(f: Format, m: nat, e: int, uy: nat, ey: int, ghost X: nat, ghost Y: nat) returns (ux: nat, ghost V: nat)
    requires IsNormalised(f, m) && IsNormalised(f, uy) && ey <= e && 0 < Y
    requires Scaled(X, m, e) && Scaled(Y, uy, ey)
    ensures ux < uy && V == X % Y && Scaled(V, ux, ey)
  {
    var W, top := Pow2(WordBits(f)), Pow2(WordBits(f) - 1);
    assert Pow2(f.mant + 2) == 2 * Pow2(f.mant + 1) && Pow2(f.mant + 1) == 2 * Pow2(f.mant);
    Pow2Mono(f.mant + 2, WordBits(f));
    ux, V := m, X;
    var ex := e;
    while ex > ey
      invariant ey <= ex && ux < 2 * uy
      invariant Scaled(V, ux, ex) && V % Y == X % Y
      decreases ex - ey
    {
      NoBorrow(f, ux, uy);
      var i := (ux - uy) % W;
      if i / top == 0 {
        V := Subtract(V, ux, Y, uy, ex, ey);
        if i == 0 {
          DivModUnique(0, Y, 0, 0);
          ZeroScaled(ey);
          return 0, 0;
        }
        ux := i;
      }
      DivModUnique(2 * ux, W, 0, 2 * ux);
      ScaledDouble(V, ux, ex);
      ux, ex := (2 * ux) % W, ex - 1;
    }
    NoBorrow(f, ux, uy);
    var i := (ux - uy) % W;
    if i / top == 0 {
      V := Subtract(V, ux, Y, uy, ex, ey);
      ux := i;
    }
    ScaledOrder(V, ux, Y, uy, ey);
    DivModUnique(V, Y, 0, V);
  }

  lemma ZeroScaled(e: int)
    ensures Scaled(0, 0, e)
  {}

  /** Shifting the mantissa back up to its top bit keeps the value it stands for. */
  method Renormalise(f: Format, m0: nat, e0: int, ghost v: nat) returns (m: nat, e: int)
    requires 0 < m0 < Pow2(f.mant + 1) && Scaled(v, m0, e0)
    ensures IsNormalised(f, m) && Scaled(v, m, e) && e <= e0
  {
    m, e := m0, e0;
    assert Pow2(f.mant + 1) == 2 * Pow2(f.mant);
    Pow2Mono(f.mant + 1, WordBits(f));
    while m / Pow2(f.mant) == 0
      invariant 0 < m < Pow2(f.mant + 1) && Scaled(v, m, e) && e <= e0
      decreases Pow2(f.mant + 1) - m
    {
      assert m < Pow2(f.mant) by { if m >= Pow2(f.mant) { DivModUnique(m, Pow2(f.mant), 1, m - Pow2(f.mant)); } }
      ScaledDouble(v, m, e);
      DivModUnique(2 * m, Pow2(WordBits(f)), 0, 2 * m);
      m, e := (2 * m) % Pow2(WordBits(f)), e - 1;
    }
    if m < Pow2(f.mant) { DivModUnique(m, Pow2(f.mant), 0, m); }
  }

  /** Shifting the sign out makes word comparison a comparison of magnitudes. */
  lemma Compare(f: Format, x: nat, y: nat)
    requires IsWord(f, x) && IsWord(f, y)
    ensures var dx, dy := (2 * x) % Pow2(WordBits(f)), (2 * y) % Pow2(WordBits(f));
      && (dx <= dy <==> Mag(f, x) <= Mag(f, y))
      && (dx == dy <==> Mag(f, x) == Mag(f, y))
      && (dy == 0 <==> Mag(f, y) == 0)
  {
    Doubled(f, x);
    Doubled(f, y);
    SignedZero(f, x);
    MagInjective(f, Unsigned(f, x), Unsigned(f, y));
    MagInjective(f, Unsigned(f, y), 0);
  }

  lemma Doubled(f: Format, x: nat)
    requires IsWord(f, x)
    ensures (2 * x) % Pow2(WordBits(f)) == 2 * Unsigned(f, x)
    ensures Mag(f, Unsigned(f, x)) == Mag(f, x)
  {
    var W := Pow2(WordBits(f));
    assert W == 2 * Pow2(f.exp + f.mant);
    Fields(f, x);
    assert 2 * x == Sign(f, x) * W + 2 * Unsigned(f, x);
    DivModUnique(2 * x, W, Sign(f, x), 2 * Unsigned(f, x));
    MagUnsigned(f, x);
  }

  /** The zero with the sign of x. */
  lemma SignedZero(f: Format, x: nat)
    requires IsWord(f, x)
    ensures Mag(f, 0) == 0
    ensures var z := Sign(f, x) * Pow2(f.exp + f.mant); IsWord(f, z) && Sign(f, z) == Sign(f, x) && Mag(f, z) == 0
  {
    Fields(f, x);
    DivModUnique(0, Pow2(f.mant), 0, 0);
    DivModUnique(0, Pow2(f.exp), 0, 0);
    WithSign(f, Sign(f, x), 0);
  }

  /** The larger of two normalised values has the larger exponent. */
  lemma ExponentOrder(f: Format, x: nat, m: nat, e: int, y: nat, n: nat, ey: int)
    requires y <= x && Scaled(x, m, e) && Scaled(y, n, ey)
    requires IsNormalised(f, m) && IsNormalised(f, n)
    ensures ey <= e
  {
    if e < ey {
      ScaledShift(x, m, e, ey - e);
      ScaledShift(y, n, ey, 1);
      ScaledDouble(y * Pow2(1), n, ey + 1);
      assert Pow2(f.mant + 1) == 2 * Pow2(f.mant);
      ScaledOrder(x * Pow2(ey - e), m, y * Pow2(1), 2 * n, ey);
      Pow2Mono(1, ey - e);
      MulMono(Pow2(1), Pow2(ey - e), x);
      MulMono(y, x, Pow2(1));
    }
  }
}
