/**
 The sum inside fma: the product and the addend brought to one exponent in two words each, with a sticky bit for what
 does not fit, then added or subtracted, and the top bits of the result taken.
 */
module FmaSum {
  import opened PowerOfTwo
  import opened Ieee
  import opened Rounding
  import opened Floats
  import opened Words
  import opened Sticky
  import opened FmaParts

  /**
   In units of u, r stands for the product ap and z for the addend az: both exactly; or the smaller one by a sticky
   approximation and the other exactly and even; or, the product being far below the addend, by the single unit 1.
   */
  ghost predicate Aligned(f: Format, ap: int, az: int, r: nat, z: nat, u: nat) {
    || (ap == r * u && az == z * u)
    || (az == z * u && z % 2 == 0 && Near(ap, r, u) && r + Pow2(f.mant + 3) <= z)
    || (ap == r * u && r % 2 == 0 && Near(az, z, u) && z + Pow2(f.mant + 3) <= r)
    || (az == z * u && r == 1 && 0 < ap < Pow2(f.mant) * u && z % Pow2(f.mant) == 0 && Pow2(2 * f.mant + 3) <= z)
  }

  /** The number held in two words. */
  function Join(f: Format, hi: nat, lo: nat): nat { At(hi, WordBits(f)) + lo }

  // Shifts that keep a sticky bit.

  lemma LostBits(a: nat, d: nat, w: nat)
    requires 0 < d < w
    ensures Shl(a, w - d, w) == (a % Pow2(d)) * Pow2(w - d)
    ensures Shl(a, w - d, w) != 0 <==> a % Pow2(d) != 0
  {
    var D, K, B := Pow2(d), Pow2(w - d), Pow2(w);
    Pow2Add(d, w - d);
    DivModScale(a, D, K);
    if a % D != 0 { MulMono(1, a % D, K); }
  }

  /** Shifting two words right by less than a word, or-ing in what falls off the end. */
  lemma StickyTwoWords(hi: nat, lo: nat, d: nat, w: nat)
    requires 0 < d < w && lo < Pow2(w)
    ensures var l := OrBit(Shl(hi, w - d, w) + Shr(lo, d), Shl(lo, w - d, w) != 0);
      && l < Pow2(w)
      && At(Shr(hi, d), w) + l == StickyShift(At(hi, w) + lo, d)
  {
    Pow2Add(d, w - d);
    assert Shl(hi, w - d, w) == (hi % Pow2(d)) * Pow2(w - d) by { LostBits(hi, d, w); }
    assert Shl(lo, w - d, w) != 0 <==> lo % Pow2(d) != 0 by { LostBits(lo, d, w); }
    assert Pow2(w) == 2 * Pow2(w - 1);
    StickyParts(hi, lo, d, Pow2(w - d), Pow2(w), Shr(hi, d), hi % Pow2(d), Shr(lo, d), lo % Pow2(d));
  }

  lemma StickyParts(hi: nat, lo: nat, d: nat, K: nat, B: nat, h1: nat, h0: nat, l1: nat, l0: nat)
    requires 0 < K && B == Pow2(d) * K && lo < B && B % 2 == 0
    requires h1 == Shr(hi, d) && h0 == hi % Pow2(d) && l1 == Shr(lo, d) && l0 == lo % Pow2(d)
    ensures 0 <= h0 * K + l1 && 0 <= hi * B + lo
    ensures var l := OrBit(h0 * K + l1, l0 != 0);
      l < B && h1 * B + l == StickyShift(hi * B + lo, d)
  {
    hide At, BitLen, IsDoubleWord, IsWide, Join, Mag, Pow2, Round, Shl, WordBits;
    var D := Pow2(d);
    assert hi == h1 * D + h0 && lo == l1 * D + l0;
    TwoWordQuotient(hi, lo, h1, h0, l1, l0, D, K, B);
    MulMono(0, h0, K);
    MulMono(0, hi, B);
    DivModUnique(hi * B + lo, D, h1 * B + (h0 * K + l1), l0);
    ParityOf(h1, h0 * K + l1, B);
  }

  lemma TwoWordQuotient(hi: nat, lo: nat, h1: nat, h0: nat, l1: nat, l0: nat, D: nat, K: nat, B: nat)
    requires 0 < D && 0 < K && B == D * K && lo < B
    requires hi == h1 * D + h0 && h0 < D && lo == l1 * D + l0 && l0 < D
    ensures hi * B + lo == (h1 * B + (h0 * K + l1)) * D + l0
    ensures h0 * K + l1 < B
  {
    MulDist(B, h1 * D, h0);
    MulAssoc(h1, D, B);
    MulAssoc(h1, B, D);
    MulComm(D, B);
    MulAssoc(h0, K, D);
    MulComm(D, K);
    MulDist(D, h1 * B, h0 * K + l1);
    MulDist(D, h0 * K, l1);
    if K <= l1 { MulMono(K, l1, D); }
    MulMono(h0 + 1, D, K);
    MulDist(K, h0, 1);
  }

  lemma ParityOf(h: nat, l: nat, B: nat)
    requires l < B && B % 2 == 0
    ensures (h * B + l) % 2 == l % 2
    ensures l % 2 == 0 ==> l + 1 < B
  {
    assert h * B == 2 * (h * (B / 2));
  }

  // Alignment.

  /** A product of two mantissas, in two words. */
  ghost predicate IsProduct(f: Format, hi: nat, lo: nat) {
    lo < Pow2(WordBits(f)) && ProductSize(f, Join(f, hi, lo))
  }

  ghost predicate ProductSize(f: Format, P: nat) {
    Pow2(2 * f.mant + 2) <= P < Pow2(2 * f.mant + 4) && P % 2 == 0
  }

  ghost predicate IsMantissa(f: Format, m: nat) {
    Pow2(f.mant + 1) <= m < Pow2(f.mant + 2) && m % 2 == 0
  }

  /** Two words of which the sum of two such numbers still leaves the top two bits clear. */
  ghost predicate Fits(f: Format, hi: nat, lo: nat) {
    lo < Pow2(WordBits(f)) && Join(f, hi, lo) < Pow2(2 * WordBits(f) - 3)
  }

  /**
   Brings r (the product, exponent e0) and z (the addend's mantissa, exponent ez) to the exponent e. The ghost o shifts
   all exponents into the naturals.
   */
  method Align(f: Format, phi: nat, plo: nat, mz: nat, e0: int, ez: int, ghost o: nat)
    returns (rhi: nat, rlo: nat, zhi: nat, zlo: nat, e: int)
    requires IsDoubleWord(f) && IsProduct(f, phi, plo) && IsMantissa(f, mz) && 0 <= e0 + o && 0 <= ez + o
    ensures e0 <= e && Fits(f, rhi, rlo) && Fits(f, zhi, zlo) && (rhi != 0 || zhi != 0)
    ensures Aligned(f, At(Join(f, phi, plo), e0 + o), At(mz, ez + o), Join(f, rhi, rlo), Join(f, zhi, zlo), Pow2(e + o))
  {
    hide WordBits, Pow2, At, OrBit;
    var w := WordBits(f);
    ghost var P := Join(f, phi, plo);
    ProductFits(f, phi, plo);
    rhi, rlo, e := phi, plo, e0;
    var d := ez - e;
    if d > 0 {
      if d < w {
        AlignUp(f, P, mz, e0 + o, d);
        ShiftedFits(f, mz, d);
        zlo, zhi := Shl(mz, d, w), Shr(mz, w - d);
      } else {
        ShiftedFits(f, mz, w);
        zlo, zhi, e, d := 0, mz, ez - w, d - w;
        if d == 0 {
          AlignUp(f, P, mz, e0 + o, w);
        } else if d < w {
          AlignDown(f, P, mz, e0 + o, d);
          StickyFits(f, rhi, rlo, d);
          rlo := OrBit(Shl(rhi, w - d, w) + Shr(rlo, d), Shl(rlo, w - d, w) != 0);
          rhi := Shr(rhi, d);
        } else {
          AlignFar(f, P, mz, e0 + o, d);
          OneFits(f);
          rlo, rhi := 1, 0;
        }
      }
    } else {
      zhi, d := 0, -d;
      if d == 0 {
        zlo := mz;
      } else if d < w {
        LostBits(mz, d, w);
        StickyIsNear(mz, d);
        zlo := OrBit(Shr(mz, d), Shl(mz, w - d, w) != 0);
      } else {
        zlo := 1;
      }
      AlignAddend(f, P, mz, ez + o, d, zlo);
      SmallFits(f, zlo);
    }
  }

  lemma AlignUp(f: Format, P: nat, mz: nat, s: nat, d: nat)
    ensures Aligned(f, At(P, s), At(mz, s + d), P, At(mz, d), Pow2(s))
  {
    Pow2Add(d, s);
    assert d + s == s + d;
    MulAssoc(mz, Pow2(d), Pow2(s));
  }

  lemma ProductFits(f: Format, phi: nat, plo: nat)
    requires IsDoubleWord(f) && IsProduct(f, phi, plo)
    ensures Fits(f, phi, plo) && phi != 0
  {
    Pow2Mono(WordBits(f), 2 * f.mant + 2);
    Pow2Mono(2 * f.mant + 4, 2 * WordBits(f) - 3);
  }

  /** The mantissa shifted left by at most a word, in two words. */
  lemma ShiftedFits(f: Format, mz: nat, d: nat)
    requires IsDoubleWord(f) && IsMantissa(f, mz) && d <= WordBits(f)
    ensures var w := WordBits(f);
      if d == w then Fits(f, mz, 0) && Join(f, mz, 0) == At(mz, w)
      else Fits(f, Shr(mz, w - d), Shl(mz, d, w)) && Join(f, Shr(mz, w - d), Shl(mz, d, w)) == At(mz, d)
  {
    hide BitLen, IsWide, Mag, Pow2, Round, Shl, Shr;
    var w := WordBits(f);
    Pow2Add(f.mant + 2, d);
    MulMono(mz, Pow2(f.mant + 2), Pow2(d));
    Pow2Mono(f.mant + 2 + d, 2 * w - 3);
    Pow2Mono(f.mant + 2, w);
    if d < w { WordsShift(mz, d, w); }
  }

  lemma StickyFits(f: Format, hi: nat, lo: nat, d: nat)
    requires IsDoubleWord(f) && IsProduct(f, hi, lo) && 0 < d < WordBits(f)
    ensures var w := WordBits(f); var l := OrBit(Shl(hi, w - d, w) + Shr(lo, d), Shl(lo, w - d, w) != 0);
      Fits(f, Shr(hi, d), l) && Join(f, Shr(hi, d), l) == StickyShift(Join(f, hi, lo), d)
  {
    hide At, BitLen, IsWide, Mag, OrBit, Round, Shl, Shr, StickyShift;
    var w := WordBits(f);
    StickyTwoWords(hi, lo, d, w);
    StickySmaller(Join(f, hi, lo), d);
    Pow2Mono(2 * f.mant + 5, 2 * w - 3);
    assert Pow2(2 * f.mant + 5) == 2 * Pow2(2 * f.mant + 4);
  }

  lemma OneFits(f: Format)
    requires IsDoubleWord(f)
    ensures Fits(f, 0, 1) && Join(f, 0, 1) == 1
  {
    Pow2Mono(1, WordBits(f));
    Pow2Mono(1, 2 * WordBits(f) - 3);
  }

  lemma SmallFits(f: Format, z: nat)
    requires IsDoubleWord(f) && z < Pow2(f.mant + 2)
    ensures Fits(f, 0, z) && Join(f, 0, z) == z
  {
    Pow2Mono(f.mant + 2, WordBits(f));
    Pow2Mono(f.mant + 2, 2 * WordBits(f) - 3);
  }

  /** The addend a whole word up is even and dwarfs the product. */
  lemma HighAddend(f: Format, mz: nat)
    requires IsDoubleWord(f) && IsMantissa(f, mz)
    ensures var Z := At(mz, WordBits(f));
      && Z % Pow2(f.mant) == 0 && Z % 2 == 0 && Pow2(2 * f.mant + 4) + 1 + Pow2(f.mant + 3) <= Z
  {
    hide IsWide;
    var w := WordBits(f);
    Divides(mz, w, f.mant);
    var one := w - w + 1;
    Divides(mz, w, one);
    assert Pow2(one) == 2 * Pow2(one - 1);
    Pow2Add(f.mant + 1, w);
    MulMono(Pow2(f.mant + 1), mz, Pow2(w));
    Pow2Mono(f.mant + 3, 2 * f.mant + 4);
    Pow2Mono(2 * f.mant + 6, f.mant + 1 + w);
    assert Pow2(2 * f.mant + 6) == 2 * Pow2(2 * f.mant + 5) && Pow2(2 * f.mant + 5) == 2 * Pow2(2 * f.mant + 4);
    assert Pow2(f.mant + 3) > 0;
  }

  lemma AlignDown(f: Format, P: nat, mz: nat, s: nat, d: nat)
    requires IsDoubleWord(f) && ProductSize(f, P) && IsMantissa(f, mz) && 0 < d
    ensures var w := WordBits(f);
      Aligned(f, At(P, s), At(mz, s + d + w), StickyShift(P, d), At(mz, w), Pow2(s + d))
  {
    StickyIsNear(P, d);
    NearScale(P, StickyShift(P, d), d, s);
    StickySmaller(P, d);
    HighAddend(f, mz);
    WordUp(f, mz, s + d);
  }

  lemma WordUp(f: Format, mz: nat, s: nat)
    ensures At(mz, s + WordBits(f)) == At(mz, WordBits(f)) * Pow2(s)
  {
    Pow2Add(WordBits(f), s);
    assert WordBits(f) + s == s + WordBits(f);
    MulAssoc(mz, Pow2(WordBits(f)), Pow2(s));
  }

  lemma StickySmaller(a: nat, d: nat)
    ensures StickyShift(a, d) <= a + 1
  {
    var u := Pow2(d);
    QuotientBounds(a, u);
    MulMono(1, u, a / u);
  }

  lemma NearScale(a: nat, v: nat, d: nat, s: nat)
    requires Near(a, v, Pow2(d))
    ensures Near(a * Pow2(s), v, Pow2(s + d))
  {
    var u, t := Pow2(d), Pow2(s);
    Pow2Add(d, s);
    assert d + s == s + d;
    MulAssoc(v, u, t);
    MulAssoc(v - 1, u, t);
    MulAssoc(v + 1, u, t);
    if a != v * u {
      MulMono((v - 1) * u, a, t);
      MulMono(a, (v + 1) * u, t);
    }
  }

  lemma AlignFar(f: Format, P: nat, mz: nat, s: nat, d: nat)
    requires IsDoubleWord(f) && ProductSize(f, P) && IsMantissa(f, mz) && WordBits(f) <= d
    ensures var w := WordBits(f);
      Aligned(f, At(P, s), At(mz, s + d + w), 1, At(mz, w), Pow2(s + d))
  {
    HighAddend(f, mz);
    WordUp(f, mz, s + d);
    FarBound(f, P, s, d);
    assert Pow2(2 * f.mant + 4) == 2 * Pow2(2 * f.mant + 3);
  }

  lemma FarBound(f: Format, P: nat, s: nat, d: nat)
    requires 0 < P < Pow2(2 * f.mant + 4) && f.mant + 4 <= d
    ensures 0 < P * Pow2(s) < Pow2(f.mant) * Pow2(s + d)
  {
    Pow2Add(2 * f.mant + 4, s);
    Pow2Add(f.mant, s + d);
    Pow2Mono(2 * f.mant + 4 + s, f.mant + (s + d));
    MulMono(P, Pow2(2 * f.mant + 4), Pow2(s));
    MulMono(1, P, Pow2(s));
  }

  /** The addend shifted down by d, sticky; nothing but the sticky bit from a word on. */
  lemma AlignAddend(f: Format, P: nat, mz: nat, s: nat, d: nat, z: nat)
    requires IsDoubleWord(f) && ProductSize(f, P) && IsMantissa(f, mz)
    requires
      if d == 0 then z == mz
      else if d < WordBits(f) then z == StickyShift(mz, d) && Near(mz, z, Pow2(d))
      else z == 1
    ensures z < Pow2(f.mant + 2)
    ensures Aligned(f, At(P, s + d), At(mz, s), P, z, Pow2(s + d))
  {
    if d != 0 {
      if d >= WordBits(f) {
        Pow2Mono(f.mant + 2, d);
        assert Near(mz, z, Pow2(d));
      }
      NearScale(mz, z, d, s);
      AddendSmall(f, mz, d, z);
      Pow2Mono(f.mant + 4, 2 * f.mant + 2);
    }
  }

  lemma AddendSmall(f: Format, mz: nat, d: nat, z: nat)
    requires 0 < d && mz < Pow2(f.mant + 2) && (z == StickyShift(mz, d) || z == 1)
    ensures z < Pow2(f.mant + 2) && z + Pow2(f.mant + 3) <= Pow2(f.mant + 4)
  {
    Pow2Mono(1, d);
    QuotientBounds(mz, Pow2(d));
    MulMono(2, Pow2(d), mz / Pow2(d));
    Pow2Mono(2, f.mant + 2);
    assert Pow2(2) == 4;
    assert Pow2(f.mant + 4) == 2 * Pow2(f.mant + 3) && Pow2(f.mant + 3) == 2 * Pow2(f.mant + 2);
  }

  // Addition and subtraction.

  method AddWords(f: Format, rhi: nat, rlo: nat, zhi: nat, zlo: nat) returns (hi: nat, lo: nat)
    requires IsDoubleWord(f) && Fits(f, rhi, rlo) && Fits(f, zhi, zlo)
    ensures lo < Pow2(WordBits(f))
    ensures Join(f, hi, lo) == Join(f, rhi, rlo) + Join(f, zhi, zlo) < Pow2(2 * WordBits(f) - 2)
    ensures rhi != 0 || zhi != 0 ==> hi != 0
  {
    var B := Pow2(WordBits(f));
    assert Pow2(2 * WordBits(f) - 2) == 2 * Pow2(2 * WordBits(f) - 3);
    lo := (rlo + zlo) % B;
    AddCarry(rhi, rlo, zhi, zlo, B);
    var c := if lo < zlo then 1 else 0;
    HighWord(f, rhi + zhi + c, lo);
    hi := (rhi + zhi + c) % B;
  }

  lemma AddCarry(a1: nat, a0: nat, b1: nat, b0: nat, B: nat)
    requires a0 < B && b0 < B
    ensures var l := (a0 + b0) % B;
      0 <= l < B && (a1 + b1 + (if l < b0 then 1 else 0)) * B + l == (a1 * B + a0) + (b1 * B + b0)
  {
    if a0 + b0 < B { DivModUnique(a0 + b0, B, 0, a0 + b0); } else { DivModUnique(a0 + b0, B, 1, a0 + b0 - B); }
    MulDist(B, a1, b1);
    MulDist(B, a1 + b1, 1);
  }

  lemma HighWord(f: Format, h: nat, l: nat)
    requires IsDoubleWord(f) && Join(f, h, l) < Pow2(2 * WordBits(f) - 2)
    ensures h < Pow2(WordBits(f) - 2) && h % Pow2(WordBits(f)) == h
  {
    var w := WordBits(f);
    Pow2Add(w - 2, w);
    assert w - 2 + w == 2 * w - 2;
    MulCancelLt(h, Pow2(w - 2), Pow2(w));
    Pow2Mono(w - 2, w);
    DivModUnique(h, Pow2(w), 0, h);
  }

  /** The difference, negated when its top bit says it is negative. */
  method SubWords(f: Format, rhi: nat, rlo: nat, zhi: nat, zlo: nat) returns (hi: nat, lo: nat, flip: bool)
    requires IsDoubleWord(f) && Fits(f, rhi, rlo) && Fits(f, zhi, zlo)
    ensures lo < Pow2(WordBits(f)) && flip == (Join(f, rhi, rlo) < Join(f, zhi, zlo))
    ensures Join(f, hi, lo) ==
      if flip then Join(f, zhi, zlo) - Join(f, rhi, rlo) else Join(f, rhi, rlo) - Join(f, zhi, zlo)
    ensures Join(f, hi, lo) < Pow2(2 * WordBits(f) - 2)
  {
    hide Pow2, IsDoubleWord, IsWide;
    var B, top := Pow2(WordBits(f)), Pow2(WordBits(f) - 1);
    HighPart(f, rhi, rlo);
    HighPart(f, zhi, zlo);
    NextPower(WordBits(f) - 1);
    NextPower(2 * WordBits(f) - 3);
    var t: int := rlo;
    var l: int := (rlo as int - zlo) % B;
    var b: int := if t < l then 1 else 0;
    ghost var h: int := rhi as int - zhi - b;
    var u: int := (rhi as int - zhi - b) % B;
    Borrow(rhi, rlo, zhi, zlo, B);
    assert B == 2 * top;
    SignedHigh(h, l, top, B);
    flip := u / top != 0;
    if flip {
      NegateWords(h, l, B);
      l := (0 - l) % B;
      u := (0 - u - (if l != 0 then 1 else 0)) % B;
    }
    hi, lo := u, l;
  }

  lemma HighPart(f: Format, h: nat, l: nat)
    requires IsDoubleWord(f) && Fits(f, h, l)
    ensures h < Pow2(WordBits(f) - 2) && Pow2(WordBits(f) - 1) == 2 * Pow2(WordBits(f) - 2)
  {
    Pow2Mono(2 * WordBits(f) - 3, 2 * WordBits(f) - 2);
    HighWord(f, h, l);
  }

  lemma Borrow(a1: int, a0: int, b1: int, b0: int, B: int)
    requires 0 <= a0 < B && 0 <= b0 < B
    ensures var l := (a0 - b0) % B;
      0 <= l < B && (a1 - b1 - (if a0 < l then 1 else 0)) * B + l == (a1 * B + a0) - (b1 * B + b0)
  {
    if a0 < b0 { DivModUnique(a0 - b0, B, -1, a0 - b0 + B); } else { DivModUnique(a0 - b0, B, 0, a0 - b0); }
    MulDist(B, a1, b1);
    MulDist(B, a1 - b1, 1);
  }

  lemma SignedHigh(h: int, l: int, top: int, B: int)
    requires B == 2 * top && 0 < top && -top <= h < top && 0 <= l < B
    ensures (h % B) / top != 0 <==> h < 0
    ensures h < 0 <==> h * B + l < 0
    ensures 0 <= h % B && (h >= 0 ==> h % B == h)
  {
    if h >= 0 {
      DivModUnique(h, B, 0, h);
      DivModUnique(h, top, 0, h);
      MulMono(0, h, B);
    } else {
      DivModUnique(h, B, -1, h + B);
      DivModUnique(h + B, top, 1, h + B - top);
      MulMono(h, -1, B);
    }
  }

  lemma NegateWords(h: int, l: int, B: int)
    requires 0 < B && -B < h < 0 && 0 <= l < B
    ensures var m := (0 - l) % B;
      0 <= m < B && 0 <= (0 - h % B - (if m != 0 then 1 else 0)) % B
      && ((0 - h % B - (if m != 0 then 1 else 0)) % B) * B + m == -(h * B + l)
  {
    DivModUnique(h, B, -1, h + B);
    if l == 0 {
      DivModUnique(0, B, 0, 0);
      DivModUnique(0 - (h + B), B, -1, -h);
      MulDist(B, 0, h);
    } else {
      DivModUnique(0 - l, B, -1, B - l);
      DivModUnique(0 - (h + B) - 1, B, -1, -h - 1);
      MulDist(B, 0 - h, 1);
      MulDist(B, 0, h);
    }
  }

  /** Added, the aligned numbers round like the exact sum. */
  lemma SumRounds(f: Format, ap: nat, az: nat, r: nat, z: nat, s: nat, k: nat)
    requires Aligned(f, ap, az, r, z, Pow2(s))
    ensures Round(f, ap + az, k) == Round(f, At(r + z, s), k)
  {
    hide Pow2, Round, Near;
    if ap == r * Pow2(s) && az == z * Pow2(s) {
      MulDist(Pow2(s), r, z);
    } else if az == z * Pow2(s) && z % 2 == 0 && Near(ap, r, Pow2(s)) && r + Pow2(f.mant + 3) <= z {
      NearSum(f, az, z, ap, r, s, k);
    } else if ap == r * Pow2(s) && r % 2 == 0 && Near(az, z, Pow2(s)) && z + Pow2(f.mant + 3) <= r {
      NearSum(f, ap, r, az, z, s, k);
    } else {
      FarRound(f, az, z, ap, Pow2(s), s, k);
    }
  }

  lemma NearSum(f: Format, b: nat, c: nat, a: nat, v: nat, s: nat, k: nat)
    requires b == c * Pow2(s) && c % 2 == 0 && Near(a, v, Pow2(s)) && v + Pow2(f.mant + 3) <= c
    ensures Round(f, a + b, k) == Round(f, At(v + c, s), k)
  {
    hide Pow2, Round, Near;
    NearPlus(a, v, c, Pow2(s));
    Spare(f);
    NearRound(f, a + b, v + c, s, k);
  }

  lemma Spare(f: Format)
    ensures 2 * Pow2(f.mant + 1) < Pow2(f.mant + 3)
  {
    assert Pow2(f.mant + 3) == 2 * Pow2(f.mant + 2) && Pow2(f.mant + 2) == 2 * Pow2(f.mant + 1);
  }

  lemma NearPlus(a: int, v: int, c: int, u: int)
    requires Near(a, v, u) && c % 2 == 0
    ensures Near(a + c * u, v + c, u) && Near(c * u - a, c - v, u)
  {
    MulDist(u, v, c);
    MulDist(u, v - 1, c);
    MulDist(u, v + 1, c);
    MulDist(u, c, v);
    MulDist(u, c, v + 1);
    MulDist(u, c, v - 1);
    assert v - 1 + c == v + c - 1 && v + 1 + c == v + c + 1;
    assert c - (v + 1) == c - v - 1 && c - (v - 1) == c - v + 1;
  }

  /** A far smaller number may be replaced by a single unit, on either side. */
  lemma FarRound(f: Format, az: nat, z: nat, x: nat, u: nat, s: nat, k: nat)
    requires u == Pow2(s) && az == z * u && 0 < x < Pow2(f.mant) * u
    requires z % Pow2(f.mant) == 0 && Pow2(2 * f.mant + 3) <= z
    ensures Round(f, az + x, k) == Round(f, At(z + 1, s), k)
    ensures x < az && Round(f, az - x, k) == Round(f, At(z - 1, s), k)
  {
    hide BitLen, IsDoubleWord, IsWide, Join, Mag, Pow2, Round, Shl, Shr, WordBits;
    var q := z / Pow2(f.mant);
    ExactQuotient(z, Pow2(f.mant));
    FarSize(f, z, q);
    var t := f.mant + s;
    assert Pow2(t) == Pow2(f.mant) * u by { Pow2Add(f.mant, s); }
    Pow2Mono(1, f.mant);
    FarCells(az, z, q, x, Pow2(f.mant), u, Pow2(t));
    CellRound(f, az + x, At(z + 1, s), k, t, q);
    CellRound(f, az - x, At(z - 1, s), k, t, q - 1);
  }

  lemma FarCells(az: int, z: int, q: int, x: int, g: int, u: int, c: int)
    requires 2 <= g && 0 < u && c == g * u && z == q * g && az == z * u && 0 < x < c && 1 <= q
    ensures az == q * c && (q - 1) * c == az - c && (q + 1) * c == az + c && c <= az
    ensures (z + 1) * u == az + u && (z - 1) * u == az - u && u < c
  {
    MulAssoc(q, g, u);
    MulDist(c, q, 1);
    MulDist(u, z, 1);
    MulMono(2, g, u);
    MulMono(1, q, c);
  }

  lemma FarSize(f: Format, z: nat, q: nat)
    requires z == q * Pow2(f.mant) && Pow2(2 * f.mant + 3) <= z
    ensures Pow2(f.mant + 1) + 1 <= q
  {
    Pow2Add(f.mant + 3, f.mant);
    assert f.mant + 3 + f.mant == 2 * f.mant + 3;
    MulCancelLe(Pow2(f.mant + 3), q, Pow2(f.mant));
    Spare(f);
  }

  /** Subtracted, they have the sign of the exact difference and round like it. */
  lemma DifferenceRounds(f: Format, ap: nat, az: nat, r: nat, z: nat, s: nat, k: nat)
    requires Aligned(f, ap, az, r, z, Pow2(s))
    ensures ap < az <==> r < z
    ensures ap == az <==> r == z
    ensures ap <= az ==> Round(f, az - ap, k) == Round(f, At(z - r, s), k)
    ensures az <= ap ==> Round(f, ap - az, k) == Round(f, At(r - z, s), k)
  {
    hide At, BitLen, IsDoubleWord, IsWide, Join, Mag, Near, Pow2, Round, Shl, Shr, WordBits;
    if ap == r * Pow2(s) && az == z * Pow2(s) {
      ExactDifference(f, ap, az, r, z, s, k);
    } else if az == z * Pow2(s) && z % 2 == 0 && Near(ap, r, Pow2(s)) && r + Pow2(f.mant + 3) <= z {
      NearDifference(f, az, z, ap, r, s, k);
    } else if ap == r * Pow2(s) && r % 2 == 0 && Near(az, z, Pow2(s)) && z + Pow2(f.mant + 3) <= r {
      NearDifference(f, ap, r, az, z, s, k);
    } else {
      Pow2Mono(1, 2 * f.mant + 3);
      FarRound(f, az, z, ap, Pow2(s), s, k);
    }
  }

  lemma ExactDifference(f: Format, ap: nat, az: nat, r: nat, z: nat, s: nat, k: nat)
    requires ap == r * Pow2(s) && az == z * Pow2(s)
    ensures (ap < az <==> r < z) && (ap == az <==> r == z)
    ensures ap <= az ==> az - ap == At(z - r, s)
    ensures az <= ap ==> ap - az == At(r - z, s)
  {
    var u := Pow2(s);
    if r < z { MulMono(r, z, u); }
    if z < r { MulMono(z, r, u); }
    MulDist(u, r, z);
    MulDist(u, z, r);
  }

  lemma NearDifference(f: Format, b: nat, c: nat, a: nat, v: nat, s: nat, k: nat)
    requires b == c * Pow2(s) && c % 2 == 0 && Near(a, v, Pow2(s)) && v + Pow2(f.mant + 3) <= c
    ensures a < b && v < c && Round(f, b - a, k) == Round(f, At(c - v, s), k)
  {
    hide Pow2, Round, Near;
    NearPlus(a, v, c, Pow2(s));
    Spare(f);
    Positive(b - a, c - v, Pow2(s));
    NearRound(f, b - a, c - v, s, k);
  }

  lemma Positive(a: int, v: int, u: int)
    requires 0 < u && Near(a, v, u) && 1 <= v
    ensures 0 < a
  {
    MulMono(0, v - 1, u);
    MulMono(1, v, u);
  }
}