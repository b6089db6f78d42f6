/**
 sqrt: the bit-by-bit root over two machine words. The high word carries the sign bit's word of the double, the low
 word the other half; w is the number of bits of a word and h the number of fraction bits in the high word.
 */
module SqrtWords {
  import opened PowerOfTwo
  import opened Ieee
  import opened Rounding
  import opened Floats
  import opened Words
  import opened SquareRoot

  function LowBits(f: Format): nat { WordBits(f) / 2 }

  /** A double splits into two words, with some fraction bits in the high one. */
  predicate IsTwoWords(f: Format) {
    IsWide(f) && WordBits(f) == 2 * LowBits(f) && LowBits(f) < f.mant
  }

  lemma Binary64IsTwoWords(f: Format)
    requires f == BINARY64
    ensures IsTwoWords(f) && LowBits(f) == 32
  {
    assert Pow2(10) == 1024;
  }

  function HighFraction(f: Format): nat
    requires IsTwoWords(f)
  {
    f.mant - LowBits(f)
  }

  lemma NextMultiple(a: nat, d: nat, B: nat)
    requires 0 < d && a % d == 0 && B % d == 0 && a < B
    ensures a + d <= B && (a + d) % d == 0
  {
    ExactQuotient(a, d);
    ExactQuotient(B, d);
    MulCancelLt(a / d, B / d, d);
    MulMono(a / d + 1, B / d, d);
    MulDist(d, a / d, 1);
    ModMultiple(a / d + 1, d);
  }

  lemma HalfDivides(a: nat, d: nat)
    requires 0 < d && a % (2 * d) == 0
    ensures a % d == 0
  {
    var q := a / (2 * d);
    ExactQuotient(a, 2 * d);
    MulAssoc(q, 2, d);
    ModMultiple(q * 2, d);
  }

  // Normalisation.

  lemma Widths(f: Format)
    requires IsTwoWords(f)
    ensures IsWide(f) && HighFraction(f) + 1 <= LowBits(f) && HighFraction(f) + LowBits(f) == f.mant
    ensures f.exp + f.mant == LowBits(f) - 1 + LowBits(f)
  {}

  lemma Layout(f: Format)
    requires IsTwoWords(f)
    ensures var w, h := LowBits(f), HighFraction(f);
      && Pow2(f.mant) == Pow2(h) * Pow2(w) && Pow2(f.mant + 1) == (2 * Pow2(h)) * Pow2(w)
      && h + 1 <= w && f.exp + f.mant == w - 1 + w && 1 <= w
  {
    Pow2Add(HighFraction(f), LowBits(f));
  }

  /** The word-wise normalisation: the mantissa in two words and its exponent. */
  method NormaliseTwo(f: Format, x: nat) returns (ix0: nat, ix1: nat, m: int)
    requires IsTwoWords(f) && IsWord(f, x) && IsPositive(f, x)
    ensures ix1 < Pow2(LowBits(f)) && IsNormalised(f, ix0 * Pow2(LowBits(f)) + ix1)
    ensures Scaled(Mag(f, x), ix0 * Pow2(LowBits(f)) + ix1, m) && 0 < m + f.mant && m < Pow2(f.exp) - 1
  {
    var w, h := LowBits(f), HighFraction(f);
    var B, P := Pow2(w), Pow2(h);
    Special(f, x);
    Fields(f, x);
    Layout(f);
    DivDiv(x, B, P);
    MulComm(B, P);
    ix0, ix1, m := x / B, x % B, x / B / P;
    if m == 0 {
      ghost var F := Frac(f, x);
      DivModUnique(x, Pow2(f.mant), 0, x);
      ix0, ix1, m := ShiftUp(f, ix0, ix1, F);
      SubnormalShift(f, F, ix0 * B + ix1, 1 - m);
      HighBit(ix0, ix1, B, P);
    } else {
      TopFraction(x, ix0, ix1, B, P);
    }
    ix0 := ix0 % P + P;
  }

  lemma HighBit(ix0: nat, ix1: nat, B: nat, P: nat)
    requires 0 < P && ix1 < B && P <= ix0 < 2 * P
    ensures ix0 % P + P == ix0
  {
    DivModUnique(ix0, P, 1, ix0 - P);
  }

  lemma TopFraction(x: nat, x0: nat, x1: nat, B: nat, P: nat)
    requires 0 < B && 0 < P && 0 < B * P && B * P == P * B && x0 == x / B && x1 == x % B
    ensures (x0 % P + P) * B + x1 == x % (P * B) + P * B
  {
    DivDiv(x, B, P);
    MulDist(B, x0 % P, P);
  }

  /** The two shifting loops for a subnormal. */
  method ShiftUp(f: Format, a0: nat, a1: nat, ghost F: nat) returns (ix0: nat, ix1: nat, m: int)
    requires IsTwoWords(f) && a1 < Pow2(LowBits(f)) && F == a0 * Pow2(LowBits(f)) + a1 && 0 < F < Pow2(f.mant)
    requires a0 < Pow2(HighFraction(f))
    ensures Pow2(HighFraction(f)) <= ix0 < 2 * Pow2(HighFraction(f)) && ix1 < Pow2(LowBits(f))
    ensures m <= 1 && ix0 * Pow2(LowBits(f)) + ix1 == F * Pow2(1 - m)
    ensures Pow2(f.mant) <= ix0 * Pow2(LowBits(f)) + ix1 < Pow2(f.mant + 1)
  {
    var w := LowBits(f);
    ix0, ix1, m := FillHigh(f, a0, a1, F);
    var i;
    ghost var b0 := ix0;
    ix0, i := TopScan(ix0, HighFraction(f));
    Widths(f);
    ghost var c0, c1 := JoinHigh(f, F, b0, ix0, ix1, m, i, w, w - i);
    m := m - i + 1;
    ix0, ix1 := ix0 + Shr(ix1, w - i), Shl(ix1, i, w);
  }

  /** The low word's top bits join the scanned high word. */
  lemma JoinHigh(f: Format, F: nat, b0: nat, a0: nat, a1: nat, m: int, i: nat, w: nat, d: nat)
    returns (c0: nat, c1: nat)
    requires IsTwoWords(f) && m <= 0 && b0 * Pow2(w) + a1 == F * Pow2(0 - m) && a1 < Pow2(w)
    requires w == LowBits(f) && i + d == w && i <= HighFraction(f)
    requires a0 == b0 * Pow2(i) && Pow2(HighFraction(f)) <= a0 < 2 * Pow2(HighFraction(f))
    ensures c0 == a0 + Shr(a1, d) && c1 == Shl(a1, i, w) && c1 < Pow2(w)
    ensures Pow2(HighFraction(f)) <= c0 < 2 * Pow2(HighFraction(f))
    ensures c0 * Pow2(w) + c1 == F * Pow2(1 - (m - (i - 1)))
    ensures Pow2(f.mant) <= c0 * Pow2(w) + c1 < Pow2(f.mant + 1)
  {
    var d0, e1 := Shr(a1, d), Shl(a1, i, w);
    assert 0 <= d0 < Pow2(i) && 0 <= e1 < Pow2(w) && d0 * Pow2(w) + e1 == a1 * Pow2(i) by { WordsShift(a1, i, w); }
    assert a0 + d0 < 2 * Pow2(HighFraction(f)) by { RoomBelow(b0, d0, i, HighFraction(f)); }
    c0, c1 := a0 + d0, e1;
    assert c0 * Pow2(w) + c1 == F * Pow2(1 - (m - (i - 1))) by {
      JoinShift(F, b0, a1, m, i, w);
      MulDist(Pow2(w), a0, d0);
    }
    Layout(f);
    WordRange(c0, c1, Pow2(w), Pow2(HighFraction(f)));
  }

  lemma WordRange(a0: nat, a1: nat, B: nat, P: nat)
    requires a1 < B && P <= a0 < 2 * P
    ensures P * B <= a0 * B + a1 < (2 * P) * B
  {
    MulMono(P, a0, B);
    MulMono(a0 + 1, 2 * P, B);
    MulDist(B, a0, 1);
  }

  /** Whole-word shifts until the high word is not zero. */
  method FillHigh(f: Format, a0: nat, a1: nat, ghost F: nat) returns (ix0: nat, ix1: nat, m: int)
    requires IsTwoWords(f) && a1 < Pow2(LowBits(f)) && F == a0 * Pow2(LowBits(f)) + a1 && 0 < F
    requires a0 < Pow2(HighFraction(f))
    ensures 0 < ix0 < 2 * Pow2(HighFraction(f)) && ix1 < Pow2(LowBits(f))
    ensures m <= 0 && ix0 * Pow2(LowBits(f)) + ix1 == F * Pow2(0 - m)
  {
    var w, k := LowBits(f), HighFraction(f) + 1;
    Widths(f);
    assert Pow2(k) == 2 * Pow2(HighFraction(f));
    var d := w - k;
    ix0, ix1, m := a0, a1, 0;
    while ix0 == 0
      invariant m <= 0 && ix1 < Pow2(w) && ix0 < Pow2(k)
      invariant ix0 * Pow2(w) + ix1 == F * Pow2(0 - m) && 0 < ix0 + ix1
      decreases if ix0 == 0 then Pow2(w) - ix1 else 0
    {
      FillStep(F, ix1, m, k, w, d);
      m := m - k;
      ix0, ix1 := Shr(ix1, d), Shl(ix1, k, w);
    }
  }

  lemma FillStep(F: nat, a: nat, m: int, k: nat, w: nat, d: nat)
    requires m <= 0 && 0 < a < Pow2(w) && a == F * Pow2(0 - m) && 1 <= k && k + d == w
    ensures var c0, c1 := Shr(a, d), Shl(a, k, w);
      && 0 <= c0 < Pow2(k) && 0 <= c1 < Pow2(w) && c0 * Pow2(w) + c1 == F * Pow2(0 - (m - k))
      && (c0 == 0 ==> a < c1) && 0 < c0 + c1
  {
    var c0, c1 := Shr(a, d), Shl(a, k, w);
    assert 0 <= c0 < Pow2(k) && 0 <= c1 < Pow2(w) && c0 * Pow2(w) + c1 == a * Pow2(k) by { WordsShift(a, k, w); }
    Grow(F, a, m, k);
    ZeroWord(c0, c1, Pow2(w));
  }

  lemma ZeroWord(c0: int, c1: int, B: int)
    requires 0 <= c0 && 0 <= c1 < B
    ensures c0 == 0 ==> c0 * B + c1 == c1
    ensures 0 < c0 * B + c1 ==> 0 < c0 + c1
  {}

  /** Single-bit shifts of the high word until its hidden-bit position is set. */
  method TopScan(b0: nat, h: nat) returns (ix0: nat, i: nat)
    requires 0 < b0 < 2 * Pow2(h)
    ensures Pow2(h) <= ix0 < 2 * Pow2(h) && ix0 == b0 * Pow2(i) && i <= h
  {
    hide Pow2;
    ix0, i := b0, 0;
    HalfBit(i);
    NextPower(h);
    while (ix0 / Pow2(h)) % 2 == 0
      invariant 0 < ix0 < 2 * Pow2(h) && ix0 == b0 * Pow2(i)
      decreases 2 * Pow2(h) - ix0
    {
      BitClear(ix0, Pow2(h));
      NextPower(i);
      MulAssoc(b0, 2, Pow2(i));
      ix0, i := ix0 * 2, i + 1;
    }
    BitClear(ix0, Pow2(h));
    MulMono(1, b0, Pow2(i));
    Pow2Less(i, h + 1);
  }

  lemma Grow(F: nat, a: nat, m: int, k: nat)
    requires m <= 0 && 0 < a && a == F * Pow2(0 - m) && 1 <= k
    ensures a * Pow2(k) == F * Pow2(0 - (m - k)) && a < a * Pow2(k)
  {
    Pow2Add(-m, k);
    MulAssoc(F, Pow2(-m), Pow2(k));
    Pow2Mono(1, k);
    MulMono(2, Pow2(k), a);
  }

  lemma JoinShift(F: nat, b0: nat, a1: nat, m: int, i: nat, w: nat)
    requires m <= 0 && b0 * Pow2(w) + a1 == F * Pow2(0 - m)
    ensures (b0 * Pow2(i)) * Pow2(w) + a1 * Pow2(i) == F * Pow2(1 - (m - (i - 1)))
  {
    Pow2Add(-m, i);
    assert 1 - (m - (i - 1)) == -m + i;
    MulAssoc(F, Pow2(-m), Pow2(i));
    MulDist(Pow2(i), b0 * Pow2(w), a1);
    MulAssoc(b0, Pow2(w), Pow2(i));
    MulAssoc(b0, Pow2(i), Pow2(w));
    MulComm(Pow2(w), Pow2(i));
  }

  /** The bits or-ed into the vacated low end of the high word do not carry. */
  lemma RoomBelow(b0: nat, c: nat, i: nat, h: nat)
    requires c < Pow2(i) && i <= h && b0 * Pow2(i) < 2 * Pow2(h)
    ensures b0 * Pow2(i) + c < 2 * Pow2(h)
  {
    Pow2Add(h - i, i);
    MulAssoc(2, Pow2(h - i), Pow2(i));
    MulCancelLt(b0, 2 * Pow2(h - i), Pow2(i));
    MulMono(b0 + 1, 2 * Pow2(h - i), Pow2(i));
    MulDist(Pow2(i), b0, 1);
  }

  // The bit loops.

  /** sqrt on two words: what it returns is the correctly rounded root. */
  method Sqrt(f: Format, x: nat) returns (r: Outcome)
    requires IsTwoWords(f) && IsWord(f, x)
    ensures IsSqrt(f, x, r)
  {
    Special(f, x);
    if !IsFinite(f, x) {
      r := if Frac(f, x) == 0 && Sign(f, x) == 0 then Word(x) else NaN;
      NoRoot(f, x, r);
      return;
    }
    if Sign(f, x) == 1 || x == 0 {
      r := if Unsigned(f, x) == 0 then Word(x) else NaN;
      NoRoot(f, x, r);
      return;
    }
    r := PositiveRoot(f, x);
  }

  method PositiveRoot(f: Format, x: nat) returns (r: Outcome)
    requires IsTwoWords(f) && IsWord(f, x) && IsPositive(f, x)
    ensures IsSqrt(f, x, r)
  {
    hide IsSqrt, IsRoot, Mag, Scaled, AtBit, Done, RoundRoot, At, Operand, Pow2;
    var B := Pow2(LowBits(f));
    var ix0, ix1, m := NormaliseTwo(f, x);
    ghost var M, e := ix0 * B + ix1, m;
    ExponentTop(f, e);
    m := m - Emax(f);
    if m % 2 == 1 { ix0, ix1 := DoubleWords(ix0, ix1, LowBits(f)); }
    m := m / 2;
    ix0, ix1 := DoubleWords(ix0, ix1, LowBits(f));
    StartBits(f, M, e - Emax(f), ix0 * B + ix1);
    ghost var n := Operand(f, M, e - Emax(f));
    var q, q1, s0;
    ix0, ix1, q, s0 := HighLoop(f, ix0, ix1, n);
    ix0, ix1, q1 := LowLoop(f, ix0, ix1, q, s0, n);
    Conclude(f, x, M, e, q * B + q1, ix0 * B + ix1);
    assert Emax(f) - 1 + m == RootExponent(f, e);
    r := RoundWords(f, q, q1, ix0, ix1, m);
  }

  /** ix0 += ix0 + top bit of ix1; ix1 += ix1. */
  method DoubleWords(a0: int, a1: nat, w: nat) returns (d0: int, d1: nat)
    requires 1 <= w && a1 < Pow2(w)
    ensures d1 < Pow2(w) && d0 * Pow2(w) + d1 == 2 * (a0 * Pow2(w) + a1)
    ensures 0 <= a0 ==> 0 <= d0
  {
    hide Pow2;
    NextPower(w - 1);
    WordsDouble(a0, a1, Pow2(w));
    QuotientBounds(a1, Pow2(w - 1));
    d0, d1 := a0 + a0 + a1 / Pow2(w - 1), (2 * a1) % Pow2(w);
  }

  /** The words that are signed in the source fit one: no carry reaches the sign bit. */
  ghost predicate HighWordsFit(w: nat, ix0: int, s0: int, q: int, r: int)
    requires 1 <= w
  {
    var M := Pow2(w - 1);
    0 <= ix0 < M && 0 <= q < M && 0 <= s0 && s0 + 2 * r < M
  }

  /** A number in two words fits the signed double word exactly when its high word fits the signed word. */
  lemma HighWord(a0: int, a1: int, M: int, B: int)
    requires 0 <= a1 < B
    ensures 0 <= a0 * B + a1 < M * B <==> 0 <= a0 < M
  {
    if a0 < 0 { MulMono(a0, -1, B); }
    if 0 <= a0 { MulMono(0, a0, B); }
    if M <= a0 { MulMono(M, a0, B); }
    if a0 < M { MulMono(a0, M - 1, B); MulDist(B, M, 1); }
  }

  lemma HighWordsIn(f: Format, n: nat, ix0: int, ix1: nat, s0: int, s1: nat, q: int, q1: nat, r0: nat, r1: nat, j: int)
    requires IsTwoWords(f)
    requires var B := Pow2(LowBits(f));
      && ix1 < B && s1 < B && q1 < B
      && AtBit(f, n, ix0 * B + ix1, s0 * B + s1, q * B + q1, r0 * B + r1, j)
    ensures HighWordsFit(LowBits(f), ix0, s0, q, r0)
  {
    var w := LowBits(f);
    var B, M := Pow2(w), Pow2(w - 1);
    StateFits(f, n, ix0 * B + ix1, s0 * B + s1, q * B + q1, r0 * B + r1, j);
    Pow2Add(w - 1, w);
    assert Pow2(WordBits(f) - 1) == M * B by { assert w - 1 + w == WordBits(f) - 1; }
    HighWord(ix0, ix1, M, B);
    HighWord(q, q1, M, B);
    HighWord(s0, s1, M, B);
    assert (s0 + 2 * r0) * B + (s1 + 2 * r1) == s0 * B + s1 + 2 * (r0 * B + r1) by {
      MulDist(B, s0, 2 * r0);
      MulAssoc(2, r0, B);
    }
    MulCancelLt(s0 + 2 * r0, M, B);
  }

  /** Bits of the high word: only the high words are compared, since the trial value's low word is zero. */
  method HighLoop(f: Format, a0: nat, a1: nat, ghost n: nat) returns (ix0: nat, ix1: nat, q: nat, s0: nat)
    requires IsTwoWords(f) && a1 < Pow2(LowBits(f))
    requires var a := a0 * Pow2(LowBits(f)) + a1;
      Pow2(f.mant + 1) <= a < 4 * Pow2(f.mant + 1) && n == a * Pow2(f.mant + 1)
    ensures ix1 < Pow2(LowBits(f)) && HighWordsFit(LowBits(f), ix0, s0, q, 0)
    ensures var w := LowBits(f); AtBit(f, n, ix0 * Pow2(w) + ix1, s0 * Pow2(w), q * Pow2(w), Pow2(w - 1), w - 1)
  {
    hide Pow2, Partial, Done;
    var w, h := LowBits(f), HighFraction(f);
    var r, t := Pow2(h + 1), 0;
    ix0, ix1, q, s0 := a0, a1, 0, 0;
    ghost var j := f.mant + 1;
    FirstBit(ix0 * Pow2(w) + ix1, Pow2(j));
    OperandBound(f, ix0 * Pow2(w) + ix1);
    assert s0 * Pow2(w) == 0 && q * Pow2(w) == 0;
    HighWordsBetween(f, n, ix0, ix1, s0, q, r, j, w);
    while r != 0
      invariant w - 1 <= j && r == (if j >= w then Pow2(j - w) else 0) && ix1 < Pow2(w)
      invariant AtBit(f, n, ix0 * Pow2(w) + ix1, s0 * Pow2(w), q * Pow2(w), Pow2(j), j)
      invariant HighWordsFit(w, ix0, s0, q, r)
      decreases j
    {
      HighStep(f, n, ix0, ix1, s0, q, r, j, w);
      t := s0 + r;
      if t <= ix0 {
        s0, ix0, q := t + r, ix0 - t, q + r;
      }
      ix0, ix1 := DoubleWords(ix0, ix1, w);
      r, j := r / 2, j - 1;
      HighWordsBetween(f, n, ix0, ix1, s0, q, r, j, w);
    }
  }

  lemma HighWordsBetween(f: Format, n: nat, ix0: int, ix1: nat, s0: int, q: int, r: nat, j: nat, w: nat)
    requires IsTwoWords(f) && w == LowBits(f) && w - 1 <= j && r == (if j >= w then Pow2(j - w) else 0) && ix1 < Pow2(w)
    requires AtBit(f, n, ix0 * Pow2(w) + ix1, s0 * Pow2(w), q * Pow2(w), Pow2(j), j)
    ensures HighWordsFit(w, ix0, s0, q, r)
  {
    if j >= w {
      Pow2Add(j - w, w);
      HighWordsIn(f, n, ix0, ix1, s0, 0, q, 0, r, 0, j);
    } else {
      HighWordsIn(f, n, ix0, ix1, s0, 0, q, 0, r, Pow2(j), j);
    }
  }

  lemma HighStep(f: Format, n: nat, ix0: nat, ix1: nat, s0: nat, q: nat, r: nat, j: nat, w: nat)
    requires IsWide(f) && 1 <= w <= j && r == Pow2(j - w) && ix1 < Pow2(w)
    requires AtBit(f, n, ix0 * Pow2(w) + ix1, s0 * Pow2(w), q * Pow2(w), Pow2(j), j)
    ensures r / 2 == (if j - 1 >= w then Pow2(j - 1 - w) else 0)
    ensures var B := Pow2(w);
      if s0 + r <= ix0
      then AtBit(f, n, 2 * ((ix0 - (s0 + r)) * B + ix1), (s0 + r + r) * B, (q + r) * B, Pow2(j - 1), j - 1)
      else AtBit(f, n, 2 * (ix0 * B + ix1), s0 * B, q * B, Pow2(j - 1), j - 1)
  {
    hide Pow2, AtBit, IsWide, WordBits;
    var B := Pow2(w);
    Pow2Add(j - w, w);
    HalfBit(j);
    HalfBit(j - w);
    WordsLess(s0 + r, 0, ix0, ix1, B);
    BitStep(f, n, ix0 * B + ix1, s0 * B, q * B, Pow2(j), j);
    MulDist(B, s0, r);
    MulDist(B, s0 + r, r);
    MulDist(B, ix0, s0 + r);
    MulDist(B, q, r);
  }

  /** Bits of the low word, with the carry into s0 and the borrow out of ix0. */
  method LowLoop(f: Format, a0: nat, a1: nat, q: nat, s: nat, ghost n: nat) returns (ix0: int, ix1: nat, q1: nat)
    requires IsTwoWords(f) && a1 < Pow2(LowBits(f))
    requires var w := LowBits(f); AtBit(f, n, a0 * Pow2(w) + a1, s * Pow2(w), q * Pow2(w), Pow2(w - 1), w - 1)
    ensures ix1 < Pow2(LowBits(f)) && q1 < Pow2(LowBits(f))
    ensures Done(n, ix0 * Pow2(LowBits(f)) + ix1, q * Pow2(LowBits(f)) + q1)
    ensures 0 <= ix0 < Pow2(LowBits(f) - 1) && q < Pow2(LowBits(f) - 1)
  {
    var w := LowBits(f);
    var s0: nat, s1: nat, r: nat := s, 0, Pow2(w - 1);
    ix0, ix1, q1 := a0, a1, 0;
    ghost var j: int := w - 1;
    DivModUnique(0, 2 * r, 0, 0);
    HighWordsIn(f, n, ix0, ix1, s0, s1, q, q1, 0, r, j);
    while r != 0
      invariant -1 <= j < w && ix1 < Pow2(w) && LowAligned(w, s1, q1, r, j)
      invariant AtBit(f, n, ix0 * Pow2(w) + ix1, s0 * Pow2(w) + s1, q * Pow2(w) + q1, r, j)
      invariant HighWordsFit(w, ix0, s0, q, 0)
      decreases j
    {
      ix0, ix1, s0, s1, q1 := LowBit(f, ix0, ix1, s0, s1, q1, r, q, n, j);
      r, j := r / 2, j - 1;
      HighWordsIn(f, n, ix0, ix1, s0, s1, q, q1, 0, r, j);
    }
  }

  /** One trial bit of the low word. */
  method LowBit(f: Format, a0: int, a1: nat, b0: nat, b1: nat, p: nat, r: nat, ghost q: nat, ghost n: nat, ghost j: int)
    returns (ix0: int, ix1: nat, s0: nat, s1: nat, q1: nat)
    requires IsTwoWords(f) && r != 0 && a1 < Pow2(LowBits(f)) && LowAligned(LowBits(f), b1, p, r, j)
    requires var B := Pow2(LowBits(f)); AtBit(f, n, a0 * B + a1, b0 * B + b1, q * B + p, r, j)
    ensures ix1 < Pow2(LowBits(f)) && LowAligned(LowBits(f), s1, q1, r / 2, j - 1)
    ensures var B := Pow2(LowBits(f)); AtBit(f, n, ix0 * B + ix1, s0 * B + s1, q * B + q1, r / 2, j - 1)
  {
    var w := LowBits(f);
    ghost var B, ix, s := Pow2(w), a0 * Pow2(w) + a1, b0 * Pow2(w) + b1;
    LowStep(f, n, ix, s, b1, q * Pow2(w) + p, p, r, j);
    ix0, ix1, s0, s1, q1 := a0, a1, b0, b1, p;
    var t1 := (s1 + r) % Pow2(w);
    WordsLess(s0, t1, ix0, ix1, Pow2(w));
    if s0 < ix0 || (s0 == ix0 && t1 <= ix1) {
      ix0, ix1, s0, s1 := TakeLow(ix0, ix1, s0, s1, r, w);
      q1 := q1 + r;
    }
    ix0, ix1 := DoubleWords(ix0, ix1, w);
  }

  /** The subtraction of the trial value, with carry and borrow between the words. */
  method TakeLow(a0: int, a1: nat, b0: nat, b1: nat, r: nat, w: nat) returns (ix0: int, ix1: nat, s0: nat, s1: nat)
    requires 1 <= w && a1 < Pow2(w) && b1 + 2 * r <= Pow2(w) && 0 < r <= Pow2(w - 1)
    ensures ix1 < Pow2(w) && s1 == (b1 + r + r) % Pow2(w) < Pow2(w)
    ensures s0 * Pow2(w) + s1 == b0 * Pow2(w) + b1 + 2 * r
    ensures ix0 * Pow2(w) + ix1 == a0 * Pow2(w) + a1 - (b0 * Pow2(w) + b1 + r)
  {
    var B := Pow2(w);
    assert B == 2 * Pow2(w - 1);
    CarryAndBorrow(a0, a1, b0, b1, r, w);
    DivModUnique(b1 + r, B, 0, b1 + r);
    var t, t1 := b0, (b1 + r) % B;
    ix0, ix1, s0 := a0, a1, b0;
    s1 := (t1 + r) % B;
    if t1 / (B / 2) == 1 && s1 / (B / 2) == 0 { s0 := s0 + 1; }
    ix0 := ix0 - t;
    if ix1 < t1 { ix0 := ix0 - 1; }
    ix1 := (ix1 - t1) % B;
  }

  /** The step on the whole numbers, and what it keeps of the low words. */
  lemma LowStep(f: Format, n: nat, ix: int, s: int, s1: nat, q: int, q1: nat, r: nat, j: int)
    requires IsTwoWords(f) && r != 0
    requires LowAligned(LowBits(f), s1, q1, r, j) && AtBit(f, n, ix, s, q, r, j)
    ensures 0 <= ix && (s1 + r) % Pow2(LowBits(f)) == s1 + r < Pow2(LowBits(f))
    ensures s1 + 2 * r <= Pow2(LowBits(f)) && r <= Pow2(LowBits(f) - 1)
    ensures LowAligned(LowBits(f), s1, q1, r / 2, j - 1)
    ensures LowAligned(LowBits(f), (s1 + r + r) % Pow2(LowBits(f)), q1 + r, r / 2, j - 1)
    ensures if s + r <= ix then AtBit(f, n, 2 * (ix - (s + r)), s + 2 * r, q + r, r / 2, j - 1)
            else AtBit(f, n, 2 * ix, s, q, r / 2, j - 1)
  {
    var w := LowBits(f);
    BitStep(f, n, ix, s, q, r, j);
    AlignedStep(w, s1, q1, r, j);
    Pow2Mono(j, w - 1);
  }

  lemma AlignedStep(w: nat, s1: nat, q1: nat, r: nat, j: int)
    requires r != 0 && LowAligned(w, s1, q1, r, j)
    ensures (s1 + r) % Pow2(w) == s1 + r < Pow2(w) && s1 + 2 * r <= Pow2(w)
    ensures LowAligned(w, s1, q1, r / 2, j - 1)
    ensures LowAligned(w, (s1 + r + r) % Pow2(w), q1 + r, r / 2, j - 1)
  {
    var B := Pow2(w);
    var one := w - w + 1;
    Divides(one, w, j + 1);
    assert Pow2(j + 1) == 2 * r;
    NextMultiple(s1, 2 * r, B);
    NextMultiple(q1, 2 * r, B);
    DivModUnique(s1 + r, B, 0, s1 + r);
    if s1 + 2 * r < B { DivModUnique(s1 + 2 * r, B, 0, s1 + 2 * r); } else { DivModUnique(B, B, 1, 0); }
    if j > 0 {
      assert r == 2 * Pow2(j - 1);
      AlignedHalf(s1, q1, r);
      DivModUnique(0, r, 0, 0);
      HalfDivides(s1 + 2 * r, r);
    }
  }

  lemma AlignedHalf(s1: nat, q1: nat, r: nat)
    requires 0 < r && s1 % (2 * r) == 0 && q1 % (2 * r) == 0
    ensures s1 % r == 0 && q1 % r == 0 && (q1 + r) % r == 0
  {
    HalfDivides(s1, r);
    HalfDivides(q1, r);
    ExactQuotient(q1, r);
    MulDist(r, q1 / r, 1);
    ModMultiple(q1 / r + 1, r);
  }

  /** The source's carry test and borrow test do two-word addition and subtraction. */
  lemma CarryAndBorrow(ix0: int, ix1: nat, s0: nat, s1: nat, r: nat, w: nat)
    requires 1 <= w && ix1 < Pow2(w) && s1 + 2 * r <= Pow2(w) && 0 < r
    requires r <= Pow2(w - 1)
    ensures var B := Pow2(w); var t1, u1 := s1 + r, (s1 + r + r) % B;
      && 0 <= u1 < B
      && (if t1 / (B / 2) == 1 && u1 / (B / 2) == 0 then s0 + 1 else s0) * B + u1 == s0 * B + s1 + 2 * r
      && (if ix1 < t1 then ix0 - s0 - 1 else ix0 - s0) * B + (ix1 - t1) % B == ix0 * B + ix1 - (s0 * B + s1 + r)
  {
    var B := Pow2(w);
    assert B == 2 * Pow2(w - 1) && B / 2 == Pow2(w - 1);
    var t1 := s1 + r;
    WordsSub(ix0, ix1, s0, t1, B);
    if t1 + r == B {
      DivModUnique(B, B, 1, 0);
      DivModUnique(t1, B / 2, 1, t1 - B / 2);
      DivModUnique(0, B / 2, 0, 0);
      MulDist(B, s0, 1);
    } else {
      DivModUnique(t1 + r, B, 0, t1 + r);
      if t1 >= B / 2 { DivModUnique(t1 + r, B / 2, 1, t1 + r - B / 2); }
      if t1 < B / 2 { DivModUnique(t1, B / 2, 0, t1); }
    }
  }

  /** Below the bit r the low words are clear. */
  ghost predicate LowAligned(w: nat, s1: nat, q1: nat, r: nat, j: int) {
    && s1 < Pow2(w) && q1 < Pow2(w) && j < w
    && (r > 0 ==> j >= 0 && r == Pow2(j) && s1 % (2 * r) == 0 && q1 % (2 * r) == 0)
  }

  /** The rounding of the two root words and their assembly into the double. */
  method RoundWords(f: Format, q0: nat, q1: nat, ix0: int, ix1: nat, m: int) returns (r: Outcome)
    requires IsTwoWords(f) && q1 < Pow2(LowBits(f)) && ix1 < Pow2(LowBits(f)) && 0 <= ix0 * Pow2(LowBits(f)) + ix1
    requires 1 <= Emax(f) - 1 + m
    ensures var B := Pow2(LowBits(f));
      r == Word(RoundRoot(q0 * B + q1, ix0 * B + ix1 != 0) + At(Emax(f) - 1 + m, f.mant))
  {
    hide Pow2, At, WordBits, RoundRoot, LowBits, HighFraction, IsTwoWords, Emax;
    Widths(f);
    var B, P := Pow2(LowBits(f)), Pow2(HighFraction(f));
    var q, p := q0, q1;
    NonzeroWords(ix0, ix1, B);
    if ix0 != 0 || ix1 != 0 {
      q, p := EvenWords(q0, q1, LowBits(f));
    }
    var z0, z1 := q / 2 + (Emax(f) - 1) * P + m * P, p / 2 + (q % 2) * (B / 2);
    Assembled(f, q, p, m);
    RoundedRoot(q0 * B + q1, q * B + p, ix0 * B + ix1 != 0);
    r := Word(z0 * B + z1);
  }

  /** The root plus its last bit, over two words. */
  method EvenWords(q0: nat, q1: nat, w: nat) returns (q: nat, p: nat)
    requires 1 <= w && q1 < Pow2(w)
    ensures p < Pow2(w) && q * Pow2(w) + p == (q0 * Pow2(w) + q1) + (q0 * Pow2(w) + q1) % 2
  {
    assert Pow2(w) == 2 * Pow2(w - 1);
    EvenUp(q0, q1, Pow2(w));
    if q1 == Pow2(w) - 1 {
      q, p := q0 + 1, 0;
    } else {
      q, p := q0, q1 + q1 % 2;
    }
  }

  lemma RoundedRoot(Q: nat, R: nat, inexact: bool)
    requires R == if inexact then Q + Q % 2 else Q
    ensures RoundRoot(Q, inexact) == R / 2
  {}

  lemma Assembled(f: Format, q: nat, p: nat, m: int)
    requires IsTwoWords(f) && p < Pow2(LowBits(f)) && 1 <= Emax(f) - 1 + m
    ensures var B, P := Pow2(LowBits(f)), Pow2(HighFraction(f));
      (q / 2 + (Emax(f) - 1) * P + m * P) * B + (p / 2 + (q % 2) * (B / 2))
      == (q * B + p) / 2 + At(Emax(f) - 1 + m, f.mant)
  {
    hide Pow2, WordBits, IsWide;
    var B, P := Pow2(LowBits(f)), Pow2(HighFraction(f));
    Layout(f);
    NextPower(LowBits(f) - 1);
    HalveWords(q, p, B);
    AddExponent(q / 2, Emax(f) - 1, m, P, B);
  }

  lemma NonzeroWords(a0: int, a1: nat, B: int)
    requires 0 <= a1 < B && 0 <= a0 * B + a1
    ensures a0 * B + a1 != 0 <==> a0 != 0 || a1 != 0
  {
    if a0 < 0 { MulMono(a0, -1, B); }
    if a0 > 0 { MulMono(1, a0, B); }
  }

  lemma EvenUp(q: nat, p: nat, B: nat)
    requires p < B && B % 2 == 0
    ensures (q * B + p) % 2 == p % 2
    ensures p == B - 1 ==> (q + 1) * B == q * B + p + 1
  {
    assert q * B == 2 * (q * (B / 2));
    MulDist(B, q, 1);
  }

  lemma HalveWords(q: nat, p: nat, B: nat)
    requires p < B && B % 2 == 0
    ensures (q * B + p) / 2 == (q / 2) * B + (p / 2 + (q % 2) * (B / 2))
  {
    assert B == 2 * (B / 2);
    assert q * B == 2 * (q * (B / 2));
    assert q * (B / 2) == (q / 2) * B + (q % 2) * (B / 2) by {
      assert q == 2 * (q / 2) + q % 2;
      MulDist(B / 2, 2 * (q / 2), q % 2);
      MulAssoc(q / 2, 2, B / 2);
    }
  }

  lemma AddExponent(a: int, b: int, m: int, P: int, B: int)
    ensures (a + b * P + m * P) * B == a * B + (b + m) * (P * B)
  {
    MulDist(P, b, m);
    MulDist(B, a, (b + m) * P);
    MulAssoc(b + m, P, B);
  }
}
