/** The operands of fma as mantissa, exponent and sign. */
module FmaParts {
  import opened PowerOfTwo
  import opened Ieee
  import opened Rounding
  import opened Floats
  import opened Words64
  import opened Scalbn

  /** A 64-bit word whose mantissa takes more than half of it and leaves ten spare bits on top. */
  predicate IsDoubleWord(f: Format) {
    IsWide(f) && WordBits(f) == 64 && 11 <= f.exp <= 31
  }

  lemma Binary64IsDoubleWord(f: Format)
    requires f == BINARY64
    ensures IsDoubleWord(f)
  {
    assert Pow2(10) == 1024;
  }

  lemma WordSize(f: Format)
    requires IsDoubleWord(f)
    ensures Pow2(WordBits(f)) == B64
  {
    Powers();
  }

  /** A nonzero finite operand as mantissa, exponent and sign: |x| = m * 2^e, with m even. */
  datatype Parts = Parts(m: nat, e: int, neg: bool)

  function Bias(f: Format): nat { Emax(f) + f.mant + 1 }

  /** The exponent given to infinities and NaNs; zero gets one more. */
  function ZeroInfNan(f: Format): int { Pow2(f.exp) - 1 - Bias(f) }

  /** Offset that makes every exponent of a mantissa natural. */
  function Offset(f: Format): nat { Bias(f) + f.mant }

  /** m and e stand for the magnitude v, scaled by 2^(mant + 2). */
  ghost predicate StandsFor(f: Format, v: nat, m: nat, e: int) {
    && Pow2(f.mant + 1) <= m < Pow2(f.mant + 2) && m % 2 == 0
    && 1 <= e + Offset(f) && v * Pow2(f.mant + 2) == m * Pow2(e + Offset(f))
  }

  method Normalize(f: Format, x: nat) returns (p: Parts)
    requires IsDoubleWord(f) && IsWord(f, x)
    ensures p.neg == (Sign(f, x) == 1)
    ensures !IsFinite(f, x) ==> p.e == ZeroInfNan(f)
    ensures IsFinite(f, x) && Mag(f, x) == 0 ==> p.e == ZeroInfNan(f) + 1
    ensures IsFinite(f, x) && Mag(f, x) != 0 ==> p.e < ZeroInfNan(f) && StandsFor(f, Mag(f, x), p.m, p.e)
  {
    hide Bias, Encode, ExpField, IsWide, Mul, Pow2, Sign, StandsFor, ToFloat, TwoTo, WordBits, Round,
      Representable, BitLen;
    var e, ix := ExpField(f, x), x;
    if e == 0 {
      ScaledUp(f, x);
      TimesPower(f, ToFloat(f, x), WordBits(f) - 1);
      ix := Encode(f, Mul(f, ToFloat(f, x), TwoTo(f, false, WordBits(f) - 1)).mag);
      e := ExpField(f, ix);
      e := if e != 0 then e - WordBits(f) + 1 else Pow2(f.exp);
    }
    NormalField(f, x);
    var m := (ix % Pow2(f.mant) + Pow2(f.mant)) * 2;
    e := e - Bias(f);
    p := Parts(m, e, Sign(f, x) == 1);
  }

  lemma NormalField(f: Format, x: nat)
    requires IsWord(f, x)
    ensures ExpField(f, x) < Pow2(f.exp) && 2 <= Pow2(f.exp)
    ensures ExpField(f, x) != 0 ==> Mag(f, x) != 0
    ensures ExpField(f, x) != 0 ==> StandsFor(f, Mag(f, x), (Frac(f, x) + Pow2(f.mant)) * 2, ExpField(f, x) - Bias(f))
    ensures ExpField(f, x) == 0 ==> Mag(f, x) < Pow2(f.mant)
  {
    Pow2Mono(1, f.exp);
    var e := ExpField(f, x);
    if e != 0 {
      MulMono(1, Pow2(f.mant) + Frac(f, x), Pow2(e - 1));
      FieldStands(f, Mag(f, x), Pow2(f.mant) + Frac(f, x), e);
    }
  }

  lemma FieldStands(f: Format, v: nat, m: nat, e: int)
    requires IsNormalised(f, m) && Scaled(v, m, e) && 1 <= e + f.mant
    ensures StandsFor(f, v, m * 2, e - Bias(f))
  {
    hide Pow2, Emax;
    var k := e + f.mant;
    NextPower(k);
    NextPower(f.mant);
    NextPower(f.mant + 1);
    ScaledShift(v, m, e, f.mant + 2);
    MulAssoc(m, 2, Pow2(k));
  }

  /** Undoing an exact scaling of a positive value. */
  lemma Unscale(f: Format, v: nat, k: nat, m: nat, e: int)
    requires Scaled(v * Pow2(k), m, e) && 1 <= e && 0 < v && m < Pow2(f.mant + 1)
    ensures Scaled(v, m, e - k) && 1 <= e - k + f.mant
  {
    if e - k >= 1 {
      Pow2Add(e - k - 1, k);
      assert e - k - 1 + k == e - 1;
      MulAssoc(m, Pow2(e - k - 1), Pow2(k));
      MulCancel(v, m * Pow2(e - k - 1), Pow2(k));
    } else {
      var c := k + 1 - e;
      Pow2Add(c, e - 1);
      assert c + (e - 1) == k;
      MulAssoc(v, Pow2(c), Pow2(e - 1));
      MulCancel(v * Pow2(c), m, Pow2(e - 1));
      MulMono(1, v, Pow2(c));
      if f.mant + 1 <= c { Pow2Mono(f.mant + 1, c); }
    }
  }

  /** Multiplying a subnormal by 2^63 is exact and makes it normal, so its fields give the mantissa. */
  lemma ScaledUp(f: Format, x: nat)
    requires IsDoubleWord(f) && IsWord(f, x) && ExpField(f, x) == 0
    ensures 0 <= Mag(f, x) * Pow2(WordBits(f) - 1) && Representable(f, Mag(f, x) * Pow2(WordBits(f) - 1))
    ensures ScaleB(f, ToFloat(f, x), WordBits(f) - 1) == Num(Sign(f, x) == 1, Mag(f, x) * Pow2(WordBits(f) - 1))
    ensures ScaledFields(f, Mag(f, x), Encode(f, Mag(f, x) * Pow2(WordBits(f) - 1)))
  {
    NormalField(f, x);
    SubnormalRoom(f, Mag(f, x));
    var zero := f.mant - f.mant;
    RoundInteger(f, Mag(f, x) * Pow2(WordBits(f) - 1), zero);
    FieldsAfterScaling(f, Mag(f, x), Encode(f, Mag(f, x) * Pow2(WordBits(f) - 1)));
  }

  /** The fields of the scaled-up word y stand for the unscaled value v. */
  ghost predicate ScaledFields(f: Format, v: nat, y: nat) {
    var e := ExpField(f, y) - WordBits(f) + 1;
    && (v == 0 <==> ExpField(f, y) == 0)
    && (v != 0 ==> e <= 0 && StandsFor(f, v, (Frac(f, y) + Pow2(f.mant)) * 2, e - Bias(f)))
  }

  lemma FieldsAfterScaling(f: Format, v: nat, y: nat)
    requires IsDoubleWord(f) && IsWord(f, y) && v < Pow2(f.mant) && Mag(f, y) == v * Pow2(WordBits(f) - 1)
    ensures ScaledFields(f, v, y)
  {
    hide StandsFor;
    var k := WordBits(f) - 1;
    NormalField(f, y);
    if v != 0 {
      MulMono(1, v, Pow2(k));
      Pow2Mono(f.mant, k);
      var e, m := ExpField(f, y), Pow2(f.mant) + Frac(f, y);
      assert Scaled(Mag(f, y), m, e);
      Unscale(f, v, k, m, e);
      FieldStands(f, v, m, e - k);
      StillSubnormal(f, v, m, e - k);
    }
  }

  lemma StillSubnormal(f: Format, v: nat, m: nat, e: int)
    requires v < Pow2(f.mant) <= m && Scaled(v, m, e)
    ensures e <= 0
  {
    if e >= 1 { MulMono(1, Pow2(e - 1), m); }
  }

  lemma SubnormalRoom(f: Format, v: nat)
    requires IsDoubleWord(f) && v < Pow2(f.mant)
    ensures 0 <= v * Pow2(WordBits(f) - 1) && Representable(f, v * Pow2(WordBits(f) - 1))
  {
    var k := WordBits(f) - 1;
    MulMono(0, v, Pow2(k));
    Range(f);
    Pow2Mono(10, f.exp - 1);
    Pow2Add(f.mant, k);
    MulMono(v, Pow2(f.mant), Pow2(k));
    assert Pow2(10) == 1024;
    Pow2Mono(f.mant + k, f.mant + 2 * Emax(f));
    assert Pow2(f.mant + 1) == 2 * Pow2(f.mant);
    ScaledRepresentable(f, v, k);
  }
}
