/**
 Binary interchange formats seen as integers. A word holds a sign bit, an exponent field and a
 fraction; its magnitude is counted in units of the least subnormal number, so every finite
 magnitude is a natural number and exact claims need no real arithmetic.
 */
module Ieee {
  import opened PowerOfTwo

  datatype RawFormat = Format(mant: nat, exp: nat)
  type Format = f: RawFormat | 2 <= f.mant && 2 <= f.exp witness Format(52, 11)

  const BINARY64: Format := Format(52, 11)
  const BINARY32: Format := Format(23, 8)

  /** What a libm entry point returns: a word of the format, or a NaN (whose payload is not modelled). */
  datatype Outcome = NaN | Word(bits: nat)

  function WordBits(f: Format): nat { 1 + f.exp + f.mant }

  predicate IsWord(f: Format, x: int) { 0 <= x < Pow2(WordBits(f)) }

  function Sign(f: Format, x: nat): nat { x / Pow2(f.exp + f.mant) }

  /** The word with its sign bit cleared. */
  function Unsigned(f: Format, x: nat): nat { x % Pow2(f.exp + f.mant) }

  function ExpField(f: Format, x: nat): nat { (x / Pow2(f.mant)) % Pow2(f.exp) }

  function Frac(f: Format, x: nat): nat { x % Pow2(f.mant) }

  predicate IsFinite(f: Format, x: nat) { ExpField(f, x) != Pow2(f.exp) - 1 }

  predicate IsNaN(f: Format, x: nat) { !IsFinite(f, x) && Frac(f, x) != 0 }

  /** The value of an exponent field e and a fraction r when the hidden bit is worth P. */
  function Value(P: nat, e: nat, r: nat): nat {
    if e == 0 then r else (P + r) * Pow2(e - 1)
  }

  /**
   The magnitude in units of the least subnormal. An infinity gets the value one binade above the largest finite
   one.
   */
  function Mag(f: Format, x: nat): nat {
    Value(Pow2(f.mant), ExpField(f, x), Frac(f, x))
  }

  /** v == m * 2^(e-1), for an exponent of either sign. */
  ghost predicate Scaled(v: int, m: int, e: int) {
    if e >= 1 then v == m * Pow2(e - 1) else v * Pow2(1 - e) == m
  }

  predicate IsNormalised(f: Format, m: int) { Pow2(f.mant) <= m < Pow2(f.mant + 1) }

  /** Doubling the mantissa is lowering the exponent. */
  lemma ScaledDouble(v: int, m: int, e: int)
    requires Scaled(v, m, e)
    ensures Scaled(v, 2 * m, e - 1)
  {
    if e >= 2 {
      assert Pow2(e - 1) == 2 * Pow2(e - 2);
      assert v == (2 * m) * Pow2(e - 2);
    } else if e == 1 {
      assert Pow2(0) == 1 && Pow2(1) == 2;
    } else {
      assert Pow2(2 - e) == 2 * Pow2(1 - e);
      assert v * Pow2(2 - e) == 2 * (v * Pow2(1 - e));
    }
  }

  lemma ScaledSub(v: int, m: int, w: int, n: int, e: int)
    requires Scaled(v, m, e) && Scaled(w, n, e)
    ensures Scaled(v - w, m - n, e)
  {
    if e >= 1 { MulDist(Pow2(e - 1), m, n); } else { MulDist(Pow2(1 - e), v, w); }
  }

  lemma ScaledOrder(v: int, m: int, w: int, n: int, e: int)
    requires Scaled(v, m, e) && Scaled(w, n, e)
    ensures m < n <==> v < w
    ensures m == n <==> v == w
  {
    if e >= 1 {
      if m < n { MulMono(m, n, Pow2(e - 1)); }
      if n < m { MulMono(n, m, Pow2(e - 1)); }
    } else {
      if v < w { MulMono(v, w, Pow2(1 - e)); }
      if w < v { MulMono(w, v, Pow2(1 - e)); }
    }
  }

  /** Raising the exponent by k scales the value by 2^k. */
  lemma {:induction false} ScaledShift(v: int, m: int, e: int, k: nat)
    requires Scaled(v, m, e)
    ensures Scaled(v * Pow2(k), m, e + k)
  {
    if e >= 1 {
      Pow2Add(e - 1, k);
      assert e + k - 1 == e - 1 + k;
      MulAssoc(m, Pow2(e - 1), Pow2(k));
    } else if e + k >= 1 {
      Pow2Add(1 - e, e + k - 1);
      assert 1 - e + (e + k - 1) == k;
      MulAssoc(v, Pow2(1 - e), Pow2(e + k - 1));
    } else {
      Pow2Add(k, 1 - (e + k));
      assert k + (1 - (e + k)) == 1 - e;
      MulAssoc(v, Pow2(k), Pow2(1 - (e + k)));
    }
  }

  /** The word a normalised mantissa and an exponent are packed into; a small exponent shifts the mantissa right. */
  function Pack(f: Format, m: nat, e: int): nat
    requires e > 0 ==> Pow2(f.mant) <= m
  {
    if e > 0 then m - Pow2(f.mant) + e * Pow2(f.mant) else m / Pow2(1 - e)
  }

  /** Packing loses nothing: the fields read back give the value the mantissa and exponent stand for. */
  lemma PackMag(f: Format, v: nat, m: nat, e: int)
    requires IsNormalised(f, m) && Scaled(v, m, e) && e < Pow2(f.exp)
    ensures Pack(f, m, e) < Pow2(f.exp + f.mant)
    ensures Mag(f, Pack(f, m, e)) == v
    ensures ExpField(f, Pack(f, m, e)) == if e > 0 then e else 0
  {
    var P := Pow2(f.mant);
    Pow2Add(f.exp, f.mant);
    if e > 0 {
      DivModUnique(Pack(f, m, e), P, e, m - P);
      DivModUnique(e, Pow2(f.exp), 0, e);
      assert (e + 1) * P <= Pow2(f.exp) * P by { MulMono(e + 1, Pow2(f.exp), P); }
    } else {
      ModMultiple(v, Pow2(1 - e));
      assert v < P by {
        Pow2Mono(1, 1 - e);
        MulMono(2, Pow2(1 - e), v);
        assert Pow2(1) == 2;
        assert Pow2(f.mant + 1) == 2 * P;
        assert v * 2 <= m;
      }
      DivModUnique(v, P, 0, v);
      Pow2Mono(0, f.exp);
      DivModUnique(0, Pow2(f.exp), 0, 0);
      MulMono(1, Pow2(f.exp), P);
    }
  }

  lemma Fields(f: Format, x: nat)
    requires IsWord(f, x)
    ensures x == Sign(f, x) * Pow2(f.exp + f.mant) + Unsigned(f, x)
    ensures Sign(f, x) < 2
    ensures Unsigned(f, x) == ExpField(f, x) * Pow2(f.mant) + Frac(f, x)
    ensures ExpField(f, x) == Unsigned(f, x) / Pow2(f.mant)
    ensures Frac(f, x) == Unsigned(f, x) % Pow2(f.mant)
  {
    Pow2Add(f.mant, f.exp);
    assert f.mant + f.exp == f.exp + f.mant;
    assert Pow2(WordBits(f)) == 2 * Pow2(f.exp + f.mant);
    FieldsOf(x, Pow2(f.mant), Pow2(f.exp), Pow2(f.exp + f.mant));
  }

  lemma FieldsOf(x: nat, P: nat, E: nat, H: nat)
    requires 0 < P && 0 < E && H == P * E
    requires 0 < H && x < 2 * H
    ensures x == x / H * H + x % H && x / H < 2
    ensures x % H == ((x / P) % E) * P + x % P
    ensures (x % H) / P == (x / P) % E && (x % H) % P == x % P
  {
    DivDiv(x, P, E);
    DivModUnique(x % H, P, (x / P) % E, x % P);
    assert x == x / H * H + x % H;
    if x / H >= 2 { MulMono(2, x / H, H); }
  }

  /** Only the unsigned part matters for the magnitude. */
  lemma MagUnsigned(f: Format, x: nat)
    requires IsWord(f, x)
    ensures IsWord(f, Unsigned(f, x))
    ensures Mag(f, Unsigned(f, x)) == Mag(f, x)
    ensures ExpField(f, Unsigned(f, x)) == ExpField(f, x)
    ensures Unsigned(f, Unsigned(f, x)) == Unsigned(f, x)
  {
    Fields(f, x);
    var u := Unsigned(f, x);
    DivModUnique(u, Pow2(f.exp + f.mant), 0, u);
    assert Pow2(WordBits(f)) == 2 * Pow2(f.exp + f.mant);
    Fields(f, u);
  }

  /** Or-ing a sign bit onto an unsigned word changes the sign and nothing else. */
  lemma WithSign(f: Format, s: nat, u: nat)
    requires s < 2 && u < Pow2(f.exp + f.mant)
    ensures var x := s * Pow2(f.exp + f.mant) + u;
      IsWord(f, x) && Sign(f, x) == s && Unsigned(f, x) == u && Mag(f, x) == Mag(f, u)
      && ExpField(f, x) == ExpField(f, u)
  {
    var x := s * Pow2(f.exp + f.mant) + u;
    assert Pow2(WordBits(f)) == 2 * Pow2(f.exp + f.mant);
    DivModUnique(x, Pow2(f.exp + f.mant), s, u);
    MagUnsigned(f, x);
  }

  /** The order of unsigned words is the order of magnitudes, so comparing the words compares the numbers. */
  lemma MagOrder(f: Format, u: nat, w: nat)
    requires u < w < Pow2(f.exp + f.mant)
    ensures Mag(f, u) < Mag(f, w)
  {
    var P := Pow2(f.mant);
    UnsignedFields(f, u);
    UnsignedFields(f, w);
    FieldOrder(P, u, w, ExpField(f, u), ExpField(f, w), Frac(f, u), Frac(f, w));
  }

  lemma UnsignedFields(f: Format, u: nat)
    requires u < Pow2(f.exp + f.mant)
    ensures u == ExpField(f, u) * Pow2(f.mant) + Frac(f, u) && Frac(f, u) < Pow2(f.mant)
  {
    assert Pow2(WordBits(f)) == 2 * Pow2(f.exp + f.mant);
    Fields(f, u);
    DivModUnique(u, Pow2(f.exp + f.mant), 0, u);
  }

  lemma FieldOrder(P: nat, u: nat, w: nat, eu: nat, ew: nat, ru: nat, rw: nat)
    requires u < w && u == eu * P + ru && w == ew * P + rw
    requires ru < P && rw < P
    ensures Value(P, eu, ru) < Value(P, ew, rw)
  {
    if eu == ew {
      if eu > 0 { MulMono(P + ru, P + rw, Pow2(eu - 1)); }
    } else {
      assert eu < ew by { if ew < eu { MulMono(ew + 1, eu, P); MulDist(P, ew, 1); } }
      assert P * Pow2(ew - 1) <= Value(P, ew, rw) by { MulMono(P, P + rw, Pow2(ew - 1)); }
      if eu == 0 {
        MulMono(1, Pow2(ew - 1), P);
      } else {
        MulMono(P + ru, 2 * P, Pow2(eu - 1));
        assert 2 * P * Pow2(eu - 1) == P * Pow2(eu);
        Pow2Mono(eu, ew - 1);
        MulMono(Pow2(eu), Pow2(ew - 1), P);
      }
    }
  }

  /** Distinct unsigned words have distinct magnitudes. */
  lemma MagInjective(f: Format, u: nat, w: nat)
    requires u < Pow2(f.exp + f.mant) && w < Pow2(f.exp + f.mant)
    ensures Mag(f, u) == Mag(f, w) <==> u == w
    ensures Mag(f, u) <= Mag(f, w) <==> u <= w
  {
    if u < w { MagOrder(f, u, w); }
    if w < u { MagOrder(f, w, u); }
  }

  /**
   Splits a nonzero word into a mantissa with its top bit set and an exponent, lowering the exponent below 1
   for a subnormal.
   */
  method Normalise(f: Format, x: nat) returns (m: nat, e: int)
    requires IsWord(f, x) && Mag(f, x) != 0
    ensures IsNormalised(f, m)
    ensures Scaled(Mag(f, x), m, e)
    ensures if ExpField(f, x) == 0 then 0 < e + f.mant && e <= 0 else e == ExpField(f, x)
  {
    e := ExpField(f, x);
    Fields(f, x);
    if e == 0 {
      NoSign(f, x, f.exp + 1);
      var i := (x * Pow2(f.exp + 1)) % Pow2(WordBits(f));
      i, e := LeadingZeros(f, Frac(f, x), i);
      NormalisedFraction(f, Frac(f, x), i, e);
      NoSign(f, x, 1 - e);
      m := (x * Pow2(1 - e)) % Pow2(WordBits(f));
    } else {
      m := x % Pow2(f.mant) + Pow2(f.mant);
    }
  }

  /** The scan for the top bit of a subnormal's fraction. */
  method LeadingZeros(f: Format, ghost F: nat, start: nat) returns (i: nat, e: int)
    requires 0 < F && start == F * Pow2(f.exp + 1) < Pow2(WordBits(f))
    ensures e <= 0 && i == F * Pow2(f.exp + 1) * Pow2(-e)
    ensures Pow2(WordBits(f) - 1) <= i < Pow2(WordBits(f))
  {
    var top := Pow2(WordBits(f) - 1);
    assert Pow2(WordBits(f)) == 2 * top;
    i, e := start, 0;
    MulMono(1, F, Pow2(f.exp + 1));
    while i / top == 0
      invariant e <= 0 && 0 < i < 2 * top
      invariant i == F * Pow2(f.exp + 1) * Pow2(-e)
      decreases 2 * top - i
    {
      assert i < top by { if i >= top { DivModUnique(i, top, 1, i - top); } }
      assert Pow2(-(e - 1)) == 2 * Pow2(-e);
      MulAssoc(F * Pow2(f.exp + 1), 2, Pow2(-e));
      DivModUnique(i * 2, Pow2(WordBits(f)), 0, i * 2);
      i := (i * 2) % Pow2(WordBits(f));
      e := e - 1;
    }
    if i < top { DivModUnique(i, top, 0, i); }
  }

  /** A left shift by at least one bit drops the sign of a subnormal word. */
  lemma NoSign(f: Format, x: nat, k: nat)
    requires IsWord(f, x) && ExpField(f, x) == 0 && 1 <= k
    ensures (x * Pow2(k)) % Pow2(WordBits(f)) == (Frac(f, x) * Pow2(k)) % Pow2(WordBits(f))
    ensures k == f.exp + 1 ==> (x * Pow2(k)) % Pow2(WordBits(f)) == Frac(f, x) * Pow2(k)
  {
    Fields(f, x);
    assert Pow2(WordBits(f)) == 2 * Pow2(f.exp + f.mant);
    SignOut(x, Frac(f, x), Sign(f, x), Pow2(f.exp + f.mant), Pow2(k), Pow2(k - 1));
    if k == f.exp + 1 {
      Pow2Add(f.mant, f.exp + 1);
      MulMono(0, Frac(f, x), Pow2(k));
      MulMono(Frac(f, x), Pow2(f.mant), Pow2(k));
      DivModUnique(Frac(f, x) * Pow2(k), Pow2(WordBits(f)), 0, Frac(f, x) * Pow2(k));
    }
  }

  lemma SignOut(x: int, F: int, S: int, H: int, K: int, half: int)
    requires 0 < H && x == S * H + F && K == 2 * half
    ensures (x * K) % (2 * H) == (F * K) % (2 * H)
  {
    MulDist(K, S * H, F);
    assert (S * H) * K == (S * half) * (2 * H);
    ModShift(F * K, 2 * H, S * half);
  }

  /** When the shifted fraction has reached the top bit, one more shift makes it a normalised mantissa. */
  lemma NormalisedFraction(f: Format, F: nat, i: nat, e: int)
    requires e <= 0 && 0 < F
    requires i == F * Pow2(f.exp + 1) * Pow2(-e)
    requires Pow2(WordBits(f) - 1) <= i < Pow2(WordBits(f))
    ensures IsNormalised(f, F * Pow2(1 - e)) && 0 < e + f.mant
    ensures (F * Pow2(1 - e)) % Pow2(WordBits(f)) == F * Pow2(1 - e)
  {
    var m := F * Pow2(1 - e);
    Pow2Add(f.mant, f.exp);
    Pow2Add(f.mant + 1, f.exp);
    calc {
      i;
      F * Pow2(f.exp + 1) * Pow2(-e);
      F * (2 * Pow2(f.exp)) * Pow2(-e);
      F * (2 * Pow2(-e)) * Pow2(f.exp);
      m * Pow2(f.exp);
    }
    MulCancelLe(Pow2(f.mant), m, Pow2(f.exp));
    MulCancelLt(m, Pow2(f.mant + 1), Pow2(f.exp));
    MulMono(1, F, Pow2(1 - e));
    Pow2Less(1 - e, f.mant + 1);
    Pow2Mono(f.mant + 1, WordBits(f));
    DivModUnique(m, Pow2(WordBits(f)), 0, m);
  }
}
