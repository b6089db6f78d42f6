/**
 Round-to-nearest, ties-to-even (sections 4.3.1 and 5.4.1 of IEEE 754-2008), as an integer function: the exact value
 a / 2^k, in units of the least subnormal, is cut to the precision the format has at its size.
 */
module Rounding {
  import opened PowerOfTwo
  import opened Ieee

  datatype Rounded = Finite(mag: nat) | Infinite

  /** The position of the top bit, counted from 1; 0 for zero. */
  function BitLen(a: nat): (n: nat)
    ensures a < Pow2(n)
    ensures a > 0 ==> n > 0 && Pow2(n - 1) <= a
  {
    if a == 0 then 0 else 1 + BitLen(a / 2)
  }

  lemma BitLenUnique(a: nat, n: nat)
    requires Pow2(n) <= a < Pow2(n + 1)
    ensures BitLen(a) == n + 1
  {
    if BitLen(a) < n + 1 { Pow2Mono(BitLen(a), n); }
    if BitLen(a) > n + 1 { Pow2Mono(n + 1, BitLen(a) - 1); }
  }

  lemma BitLenMono(a: nat, b: nat)
    requires a <= b
    ensures BitLen(a) <= BitLen(b)
  {
    if a > 0 && BitLen(b) < BitLen(a) { Pow2Mono(BitLen(b), BitLen(a) - 1); }
  }

  lemma BitLenShift(a: nat, j: nat)
    requires a > 0
    ensures BitLen(At(a, j)) == BitLen(a) + j
  {
    var n := BitLen(a) - 1;
    ShiftBounds(a, n, j);
    BitLenUnique(At(a, j), n + j);
  }

  lemma ShiftBounds(a: nat, n: nat, j: nat)
    requires Pow2(n) <= a < Pow2(n + 1)
    ensures Pow2(n + j) <= At(a, j) < Pow2(n + j + 1)
  {
    Pow2Add(n, j);
    Pow2Add(n + 1, j);
    MulMono(Pow2(n), a, Pow2(j));
    MulMono(a, Pow2(n + 1), Pow2(j));
  }

  /** a / d to the nearest integer, a tie going to the even one. */
  function RneDiv(a: nat, d: nat): nat
    requires 0 < d
  {
    var q, r := a / d, a % d;
    if 2 * r > d || (2 * r == d && q % 2 == 1) then q + 1 else q
  }

  function RneShift(a: nat, k: nat): nat { RneDiv(a, Pow2(k)) }

  /** How many low bits a number of this length has beyond the format's precision. */
  function Drop(f: Format, len: nat): nat {
    if len <= f.mant + 1 then 0 else len - (f.mant + 1)
  }

  /** The least magnitude past the largest finite one, rounding aside. */
  function Limit(f: Format): nat {
    Pow2Mono(1, f.exp);
    Pow2(f.mant) * Pow2(Pow2(f.exp) - 2)
  }

  /** The magnitudes the format has. */
  ghost predicate Representable(f: Format, v: nat) {
    v % Pow2(Drop(f, BitLen(v))) == 0 && v < Limit(f)
  }

  function Precision(f: Format, a: nat, k: nat): nat {
    var d := Drop(f, BitLen(a));
    if d <= k then k else d
  }

  /** The rounded value of a / 2^k. */
  function Round(f: Format, a: nat, k: nat): Rounded {
    var d := Precision(f, a, k);
    Cut(f, RneShift(a, d), d - k)
  }

  /** n units of 2^j, unless that is past the largest finite magnitude. */
  function Cut(f: Format, n: nat, j: nat): Rounded {
    if n * Pow2(j) >= Limit(f) then Infinite else Finite(n * Pow2(j))
  }

  /** n is within half a unit of a / d, and even when exactly half a unit away. */
  ghost predicate IsNearest(a: nat, d: nat, n: nat) {
    var p := n * d;
    && 2 * p - d <= 2 * a <= 2 * p + d
    && (2 * a == 2 * p + d || 2 * a == 2 * p - d ==> n % 2 == 0)
  }

  lemma RneNearest(a: nat, d: nat)
    requires 0 < d
    ensures IsNearest(a, d, RneDiv(a, d))
  {
    var q, r := a / d, a % d;
    assert a == q * d + r;
    assert (q + 1) * d == q * d + d by { MulDist(d, q, 1); }
  }

  /** The nearest integer grows with the number rounded; with a == b, nothing else is nearest. */
  lemma NearestMono(a: nat, b: nat, d: nat, m: nat, n: nat)
    requires 0 < d && a <= b && IsNearest(a, d, m) && IsNearest(b, d, n)
    ensures m <= n
  {
    if n < m {
      MulMono(n + 1, m, d);
      MulDist(d, n, 1);
      if n + 1 < m { MulMono(n + 2, m, d); MulDist(d, n, 2); }
    }
  }

  lemma RneUnique(a: nat, k: nat, n: nat)
    requires IsNearest(a, Pow2(k), n)
    ensures RneShift(a, k) == n
  {
    RneNearest(a, Pow2(k));
    NearestMono(a, a, Pow2(k), RneShift(a, k), n);
    NearestMono(a, a, Pow2(k), n, RneShift(a, k));
  }

  lemma RneMultiple(n: nat, k: nat)
    ensures RneShift(At(n, k), k) == n
  {
    ModMultiple(n, Pow2(k));
  }

  lemma RneMono(a: nat, b: nat, d: nat)
    requires a <= b && 0 < d
    ensures RneDiv(a, d) <= RneDiv(b, d)
  {
    RneNearest(a, d);
    RneNearest(b, d);
    NearestMono(a, b, d, RneDiv(a, d), RneDiv(b, d));
  }

  /** Scaling the number and the divisor together changes nothing. */
  lemma RneScale(a: nat, d: nat, j: nat)
    requires 0 < d && 0 < j
    ensures 0 < d * j && 0 <= a * j
    ensures RneDiv(a * j, d * j) == RneDiv(a, d)
  {
    DivModScale(a, d, j);
    MulMono(0, a, j);
    var r := a % d;
    assert 2 * (r * j) == (2 * r) * j;
    if 2 * r > d { MulMono(d, 2 * r, j); }
    if 2 * r < d { MulMono(2 * r, d, j); }
  }

  lemma RneShiftScale(a: nat, k: nat, j: nat)
    ensures RneShift(At(a, j), k + j) == RneShift(a, k)
  {
    Pow2Add(k, j);
    RneScale(a, Pow2(k), Pow2(j));
  }

  lemma PrecisionScale(f: Format, a: nat, k: nat, j: nat)
    requires 0 < a
    ensures Precision(f, At(a, j), k + j) == Precision(f, a, k) + j
  {
    BitLenShift(a, j);
  }

  lemma RoundScale(f: Format, a: nat, k: nat, j: nat)
    ensures Round(f, At(a, j), k + j) == Round(f, a, k)
  {
    if a == 0 {
      RoundZero(f, k);
      RoundZero(f, k + j);
    } else {
      var d, b := Precision(f, a, k), At(a, j);
      PrecisionScale(f, a, k, j);
      var n := RneShift(a, d);
      RneShiftScale(a, d, j);
      RoundIs(f, a, k, d, n);
      RoundIs(f, b, k + j, d + j, n);
    }
  }

  lemma RoundZero(f: Format, k: nat)
    ensures Round(f, 0, k) == Finite(0)
  {
    RneMultiple(0, k);
  }

  lemma RoundIs(f: Format, a: nat, k: nat, d: nat, n: nat)
    requires d == Precision(f, a, k) && n == RneShift(a, d)
    ensures Round(f, a, k) == Cut(f, n, d - k)
  {}

  lemma RoundExact(f: Format, v: nat, k: nat)
    requires Representable(f, v)
    ensures Round(f, At(v, k), k) == Finite(v)
  {
    var zero := k - k;
    RoundInteger(f, v, zero);
    RoundScale(f, v, zero, k);
  }

  lemma RoundInteger(f: Format, v: nat, zero: nat)
    requires Representable(f, v) && zero == 0
    ensures Round(f, v, zero) == Finite(v)
  {
    var d := Drop(f, BitLen(v));
    var q := v / Pow2(d);
    ExactQuotient(v, Pow2(d));
    assert RneShift(v, d) == q by { RneMultiple(q, d); }
    RoundIs(f, v, zero, d, q);
  }

  /** A number with few enough significant bits is representable once scaled, unless it is too big. */
  lemma ScaledRepresentable(f: Format, m: nat, j: nat)
    requires m < Pow2(f.mant + 1) && At(m, j) < Limit(f)
    ensures Representable(f, At(m, j))
  {
    var d := Drop(f, BitLen(At(m, j)));
    if m == 0 {
      ModMultiple(0, Pow2(d));
    } else {
      BitLenShift(m, j);
      if BitLen(m) > f.mant + 1 { Pow2Mono(f.mant + 1, BitLen(m) - 1); }
      assert d <= j;
      Divides(m, j, d);
    }
  }

  lemma Divides(m: int, j: nat, d: nat)
    requires d <= j
    ensures (m * Pow2(j)) % Pow2(d) == 0
  {
    Pow2Add(j - d, d);
    MulAssoc(m, Pow2(j - d), Pow2(d));
    ModMultiple(m * Pow2(j - d), Pow2(d));
  }

  /** Multiples of the unit of a binade are the only numbers of the format from that binade up. */
  lemma Spacing(f: Format, v: nat, k: nat)
    requires Representable(f, v) && Pow2(f.mant + k) <= v
    ensures v % Pow2(k) == 0
  {
    var d := Drop(f, BitLen(v));
    if BitLen(v) < f.mant + k + 1 { Pow2Mono(BitLen(v), f.mant + k); }
    var q := v / Pow2(d);
    assert v == q * Pow2(d);
    Divides(q, d, k);
  }

  lemma FieldBound(f: Format, x: nat)
    requires IsFinite(f, x)
    ensures ExpField(f, x) < Pow2(f.exp) - 1
  {}

  lemma BelowLimit(m: nat, P: nat, V: nat, U: nat)
    requires m < 2 * P && 0 < V <= U
    ensures m * V < 2 * P * U
  {
    MulMono(m, 2 * P, V);
    MulMono(V, U, 2 * P);
  }

  /** Every finite word's magnitude is representable. */
  lemma MagRepresentable(f: Format, x: nat)
    requires IsWord(f, x) && IsFinite(f, x)
    ensures Representable(f, Mag(f, x))
  {
    hide BitLen, ExpField, Frac, IsFinite, IsWord, Limit, Representable, Round, WordBits;
    var e, P := ExpField(f, x), Pow2(f.mant);
    Fields(f, x);
    assert Pow2(0) == 1;
    var m, j := (if e == 0 then Frac(f, x) else P + Frac(f, x)), (if e == 0 then 0 else e - 1);
    assert Mag(f, x) == m * Pow2(j);
    FieldBound(f, x);
    NextPower(f.mant);
    LimitUnits(f);
    Pow2Mono(j, Pow2(f.exp) - 3);
    BelowLimit(m, P, Pow2(j), Pow2(Pow2(f.exp) - 3));
    ScaledRepresentable(f, m, j);
  }

  /** The unsigned word of a representable magnitude. */
  function Encode(f: Format, v: nat): (u: nat)
    requires Representable(f, v)
    ensures u < Pow2(f.exp + f.mant) && IsWord(f, u) && Mag(f, u) == v && IsFinite(f, u)
  {
    var d := Drop(f, BitLen(v));
    EncodeOk(f, v);
    if v < Pow2(f.mant) then v else Pack(f, v / Pow2(d), d + 1)
  }

  lemma EncodeOk(f: Format, v: nat)
    requires Representable(f, v)
    ensures var d := Drop(f, BitLen(v));
      v >= Pow2(f.mant) ==> IsNormalised(f, v / Pow2(d))
    ensures var d := Drop(f, BitLen(v));
      var u := if v < Pow2(f.mant) then v else Pack(f, v / Pow2(d), d + 1);
      u < Pow2(f.exp + f.mant) && IsWord(f, u) && Mag(f, u) == v && IsFinite(f, u)
  {
    Pow2Mono(1, f.exp);
    assert Pow2(1) == 2;
    assert Pow2(WordBits(f)) == 2 * Pow2(f.exp + f.mant);
    if v < Pow2(f.mant) {
      EncodeSubnormal(f, v);
    } else {
      EncodeNormal(f, v, Drop(f, BitLen(v)));
    }
  }

  lemma EncodeSubnormal(f: Format, v: nat)
    requires v < Pow2(f.mant)
    ensures v < Pow2(f.exp + f.mant) && ExpField(f, v) == 0 && Mag(f, v) == v
  {
    Pow2Mono(f.mant, f.exp + f.mant);
    DivModUnique(v, Pow2(f.mant), 0, v);
    DivModUnique(0, Pow2(f.exp), 0, 0);
  }

  lemma EncodeNormal(f: Format, v: nat, d: nat)
    requires Pow2(f.mant) <= v < Limit(f) && d == Drop(f, BitLen(v)) && v % Pow2(d) == 0
    ensures IsNormalised(f, v / Pow2(d)) && d + 1 < Pow2(f.exp) - 1
    ensures var u := Pack(f, v / Pow2(d), d + 1);
      u < Pow2(f.exp + f.mant) && Mag(f, u) == v && ExpField(f, u) == d + 1
  {
    TopBits(f, v);
    ExactQuotient(v, Pow2(d));
    ExponentFits(f, v, v / Pow2(d), d);
    EncodedFields(f, v, v / Pow2(d), d);
  }

  lemma EncodedFields(f: Format, v: nat, m: nat, d: nat)
    requires v == m * Pow2(d) && IsNormalised(f, m) && d + 1 < Pow2(f.exp)
    ensures var u := Pack(f, m, d + 1);
      u < Pow2(f.exp + f.mant) && Mag(f, u) == v && ExpField(f, u) == d + 1
  {
    PackMag(f, v, m, d + 1);
  }

  lemma ExponentFits(f: Format, v: nat, m: nat, d: nat)
    requires v == m * Pow2(d) < Limit(f) && Pow2(f.mant) <= m
    ensures d + 1 < Pow2(f.exp) - 1
  {
    Pow2Mono(1, f.exp);
    var E := Pow2(f.exp) - 2;
    if E <= d {
      Pow2Mono(E, d);
      MulMono(Pow2(E), Pow2(d), Pow2(f.mant));
      MulMono(Pow2(f.mant), m, Pow2(d));
    }
  }

  lemma TopBits(f: Format, v: nat)
    requires Pow2(f.mant) <= v
    ensures IsNormalised(f, v / Pow2(Drop(f, BitLen(v))))
  {
    var d := Drop(f, BitLen(v));
    if BitLen(v) <= f.mant { Pow2Mono(BitLen(v), f.mant); }
    assert BitLen(v) == f.mant + 1 + d;
    Pow2Add(f.mant, d);
    Pow2Add(f.mant + 1, d);
    QuotientRange(v, Pow2(d), Pow2(f.mant), Pow2(f.mant + 1));
  }

  lemma QuotientRange(v: int, d: int, lo: int, hi: int)
    requires 0 < d && lo * d <= v < hi * d
    ensures lo <= v / d < hi
  {
    QuotientBounds(v, d);
    var m := v / d;
    if m < lo { MulMono(m + 1, lo, d); MulDist(d, m, 1); }
    if hi <= m { MulMono(hi, m, d); }
  }

  function Gap(a: int, b: int): nat { if a <= b then b - a else a - b }

  /** No multiple of d is closer to a than the nearest one, and an equally close other one makes it even. */
  lemma NearestMinimal(a: nat, d: nat, n: nat, t: nat)
    requires 0 < d && IsNearest(a, d, n)
    ensures Gap(n * d, a) <= Gap(t * d, a)
    ensures Gap(n * d, a) == Gap(t * d, a) && n != t ==> n % 2 == 0
  {
    if t < n {
      MulDist(d, n, t);
      MulMono(1, n - t, d);
    } else if n < t {
      MulDist(d, t, n);
      MulMono(1, t - n, d);
    }
  }

  /** The cut number: nearest to a / 2^d, with at most one bit more than the precision. */
  lemma UnitsNearest(f: Format, a: nat, k: nat, d: nat, n: nat)
    requires d == Precision(f, a, k) && n == RneShift(a, d)
    ensures IsNearest(a, Pow2(d), n)
    ensures n <= Pow2(f.mant + 1) && a < Pow2(f.mant + 1) * Pow2(d)
    ensures k < d ==> Pow2(f.mant) * Pow2(d) <= a
  {
    RneNearest(a, Pow2(d));
    if k < d {
      assert BitLen(a) == f.mant + 1 + d;
      Pow2Add(f.mant, d);
    }
    assert a < Pow2(f.mant + 1 + d) by {
      if BitLen(a) < f.mant + 1 + d { Pow2Mono(BitLen(a), f.mant + 1 + d); }
    }
    Pow2Add(f.mant + 1, d);
    RneMono(a, Pow2(f.mant + 1 + d), Pow2(d));
    RneMultiple(Pow2(f.mant + 1), d);
  }

  /** What Round returns when it does not overflow: n units of 2^(d-k), n the nearest integer to a / 2^d. */
  lemma RoundParts(f: Format, a: nat, k: nat, d: nat, n: nat)
    requires d == Precision(f, a, k) && n == RneShift(a, d) && Round(f, a, k).Finite?
    ensures Round(f, a, k).mag == n * Pow2(d - k) < Limit(f)
    ensures Round(f, a, k).mag * Pow2(k) == n * Pow2(d)
    ensures IsNearest(a, Pow2(d), n)
    ensures n <= Pow2(f.mant + 1)
    ensures k < d ==> Pow2(f.mant + d) <= a
  {
    RoundIs(f, a, k, d, n);
    UnitsNearest(f, a, k, d, n);
    Pow2Add(f.mant, d);
    Pow2Add(d - k, k);
    MulAssoc(n, Pow2(d - k), Pow2(k));
  }

  /** Twice the midpoint between the largest finite magnitude and the one that would follow it. */
  function OverflowAt(f: Format): (r: nat)
    ensures 4 <= Pow2(f.exp) && r == 2 * Limit(f) - Pow2(Pow2(f.exp) - 3)
  {
    LimitUnits(f);
    (4 * Pow2(f.mant) - 1) * Pow2(Pow2(f.exp) - 3)
  }

  lemma LimitUnits(f: Format)
    ensures 4 <= Pow2(f.exp) && Limit(f) == 2 * Pow2(f.mant) * Pow2(Pow2(f.exp) - 3)
    ensures (4 * Pow2(f.mant) - 1) * Pow2(Pow2(f.exp) - 3) == 2 * Limit(f) - Pow2(Pow2(f.exp) - 3) >= 0
  {
    Pow2Mono(2, f.exp);
    assert Pow2(2) == 4;
    LimitParts(Pow2(f.mant), Pow2(Pow2(f.exp) - 3), Pow2(Pow2(f.exp) - 2));
  }

  lemma LimitParts(M: nat, U: nat, W: nat)
    requires 0 < M && W == 2 * U
    ensures M * W == 2 * M * U
    ensures (4 * M - 1) * U == 2 * (M * W) - U >= 0
  {
    MulAssoc(M, 2, U);
    MulDist(U, 4 * M, 1);
    MulMono(0, 4 * M - 1, U);
  }

  /** Rounding overflows exactly from that midpoint on (section 4.3.1 of IEEE 754-2008). */
  lemma RoundOverflows(f: Format, a: nat, k: nat)
    ensures Round(f, a, k).Infinite? <==> 2 * a >= OverflowAt(f) * Pow2(k)
  {
    hide Precision, RneShift, Round, Pow2, Limit, IsNearest;
    var d := Precision(f, a, k);
    var n := RneShift(a, d);
    LimitUnits(f);
    RoundInfinite(f, a, k, d, n);
    var M, V, K, U := Pow2(f.mant), Pow2(d - k), Pow2(k), Pow2(Pow2(f.exp) - 3);
    UnitsNearest(f, a, k, d, n);
    Pow2Add(d - k, k);
    NextPower(f.mant);
    Overflow(a, n, M, V, K, U, d - k, Pow2(f.exp) - 3);
  }

  /** Rounding gives zero exactly up to half the least subnormal: the tie goes to the even zero. */
  lemma RoundVanishes(f: Format, a: nat, k: nat)
    ensures Round(f, a, k) == Finite(0) <==> 2 * a <= Pow2(k)
  {
    hide Round, Pow2;
    if Round(f, a, k) == Finite(0) {
      ZeroIsSmall(f, a, k, Precision(f, a, k), RneShift(a, Precision(f, a, k)));
    }
    if 2 * a <= Pow2(k) {
      SmallIsZero(f, a, k);
    }
  }

  lemma ZeroIsSmall(f: Format, a: nat, k: nat, d: nat, n: nat)
    requires d == Precision(f, a, k) && n == RneShift(a, d) && Round(f, a, k) == Finite(0)
    ensures 2 * a <= Pow2(k)
  {
    hide Pow2, RneShift, Round, BitLen, IsNearest;
    RoundParts(f, a, k, d, n);
    assert n == 0 by { if 0 < n { MulMono(1, n, Pow2(d)); } }
    NearZero(a, Pow2(d));
    Pow2Mono(d, f.mant + d);
  }

  lemma NearZero(a: nat, d: nat)
    requires IsNearest(a, d, 0)
    ensures 2 * a <= d
  {}

  lemma SmallIsZero(f: Format, a: nat, k: nat)
    requires 2 * a <= Pow2(k)
    ensures Round(f, a, k) == Finite(0)
  {
    hide Pow2, RneShift, Round;
    var n := k - k;
    if k < BitLen(a) { Pow2Mono(k, BitLen(a) - 1); }
    RneUnique(a, k, n);
    RoundIs(f, a, k, k, n);
    LimitUnits(f);
    MulMono(1, Pow2(f.mant), Pow2(Pow2(f.exp) - 3));
  }

  lemma RoundInfinite(f: Format, a: nat, k: nat, d: nat, n: nat)
    requires d == Precision(f, a, k) && n == RneShift(a, d)
    ensures k <= d
    ensures Round(f, a, k).Infinite? <==> n * Pow2(d - k) >= Limit(f)
  {
    RoundIs(f, a, k, d, n);
  }

  /** n units of D = V * K against the limit 2 * M * U, U and V being powers of two. */
  lemma Overflow(a: nat, n: nat, M: nat, V: nat, K: nat, U: nat, v: nat, u: nat)
    requires 0 < M && 0 < K && V == Pow2(v) && U == Pow2(u) && 0 < V * K && IsNearest(a, V * K, n)
    requires n <= 2 * M && a < 2 * M * (V * K) && (u <= v ==> M * (V * K) <= a)
    ensures n * V >= 2 * M * U <==> 2 * a >= (4 * M - 1) * U * K
  {
    hide Pow2, IsNearest;
    MulAssoc(4 * M - 1, U, K);
    if v < u {
      Pow2Mono(v, u);
      MulMono(2 * V, U, K);
      MulAssoc(2, V, K);
      OverflowBelow(a, n, M, V, U, V * K, U * K);
    } else if v == u {
      OverflowWithin(a, n, M, V, V * K);
    } else {
      Pow2Mono(u, v);
      MulMono(2 * U, V, K);
      MulAssoc(2, U, K);
      OverflowAbove(a, n, M, V, U, V * K, U * K);
    }
  }

  lemma OverflowBelow(a: nat, n: nat, M: nat, V: nat, U: nat, D: nat, C: nat)
    requires 0 < M && 0 < V && 0 < D && 2 * V <= U && 2 * D <= C && n <= 2 * M && a < 2 * M * D
    ensures n * V < 2 * M * U && 2 * a < (4 * M - 1) * C
  {
    ScaledLess(n, 2 * M, V, U);
    ScaledLess(2 * M, 2 * M, D, C);
    Expand(M, C);
    MulMono(1, 2 * M, C);
  }

  lemma Expand(M: int, C: int)
    ensures (4 * M - 1) * C == 2 * (2 * M * C) - C
  {
    MulDist(C, 4 * M, 1);
    MulAssoc(2, 2 * M, C);
  }

  /** Twice n units are at most m units of twice the size. */
  lemma ScaledLess(n: int, m: int, V: int, U: int)
    requires 0 <= n <= m && 0 < m && 0 < V && 2 * V <= U
    ensures 2 * (n * V) <= m * U && n * V < m * U
  {
    MulMono(n, m, V);
    MulMono(2 * V, U, m);
    MulAssoc(m, 2, V);
    MulMono(1, m, V);
  }

  lemma OverflowWithin(a: nat, n: nat, M: nat, V: nat, D: nat)
    requires 0 < M && 0 < V && 0 < D && IsNearest(a, D, n) && n <= 2 * M
    ensures n * V >= 2 * M * V <==> 2 * a >= (4 * M - 1) * D
  {
    Expand(M, D);
    if n < 2 * M {
      MulMono(n, 2 * M, V);
      MulMono(n, 2 * M - 1, D);
      MulDist(D, 2 * M, 1);
    }
  }

  lemma OverflowAbove(a: nat, n: nat, M: nat, V: nat, U: nat, D: nat, C: nat)
    requires 0 < M && 0 < U && 0 < C && 2 * U <= V && 2 * C <= D && IsNearest(a, D, n) && 0 <= M * D <= a
    ensures n * V >= 2 * M * U && 2 * a >= (4 * M - 1) * C
  {
    NearestMono(M * D, a, D, M, n);
    ScaledLess(M, M, U, V);
    MulMono(M, n, V);
    MulAssoc(2, M, U);
    ScaledLess(M, M, C, D);
    MulAssoc(2, M, C);
    Expand(M, C);
  }

  /** The rounded value is one of the format's, and none of the others is nearer to the exact value. */
  lemma RoundNearest(f: Format, a: nat, k: nat, w: nat)
    requires Round(f, a, k).Finite? && Representable(f, w)
    ensures Representable(f, Round(f, a, k).mag)
    ensures Gap(Round(f, a, k).mag * Pow2(k), a) <= Gap(w * Pow2(k), a)
    ensures Gap(Round(f, a, k).mag * Pow2(k), a) == Gap(w * Pow2(k), a) && w != Round(f, a, k).mag
      ==> (Round(f, a, k).mag / Pow2(Precision(f, a, k) - k)) % 2 == 0
  {
    var d := Precision(f, a, k);
    var n := RneShift(a, d);
    RoundParts(f, a, k, d, n);
    ModMultiple(n, Pow2(d - k));
    CutRepresentable(f, n, d - k);
    RoundCloser(f, a, k, d, n, w);
  }

  lemma CutRepresentable(f: Format, n: nat, j: nat)
    requires n <= Pow2(f.mant + 1) && At(n, j) < Limit(f)
    ensures Representable(f, At(n, j))
  {
    if n < Pow2(f.mant + 1) {
      ScaledRepresentable(f, n, j);
    } else {
      Pow2Add(f.mant + 1, j);
      var one := n - n + 1;
      Pow2Mono(1, f.mant + 1);
      assert n * Pow2(j) == one * Pow2(f.mant + 1 + j);
      ScaledRepresentable(f, one, f.mant + 1 + j);
    }
  }

  lemma RoundCloser(f: Format, a: nat, k: nat, d: nat, n: nat, w: nat)
    requires k <= d && IsNearest(a, Pow2(d), n) && Representable(f, w)
    requires k < d ==> Pow2(f.mant + d) <= a
    ensures Gap(n * Pow2(d), a) <= Gap(w * Pow2(k), a)
    ensures Gap(n * Pow2(d), a) == Gap(w * Pow2(k), a) && n * Pow2(d - k) != w ==> n % 2 == 0
  {
    var j := d - k;
    Pow2Add(j, k);
    if k == d || Pow2(f.mant + j) <= w {
      if k < d { Spacing(f, w, j); }
      assert k == d ==> Pow2(j) == 1;
      ExactQuotient(w, Pow2(j));
      var t := w / Pow2(j);
      MulAssoc(t, Pow2(j), Pow2(k));
      NearestMinimal(a, Pow2(d), n, t);
    } else {
      Pow2Add(f.mant + j, k);
      Pow2Add(f.mant, d);
      MulMono(w, Pow2(f.mant + j), Pow2(k));
      NearestMinimal(a, Pow2(d), n, Pow2(f.mant));
    }
  }
}
