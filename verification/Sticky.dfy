/**
 Why a sticky bit is enough: a number cut down to an odd approximation of itself stays between the same two even
 neighbours, and no rounding boundary of a shorter format lies strictly between those.
 */
module Sticky {
  import opened PowerOfTwo
  import opened Ieee
  import opened Rounding
  import opened Words

  /** a >> j with the bits shifted out or-ed into the last place. */
  function StickyShift(a: nat, j: nat): nat { OrBit(Shr(a, j), a % Pow2(j) != 0) }

  /** a | b for a single bit b. */
  function OrBit(a: nat, b: bool): nat { if b && a % 2 == 0 then a + 1 else a }

  /** In units of u, v is a exactly, or v is odd and less than a unit away. */
  ghost predicate Near(a: int, v: int, u: int) {
    a == v * u || (v % 2 == 1 && (v - 1) * u < a < (v + 1) * u)
  }

  lemma StickyIsNear(a: nat, j: nat)
    ensures Near(a, StickyShift(a, j), Pow2(j))
  {
    var u := Pow2(j);
    var q, r := Shr(a, j), a % u;
    assert a == q * u + r;
    MulDist(u, q, 1);
    MulDist(u, q, 2);
  }

  /** Strictly inside one cell of a grid as fine as half the rounding unit, everything rounds alike. */
  lemma RneCell(a: nat, b: nat, d: nat, t: nat, q: nat)
    requires q * Pow2(t) < a < (q + 1) * Pow2(t) && q * Pow2(t) < b < (q + 1) * Pow2(t) && t + 1 <= d
    ensures RneShift(a, d) == RneShift(b, d)
  {
    var u, m := Pow2(t), Pow2(d - 1 - t);
    Pow2Add(d - 1 - t, t);
    assert Pow2(d) == 2 * (m * u);
    RneNearest(a, Pow2(d));
    CellNearest(a, b, RneShift(a, d), m, u, q, Pow2(d));
    RneUnique(b, d, RneShift(a, d));
  }

  lemma CellNearest(a: nat, b: nat, n: nat, m: int, u: int, q: int, d: nat)
    requires 0 < u && d == 2 * (m * u) && IsNearest(a, d, n)
    requires q * u < a < (q + 1) * u && q * u < b < (q + 1) * u
    ensures IsNearest(b, d, n)
  {
    HalfUnits(n, m * u);
    CellSide(2 * (n as int) - 1, m, u, q, a, b);
    CellSide(2 * (n as int) + 1, m, u, q, a, b);
  }

  lemma HalfUnits(n: int, h: int)
    ensures 2 * (n * (2 * h)) - 2 * h == 2 * ((2 * n - 1) * h)
    ensures 2 * (n * (2 * h)) + 2 * h == 2 * ((2 * n + 1) * h)
  {
    MulDist(h, 2 * n, 1);
  }

  /** A multiple of the cell size lies on the same side of both. */
  lemma CellSide(c: int, m: int, u: int, q: int, a: int, b: int)
    requires 0 < u && q * u < a < (q + 1) * u && q * u < b < (q + 1) * u
    ensures c * (m * u) <= a <==> c * (m * u) < b
    ensures a <= c * (m * u) <==> b < c * (m * u)
    ensures c * (m * u) != a
  {
    MulAssoc(c, m, u);
    if c * m <= q { MulMono(c * m, q, u); } else { MulMono(q + 1, c * m, u); }
  }

  lemma CellBitLen(a: nat, b: nat, t: nat, q: nat)
    requires q * Pow2(t) < a < (q + 1) * Pow2(t) && q * Pow2(t) < b < (q + 1) * Pow2(t) && 1 <= q
    ensures BitLen(a) == BitLen(b) && t < BitLen(a)
  {
    hide Pow2, BitLen;
    var L := BitLen(a);
    MulMono(1, q, Pow2(t));
    if L <= t { Pow2Mono(L, t); }
    var one := t - t + 1;
    Pow2Add(L - 1 - t, t);
    Pow2Add(L - t, t);
    CellSide(one, Pow2(L - 1 - t), Pow2(t), q, a, b);
    CellSide(one, Pow2(L - t), Pow2(t), q, a, b);
    BitLenUnique(b, L - 1);
  }

  lemma CellRound(f: Format, a: nat, b: nat, k: nat, t: nat, q: nat)
    requires q * Pow2(t) < a < (q + 1) * Pow2(t) && q * Pow2(t) < b < (q + 1) * Pow2(t) && Pow2(f.mant + 1) <= q
    ensures Round(f, a, k) == Round(f, b, k)
  {
    CellBitLen(a, b, t, q);
    CellPrecision(f, a, k, t, q);
    var d := Precision(f, a, k);
    RneCell(a, b, d, t, q);
    RoundIs(f, a, k, d, RneShift(a, d));
    RoundIs(f, b, k, d, RneShift(a, d));
  }

  lemma CellPrecision(f: Format, a: nat, k: nat, t: nat, q: nat)
    requires q * Pow2(t) < a && Pow2(f.mant + 1) <= q
    ensures t + 1 <= Precision(f, a, k)
  {
    Pow2Add(f.mant + 1, t);
    MulMono(Pow2(f.mant + 1), q, Pow2(t));
    if BitLen(a) <= f.mant + 1 + t { Pow2Mono(BitLen(a), f.mant + 1 + t); }
  }

  /** The main fact: a sticky approximation with two bits to spare rounds like the number it stands for. */
  lemma NearRound(f: Format, a: nat, v: nat, s: nat, k: nat)
    requires Near(a, v, Pow2(s)) && 2 * Pow2(f.mant + 1) < v
    ensures 0 <= v * Pow2(s)
    ensures Round(f, a, k) == Round(f, v * Pow2(s), k)
  {
    var u := Pow2(s);
    MulMono(0, v, u);
    if a != v * u {
      var q := v / 2;
      NearCell(a, v, u, q);
      assert Pow2(s + 1) == 2 * u;
      CellRound(f, a, v * u, k, s + 1, q);
    }
  }

  lemma NearCell(a: int, v: int, u: int, q: int)
    requires 0 < u && v == 2 * q + 1 && (v - 1) * u < a < (v + 1) * u
    ensures q * (2 * u) < a < (q + 1) * (2 * u)
    ensures q * (2 * u) < v * u < (q + 1) * (2 * u)
  {
    MulAssoc(q, 2, u);
    MulAssoc(q + 1, 2, u);
    MulMono(v - 1, v, u);
    MulMono(v, v + 1, u);
  }

  /** The same at a fixed shift. */
  lemma NearShift(a: nat, v: nat, s: nat, d: nat)
    requires Near(a, v, Pow2(s)) && s + 2 <= d
    ensures 0 <= v * Pow2(s)
    ensures RneShift(a, d) == RneShift(v * Pow2(s), d)
  {
    var u := Pow2(s);
    MulMono(0, v, u);
    if a != v * u {
      var q := v / 2;
      NearCell(a, v, u, q);
      assert Pow2(s + 1) == 2 * u;
      RneCell(a, v * u, d, s + 1, q);
    }
  }
}
