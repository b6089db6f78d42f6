/** The 64-bit helpers of fma: counting leading zeros and the double-word product. */
module Words64 {
  import opened PowerOfTwo

  const B32: nat := 0x1_0000_0000
  const B64: nat := 0x1_0000_0000_0000_0000

  lemma Powers()
    ensures Pow2(2) == 4 && Pow2(4) == 0x10 && Pow2(8) == 0x100 && Pow2(16) == 0x1_0000
    ensures Pow2(32) == B32 && Pow2(64) == B64
  {
    var two := B32 - B32 + 2;
    assert Pow2(two) == 4;
    SquarePower(two, 4);
    SquarePower(2 * two, 0x10);
    SquarePower(4 * two, 0x100);
    SquarePower(8 * two, 0x1_0000);
    SquarePower(16 * two, B32);
  }

  lemma SquarePower(n: nat, v: nat)
    requires Pow2(n) == v
    ensures Pow2(2 * n) == v * v
  {
    Pow2Add(n, n);
    assert n + n == 2 * n;
  }

  /** x is y followed by s more bits, y being nonzero and of at most b bits; r of the 64 are zeros already counted. */
  ghost predicate Halving(x: nat, y: nat, s: nat, r: nat, b: nat) {
    && y * Pow2(s) <= x < (y + 1) * Pow2(s) && 0 < y < Pow2(b) && r + s + b == 64
  }

  /** One halving: if the upper b bits are not empty, go on with them, otherwise count b zeros. */
  method Halve(y0: nat, r0: nat, b: nat, unit: nat, ghost x: nat, ghost s0: nat) returns (y: nat, r: nat, ghost s: nat)
    requires Halving(x, y0, s0, r0, 2 * b) && unit == Pow2(b)
    ensures Halving(x, y, s, r, b)
  {
    y, r, s := y0, r0, s0;
    if y / unit != 0 {
      HalvingUp(x, y, s, r, b);
      y, s := y / unit, s + b;
    } else {
      if unit <= y { DivModUnique(y, unit, y / unit, y % unit); }
      r := r + b;
    }
  }

  lemma HalvingUp(x: nat, y: nat, s: nat, r: nat, b: nat)
    requires Halving(x, y, s, r, 2 * b) && y / Pow2(b) != 0
    ensures Halving(x, y / Pow2(b), s + b, r, b)
  {
    var q := y / Pow2(b);
    QuotientBounds(y, Pow2(b));
    HalvingUpTo(x, y, s, r, b, q);
  }

  lemma HalvingUpTo(x: nat, y: nat, s: nat, r: nat, b: nat, q: nat)
    requires Halving(x, y, s, r, 2 * b) && 0 < q && q * Pow2(b) <= y < q * Pow2(b) + Pow2(b)
    ensures Halving(x, q, s + b, r, b)
  {
    HalfLength(y, q, b);
    Pow2Add(s, b);
    MulComm(Pow2(s), Pow2(b));
    NestedBounds(x, y, q, Pow2(b), Pow2(s));
  }

  lemma HalfLength(y: nat, q: nat, b: nat)
    requires y < Pow2(2 * b) && q * Pow2(b) <= y
    ensures q < Pow2(b)
  {
    SquarePower(b, Pow2(b));
    if Pow2(b) <= q { MulMono(Pow2(b), q, Pow2(b)); }
  }

  lemma NestedBounds(x: int, y: int, q: int, u: int, v: int)
    requires 0 < u && 0 < v && q * u <= y < q * u + u && y * v <= x < (y + 1) * v
    ensures q * (u * v) <= x < (q + 1) * (u * v)
  {
    MulDist(u, q, 1);
    MulMono(q * u, y, v);
    MulMono(y + 1, (q + 1) * u, v);
    MulAssoc(q, u, v);
    MulAssoc(q + 1, u, v);
  }

  /** The number of leading zeros of a nonzero word. */
  method Clz64(x: nat) returns (r: nat)
    requires 0 < x < B64
    ensures r <= 63
    ensures Pow2(63 - r) <= x < Pow2(64 - r)
  {
    Powers();
    ghost var s := 0;
    ghost var zero := s;
    assert Pow2(zero) == 1;
    var y := x;
    r := 0;
    WholeWord(x, zero);
    y, r, s := Halve(y, r, 32, B32, x, s);
    y, r, s := Halve(y, r, 16, 0x1_0000, x, s);
    y, r, s := Halve(y, r, 8, 0x100, x, s);
    y, r, s := Halve(y, r, 4, 0x10, x, s);
    y, r, s := Halve(y, r, 2, 4, x, s);
    HalvingEnd(x, y, s, r);
    r := if y / 2 == 0 then r + 1 else r;
  }

  lemma WholeWord(x: nat, zero: nat)
    requires 0 < x < B64 && zero == 0
    ensures Halving(x, x, zero, 0, 64)
  {
    Powers();
    assert Pow2(zero) == 1;
  }

  lemma HalvingEnd(x: nat, y: nat, s: nat, r: nat)
    requires Halving(x, y, s, r, 2)
    ensures r <= 62
    ensures if y / 2 == 0 then Pow2(62 - r) <= x < Pow2(63 - r) else Pow2(63 - r) <= x < Pow2(64 - r)
  {
    Powers();
    assert Pow2(s + 1) == 2 * Pow2(s) && Pow2(s + 2) == 4 * Pow2(s);
    if y >= 2 { MulMono(2, y, Pow2(s)); MulMono(y + 1, 4, Pow2(s)); }
    assert 63 - r == s + 1 && 64 - r == s + 2 && 62 - r == s;
  }

  /** The exact 128-bit product, from four half-word products. */
  method Mul64(x: nat, y: nat) returns (hi: nat, lo: nat)
    requires x < B64 / 2 && y < B64 / 2
    ensures hi * B64 + lo == x * y && lo < B64
  {
    var xlo, xhi := x % B32, x / B32;
    var ylo, yhi := y % B32, y / B32;
    var t1, t2, t3 := PartialProducts(xlo, xhi, ylo, yhi, x, y);
    lo := (t1 + (t2 * B32) % B64) % B64;
    hi := t3 + t2 / B32 + (if t1 > lo then 1 else 0);
    Middle(t1, t2, lo);
  }

  /** None of the half-word products overflows a word. */
  method PartialProducts(xlo: nat, xhi: nat, ylo: nat, yhi: nat, ghost x: nat, ghost y: nat)
    returns (t1: nat, t2: nat, t3: nat)
    requires x < B64 / 2 && y < B64 / 2
    requires xlo == x % B32 && xhi == x / B32 && ylo == y % B32 && yhi == y / B32
    ensures t1 < B64 && t2 < B64 && x * y == t3 * B64 + t2 * B32 + t1
  {
    hide Pow2;
    HalfProducts(x, y, xlo, xhi, ylo, yhi);
    MulMono(0, xlo, ylo);
    MulMono(0, xlo, yhi);
    MulMono(0, xhi, ylo);
    MulMono(0, xhi, yhi);
    t1 := xlo * ylo;
    t2 := xlo * yhi + xhi * ylo;
    t3 := xhi * yhi;
  }

  lemma HalfProducts(x: nat, y: nat, xlo: nat, xhi: nat, ylo: nat, yhi: nat)
    requires x < B64 / 2 && y < B64 / 2
    requires xlo == x % B32 && xhi == x / B32 && ylo == y % B32 && yhi == y / B32
    ensures xlo * yhi + xhi * ylo < B64 && xlo * ylo < B64
    ensures x * y == (xhi * yhi) * B64 + (xlo * yhi + xhi * ylo) * B32 + xlo * ylo
  {
    assert x == xhi * B32 + xlo && y == yhi * B32 + ylo;
    Expand(xhi, xlo, yhi, ylo, B32);
    assert xhi < B32 / 2 && yhi < B32 / 2;
    MulMono(xlo, B32 - 1, yhi);
    MulMono(yhi, B32 / 2, B32 - 1);
    MulMono(xhi, B32 / 2, ylo);
    MulMono(ylo, B32 - 1, B32 / 2);
    MulMono(xlo, B32 - 1, ylo);
    MulMono(ylo, B32 - 1, B32 - 1);
  }

  lemma Expand(a: int, b: int, c: int, d: int, B: int)
    ensures (a * B + b) * (c * B + d) == (a * c) * (B * B) + (b * c + a * d) * B + b * d
  {
    MulDist(c * B + d, a * B, b);
    MulDist(a * B, c * B, d);
    MulDist(b, c * B, d);
    MulDist(B, b * c, a * d);
    assert (a * B) * (c * B) == (a * c) * (B * B);
    assert (a * B) * d == (a * d) * B && b * (c * B) == (b * c) * B;
  }

  /** The low word overflowed exactly when it came out below the first product. */
  lemma Middle(t1: nat, t2: nat, lo: nat)
    requires t1 < B64 && t2 < B64 && lo == (t1 + (t2 * B32) % B64) % B64
    ensures (t2 / B32 + (if t1 > lo then 1 else 0)) * B64 + lo == t2 * B32 + t1
  {
    assert t2 == (t2 / B32) * B32 + t2 % B32;
    assert t2 * B32 == (t2 / B32) * B64 + (t2 % B32) * B32;
    DivModUnique(t2 * B32, B64, t2 / B32, (t2 % B32) * B32);
  }
}
