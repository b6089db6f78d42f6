/** Unsigned machine words, and numbers held in two of them: B is the weight of the high word. */
module Words {
  import opened PowerOfTwo

  /** a >> k and a << k on an unsigned word of w bits. */
  function Shr(a: nat, k: nat): nat {
    QuotientBounds(a, Pow2(k));
    a / Pow2(k)
  }

  function Shl(a: nat, k: nat, w: nat): nat { (a * Pow2(k)) % Pow2(w) }

  lemma WordsLess(a0: int, a1: int, b0: int, b1: int, B: int)
    requires 0 <= a1 < B && 0 <= b1 < B
    ensures (a0 < b0 || (a0 == b0 && a1 <= b1)) <==> a0 * B + a1 <= b0 * B + b1
  {
    if a0 < b0 { MulMono(a0 + 1, b0, B); MulDist(B, a0, 1); }
    if b0 < a0 { MulMono(b0 + 1, a0, B); MulDist(B, b0, 1); }
  }

  /** Subtraction with a borrow out of the low word. */
  lemma WordsSub(a0: int, a1: int, b0: int, b1: int, B: int)
    requires 0 <= a1 < B && 0 <= b1 < B
    ensures var d0 := a0 - b0 - (if a1 < b1 then 1 else 0);
      d0 * B + (a1 - b1) % B == (a0 * B + a1) - (b0 * B + b1)
  {
    if a1 < b1 { DivModUnique(a1 - b1, B, -1, a1 - b1 + B); } else { DivModUnique(a1 - b1, B, 0, a1 - b1); }
    MulDist(B, a0, b0);
    MulDist(B, a0 - b0, 1);
  }

  /** Doubling carries the low word's top bit into the high word. */
  lemma WordsDouble(a0: int, a1: int, B: int)
    requires 0 <= a1 < B && B % 2 == 0
    ensures (a0 + a0 + a1 / (B / 2)) * B + (2 * a1) % B == 2 * (a0 * B + a1)
    ensures 0 <= (2 * a1) % B < B
  {
    var top := B / 2;
    if a1 < top {
      DivModUnique(a1, top, 0, a1);
      DivModUnique(2 * a1, B, 0, 2 * a1);
    } else {
      DivModUnique(a1, top, 1, a1 - top);
      DivModUnique(2 * a1, B, 1, 2 * a1 - B);
    }
    MulDist(B, a0 + a0, a1 / top);
    MulDist(B, a0, a0);
  }

  /** The bits shifted out of the low word are the ones the high word takes in. */
  lemma WordsShift(a1: nat, k: nat, w: nat)
    requires a1 < Pow2(w) && k <= w
    ensures Shr(a1, w - k) * Pow2(w) + Shl(a1, k, w) == a1 * Pow2(k)
    ensures Shr(a1, w - k) < Pow2(k) && Shl(a1, k, w) < Pow2(w)
  {
    var D, K, B := Pow2(w - k), Pow2(k), Pow2(w);
    Pow2Add(w - k, k);
    ShiftOut(a1, D, K, B);
  }

  lemma ShiftOut(a: nat, D: nat, K: nat, B: nat)
    requires 0 < D && 0 < K && B == D * K && a < B
    ensures 0 < B && (a / D) * B + (a * K) % B == a * K && 0 <= a / D < K
  {
    DivModScale(a, D, K);
    var q, r := a / D, a % D;
    assert a == q * D + r;
    assert (a * K) % B == r * K;
    MulDist(K, q * D, r);
    MulAssoc(q, D, K);
    if K <= q { MulMono(K, q, D); }
  }
}
