/** What a printed integer looks like: padding, sign and digits, character by character. */
module IntegerShape {
  import opened Numbers
  import opened IntegerText
  import opened IntegerRoundTrip

  /** A digit of the base, its letters in the case asked for. */
  predicate IsCased(c: char, base: nat, uppercase: bool) {
    && IsDigit(c, base)
    && ('0' <= c <= '9' || if uppercase then 'A' <= c <= 'Z' else 'a' <= c <= 'z')
  }

  lemma CharIsCased(d: nat, base: nat, uppercase: bool)
    requires GoodBase(base) && d < base
    ensures IsCased(DigitChar(d, uppercase), base, uppercase)
    ensures DigitChar(d, uppercase) == '0' <==> d == 0
  {
  }

  lemma {:induction false} DigitsCased(v: nat, base: nat, uppercase: bool, k: nat)
    requires GoodBase(base) && k < |DigitsOf(v, base, uppercase)|
    ensures IsCased(DigitsOf(v, base, uppercase)[k], base, uppercase)
    decreases v
  {
    hide DigitChar, IsCased;
    if v < base {
      CharIsCased(v, base, uppercase);
    } else {
      Shrinks(v, base);
      CharIsCased(v % base, base, uppercase);
      if k < |DigitsOf(v / base, base, uppercase)| {
        DigitsCased(v / base, base, uppercase, k);
      }
    }
  }

  /** The digits are in the order of the characters, the first ten of them '0' to '9'. */
  lemma DigitsInOrder(d: nat, e: nat, uppercase: bool)
    requires d < e < 36
    ensures DigitChar(d, uppercase) < DigitChar(e, uppercase)
    ensures d < 10 <==> '0' <= DigitChar(d, uppercase) <= '9'
  {
  }

  /** The first digit counts most: what it is worth is a power of the base. */
  lemma {:induction false} EvalLeads(c: char, s: string, base: nat)
    ensures Eval([c] + s, base) == DigitValue(c) * Power(base, |s|) + Eval(s, base)
    decreases |s|
  {
    hide DigitValue, Eval;
    if s == "" {
      EvalOne(c, base);
      EvalNone(base);
      assert [c] + s == [c];
    } else {
      var t := s[..|s| - 1];
      var d := s[|s| - 1];
      EvalLeads(c, t, base);
      EvalAppend(t, d, base);
      EvalAppend([c] + t, d, base);
      assert [c] + s == ([c] + t) + [d] && s == t + [d];
      PowerStep(DigitValue(c), base, |t|);
      Distribute(DigitValue(c) * Power(base, |t|), Eval(t, base), base);
    }
  }

  lemma EvalNone(base: nat)
    ensures Eval("", base) == 0
  {
  }

  lemma Distribute(x: int, y: int, base: int)
    ensures (x + y) * base == x * base + y * base
  {
  }

  /** No number but zero begins with the digit zero. */
  lemma {:induction false} FirstDigit(v: nat, base: nat, uppercase: bool)
    requires GoodBase(base)
    ensures DigitsOf(v, base, uppercase)[0] == '0' <==> v == 0
    ensures v == 0 ==> |DigitsOf(v, base, uppercase)| == 1
    decreases v
  {
    hide DigitChar;
    if v < base {
      CharIsCased(v, base, uppercase);
    } else {
      Shrinks(v, base);
      FirstDigit(v / base, base, uppercase);
    }
  }

  /**
   The shape of a text: `pad` padding characters, a minus or none, and `count` digits that stand for the number. There
   are as many digits as the precision asks for and no more than needed, and padding only up to the width.
   */
  ghost predicate HasShape(t: string, n: int, f: Flags, pad: nat, count: nat) {
    var sign := if n < 0 then 1 else 0;
    && |t| == pad + sign + count && 1 <= count
    && (forall k: nat :: k < pad ==> t[k] == f.padChar)
    && (n < 0 ==> t[pad] == '-')
    && (forall k: nat :: pad + sign <= k < |t| ==> IsCased(t[k], f.base, f.uppercase))
    && Eval(t[pad + sign..], f.base) == Magnitude(n)
    && f.precision <= count && (f.precision < count && 1 < count ==> t[pad + sign] != '0')
    && f.width <= |t| && (0 < pad ==> |t| == f.width)
  }

  lemma PreciseShape(n: int, f: Flags)
    requires GoodBase(f.base)
    ensures var t := Precise(n, f);
      && (forall k: nat :: k < |t| ==> IsCased(t[k], f.base, f.uppercase))
      && f.precision <= |t| && (f.precision < |t| && 1 < |t| ==> t[0] != '0')
  {
    hide IsCased;
    var digits := DigitsOf(Magnitude(n), f.base, f.uppercase);
    var t := Precise(n, f);
    var zeros := |t| - |digits|;
    CharIsCased(0, f.base, f.uppercase);
    FirstDigit(Magnitude(n), f.base, f.uppercase);
    forall k: nat | k < |t| ensures IsCased(t[k], f.base, f.uppercase) {
      if k >= zeros {
        DigitsCased(Magnitude(n), f.base, f.uppercase, k - zeros);
      }
    }
  }

  /** The text of every integer has that shape, with one number of padding characters and digits. */
  lemma PrintedShape(n: int, f: Flags) returns (pad: nat, count: nat)
    requires GoodBase(f.base)
    ensures HasShape(Printed(n, f), n, f, pad, count)
  {
    hide IsCased, Eval, Precise;
    PreciseShape(n, f);
    PreciseReads(n, f);
    var t, body := Printed(n, f), Precise(n, f);
    count := |body|;
    pad := |t| - |Unpadded(n, f)|;
    assert t[pad + (if n < 0 then 1 else 0)..] == body;
  }

  /** Two texts of the same shape are the same: the shape says all there is to say of the text. */
  lemma ShapeDecides(t: string, u: string, n: int, f: Flags, pad: nat, count: nat)
    requires GoodBase(f.base) && HasShape(t, n, f, pad, count) && HasShape(u, n, f, pad, count)
    ensures t == u
  {
    hide IsCased, Eval, Magnitude;
    var d := pad + if n < 0 then 1 else 0;
    CasedDigits(t[d..], u[d..], f.base, f.uppercase);
    forall k: nat | k < |t| ensures t[k] == u[k] {
      if k >= d {
        assert t[k] == t[d..][k - d] && u[k] == u[d..][k - d];
      }
    }
  }

  lemma {:induction false} CasedDigits(a: string, b: string, base: nat, uppercase: bool)
    requires GoodBase(base) && |a| == |b| && Eval(a, base) == Eval(b, base)
    requires forall k: nat :: k < |a| ==> IsCased(a[k], base, uppercase) && IsCased(b[k], base, uppercase)
    ensures a == b
    decreases |a|
  {
    hide IsDigit, DigitValue, IsCased, Eval;
    if a != "" {
      var m := |a| - 1;
      EvalAppend(a[..m], a[m], base);
      EvalAppend(b[..m], b[m], base);
      assert a == a[..m] + [a[m]] && b == b[..m] + [b[m]];
      OneCased(a[m], b[m], base, uppercase);
      SameDigit(Eval(a[..m], base), Eval(b[..m], base), DigitValue(a[m]), DigitValue(b[m]), base);
      CasedDigits(a[..m], b[..m], base, uppercase);
    }
  }

  /** In one case, a digit is known by its value. */
  lemma OneCased(c: char, d: char, base: nat, uppercase: bool)
    requires GoodBase(base) && IsCased(c, base, uppercase) && IsCased(d, base, uppercase)
    ensures DigitValue(c) < base && DigitValue(d) < base && (DigitValue(c) == DigitValue(d) ==> c == d)
  {
  }

  lemma SameDigit(x: nat, y: nat, c: nat, d: nat, base: nat)
    requires c < base && d < base && x * base + c == y * base + d
    ensures x == y && c == d
  {
    Product(x, y, base);
    NoMultiple(y - x, base, c - d);
  }

  lemma Product(x: int, y: int, base: int)
    ensures (y - x) * base == y * base - x * base
  {
  }

  lemma NoMultiple(k: int, base: int, r: int)
    requires k * base == r && 0 - base < r < base
    ensures k == 0
  {
    if k >= 1 {
      Positive(k - 1, base);
    } else if k <= -1 {
      Positive(-1 - k, base);
    }
  }

  lemma Positive(k: int, base: int)
    requires 0 <= k && 0 <= base
    ensures 0 <= k * base && (k + 1) * base == k * base + base && (-1 - k) * base == 0 - k * base - base
  {
  }

  /** 255 in base 16, in both cases. */
  lemma CasedExample()
    ensures Printed(255, Flags(16, false, false, ' ', 0, -1)) == "ff"
    ensures Printed(255, Flags(16, true, false, ' ', 0, -1)) == "FF"
  {
    assert DigitsOf(255, 16, false) == DigitsOf(15, 16, false) + "f";
    assert DigitsOf(255, 16, true) == DigitsOf(15, 16, true) + "F";
  }
}
