/** The texts that libc prints integers as, and what its strtoll reads from a text. */
module IntegerText {
  const LLONG_MAX: int := 0x7fff_ffff_ffff_ffff

  /** How an integer is to be printed. A precision of -1 asks for no leading zeros. */
  datatype Flags = Flags(base: nat, uppercase: bool, isSigned: bool, padChar: char, width: int, precision: int)

  predicate GoodBase(base: int) { 2 <= base <= 36 }

  // ---- Digits ----

  function DigitChar(d: nat, uppercase: bool): char
    requires d < 36
  {
    if d < 10 then ('0' as int + d) as char
    else if uppercase then ('A' as int + (d - 10)) as char
    else ('a' as int + (d - 10)) as char
  }

  /** What a character stands for as a digit; 36 when it is none. */
  function DigitValue(c: char): nat {
    if '0' <= c <= '9' then c as int - '0' as int
    else if 'a' <= c <= 'z' then c as int - 'a' as int + 10
    else if 'A' <= c <= 'Z' then c as int - 'A' as int + 10
    else 36
  }

  predicate IsDigit(c: char, base: nat) { DigitValue(c) < base }

  predicate AllDigits(s: string, base: nat) { forall k: nat :: k < |s| ==> IsDigit(s[k], base) }

  function DigitsOf(v: nat, base: nat, uppercase: bool): (s: string)
    requires GoodBase(base)
    ensures s != ""
    decreases v
  {
    if v < base then [DigitChar(v, uppercase)]
    else
      Shrinks(v, base);
      DigitsOf(v / base, base, uppercase) + [DigitChar(v % base, uppercase)]
  }

  lemma Shrinks(v: nat, base: nat)
    requires GoodBase(base) && base <= v
    ensures 0 < v / base < v && v % base < base
    ensures v == (v / base) * base + v % base
  {
  }

  /** The number a string of digits stands for. */
  function Eval(s: string, base: nat): (n: nat) {
    if s == "" then 0 else Eval(s[..|s| - 1], base) * base + DigitValue(s[|s| - 1])
  }

  lemma EvalAppend(s: string, c: char, base: nat)
    ensures Eval(s + [c], base) == Eval(s, base) * base + DigitValue(c)
  {
    assert (s + [c])[..|s|] == s;
  }

  lemma DigitReads(d: nat, uppercase: bool)
    requires d < 36
    ensures DigitValue(DigitChar(d, uppercase)) == d
  {
  }

  lemma EvalOne(c: char, base: nat)
    ensures Eval([c], base) == DigitValue(c)
  {
    EvalAppend("", c, base);
    assert "" + [c] == [c];
  }

  /** The digits of a number stand for it. */
  lemma {:induction false} EvalDigits(v: nat, base: nat, uppercase: bool)
    requires GoodBase(base)
    ensures AllDigits(DigitsOf(v, base, uppercase), base)
    ensures Eval(DigitsOf(v, base, uppercase), base) == v
    decreases v
  {
    hide DigitValue, DigitChar, Eval;
    if v < base {
      DigitReads(v, uppercase);
      EvalOne(DigitChar(v, uppercase), base);
    } else {
      var q, r := v / base, v % base;
      Shrinks(v, base);
      EvalDigits(q, base, uppercase);
      DigitReads(r, uppercase);
      EvalAppend(DigitsOf(q, base, uppercase), DigitChar(r, uppercase), base);
    }
  }

  function Repeat(c: char, n: int): (s: string)
    ensures |s| == if n < 0 then 0 else n
    ensures forall k: nat :: k < |s| ==> s[k] == c
  {
    if n <= 0 then "" else [c] + Repeat(c, n - 1)
  }

  lemma {:induction false} EvalZeros(n: int, s: string, base: nat)
    ensures Eval(Repeat('0', n) + s, base) == Eval(s, base)
    decreases |s|, n
  {
    if s != "" {
      var t := s[..|s| - 1];
      EvalZeros(n, t, base);
      assert Repeat('0', n) + s == (Repeat('0', n) + t) + [s[|s| - 1]];
      EvalAppend(Repeat('0', n) + t, s[|s| - 1], base);
    } else if n > 0 {
      EvalZeros(n - 1, "", base);
      var z := Repeat('0', n);
      assert z[..n - 1] == Repeat('0', n - 1);
      assert Repeat('0', n) + "" == z && Repeat('0', n - 1) + "" == Repeat('0', n - 1);
    }
  }

  lemma {:induction false} EvalGrows(s: string, t: string, base: nat)
    requires 1 <= base
    ensures Eval(s, base) <= Eval(s + t, base)
    decreases |t|
  {
    if t == "" {
      assert s + t == s;
    } else {
      var u := t[..|t| - 1];
      EvalGrows(s, u, base);
      assert s + t == (s + u) + [t[|t| - 1]];
      EvalAppend(s + u, t[|t| - 1], base);
      Grows(Eval(s + u, base), base, DigitValue(t[|t| - 1]));
    }
  }

  lemma Grows(n: nat, base: nat, d: nat)
    requires 1 <= base
    ensures n <= n * base + d
  {
  }

  // ---- Printing ----

  function Magnitude(n: int): nat { if n < 0 then 0 - n else n }

  /** The digits, with zeros in front up to the precision. */
  function Precise(n: int, f: Flags): string
    requires GoodBase(f.base)
  {
    var digits := DigitsOf(Magnitude(n), f.base, f.uppercase);
    Repeat('0', f.precision - |digits|) + digits
  }

  function Unpadded(n: int, f: Flags): string
    requires GoodBase(f.base)
  {
    if n < 0 then "-" + Precise(n, f) else Precise(n, f)
  }

  /** What print_integer prints: the padding comes before the sign, whatever the padding is. */
  function Printed(n: int, f: Flags): string
    requires GoodBase(f.base)
  {
    Repeat(f.padChar, f.width - |Unpadded(n, f)|) + Unpadded(n, f)
  }

  // ---- Reading ----

  predicate IsSpace(c: char) { c == ' ' || c == '\t' || c == '\n' || c as int == 11 || c as int == 12 || c == '\r' }

  /** The character at a place of a string that ends in a zero byte. */
  function CharAt(s: string, i: nat): char { if i < |s| then s[i] else '\0' }

  function SkipSpace(s: string, i: nat): (j: nat)
    requires i <= |s|
    ensures i <= j <= |s|
    ensures forall k: nat :: i <= k < j ==> IsSpace(s[k])
    ensures j < |s| ==> !IsSpace(s[j])
    decreases |s| - i
  {
    if i < |s| && IsSpace(s[i]) then SkipSpace(s, i + 1) else i
  }

  function SkipSign(s: string, i: nat): nat { if CharAt(s, i) == '-' || CharAt(s, i) == '+' then i + 1 else i }

  /** "0x" or "0b" announces the base, if the base asked for is that one or 0. */
  predicate HasPrefix(s: string, i: nat, base: nat) {
    && CharAt(s, i) == '0'
    && (((CharAt(s, i + 1) == 'x' || CharAt(s, i + 1) == 'X') && (base == 0 || base == 16))
        || ((CharAt(s, i + 1) == 'b' || CharAt(s, i + 1) == 'B') && (base == 0 || base == 2)))
  }

  /** Steps over the prefix, or over a leading zero without one. */
  function SkipPrefix(s: string, i: nat, base: nat): nat {
    if CharAt(s, i) != '0' then i else if HasPrefix(s, i, base) then i + 2 else i + 1
  }

  /** The base the digits are in; base 0 leaves it to the text. */
  function BaseOf(s: string, i: nat, base: nat): (b: nat)
    requires base == 0 || GoodBase(base)
    ensures GoodBase(b) && (base != 0 ==> b == base)
  {
    if base != 0 then base
    else if CharAt(s, i) != '0' then 10
    else if CharAt(s, i + 1) == 'x' || CharAt(s, i + 1) == 'X' then 16
    else if CharAt(s, i + 1) == 'b' || CharAt(s, i + 1) == 'B' then 2
    else 8
  }

  function DigitsEnd(s: string, i: nat, base: nat): (j: nat)
    requires i <= |s|
    ensures i <= j <= |s|
    ensures forall k: nat :: i <= k < j ==> IsDigit(s[k], base)
    ensures j < |s| ==> !IsDigit(s[j], base)
    decreases |s| - i
  {
    if i < |s| && IsDigit(s[i], base) then DigitsEnd(s, i + 1, base) else i
  }

  /** A value, or no meaning when it does not fit a long long. */
  datatype Parsed = Value(n: int) | Overflow

  /** The number whose digits are s[d..e], after white space up to i. */
  function Number(s: string, i: nat, d: nat, e: nat, base: nat): Parsed
    requires d <= e <= |s|
  {
    var n := Eval(s[d..e], base);
    if n > LLONG_MAX then Overflow else Value(if CharAt(s, i) == '-' then 0 - n else n)
  }

  /** Where the digits start once white space and sign are skipped. */
  function NumberStart(s: string): nat { SkipSign(s, SkipSpace(s, 0)) }

  /** The place strtoll starts to add up digits from. */
  function DigitsStart(s: string, base: nat): (d: nat)
    ensures d <= |s|
  {
    SkipPrefix(s, NumberStart(s), base)
  }

  function Strtoll(s: string, base: int): Parsed {
    if !GoodBase(base) then Value(0)
    else
      var d := DigitsStart(s, base);
      Number(s, SkipSpace(s, 0), d, DigitsEnd(s, d, base), base)
  }

  /** What strtoll stores in *endptr, as a place in the text: 0 when it saw no digit. */
  function EndPtr(s: string, base: int): nat {
    if !GoodBase(base) then 0
    else
      var d := DigitsStart(s, base);
      var e := DigitsEnd(s, d, base);
      if e == d then 0 else e
  }
}
