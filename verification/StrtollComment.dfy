/**
 The comment on strtoll against its code. The comment allows base 0 and counts a leading zero as a digit; the code
 refuses base 0 and steps over the zero.
 */
module StrtollComment {
  import opened IntegerText
  import opened IntegerRoundTrip

  predicate Supported(base: int) { base == 0 || GoodBase(base) }

  /** The digits the comment speaks of: all after the prefix, a leading zero among them. */
  function DescribedStart(s: string, base: nat): (p: nat)
    ensures p <= |s|
  {
    if HasPrefix(s, NumberStart(s), base) then NumberStart(s) + 2 else NumberStart(s)
  }

  function DescribedDigits(s: string, base: int): string
    requires Supported(base)
  {
    var b := BaseOf(s, NumberStart(s), base);
    s[DescribedStart(s, base)..DigitsEnd(s, DescribedStart(s, base), b)]
  }

  /** The number the comment describes. */
  function Described(s: string, base: int): Parsed {
    if !Supported(base) then Value(0)
    else
      var b, p := BaseOf(s, NumberStart(s), base), DescribedStart(s, base);
      Number(s, SkipSpace(s, 0), p, DigitsEnd(s, p, b), b)
  }

  /** The place of the first invalid character, or of the text itself if there were no digits at all. */
  function DescribedEnd(s: string, base: int): nat {
    if !Supported(base) || DescribedDigits(s, base) == "" then 0
    else DigitsEnd(s, DescribedStart(s, base), BaseOf(s, NumberStart(s), base))
  }

  predicate AllZeros(s: string) { forall k: nat :: k < |s| ==> s[k] == '0' }

  /** A string of digits is worth nothing exactly when all of them are zeros. */
  lemma {:induction false} NoValue(s: string, base: nat)
    requires GoodBase(base)
    ensures Eval(s, base) == 0 <==> AllZeros(s)
    decreases |s|
  {
    if s != "" {
      var t, c := s[..|s| - 1], s[|s| - 1];
      NoValue(t, base);
      assert s == t + [c];
      EvalAppend(t, c, base);
      SumIsZero(Eval(t, base), base, DigitValue(c));
      assert DigitValue(c) == 0 <==> c == '0';
      assert AllZeros(s) <==> AllZeros(t) && c == '0';
    }
  }

  lemma SumIsZero(n: nat, base: nat, d: nat)
    requires 2 <= base
    ensures n * base + d == 0 <==> n == 0 && d == 0
  {
  }

  /** The two starts differ by a leading zero at most. */
  lemma Starts(s: string, base: nat)
    requires GoodBase(base)
    ensures var p, d := DescribedStart(s, base), DigitsStart(s, base);
      && (d == p || (d == p + 1 && p < |s| && s[p] == '0'))
      && DigitsEnd(s, d, base) == DigitsEnd(s, p, base)
  {
    hide SkipSpace;
    var p, d := DescribedStart(s, base), DigitsStart(s, base);
    if d != p {
      assert IsDigit(s[p], base);
    }
  }

  /** The exact condition for the value: base 0 is read as the comment says only if the text is worth nothing anyway. */
  lemma ValueAsDescribed(s: string, base: int)
    ensures Strtoll(s, base) == Described(s, base) <==> base != 0 || AllZeros(DescribedDigits(s, base))
  {
    hide SkipSpace, DigitsEnd, Eval, DescribedStart, DigitsStart, NumberStart, AllZeros, BaseOf;
    var p := DescribedStart(s, if base < 0 then 0 else base);
    if base == 0 {
      var b := BaseOf(s, NumberStart(s), base);
      NoValue(s[p..DigitsEnd(s, p, b)], b);
    } else if GoodBase(base) {
      Starts(s, base);
      var d, e := DigitsStart(s, base), DigitsEnd(s, p, base);
      if d != p {
        LeadingZero(s[p..e], base);
        assert s[p..e][1..] == s[d..e];
      }
    }
  }

  /** A lone zero: no digit behind it and no prefix. */
  predicate LoneZero(s: string, base: int)
    requires GoodBase(base)
  {
    && CharAt(s, NumberStart(s)) == '0' && !HasPrefix(s, NumberStart(s), base)
    && !IsDigit(CharAt(s, NumberStart(s) + 1), base)
  }

  /** The exact condition for *endptr: after a lone zero the code claims to have seen no digit. */
  lemma EndAsDescribed(s: string, base: int)
    ensures EndPtr(s, base) == DescribedEnd(s, base)
      <==> if base == 0 then DescribedDigits(s, base) == "" else GoodBase(base) ==> !LoneZero(s, base)
  {
    hide SkipSpace, IsDigit, NumberStart;
    if GoodBase(base) {
      Starts(s, base);
      LoneZeroEnds(s, base);
    }
  }

  lemma LoneZeroEnds(s: string, base: nat)
    requires GoodBase(base)
    ensures var p, d := DescribedStart(s, base), DigitsStart(s, base);
      LoneZero(s, base) <==> d == p + 1 && DigitsEnd(s, d, base) == d
  {
    hide SkipSpace, NumberStart;
  }

  /** "10" in base 0 is 0, and the end of "0" in base 10 is its start. */
  lemma CommentExamples()
    ensures Strtoll("10", 0) == Value(0) && Described("10", 0) == Value(10)
    ensures Strtoll("0", 10) == Value(0) && EndPtr("0", 10) == 0 && DescribedEnd("0", 10) == 1
  {
    ReadsTen("10");
    ReadsZero("0");
  }

  lemma ReadsTen(s: string)
    requires s == "10"
    ensures Described(s, 0) == Value(10)
  {
    hide Eval;
    assert s[0..2] == "1" + "0";
    EvalOne('1', 10);
    EvalAppend("1", '0', 10);
  }

  lemma ReadsZero(s: string)
    requires s == "0"
    ensures Strtoll(s, 10) == Value(0) && EndPtr(s, 10) == 0 && DescribedEnd(s, 10) == 1
  {
    assert s[1..1] == "" && s[0..1] != "";
  }
}
