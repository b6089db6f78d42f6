/** strtoll undoes print_integer, and the one case in which it does not. */
module IntegerRoundTrip {
  import opened IntegerText

  /** Spaces and the control characters from tab to carriage return. */
  predicate AllSpace(s: string) { forall k: nat :: k < |s| ==> s[k] == ' ' || 9 <= s[k] as int <= 13 }

  lemma SpaceIs(c: char)
    ensures IsSpace(c) <==> c == ' ' || 9 <= c as int <= 13
  {
  }

  lemma DigitIsNoOther(c: char, base: nat)
    requires GoodBase(base) && IsDigit(c, base)
    ensures !IsSpace(c) && c != '-' && c != '+' && c != '\0'
    ensures base == 16 ==> c != 'x' && c != 'X'
    ensures base == 2 ==> c != 'b' && c != 'B'
  {
  }

  lemma {:induction false} SpaceEnds(s: string, i: nat, end: nat)
    requires i <= end <= |s| && (forall k: nat :: i <= k < end ==> IsSpace(s[k]))
    requires end < |s| ==> !IsSpace(s[end])
    ensures SkipSpace(s, i) == end
  {
    var j := SkipSpace(s, i);
    assert j < |s| ==> !IsSpace(s[j]);
  }

  lemma {:induction false} DigitsStop(s: string, i: nat, end: nat, base: nat)
    requires i <= end <= |s| && (forall k: nat :: i <= k < end ==> IsDigit(s[k], base))
    requires end < |s| ==> !IsDigit(s[end], base)
    ensures DigitsEnd(s, i, base) == end
  {
    var j := DigitsEnd(s, i, base);
    assert j < |s| ==> !IsDigit(s[j], base);
  }

  /** A zero in front changes nothing. */
  lemma LeadingZero(s: string, base: nat)
    requires s != "" && s[0] == '0'
    ensures Eval(s, base) == Eval(s[1..], base)
  {
    EvalZeros(1, s[1..], base);
    assert Repeat('0', 1) == "0";
    assert "0" + s[1..] == s;
  }

  /** Digits from j up to e, and none at e. */
  ghost predicate DigitsUpTo(s: string, j: nat, e: nat, base: nat) {
    && j <= e <= |s| && (forall k: nat :: j <= k < e ==> IsDigit(s[k], base))
    && (e < |s| ==> !IsDigit(s[e], base))
  }

  predicate IsSign(s: string) { s == "" || s == "-" || s == "+" }

  predicate IsPrefix(s: string, base: nat) {
    s == "" || (base == 16 && (s == "0x" || s == "0X")) || (base == 2 && (s == "0b" || s == "0B"))
  }

  /** What may follow the digits of a number: nothing, or something that does not go on with it. */
  predicate Follows(s: string, base: nat) { s == "" || (!IsDigit(s[0], base) && s[0] !in "xXbB") }

  /** Of digits without a prefix only a leading zero is skipped. */
  lemma PrefixReads(s: string, j: nat, e: nat, base: nat)
    requires GoodBase(base) && j < e && DigitsUpTo(s, j, e, base) && (e < |s| ==> s[e] !in "xXbB")
    ensures SkipPrefix(s, j, base) == if s[j] == '0' then j + 1 else j
  {
    if j + 1 < e {
      DigitIsNoOther(s[j + 1], base);
    }
  }

  lemma DigitsRead(s: string, j: nat, e: nat, base: nat)
    requires GoodBase(base) && j < e && DigitsUpTo(s, j, e, base) && (e < |s| ==> s[e] !in "xXbB")
    ensures var d := SkipPrefix(s, j, base);
      d <= e && DigitsEnd(s, d, base) == e && Eval(s[d..e], base) == Eval(s[j..e], base)
  {
    hide Eval, DigitsEnd, SkipPrefix, IsDigit;
    var d := SkipPrefix(s, j, base);
    PrefixReads(s, j, e, base);
    DigitsStop(s, d, e, base);
    if s[j] == '0' {
      LeadingZero(s[j..e], base);
      assert s[j..e][1..] == s[d..e];
    }
  }

  /** White space, perhaps a sign, perhaps the prefix of the base, and digits: the text of a number. */
  lemma NumberReads(ws: string, sign: string, prefix: string, body: string, rest: string, base: nat)
    requires GoodBase(base) && AllSpace(ws) && IsSign(sign) && IsPrefix(prefix, base) && Follows(rest, base)
    requires body != "" && AllDigits(body, base) && Eval(body, base) <= LLONG_MAX
    ensures Strtoll(ws + sign + prefix + body + rest, base)
      == Value(if sign == "-" then 0 - Eval(body, base) else Eval(body, base))
  {
    hide *;
    var s := ws + sign + prefix + body + rest;
    var j := |ws| + |sign|;
    NumberPlaces(s, ws, sign, prefix, body, rest, base);
    BodyReads(s, j, |prefix|, j + |prefix| + |body|, base);
    assert s[j + |prefix|..j + |prefix| + |body|] == body;
    PlacesRead(s, |ws|, j, j + |prefix| + |body|, Eval(body, base), base);
  }

  lemma PlacesRead(s: string, i: nat, j: nat, e: nat, n: nat, base: nat)
    requires GoodBase(base) && SkipSpace(s, 0) == i < |s| && SkipSign(s, i) == j && n <= LLONG_MAX
    requires var d := SkipPrefix(s, j, base); d <= e <= |s| && DigitsEnd(s, d, base) == e && Eval(s[d..e], base) == n
    ensures Strtoll(s, base) == Value(if s[i] == '-' then 0 - n else n)
  {
    hide Eval, SkipPrefix, DigitsEnd, SkipSpace, SkipSign;
  }

  /** The digits behind a prefix of the given length. */
  lemma BodyReads(s: string, j: nat, prefix: nat, e: nat, base: nat)
    requires GoodBase(base) && j + prefix < e && DigitsUpTo(s, j + prefix, e, base) && (e < |s| ==> s[e] !in "xXbB")
    requires prefix == 0 || (prefix == 2 && HasPrefix(s, j, base))
    ensures var d := SkipPrefix(s, j, base);
      d <= e && DigitsEnd(s, d, base) == e && Eval(s[d..e], base) == Eval(s[j + prefix..e], base)
  {
    hide Eval, DigitsEnd, IsDigit;
    if prefix == 0 {
      DigitsRead(s, j, e, base);
    } else {
      DigitsStop(s, j + 2, e, base);
    }
  }

  /** Where the parts of a number stand in its text. */
  lemma NumberPlaces(s: string, ws: string, sign: string, prefix: string, body: string, rest: string, base: nat)
    requires s == ws + sign + prefix + body + rest
    requires GoodBase(base) && AllSpace(ws) && IsSign(sign) && IsPrefix(prefix, base) && Follows(rest, base)
    requires body != "" && AllDigits(body, base)
    ensures SkipSpace(s, 0) == |ws| && SkipSign(s, |ws|) == |ws| + |sign|
    ensures s[|ws|] == '-' <==> sign == "-"
    ensures prefix != "" ==> |prefix| == 2 && HasPrefix(s, |ws| + |sign|, base)
    ensures var j := |ws| + |sign| + |prefix|;
      DigitsUpTo(s, j, j + |body|, base) && (j + |body| < |s| ==> s[j + |body|] !in "xXbB")
  {
    hide SkipSpace, IsSpace, IsDigit;
    var i := |ws|;
    var j := i + |sign| + |prefix|;
    DigitIsNoOther(body[0], base);
    SignIsNoSpace();
    assert s[j] == body[0];
    assert sign != "" ==> s[i] == sign[0];
    assert prefix != "" ==> s[i + |sign|] == prefix[0] && s[i + |sign| + 1] == prefix[1];
    forall k: nat | k < i ensures IsSpace(s[k]) {
      SpaceIs(s[k]);
    }
    SpaceEnds(s, 0, i);
    forall k: nat | j <= k < j + |body| ensures IsDigit(s[k], base) {
      assert s[k] == body[k - j];
    }
    assert j + |body| < |s| ==> s[j + |body|] == rest[0];
  }

  lemma SignIsNoSpace()
    ensures !IsSpace('-') && !IsSpace('+') && !IsSpace('0')
  {
  }

  /** Zeros in front of a minus: the number ends before it begins. */
  lemma ZerosBeforeMinus(k: nat, body: string, base: nat)
    requires GoodBase(base) && 0 < k
    ensures Strtoll(Repeat('0', k) + "-" + body, base) == Value(0)
  {
    hide Repeat;
    var s := Repeat('0', k) + "-" + body;
    assert s[k] == '-' && s[0] == '0';
    SpaceEnds(s, 0, 0);
    assert s[1] == if k == 1 then '-' else '0';
    var d := SkipPrefix(s, 0, base);
    assert d == 1;
    DigitsStop(s, 1, k, base);
    var z := s[1..k];
    assert z == Repeat('0', k - 1);
    EvalZeros(k - 1, "", base);
    assert Repeat('0', k - 1) + "" == Repeat('0', k - 1);
  }

  lemma {:induction false} ZerosAreDigits(n: int, s: string, base: nat)
    requires GoodBase(base) && AllDigits(s, base)
    ensures AllDigits(Repeat('0', n) + s, base)
    ensures Eval(Repeat('0', n) + s, base) == Eval(s, base)
  {
    EvalZeros(n, s, base);
  }

  /** The digits with their zeros stand for the number. */
  lemma PreciseReads(n: int, f: Flags)
    requires GoodBase(f.base)
    ensures Precise(n, f) != "" && AllDigits(Precise(n, f), f.base) && Eval(Precise(n, f), f.base) == Magnitude(n)
  {
    var digits := DigitsOf(Magnitude(n), f.base, f.uppercase);
    EvalDigits(Magnitude(n), f.base, f.uppercase);
    ZerosAreDigits(f.precision - |digits|, digits, f.base);
  }

  /** The padding characters print_impl asks for. */
  predicate GoodPad(c: char) { c == ' ' || c == '0' }

  /** The exact condition. strtoll gives back the integer that print_integer printed, for every base,
    * case, width and precision, unless a negative number was padded with zeros: then the zeros stand
    * before the minus, and strtoll reads 0. */
  lemma StrtollUndoesPrint(n: int, f: Flags)
    requires GoodBase(f.base) && GoodPad(f.padChar) && Magnitude(n) <= LLONG_MAX
    ensures Strtoll(Printed(n, f), f.base) == Value(n)
      <==> !(f.padChar == '0' && n < 0 && |Unpadded(n, f)| < f.width)
  {
    hide Strtoll, Eval, Precise, Repeat, IsDigit, DigitsOf, AllDigits;
    var body := Precise(n, f);
    var pad := f.width - |Unpadded(n, f)|;
    var padding := Repeat(f.padChar, pad);
    var sign := if n < 0 then "-" else "";
    PreciseReads(n, f);
    assert Printed(n, f) == padding + (sign + body);
    if f.padChar == ' ' {
      PlainReads(padding, sign, body, f.base);
    } else if n >= 0 {
      ZerosAreDigits(pad, body, f.base);
      PlainReads("", "", padding + body, f.base);
      assert "" + ("" + (padding + body)) == padding + (sign + body);
    } else if pad <= 0 {
      PlainReads("", "-", body, f.base);
    } else {
      ZerosBeforeMinus(pad, body, f.base);
      Regrouped(padding, "-", body);
    }
  }

  lemma Regrouped(ws: string, sign: string, body: string)
    ensures ws + sign + body == ws + (sign + body)
  {
  }

  /** A number without a prefix, and with nothing behind it. */
  lemma PlainReads(ws: string, sign: string, body: string, base: nat)
    requires GoodBase(base) && AllSpace(ws) && IsSign(sign)
    requires body != "" && AllDigits(body, base) && Eval(body, base) <= LLONG_MAX
    ensures Strtoll(ws + (sign + body), base) == Value(if sign == "-" then 0 - Eval(body, base) else Eval(body, base))
  {
    hide *;
    PlainIs();
    NumberReads(ws, sign, "", body, "", base);
    assert ws + sign + "" + body + "" == ws + (sign + body);
  }

  lemma PlainIs()
    ensures forall base: nat :: IsPrefix("", base) && Follows("", base)
  {
  }

  /** "%05d" of -5: "000-5", which reads as 0. */
  lemma ZeroPaddedMinusFive()
    ensures Printed(-5, Flags(10, false, true, '0', 5, -1)) == "000-5"
    ensures Strtoll("000-5", 10) == Value(0)
  {
    hide Strtoll;
    var f := Flags(10, false, true, '0', 5, -1);
    assert "000" + "-" + "5" == "000-5";
    assert Unpadded(-5, f) == "-5";
    assert Repeat('0', 3) == "000";
    ZerosBeforeMinus(3, "5", 10);
  }
}
