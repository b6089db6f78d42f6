/** print_integer, which fills a local buffer backwards, and strtoll, which reads forwards. */
module LibcIntegers {
  import opened Numbers
  import opened IntegerText
  import opened IntegerRoundTrip

  const BUFFER: nat := 64
  const WORD: int := 0x1_0000_0000_0000_0000

  /** The integer an unsigned long long argument stands for. */
  function Meaning(value: nat, isSigned: bool): int { if isSigned && value > LLONG_MAX then value - WORD else value }

  /** The text and its zero byte fit the local buffer. */
  predicate FitsBuffer(n: int, f: Flags)
    requires GoodBase(f.base)
  {
    |Unpadded(n, f)| < BUFFER && f.width < BUFFER
  }

  /** A file, as the text handed to fwrite so far, or a character buffer that is being filled; the last place of the
    * buffer is kept for the zero byte. */
  class PrintTarget {
    const isFile: bool
    var file: string
    const buf: array<char>
    var cursor: nat

    predicate Valid()
      reads this
    {
      isFile || cursor < buf.Length
    }

    function Contents(): string
      reads this, buf
      requires Valid()
    {
      if isFile then file else buf[..cursor]
    }

    /** How much of a text goes in. */
    function Room(data: string): (n: nat)
      reads this
      requires Valid()
      ensures n <= |data|
    {
      if isFile then |data| else Min(|data|, buf.Length - cursor - 1)
    }

    constructor (len: nat)
      requires 0 < len
      ensures Valid() && !isFile && cursor == 0 && buf.Length == len && fresh(buf)
    {
      isFile, file, cursor := false, "", 0;
      buf := new char[len];
    }

    constructor OfFile()
      ensures Valid() && isFile && file == "" && fresh(buf)
    {
      isFile, file, cursor := true, "", 0;
      buf := new char[0];
    }

    /** Appends as much as there is room for, and says how much that was. */
    method PrintPart(data: string) returns (written: nat)
      requires Valid()
      modifies this, buf
      ensures Valid() && written == old(Room(data))
      ensures Contents() == old(Contents()) + data[..written]
    {
      written := |data|;
      if isFile {
        file := file + data;
        return;
      }
      if cursor + written >= buf.Length {
        written := buf.Length - cursor - 1;
      }
      ghost var before := buf[..cursor];
      var i := 0;
      while i < written
        invariant i <= written && cursor == old(cursor) && buf[..cursor] == before
        invariant buf[cursor..cursor + i] == data[..i]
      {
        buf[cursor + i] := data[i];
        i := i + 1;
      }
      cursor := cursor + written;
    }
  }

  method Strlen(buf: array<char>, from: nat) returns (n: nat)
    requires from < buf.Length == BUFFER && buf[BUFFER - 1] == '\0'
    requires forall k: nat :: from <= k < BUFFER - 1 ==> buf[k] != '\0'
    ensures n == BUFFER - 1 - from
  {
    n := 0;
    while buf[from + n] != '\0'
      invariant from + n < BUFFER
      decreases BUFFER - n
    {
      n := n + 1;
    }
  }

  /** The text between the pointer and the zero byte. */
  function Tail(buf: array<char>, ptr: int): (s: string)
    requires -1 <= ptr < BUFFER - 1 && buf.Length == BUFFER
    reads buf
    ensures |s| == BUFFER - 2 - ptr
  {
    buf[ptr + 1..BUFFER - 1]
  }

  /** Puts one character before the tail. */
  method Push(buf: array<char>, ptr: int, c: char) returns (next: int)
    requires 0 <= ptr < BUFFER - 1 && buf.Length == BUFFER && buf[BUFFER - 1] == '\0'
    modifies buf
    ensures next == ptr - 1 && buf[BUFFER - 1] == '\0'
    ensures Tail(buf, next) == [c] + old(Tail(buf, ptr))
  {
    buf[ptr] := c;
    next := ptr - 1;
  }

  method PushDigit(buf: array<char>, ptr: int, digit: nat, uppercase: bool) returns (next: int)
    requires 0 <= ptr < BUFFER - 1 && buf.Length == BUFFER && buf[BUFFER - 1] == '\0' && digit < 36
    modifies buf
    ensures next == ptr - 1 && buf[BUFFER - 1] == '\0'
    ensures Tail(buf, next) == [DigitChar(digit, uppercase)] + old(Tail(buf, ptr))
  {
    if digit < 10 {
      next := Push(buf, ptr, ('0' as int + digit) as char);
    } else if uppercase {
      next := Push(buf, ptr, ('A' as int + (digit - 10)) as char);
    } else {
      next := Push(buf, ptr, ('a' as int + (digit - 10)) as char);
    }
  }

  method PushDigits(buf: array<char>, magnitude: nat, f: Flags) returns (ptr: int, count: nat)
    requires buf.Length == BUFFER && buf[BUFFER - 1] == '\0' && GoodBase(f.base)
    requires |DigitsOf(magnitude, f.base, f.uppercase)| < BUFFER
    modifies buf
    ensures -1 <= ptr < BUFFER - 1 && buf[BUFFER - 1] == '\0'
    ensures Tail(buf, ptr) == DigitsOf(magnitude, f.base, f.uppercase) && count == |Tail(buf, ptr)|
  {
    hide DigitsOf, DigitChar;
    ghost var digits := DigitsOf(magnitude, f.base, f.uppercase);
    DigitsOfZero(f.base, f.uppercase);
    ptr := BUFFER - 2;
    assert Tail(buf, ptr) == "";
    count := 0;
    var value := magnitude;
    if value == 0 {
      ptr := Push(buf, ptr, '0');
      count := 1;
    } else {
      while value > 0
        invariant -1 <= ptr < BUFFER - 1 && buf[BUFFER - 1] == '\0' && count == |Tail(buf, ptr)|
        invariant digits == (if value > 0 then DigitsOf(value, f.base, f.uppercase) else "") + Tail(buf, ptr)
      {
        LastDigit(value, f.base, f.uppercase);
        ptr := PushDigit(buf, ptr, value % f.base, f.uppercase);
        count := count + 1;
        value := value / f.base;
      }
    }
  }

  lemma DigitsOfZero(base: nat, uppercase: bool)
    requires GoodBase(base)
    ensures DigitsOf(0, base, uppercase) == "0"
  {
  }

  lemma SmallDigit(v: nat, base: nat)
    requires v < base
    ensures v / base == 0 && v % base == v
  {
  }

  lemma LastDigit(v: nat, base: nat, uppercase: bool)
    requires GoodBase(base) && 0 < v
    ensures v % base < base && 0 <= v / base < v
    ensures DigitsOf(v, base, uppercase) ==
      (if v / base > 0 then DigitsOf(v / base, base, uppercase) else "") + [DigitChar(v % base, uppercase)]
  {
    hide DigitChar;
    if v < base {
      SmallDigit(v, base);
      assert DigitsOf(v, base, uppercase) == "" + [DigitChar(v % base, uppercase)];
    } else {
      Shrinks(v, base);
    }
  }

  /** Characters that are not the zero byte. */
  predicate NoZero(s: string) { forall k: nat :: k < |s| ==> s[k] != '\0' }

  lemma {:induction false} DigitsNoZero(v: nat, base: nat, uppercase: bool)
    requires GoodBase(base)
    ensures NoZero(DigitsOf(v, base, uppercase))
  {
    EvalDigits(v, base, uppercase);
    var s := DigitsOf(v, base, uppercase);
    forall k: nat | k < |s| ensures s[k] != '\0' {
      DigitIsNoOther(s[k], base);
    }
  }

  /** Puts a character before the tail until that is long enough. */
  method PadTo(buf: array<char>, from: int, c: char, target: int) returns (ptr: int)
    requires buf.Length == BUFFER && -1 <= from < BUFFER - 1 && buf[BUFFER - 1] == '\0' && target < BUFFER
    modifies buf
    ensures -1 <= ptr < BUFFER - 1 && buf[BUFFER - 1] == '\0'
    ensures Tail(buf, ptr) == Repeat(c, target - |old(Tail(buf, from))|) + old(Tail(buf, from))
  {
    hide Tail;
    ptr := from;
    var len := BUFFER - 2 - ptr;
    ghost var tail, n := Tail(buf, from), len;
    assert Repeat(c, 0) + tail == tail;
    while len < target
      invariant -1 <= ptr < BUFFER - 1 && buf[BUFFER - 1] == '\0' && len == BUFFER - 2 - ptr
      invariant n <= len && (n < len ==> len <= target)
      invariant Tail(buf, ptr) == Repeat(c, len - n) + tail
    {
      ptr := Push(buf, ptr, c);
      len := len + 1;
      assert Repeat(c, len - n) == [c] + Repeat(c, len - n - 1);
    }
    if target <= n {
      assert Repeat(c, target - n) == "" == Repeat(c, 0);
    }
  }

  method PrintInteger(targ: PrintTarget, value: nat, f: Flags) returns (written: nat)
    requires targ.Valid() && GoodBase(f.base) && GoodPad(f.padChar)
    requires value < WORD && (f.isSigned ==> value != LLONG_MAX + 1) && FitsBuffer(Meaning(value, f.isSigned), f)
    modifies targ, targ.buf
    ensures targ.Valid()
    ensures var text := Printed(Meaning(value, f.isSigned), f);
      && written == old(targ.Room(text))
      && targ.Contents() == old(targ.Contents()) + text[..written]
  {
    hide DigitsOf, Repeat, Eval, IsDigit, Printed;
    ghost var n := Meaning(value, f.isSigned);
    var negative := false;
    var magnitude := value;
    if f.isSigned && value > LLONG_MAX {
      negative := true;
      magnitude := WORD - value;
    }
    assert magnitude == Magnitude(n) && negative == (n < 0);
    var buf := new char[BUFFER](_ => '\0');
    var ptr := FillBuffer(buf, magnitude, negative, f, n);
    PrintedNoZero(n, f);
    assert forall k: nat :: ptr + 1 <= k < BUFFER - 1 ==> buf[k] == Tail(buf, ptr)[k - ptr - 1];
    var len := Strlen(buf, ptr + 1);
    written := targ.PrintPart(buf[ptr + 1..ptr + 1 + len]);
  }

  /** The text of the number, written backwards from the end of the buffer. */
  method FillBuffer(buf: array<char>, magnitude: nat, negative: bool, f: Flags, ghost n: int) returns (ptr: int)
    requires buf.Length == BUFFER && buf[BUFFER - 1] == '\0' && GoodBase(f.base) && FitsBuffer(n, f)
    requires magnitude == Magnitude(n) && negative == (n < 0)
    modifies buf
    ensures -1 <= ptr < BUFFER - 1 && buf[BUFFER - 1] == '\0' && Tail(buf, ptr) == Printed(n, f)
  {
    hide DigitsOf, Repeat, Tail;
    var count;
    ptr, count := PushDigits(buf, magnitude, f);
    ptr := PadTo(buf, ptr, '0', f.precision);
    assert Tail(buf, ptr) == Precise(n, f);
    if negative {
      ptr := Push(buf, ptr, '-');
    }
    assert Tail(buf, ptr) == Unpadded(n, f);
    ptr := PadTo(buf, ptr, f.padChar, f.width);
  }

  lemma PrintedNoZero(n: int, f: Flags)
    requires GoodBase(f.base) && GoodPad(f.padChar)
    ensures NoZero(Printed(n, f))
  {
    DigitsNoZero(Magnitude(n), f.base, f.uppercase);
  }

  method SkipBlanks(s: string) returns (i: nat)
    ensures i == SkipSpace(s, 0)
  {
    i := 0;
    while i < |s| && IsSpace(s[i])
      invariant i <= |s| && SkipSpace(s, i) == SkipSpace(s, 0)
    {
      i := i + 1;
    }
  }

  /** Steps over a leading zero and what it may announce. */
  method StepPrefix(s: string, from: nat, asked: nat) returns (i: nat, base: nat)
    requires from <= |s| && (asked == 0 || GoodBase(asked))
    ensures i == SkipPrefix(s, from, asked) && i <= |s| && base == BaseOf(s, from, asked)
  {
    i, base := from, asked;
    if CharAt(s, i) == '0' {
      i := i + 1;
      if (CharAt(s, i) == 'x' || CharAt(s, i) == 'X') && (base == 0 || base == 16) {
        i, base := i + 1, 16;
      } else if (CharAt(s, i) == 'b' || CharAt(s, i) == 'B') && (base == 0 || base == 2) {
        i, base := i + 1, 2;
      } else if base == 0 {
        base := 8;
      }
    }
    if base == 0 {
      base := 10;
    }
  }

  /** strtoll on a string and a base; end is the place *endptr is set to. */
  method ReadLongLong(s: string, asked: int) returns (r: Parsed, end: nat)
    ensures r == Strtoll(s, asked)
    ensures r.Value? ==> end == EndPtr(s, asked)
  {
    hide SkipSpace, IsSpace, Eval, DigitsEnd, SkipPrefix;
    if asked < 2 || asked > 36 {
      return Value(0), 0;
    }
    var i := SkipBlanks(s);
    var sign := 1;
    if CharAt(s, i) == '-' {
      sign := -1;
      i := i + 1;
    } else if CharAt(s, i) == '+' {
      i := i + 1;
    }
    var base;
    i, base := StepPrefix(s, i, asked);
    var value, stop := AddDigits(s, i, base);
    assert sign * value == if sign == -1 then 0 - value else value;
    return if value > LLONG_MAX then Overflow else Value(sign * value), if stop == i then 0 else stop;
  }

  lemma EvalEmpty(base: nat)
    ensures Eval("", base) == 0
  {
  }

  /** Adds up digits, or goes past LLONG_MAX with them. */
  method AddDigits(s: string, d: nat, base: nat) returns (value: nat, i: nat)
    requires d <= |s| && GoodBase(base)
    ensures var n := Eval(s[d..DigitsEnd(s, d, base)], base); value > LLONG_MAX <==> n > LLONG_MAX
    ensures value <= LLONG_MAX ==> value == Eval(s[d..DigitsEnd(s, d, base)], base) && i == DigitsEnd(s, d, base)
  {
    hide Eval, DigitValue;
    ghost var e := DigitsEnd(s, d, base);
    value, i := 0, d;
    EvalEmpty(base);
    assert s[d..d] == "";
    while i < |s| && IsDigit(s[i], base)
      invariant d <= i <= e && DigitsEnd(s, i, base) == e
      invariant value == Eval(s[d..i], base) && value <= LLONG_MAX
      decreases |s| - i
    {
      assert s[d..i + 1] == s[d..i] + [s[i]];
      EvalAppend(s[d..i], s[i], base);
      value := value * base + DigitValue(s[i]);
      i := i + 1;
      if value > LLONG_MAX {
        assert s[d..e] == s[d..i] + s[i..e];
        EvalGrows(s[d..i], s[i..e], base);
        return;
      }
    }
  }

  /** Printing into a buffer with room for the text and reading it back gives the integer, unless a
    * negative number was padded with zeros. */
  method PrintAndRead(value: nat, f: Flags, len: nat) returns (r: Parsed)
    requires GoodBase(f.base) && GoodPad(f.padChar) && BUFFER <= len
    requires value < WORD && Magnitude(Meaning(value, f.isSigned)) <= LLONG_MAX
    requires FitsBuffer(Meaning(value, f.isSigned), f)
    ensures var n := Meaning(value, f.isSigned);
      r == Value(n) <==> !(f.padChar == '0' && n < 0 && |Unpadded(n, f)| < f.width)
  {
    hide Strtoll, EndPtr, DigitsOf, Repeat;
    var targ := new PrintTarget(len);
    var written := PrintInteger(targ, value, f);
    ghost var text := Printed(Meaning(value, f.isSigned), f);
    assert targ.Contents() == text;
    var end;
    r, end := ReadLongLong(targ.buf[..targ.cursor], f.base);
    StrtollUndoesPrint(Meaning(value, f.isSigned), f);
  }
}
