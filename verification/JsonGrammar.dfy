/** What the JSON parser does to a buffer, as functions of the buffer and the cursor. */
module JsonGrammar {
  import opened JsonSyntax

  /** A value and the cursor after it; an error handed back to the caller; or the end of the program,
    * when an error is unwrapped or an int overflows. */
  datatype Outcome<T> = Done(value: T, next: nat) | Failed | Trapped

  // ---- Scanning ----

  /** The first place from i on that is not white space. */
  function SkipSpaces(b: string, i: nat): (j: nat)
    requires i <= |b|
    ensures i <= j <= |b|
    ensures forall k: nat :: i <= k < j ==> IsSpace(b[k])
    ensures j < |b| ==> !IsSpace(b[j])
    decreases |b| - i
  {
    if i < |b| && IsSpace(b[i]) then SkipSpaces(b, i + 1) else i
  }

  /** The first place from i on that holds a character. */
  function Until(b: string, i: nat, c: char): (j: nat)
    requires i <= |b|
    ensures i <= j <= |b|
    ensures forall k: nat :: i <= k < j ==> b[k] != c
    ensures j < |b| ==> b[j] == c
    decreases |b| - i
  {
    if i < |b| && b[i] != c then Until(b, i + 1, c) else i
  }

  function SkipDigits(b: string, i: nat): (j: nat)
    requires i <= |b|
    ensures i <= j <= |b|
    ensures forall k: nat :: i <= k < j ==> IsDigit(b[k])
    ensures j < |b| ==> !IsDigit(b[j])
    decreases |b| - i
  {
    if i < |b| && IsDigit(b[i]) then SkipDigits(b, i + 1) else i
  }

  /** The buffer holds a string at a place. */
  predicate At(b: string, i: nat, s: string) { i + |s| <= |b| && b[i..i + |s|] == s }

  function SignAt(b: string, i: nat): Sign
    requires i < |b|
  {
    if b[i] == '-' then Minus else if b[i] == '+' then Plus else NoSign
  }

  function ParseInt(b: string, i: nat): (r: Outcome<int>)
    requires i < |b|
    ensures r.Done? ==> i < r.next <= |b|
  {
    var d := i + |SignText(SignAt(b, i))|;
    if d >= |b| || !IsDigit(b[d]) then Failed
    else
      var e := SkipDigits(b, d);
      if Decimal(b[d..e]) > INT_MAX then Trapped else Done(Signed(SignAt(b, i), Decimal(b[d..e])), e)
  }

  // ---- Parsing ----

  function ParseValue(b: string, i: nat): (r: Outcome<JsonValue>)
    requires i <= |b|
    ensures r.Done? ==> i < r.next <= |b|
    decreases |b| - i, 0
  {
    var j := SkipSpaces(b, i);
    if j == |b| then Trapped
    else if b[j] == '{' then ParseObject(b, j + 1)
    else if b[j] == '[' then ParseArray(b, j + 1)
    else ParseScalar(b, j)
  }

  /** The probes for literals need four and then five bytes, whatever comes. */
  function ParseScalar(b: string, j: nat): (r: Outcome<JsonValue>)
    requires j < |b|
    ensures r.Done? ==> j < r.next <= |b|
  {
    if j + 4 > |b| then Trapped
    else if At(b, j, "true") then Done(Boolean(true), j + 4)
    else if j + 5 > |b| then Trapped
    else if At(b, j, "false") then Done(Boolean(false), j + 5)
    else if At(b, j, "null") then Done(Null, j + 4)
    else if b[j] == '"' then
      var k := Until(b, j + 1, '"');
      if k == |b| then Failed else Done(String(b[j + 1..k]), k + 1)
    else
      match ParseInt(b, j)
      case Done(n, next) => Done(Number(n), next)
      case Failed => Failed
      case Trapped => Trapped
  }

  function ParseArray(b: string, i: nat): (r: Outcome<JsonValue>)
    requires i <= |b|
    ensures r.Done? ==> i < r.next <= |b|
    decreases |b| - i, 2
  {
    var j := SkipSpaces(b, i);
    if j == |b| then Trapped
    else if b[j] == ']' then Done(Array([]), j + 1)
    else ParseItems(b, j, [])
  }

  function ParseItems(b: string, i: nat, values: seq<JsonValue>): (r: Outcome<JsonValue>)
    requires i <= |b|
    ensures r.Done? ==> i < r.next <= |b|
    decreases |b| - i, 1
  {
    if i == |b| then Trapped
    else
      match ParseValue(b, i)
      case Failed => Failed
      case Trapped => Trapped
      case Done(v, n) =>
        var p := SkipSpaces(b, n);
        if p == |b| then Trapped
        else if b[p] == ',' then ParseItems(b, p + 1, values + [v])
        else if b[p] == ']' then Done(Array(values + [v]), p + 1)
        else Failed
  }

  function ParseObject(b: string, i: nat): (r: Outcome<JsonValue>)
    requires i <= |b|
    ensures r.Done? ==> i < r.next <= |b|
    decreases |b| - i, 2
  {
    var j := SkipSpaces(b, i);
    if j == |b| then Trapped
    else if b[j] == '}' then Done(Object([], []), j + 1)
    else ParseMembers(b, j, [], [])
  }

  /** A key in quotes and a colon: the key, and the place after the colon. */
  function ParseKey(b: string, i: nat): (r: Outcome<string>)
    requires i <= |b|
    ensures r.Done? ==> i < r.next <= |b|
  {
    var j := SkipSpaces(b, i);
    if j == |b| || b[j] != '"' then Failed
    else
      var k := Until(b, j + 1, '"');
      if k == |b| then Failed
      else
        var m := SkipSpaces(b, k + 1);
        if m == |b| || b[m] != ':' then Failed else Done(b[j + 1..k], m + 1)
  }

  function ParseMembers(b: string, i: nat, keys: seq<string>, values: seq<JsonValue>): (r: Outcome<JsonValue>)
    requires i <= |b|
    ensures r.Done? ==> i < r.next <= |b|
    decreases |b| - i, 1
  {
    match ParseKey(b, i)
    case Failed => Failed
    case Trapped => Trapped
    case Done(key, m) =>
      match ParseValue(b, m)
      case Failed => Failed
      case Trapped => Trapped
      case Done(v, n) =>
        var p := SkipSpaces(b, n);
        if p == |b| then Failed
        else if b[p] == ',' then ParseMembers(b, p + 1, keys + [key], values + [v])
        else if b[p] == '}' then Done(Object(keys + [key], values + [v]), p + 1)
        else Failed
  }

  // ---- Reading a text piece by piece ----

  lemma AtSplit(b: string, i: nat, s: string, t: string)
    requires At(b, i, s + t)
    ensures At(b, i, s) && At(b, i + |s|, t) && i + |s| + |t| <= |b|
  {
    assert b[i..i + |s + t|][..|s|] == b[i..i + |s|];
    assert b[i..i + |s + t|][|s|..] == b[i + |s|..i + |s| + |t|];
  }

  lemma AtJoin(b: string, i: nat, s: string, t: string)
    requires At(b, i, s) && At(b, i + |s|, t)
    ensures At(b, i, s + t)
  {
    assert b[i..i + |s + t|] == b[i..i + |s|] + b[i + |s|..i + |s| + |t|];
  }

  lemma AtChar(b: string, i: nat, s: string, k: nat)
    requires At(b, i, s) && k < |s|
    ensures i + k < |b| && b[i + k] == s[k]
  {
    assert b[i..i + |s|][k] == b[i + k];
  }

  lemma SpacesEnd(b: string, i: nat, s: string)
    requires At(b, i, s) && AllSpace(s) && (i + |s| < |b| ==> !IsSpace(b[i + |s|]))
    ensures SkipSpaces(b, i) == i + |s|
  {
    var j := SkipSpaces(b, i);
    if j < i + |s| {
      AtChar(b, i, s, j - i);
    }
  }

  lemma QuoteEnds(b: string, i: nat, s: string)
    requires At(b, i, s) && QuoteFree(s) && i + |s| < |b| && b[i + |s|] == '"'
    ensures Until(b, i, '"') == i + |s|
  {
    var j := Until(b, i, '"');
    if j < i + |s| {
      AtChar(b, i, s, j - i);
    }
  }

  lemma DigitsEnd(b: string, i: nat, s: string)
    requires At(b, i, s) && AllDigits(s) && (i + |s| < |b| ==> !IsDigit(b[i + |s|]))
    ensures SkipDigits(b, i) == i + |s|
  {
    var j := SkipDigits(b, i);
    if j < i + |s| {
      AtChar(b, i, s, j - i);
    }
  }
}
