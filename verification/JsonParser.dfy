/** The scanner with its moving cursor, and the JSON parser on it. */
module JsonParser {
  import opened JsonSyntax
  import opened JsonGrammar

  /** What an operation hands back. `Broken` is the end of the program: an error was unwrapped, or an
    * int overflowed. */
  datatype Result<T> = Value(value: T) | Error | Broken

  /** A result and the cursor it leaves are what the grammar says. */
  predicate Is<T(==)>(r: Result<T>, cursor: nat, o: Outcome<T>) {
    match o
    case Done(v, next) => r == Result.Value(v) && cursor == next
    case Failed => r == Error
    case Trapped => r == Broken
  }

  lemma {:induction false} DecimalGrows(b: string, d: nat, c: nat, e: nat)
    requires d <= c <= e <= |b| && AllDigits(b[d..e])
    ensures AllDigits(b[d..c]) && Decimal(b[d..c]) <= Decimal(b[d..e])
    decreases e - c
  {
    forall k: nat | k < c - d ensures IsDigit(b[d..c][k]) {
      assert b[d..c][k] == b[d..e][k];
    }
    if c < e {
      assert b[d..e][..e - 1 - d] == b[d..e - 1];
      assert b[d..e][e - 1 - d] == b[e - 1];
      var t := b[d..e - 1];
      forall k: nat | k < |t| ensures IsDigit(t[k]) {
        assert t[k] == b[d..e][k];
      }
      DecimalGrows(b, d, c, e - 1);
    }
  }

  class Scanner {
    const buffer: string
    var cursor: nat

    predicate Valid()
      reads this
    {
      cursor <= |buffer|
    }

    constructor (buffer: string)
      ensures Valid() && this.buffer == buffer && cursor == 0
    {
      this.buffer := buffer;
      cursor := 0;
    }

    predicate Ended()
      reads this
    {
      cursor >= |buffer|
    }

    method SkipBlanks() returns (r: Result<bool>)
      requires Valid()
      modifies this
      ensures Valid() && cursor == SkipSpaces(buffer, old(cursor))
      ensures r == if old(Ended()) then Error else Result.Value(true)
    {
      if Ended() {
        return Error;
      }
      while cursor < |buffer| && IsSpace(buffer[cursor])
        invariant Valid() && SkipSpaces(buffer, cursor) == SkipSpaces(buffer, old(cursor))
      {
        cursor := cursor + 1;
      }
      return Result.Value(true);
    }

    method Skip(c: char) returns (r: Result<bool>)
      requires Valid()
      modifies this
      ensures Valid()
      ensures if old(Ended()) then r == Error && cursor == old(cursor)
        else r == Result.Value(buffer[old(cursor)] == c) && cursor == old(cursor) + if r.value then 1 else 0
    {
      if Ended() {
        return Error;
      }
      if buffer[cursor] == c {
        cursor := cursor + 1;
        return Result.Value(true);
      }
      return Result.Value(false);
    }

    method SkipSpaced(c: char) returns (r: Result<bool>)
      requires Valid()
      modifies this
      ensures Valid()
      ensures var j := SkipSpaces(buffer, old(cursor));
        if j == |buffer| then r == Error && cursor == j
        else r == Result.Value(buffer[j] == c) && cursor == j + if r.value then 1 else 0
    {
      var _ := SkipBlanks();
      if Ended() {
        return Error;
      }
      if buffer[cursor] == c {
        cursor := cursor + 1;
        return Result.Value(true);
      }
      return Result.Value(false);
    }

    method SkipString(s: string) returns (r: Result<bool>)
      requires Valid()
      modifies this
      ensures Valid()
      ensures if old(cursor) + |s| > |buffer| then r == Error && cursor == old(cursor)
        else r == Result.Value(At(buffer, old(cursor), s)) && cursor == old(cursor) + if r.value then |s| else 0
    {
      if cursor + |s| > |buffer| {
        return Error;
      }
      var i := 0;
      while i < |s|
        invariant i <= |s| && cursor == old(cursor)
        invariant forall k: nat :: k < i ==> buffer[cursor + k] == s[k]
      {
        if buffer[cursor + i] != s[i] {
          assert buffer[cursor..cursor + |s|][i] != s[i];
          return Result.Value(false);
        }
        i := i + 1;
      }
      assert buffer[cursor..cursor + |s|] == s;
      cursor := cursor + |s|;
      return Result.Value(true);
    }

    method ReadUntil(c: char) returns (r: Result<string>)
      requires Valid()
      modifies this
      ensures Valid() && cursor == Until(buffer, old(cursor), c)
      ensures r == if cursor == |buffer| && c != '\0' then Error else Result.Value(buffer[old(cursor)..cursor])
    {
      var start := cursor;
      while cursor < |buffer| && buffer[cursor] != c
        invariant Valid() && start <= cursor && Until(buffer, cursor, c) == Until(buffer, start, c)
      {
        cursor := cursor + 1;
      }
      if cursor >= |buffer| && c != '\0' {
        return Error;
      }
      return Result.Value(buffer[start..cursor]);
    }

    /** Steps over a sign. */
    method SkipSign() returns (negative: bool)
      requires Valid() && !Ended()
      modifies this
      ensures Valid() && cursor == old(cursor) + |SignText(SignAt(buffer, old(cursor)))|
      ensures negative == (SignAt(buffer, old(cursor)) == Minus)
    {
      negative := false;
      if buffer[cursor] == '-' {
        negative := true;
        cursor := cursor + 1;
      } else if buffer[cursor] == '+' {
        cursor := cursor + 1;
      }
    }

    /** Adds up the digits; past the largest int the sum has no meaning. */
    method AddDigits() returns (value: int, overflow: bool)
      requires Valid()
      modifies this
      ensures Valid()
      ensures var e := SkipDigits(buffer, old(cursor));
        && overflow == (Decimal(buffer[old(cursor)..e]) > INT_MAX)
        && (!overflow ==> cursor == e && value == Decimal(buffer[old(cursor)..e]))
    {
      var d := cursor;
      ghost var e := SkipDigits(buffer, d);
      value, overflow := 0, false;
      while cursor < |buffer| && IsDigit(buffer[cursor])
        invariant d <= cursor <= e && SkipDigits(buffer, cursor) == e
        invariant value == Decimal(buffer[d..cursor]) && value <= INT_MAX
      {
        assert buffer[d..cursor + 1][..cursor - d] == buffer[d..cursor];
        assert buffer[d..cursor + 1][cursor - d] == buffer[cursor];
        value := value * 10 + Digit(buffer[cursor]);
        cursor := cursor + 1;
        if value > INT_MAX {
          DecimalGrows(buffer, d, cursor, e);
          return value, true;
        }
      }
    }

    method SkipInt() returns (r: Result<int>)
      requires Valid()
      modifies this
      ensures Valid()
      ensures old(Ended()) ==> r == Error
      ensures !old(Ended()) ==> Is(r, cursor, ParseInt(buffer, old(cursor)))
    {
      if Ended() {
        return Error;
      }
      var origin := cursor;
      var negative := SkipSign();
      if cursor >= |buffer| || !IsDigit(buffer[cursor]) {
        cursor := origin;
        return Error;
      }
      var value, overflow := AddDigits();
      if overflow {
        return Broken;
      }
      return Result.Value(if negative then 0 - value else value);
    }
  }

  /** Literals, strings and numbers. */
  method ParseScalarValue(scanner: Scanner) returns (r: Result<JsonValue>)
    requires scanner.Valid() && !scanner.Ended() && !IsSpace(scanner.buffer[scanner.cursor])
    modifies scanner
    ensures scanner.Valid() && Is(r, scanner.cursor, ParseScalar(scanner.buffer, old(scanner.cursor)))
  {
    ghost var b, j := scanner.buffer, scanner.cursor;
    var found := scanner.SkipString("true");
    if found.Error? {
      return Broken;
    }
    if found.value {
      return Result.Value(Boolean(true));
    }
    found := scanner.SkipString("false");
    if found.Error? {
      return Broken;
    }
    if found.value {
      return Result.Value(Boolean(false));
    }
    found := scanner.SkipString("null");
    if found.value {
      return Result.Value(Null);
    }
    found := scanner.SkipSpaced('"');
    if found.value {
      var str := scanner.ReadUntil('"');
      if str.Error? {
        return Error;
      }
      var _ := scanner.Skip('"');
      return Result.Value(String(str.value));
    }
    var integer := scanner.SkipInt();
    match integer
    case Value(n) => return Result.Value(Number(n));
    case Error => {
      var _ := scanner.ReadUntil('\0');
      return Error;
    }
    case Broken => return Broken;
  }

  /** A key in quotes and the colon behind it. */
  method ParseMemberKey(scanner: Scanner) returns (r: Result<string>)
    requires scanner.Valid()
    modifies scanner
    ensures scanner.Valid() && Is(r, scanner.cursor, ParseKey(scanner.buffer, old(scanner.cursor)))
    ensures !r.Broken?
  {
    var _ := scanner.SkipBlanks();
    var found := scanner.SkipSpaced('"');
    if found.Error? || !found.value {
      return Error;
    }
    var key := scanner.ReadUntil('"');
    if key.Error? {
      return Error;
    }
    found := scanner.SkipSpaced('"');
    if found.Error? || !found.value {
      return Error;
    }
    var _ := scanner.SkipBlanks();
    found := scanner.SkipSpaced(':');
    if found.Error? || !found.value {
      return Error;
    }
    return key;
  }

  method ParseJsonValue(scanner: Scanner) returns (r: Result<JsonValue>)
    requires scanner.Valid()
    modifies scanner
    ensures scanner.Valid() && Is(r, scanner.cursor, ParseValue(scanner.buffer, old(scanner.cursor)))
    decreases |scanner.buffer| - scanner.cursor, 0
  {
    var found := scanner.SkipSpaced('{');
    if found.Error? {
      return Broken;
    }
    if found.value {
      r := ParseJsonObject(scanner);
      return;
    }
    found := scanner.SkipSpaced('[');
    if found.Error? {
      return Broken;
    }
    if found.value {
      r := ParseJsonArray(scanner);
      return;
    }
    r := ParseScalarValue(scanner);
  }

  lemma NoKeyAtEnd(b: string)
    ensures ParseKey(b, |b|) == Failed
  {
  }

  /** The members of an object, behind its opening brace. */
  method ParseJsonObject(scanner: Scanner) returns (r: Result<JsonValue>)
    requires scanner.Valid()
    modifies scanner
    ensures scanner.Valid() && Is(r, scanner.cursor, ParseObject(scanner.buffer, old(scanner.cursor)))
    decreases |scanner.buffer| - scanner.cursor, 1
  {
    hide SkipSpaces, ParseKey, ParseValue;
    ghost var b, o := scanner.buffer, ParseObject(scanner.buffer, scanner.cursor);
    var found := scanner.SkipSpaced('}');
    if found.Error? {
      return Broken;
    }
    if found.value {
      return Result.Value(Object([], []));
    }
    var keys, values := [], [];
    NoKeyAtEnd(b);
    while !scanner.Ended()
      invariant scanner.Valid() && old(scanner.cursor) <= scanner.cursor
      invariant ParseMembers(b, scanner.cursor, keys, values) == o
      decreases |b| - scanner.cursor
    {
      var key := ParseMemberKey(scanner);
      if key.Error? {
        return Error;
      }
      var val := ParseJsonValue(scanner);
      if !val.Value? {
        return val;
      }
      keys := keys + [key.value];
      values := values + [val.value];
      found := scanner.SkipSpaced(',');
      if found.Error? {
        return Error;
      }
      if !found.value {
        break;
      }
    }
    var _ := scanner.SkipBlanks();
    found := scanner.Skip('}');
    if found.Error? || !found.value {
      return Error;
    }
    return Result.Value(Object(keys, values));
  }

  /** The items of an array, behind its opening bracket. */
  method ParseJsonArray(scanner: Scanner) returns (r: Result<JsonValue>)
    requires scanner.Valid()
    modifies scanner
    ensures scanner.Valid() && Is(r, scanner.cursor, ParseArray(scanner.buffer, old(scanner.cursor)))
    decreases |scanner.buffer| - scanner.cursor, 1
  {
    hide SkipSpaces, ParseValue;
    ghost var b, o := scanner.buffer, ParseArray(scanner.buffer, scanner.cursor);
    var found := scanner.SkipSpaced(']');
    if found.Error? {
      return Broken;
    }
    if found.value {
      return Result.Value(Array([]));
    }
    var values := [];
    while !scanner.Ended()
      invariant scanner.Valid() && old(scanner.cursor) <= scanner.cursor
      invariant ParseItems(b, scanner.cursor, values) == o
      decreases |b| - scanner.cursor
    {
      var val := ParseJsonValue(scanner);
      if !val.Value? {
        return val;
      }
      var _ := scanner.SkipBlanks();
      values := values + [val.value];
      found := scanner.SkipSpaced(',');
      if found.Error? {
        return Broken;
      }
      if !found.value {
        break;
      }
    }
    found := scanner.SkipSpaced(']');
    if found.Error? {
      return Broken;
    }
    if !found.value {
      return Error;
    }
    return Result.Value(Array(values));
  }

  method Parse(text: string) returns (r: Result<JsonValue>)
    ensures match ParseValue(text, 0)
      case Done(v, _) => r == Result.Value(v)
      case Failed => r == Error
      case Trapped => r == Broken
  {
    var scanner := new Scanner(text);
    r := ParseJsonValue(scanner);
  }
}
