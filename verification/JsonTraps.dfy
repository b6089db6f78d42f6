/**
 When the parser breaks off the program instead of returning an error: only at a number that overflows, or within five
 bytes of the end of the buffer, behind a text that could still become a value. With five zero bytes at the end and
 numbers in range it never does, so every text that is not of the grammar gives an error.
 */
module JsonTraps {
  import opened JsonSyntax
  import opened JsonGrammar
  import opened JsonRoundTrip
  import opened JsonSoundness

  /** Every run of digits is a number in range. */
  ghost predicate SmallNumbers(b: string) {
    forall d: nat, e: nat :: d <= e <= |b| && AllDigits(b[d..e]) ==> Decimal(b[d..e]) <= INT_MAX
  }

  /** The last five bytes are zero. */
  predicate Padded(b: string) { 5 <= |b| && forall k: nat :: |b| - 5 <= k < |b| ==> b[k] == '\0' }

  // ---- With zeros behind it the parser does not break off ----

  /** No scan from before the zeros ends in them, and none passes them, but one for a character that is not there. */
  lemma ScansStay(b: string, i: nat, c: char)
    requires Padded(b) && i <= |b| - 5 && c != '\0'
    ensures SkipSpaces(b, i) <= |b| - 5 && SkipDigits(b, i) <= |b| - 5
    ensures Until(b, i, c) < |b| - 5 || Until(b, i, c) == |b|
  {
    assert b[|b| - 5] == '\0';
  }

  /** How a parse may end: with an error, or with a value and the cursor not past the zeros. */
  ghost predicate Ends<T(!new)>(b: string, r: Outcome<T>) { !r.Trapped? && (r.Done? ==> r.next + 5 <= |b|) }

  lemma ScalarEnds(b: string, j: nat)
    requires Padded(b) && SmallNumbers(b) && j <= |b| - 5
    ensures Ends(b, ParseScalar(b, j))
  {
    hide SkipSpaces, Until, At;
    LiteralFits(b, j, "true");
    LiteralFits(b, j, "false");
    LiteralFits(b, j, "null");
    if b[j] == '"' {
      assert j + 1 <= |b| - 5;
      ScansStay(b, j + 1, '"');
    }
    IntEnds(b, j);
  }

  lemma LiteralFits(b: string, j: nat, s: string)
    requires Padded(b) && s != "" && s[|s| - 1] != '\0'
    ensures At(b, j, s) ==> j + |s| <= |b| - 5
  {
    if At(b, j, s) {
      AtChar(b, j, s, |s| - 1);
    }
  }

  lemma IntEnds(b: string, j: nat)
    requires Padded(b) && SmallNumbers(b) && j <= |b| - 5
    ensures Ends(b, ParseInt(b, j))
  {
    hide SkipDigits;
    var d := j + |SignText(SignAt(b, j))|;
    if d < |b| && IsDigit(b[d]) {
      assert d <= |b| - 5;
      ScansStay(b, d, '1');
      assert AllDigits(b[d..SkipDigits(b, d)]);
    }
  }

  lemma KeyEnds(b: string, i: nat)
    requires Padded(b) && i <= |b| - 5
    ensures Ends(b, ParseKey(b, i))
  {
    hide SkipSpaces, Until;
    ScansStay(b, i, '"');
    var j := SkipSpaces(b, i);
    if b[j] == '"' {
      assert j + 1 <= |b| - 5;
      ScansStay(b, j + 1, '"');
      var k := Until(b, j + 1, '"');
      if k < |b| {
        ScansStay(b, k + 1, '"');
        assert b[|b| - 5] == '\0';
      }
    }
  }

  lemma {:induction false} ValueEnds(b: string, i: nat)
    requires Padded(b) && SmallNumbers(b) && i <= |b| - 5
    ensures Ends(b, ParseValue(b, i))
    decreases |b| - i, 0
  {
    hide SkipSpaces, ParseScalar, ParseArray, ParseObject, SmallNumbers;
    ScansStay(b, i, '"');
    var j := SkipSpaces(b, i);
    assert b[|b| - 5] == '\0';
    if b[j] == '{' {
      ObjectEnds(b, j + 1);
    } else if b[j] == '[' {
      ArrayEnds(b, j + 1);
    } else {
      ScalarEnds(b, j);
    }
  }

  lemma {:induction false} ArrayEnds(b: string, i: nat)
    requires Padded(b) && SmallNumbers(b) && i <= |b| - 5
    ensures Ends(b, ParseArray(b, i))
    decreases |b| - i, 2
  {
    hide SkipSpaces, ParseItems, SmallNumbers;
    ScansStay(b, i, '"');
    var j := SkipSpaces(b, i);
    assert b[|b| - 5] == '\0';
    if b[j] != ']' {
      ItemsEnd(b, j, []);
    }
  }

  lemma {:induction false} ItemsEnd(b: string, i: nat, values: seq<JsonValue>)
    requires Padded(b) && SmallNumbers(b) && i <= |b| - 5
    ensures Ends(b, ParseItems(b, i, values))
    decreases |b| - i, 1
  {
    hide SkipSpaces, ParseValue, SmallNumbers;
    ValueEnds(b, i);
    var r := ParseValue(b, i);
    if r.Done? {
      ScansStay(b, r.next, '"');
      var p := SkipSpaces(b, r.next);
      assert b[|b| - 5] == '\0';
      if b[p] == ',' {
        ItemsEnd(b, p + 1, values + [r.value]);
      }
    }
  }

  lemma {:induction false} ObjectEnds(b: string, i: nat)
    requires Padded(b) && SmallNumbers(b) && i <= |b| - 5
    ensures Ends(b, ParseObject(b, i))
    decreases |b| - i, 2
  {
    hide SkipSpaces, ParseMembers, SmallNumbers;
    ScansStay(b, i, '"');
    var j := SkipSpaces(b, i);
    assert b[|b| - 5] == '\0';
    if b[j] != '}' {
      MembersEnd(b, j, [], []);
    }
  }

  lemma {:induction false} MembersEnd(b: string, i: nat, keys: seq<string>, values: seq<JsonValue>)
    requires Padded(b) && SmallNumbers(b) && i <= |b| - 5
    ensures Ends(b, ParseMembers(b, i, keys, values))
    decreases |b| - i, 1
  {
    hide SkipSpaces, ParseKey, ParseValue, SmallNumbers;
    KeyEnds(b, i);
    var key := ParseKey(b, i);
    if key.Done? {
      ValueEnds(b, key.next);
      var r := ParseValue(b, key.next);
      if r.Done? {
        ScansStay(b, r.next, '"');
        var p := SkipSpaces(b, r.next);
        assert b[|b| - 5] == '\0';
        if b[p] == ',' {
          MembersEnd(b, p + 1, keys + [key.value], values + [r.value]);
        }
      }
    }
  }

  /** With five zero bytes at the end and numbers in range, the parser returns: an error exactly when no text of the
    * grammar stands at the cursor. */
  lemma ErrorsExactly(b: string, i: nat)
    requires Padded(b) && SmallNumbers(b) && i <= |b| - 5
    ensures !ParseValue(b, i).Trapped?
    ensures ParseValue(b, i) == Failed <==> forall d: Doc :: Ok(d) ==> !Placed(b, i, d)
  {
    hide ParseValue, SmallNumbers, Placed, Ok, Text;
    ValueEnds(b, i);
    if ParseValue(b, i).Done? {
      var d := ValueRead(b, i);
      assert Ok(d) by { IsRead(b, i, ParseValue(b, i).next, d, ParseValue(b, i).value); }
    }
    forall d: Doc | Ok(d) && Placed(b, i, d) ensures ParseValue(b, i) != Failed {
      DocParses(b, i, d);
    }
  }

  lemma IsRead(b: string, i: nat, next: nat, d: Doc, v: JsonValue)
    requires Reads(b, i, next, d, v)
    ensures Ok(d)
  {
  }

  // ---- Where it breaks off ----

  /** The bytes from i to p are the beginning of a value's text. */
  ghost predicate Begins(b: string, i: nat, p: nat, d: Doc) { i <= p <= |b| && Ok(d) && b[i..p] < Text(d) }

  ghost predicate BeginsItems(b: string, i: nat, p: nat, items: Items) {
    i <= p <= |b| && ItemsOk(items) && b[i..p] < ItemsText(items)
  }

  ghost predicate BeginsMembers(b: string, i: nat, p: nat, members: Members) {
    i <= p <= |b| && MembersOk(members) && b[i..p] < MembersText(members)
  }

  lemma Before(u: string, v: string, w: string)
    requires v < w
    ensures u + v < u + w
  {
    assert (u + w)[..|u + v|] == u + v;
  }

  /** A text that begins behind one that stands in the buffer begins with it. */
  lemma BeforeAt(b: string, i: nat, u: string, p: nat, w: string)
    requires At(b, i, u) && i + |u| <= p <= |b| && b[i + |u|..p] < w
    ensures b[i..p] < u + w
  {
    Before(u, b[i + |u|..p], w);
    assert b[i..p] == u + b[i + |u|..p];
  }

  lemma {:induction false} ValueTraps(b: string, i: nat) returns (p: nat, d: Doc)
    requires i <= |b| && ParseValue(b, i).Trapped? && SmallNumbers(b)
    ensures Begins(b, i, p, d) && |b| < p + 5
    decreases |b| - i, 0
  {
    hide SkipSpaces, ParseScalar, ParseArray, ParseObject, SmallNumbers, At;
    var j := SkipSpaces(b, i);
    var ws := SpacesRead(b, i);
    if j < |b| && b[j] == '{' {
      var n;
      p, n := ObjectTraps(b, j);
      d := Doc(ws, n);
      BeforeAt(b, i, ws, p, NodeText(n));
    } else if j < |b| && b[j] == '[' {
      var n;
      p, n := ArrayTraps(b, j);
      d := Doc(ws, n);
      BeforeAt(b, i, ws, p, NodeText(n));
    } else {
      p, d := j, Doc(ws, NullNode);
      if j < |b| {
        ScalarTraps(b, j);
      }
      assert b[j..j] == "" < "null";
      BeforeAt(b, i, ws, p, NodeText(NullNode));
    }
    DocOf(ws, d.node);
  }

  lemma DocOf(ws: string, n: Node)
    requires AllSpace(ws) && NodeOk(n)
    ensures Ok(Doc(ws, n)) && Text(Doc(ws, n)) == ws + NodeText(n)
  {
  }

  lemma ScalarTraps(b: string, j: nat)
    requires j < |b| && ParseScalar(b, j).Trapped? && SmallNumbers(b)
    ensures |b| < j + 5
  {
    hide At, Until, ParseInt;
    IntInRange(b, j);
  }

  lemma IntInRange(b: string, j: nat)
    requires j < |b| && SmallNumbers(b)
    ensures !ParseInt(b, j).Trapped?
  {
    var d := j + |SignText(SignAt(b, j))|;
    if d < |b| && IsDigit(b[d]) {
      assert AllDigits(b[d..SkipDigits(b, d)]);
    }
  }

  lemma {:induction false} ArrayTraps(b: string, j: nat) returns (p: nat, n: Node)
    requires j < |b| && b[j] == '[' && ParseArray(b, j + 1).Trapped? && SmallNumbers(b)
    ensures j <= p <= |b| < p + 5 && NodeOk(n) && b[j..p] < NodeText(n)
    decreases |b| - j - 1, 2
  {
    hide SkipSpaces, ParseItems, SmallNumbers, At, ItemsText;
    CharRead(b, j);
    var k := SkipSpaces(b, j + 1);
    var ws := SpacesRead(b, j + 1);
    if k == |b| {
      p, n := |b|, EmptyArray(ws);
      AtJoin(b, j, "[", ws);
      assert b[|b|..|b|] == "" < "]";
      BeforeAt(b, j, "[" + ws, p, "]");
    } else {
      var items;
      ItemsSkip(b, j + 1, []);
      p, items := ItemsTrap(b, j + 1, []);
      n := ArrayNode(items);
      BeforeAt(b, j, "[", p, ItemsText(items));
    }
  }

  /** One item of an array as a beginning of the rest. */
  lemma ItemBegins(b: string, i: nat, p: nat, d: Doc) returns (items: Items)
    requires Begins(b, i, p, d)
    ensures BeginsItems(b, i, p, items)
  {
    hide Text, Ok;
    items := LastItem(d, "");
    Longer(b[i..p], Text(d), "]");
    assert ItemsText(items) == Text(d) + "]";
  }

  lemma Longer(u: string, v: string, w: string)
    requires u < v
    ensures u < v + w
  {
    assert (v + w)[..|u|] == v[..|u|];
  }

  lemma {:induction false} ItemsTrap(b: string, i: nat, values: seq<JsonValue>) returns (p: nat, items: Items)
    requires i <= |b| && ParseItems(b, i, values).Trapped? && SmallNumbers(b)
    ensures BeginsItems(b, i, p, items) && |b| < p + 5
    decreases |b| - i, 1
  {
    hide SkipSpaces, ParseValue, SmallNumbers, At, Text, Ok, Value, Begins;
    if i == |b| {
      p := i;
      items := ItemBegins(b, i, p, AnyDoc(b, i));
    } else if ParseValue(b, i).Trapped? {
      var d;
      p, d := ValueTraps(b, i);
      BeginsWithin(b, i, p, d);
      items := ItemBegins(b, i, p, d);
    } else {
      p, items := RestTraps(b, i, values);
    }
  }

  lemma BeginsWithin(b: string, i: nat, p: nat, d: Doc)
    requires Begins(b, i, p, d)
    ensures i <= p <= |b|
  {
  }

  /** Nothing is the beginning of every text. */
  function AnyDoc(b: string, i: nat): (d: Doc)
    requires i <= |b|
    ensures Begins(b, i, i, d)
  {
    assert b[i..i] == "";
    Doc("", NullNode)
  }

  /** The value behind the cursor is read; what comes after it breaks off. */
  lemma {:induction false} RestTraps(b: string, i: nat, values: seq<JsonValue>) returns (p: nat, items: Items)
    requires i < |b| && ParseValue(b, i).Done? && ParseItems(b, i, values).Trapped? && SmallNumbers(b)
    ensures BeginsItems(b, i, p, items) && |b| < p + 5
    decreases |b| - i, 0
  {
    hide SkipSpaces, ParseValue, SmallNumbers, At, Text, Ok, Value;
    var n, v := ParseValue(b, i).next, ParseValue(b, i).value;
    var d := ValueRead(b, i);
    var post := SpacesRead(b, n);
    var q := SkipSpaces(b, n);
    AtJoin(b, i, Text(d), post);
    if q == |b| {
      p, items := |b|, LastItem(d, post);
      assert b[|b|..|b|] == "" < "]";
      BeforeAt(b, i, Text(d) + post, p, "]");
    } else {
      CharRead(b, q);
      AtJoin(b, i, Text(d) + post, ",");
      var rest;
      p, rest := ItemsTrap(b, q + 1, values + [v]);
      items := MoreItems(d, post, rest);
      BeforeAt(b, i, Text(d) + post + ",", p, ItemsText(rest));
    }
  }

  lemma {:induction false} ObjectTraps(b: string, j: nat) returns (p: nat, n: Node)
    requires j < |b| && b[j] == '{' && ParseObject(b, j + 1).Trapped? && SmallNumbers(b)
    ensures j <= p <= |b| < p + 5 && NodeOk(n) && b[j..p] < NodeText(n)
    decreases |b| - j - 1, 2
  {
    hide SkipSpaces, ParseMembers, SmallNumbers, At, MembersText;
    CharRead(b, j);
    var k := SkipSpaces(b, j + 1);
    var ws := SpacesRead(b, j + 1);
    if k == |b| {
      p, n := |b|, EmptyObject(ws);
      AtJoin(b, j, "{", ws);
      assert b[|b|..|b|] == "" < "}";
      BeforeAt(b, j, "{" + ws, p, "}");
    } else {
      var members;
      MembersSkip(b, j + 1, [], []);
      p, members := MembersTrap(b, j + 1, [], []);
      n := ObjectNode(members);
      BeforeAt(b, j, "{", p, MembersText(members));
    }
  }

  lemma {:induction false} MembersTrap(b: string, i: nat, keys: seq<string>, values: seq<JsonValue>)
      returns (p: nat, members: Members)
    requires i <= |b| && ParseMembers(b, i, keys, values).Trapped? && SmallNumbers(b)
    ensures BeginsMembers(b, i, p, members) && |b| < p + 5
    decreases |b| - i, 1
  {
    hide SkipSpaces, ParseKey, ParseValue, SmallNumbers, At, Text, Ok, Value, KeyText;
    KeyNeverTraps(b, i);
    var pre, mid := KeyRead(b, i);
    var key, m := ParseKey(b, i).value, ParseKey(b, i).next;
    if ParseValue(b, m).Trapped? {
      var d;
      p, d := ValueTraps(b, m);
      members := OneMember(pre, key, mid, d);
      Longer(b[m..p], Text(d), "}");
      BeforeAt(b, i, KeyText(pre, key, mid), p, Text(d) + "}");
    } else {
      var member, q := MemberRead(b, i);
      var rest;
      p, rest := MembersTrap(b, q + 1, keys + [key], values + [ParseValue(b, m).value]);
      members := MoreMembers(member, rest);
      BeforeAt(b, i, MemberText(member) + ",", p, MembersText(rest));
    }
  }

  function OneMember(pre: string, key: string, mid: string, d: Doc): (members: Members)
    requires AllSpace(pre) && QuoteFree(key) && AllSpace(mid) && Ok(d)
    ensures MembersOk(members) && MembersText(members) == KeyText(pre, key, mid) + (Text(d) + "}")
  {
    var m := Member(pre, key, mid, d, "");
    assert MemberOk(m) && AllSpace(m.post);
    assert MemberText(m) + "}" == KeyText(pre, key, mid) + (Text(d) + "}");
    LastMember(m)
  }

  lemma KeyNeverTraps(b: string, i: nat)
    requires i <= |b|
    ensures !ParseKey(b, i).Trapped?
  {
  }

  /** The parser breaks off only at a number that overflows, or within five bytes of the end, behind the beginning of a
    * value's text. */
  lemma TrapsOnlyNearTheEnd(b: string, i: nat)
    requires i <= |b| && ParseValue(b, i).Trapped?
    ensures !SmallNumbers(b) || exists p: nat, d: Doc :: Begins(b, i, p, d) && |b| < p + 5
  {
    hide ParseValue, Begins, SmallNumbers;
    if SmallNumbers(b) {
      var p, d := ValueTraps(b, i);
    }
  }

  /** A missing comma is an error; without bytes behind it the same text breaks off. */
  lemma MissingComma(b: string)
    requires b == "[1 2]    " || b == "[1 2]"
    ensures ParseValue(b, 0) == if |b| == 9 then Failed else Trapped
  {
    hide ParseItems, SkipSpaces, ParseValue, At, Text, Ok;
    var one := Doc("", NumNode(NoSign, "1"));
    OneReads(b, one);
    DocParses(b, 1, one);
    Opens(b);
    ItemsFail(b, 1, []);
  }

  lemma OneReads(b: string, d: Doc)
    requires d == Doc("", NumNode(NoSign, "1")) && 3 < |b| && b[1] == '1' && b[2] == ' '
    ensures Ok(d) && Placed(b, 1, d) && |Text(d)| == 1 && Need(d.node) == 4
  {
    hide Text, Ok, Need;
    OneText(d);
    assert b[1..2] == "1";
  }

  lemma OneText(d: Doc)
    requires d == Doc("", NumNode(NoSign, "1"))
    ensures Ok(d) && Text(d) == "1" && Need(d.node) == 4
  {
    assert "1"[..0] == "";
    assert Decimal("1") == 1;
  }

  lemma Opens(b: string)
    requires 3 < |b| && b[0] == '[' && b[1] == '1' && b[2] == ' ' && b[3] == '2'
    ensures ParseValue(b, 0) == ParseItems(b, 1, []) && SkipSpaces(b, 2) == 3
  {
    hide ParseItems;
    assert SkipSpaces(b, 0) == 0 && SkipSpaces(b, 1) == 1 && SkipSpaces(b, 3) == 3;
  }

  lemma ItemsFail(b: string, i: nat, values: seq<JsonValue>)
    requires i < |b|
    ensures ParseValue(b, i).Trapped? ==> ParseItems(b, i, values) == Trapped
    ensures ParseValue(b, i).Done? ==>
      var p := SkipSpaces(b, ParseValue(b, i).next);
      p < |b| && b[p] != ',' && b[p] != ']' ==> ParseItems(b, i, values) == Failed
  {
    hide ParseValue, SkipSpaces;
  }

  // ---- Texts that end too early ----

  /** White space to the end of the buffer, alone or behind an opening bracket or brace, breaks off the program. */
  lemma NothingThere(ws: string)
    requires AllSpace(ws)
    ensures ParseValue(ws, 0) == ParseValue("[" + ws, 0) == ParseValue("{" + ws, 0) == Trapped
  {
    hide SkipSpaces, ParseItems, ParseMembers;
    SpacesEnd(ws, 0, ws);
    assert At("[" + ws, 1, ws) && At("{" + ws, 1, ws);
    SpacesEnd("[" + ws, 1, ws);
    SpacesEnd("{" + ws, 1, ws);
    NoSpaces("[" + ws);
    NoSpaces("{" + ws);
  }

  lemma NoSpaces(b: string)
    requires b != "" && !IsSpace(b[0])
    ensures SkipSpaces(b, 0) == 0
  {
  }

  /** A value and white space up to the end of the buffer: an array without its bracket breaks off the program, an
    * object without its brace is an error. */
  lemma Unfinished(d: Doc, key: string, ws: string)
    requires Ok(d) && QuoteFree(key) && AllSpace(ws) && 4 <= |ws|
    ensures ParseValue("[" + Text(d) + ws, 0) == Trapped
    ensures ParseValue("{" + KeyText("", key, "") + Text(d) + ws, 0) == Failed
  {
    hide ParseValue, Text, Ok, KeyText;
    UnfinishedArray("[" + Text(d) + ws, d, ws);
    UnfinishedObject("{" + KeyText("", key, "") + Text(d) + ws, d, key, ws);
  }

  /** A value behind a prefix, with white space up to the end of the buffer. */
  lemma ValueThenSpace(b: string, pre: string, d: Doc, ws: string)
    requires Ok(d) && AllSpace(ws) && 4 <= |ws| && b == pre + Text(d) + ws
    ensures At(b, |pre|, Text(d))
    ensures ParseValue(b, |pre|) == Done(Value(d), |pre| + |Text(d)|) && SkipSpaces(b, |pre| + |Text(d)|) == |b|
  {
    hide *;
    SpaceIsNoDigit(ws);
    TextParses(d, pre, ws);
    Embedded(pre, Text(d), ws);
    SpaceAtEnd(pre + Text(d), ws);
  }

  lemma SpaceIsNoDigit(ws: string)
    requires AllSpace(ws) && ws != ""
    ensures !IsDigit(ws[0])
  {
  }

  lemma SpaceAtEnd(s: string, ws: string)
    requires AllSpace(ws)
    ensures SkipSpaces(s + ws, |s|) == |s + ws|
  {
    hide SkipSpaces, At, IsSpace;
    TailAt(s, ws);
    SpacesEnd(s + ws, |s|, ws);
  }

  lemma TailAt(s: string, t: string)
    ensures At(s + t, |s|, t)
  {
  }

  lemma DocOpens(b: string, i: nat, d: Doc)
    requires Ok(d) && At(b, i, Text(d))
    ensures i <= |b|
    ensures var j := SkipSpaces(b, i); j < |b| && b[j] != ']'
  {
    hide Text, SkipSpaces, At, FirstChar;
    DocBegins(b, i, d);
    NodeBegins(d.node);
  }

  lemma UnfinishedArray(b: string, d: Doc, ws: string)
    requires Ok(d) && AllSpace(ws) && 4 <= |ws| && b == "[" + Text(d) + ws
    ensures ParseValue(b, 0) == Trapped
  {
    hide Text, Ok, Value, SkipSpaces, At, ParseScalar, ParseObject;
    ValueThenSpace(b, "[", d, ws);
    NoSpaces(b);
    DocOpens(b, 1, d);
    ItemsSkip(b, 1, []);
    ItemsStop(b, 1, []);
  }

  lemma UnfinishedObject(b: string, d: Doc, key: string, ws: string)
    requires Ok(d) && QuoteFree(key) && AllSpace(ws) && 4 <= |ws| && b == "{" + KeyText("", key, "") + Text(d) + ws
    ensures ParseValue(b, 0) == Failed
  {
    hide Text, Ok, Value, SkipSpaces, ParseKey, KeyText, ParseScalar, ParseArray, ParseMembers;
    ValueThenSpace(b, "{" + KeyText("", key, ""), d, ws);
    NoSpaces(b);
    assert At(b, 1, KeyText("", key, ""));
    KeyParses(b, 1, "", key, "");
    MembersSkip(b, 1, [], []);
    MembersStop(b, 1, [], []);
  }

  lemma ItemsStop(b: string, i: nat, values: seq<JsonValue>)
    requires i < |b| && ParseValue(b, i).Done? && SkipSpaces(b, ParseValue(b, i).next) == |b|
    ensures ParseItems(b, i, values) == Trapped
  {
    hide ParseValue, SkipSpaces;
  }

  lemma MembersStop(b: string, i: nat, keys: seq<string>, values: seq<JsonValue>)
    requires i < |b| && ParseKey(b, i).Done? && ParseValue(b, ParseKey(b, i).next).Done?
    requires SkipSpaces(b, ParseValue(b, ParseKey(b, i).next).next) == |b|
    ensures ParseMembers(b, i, keys, values) == Failed
  {
    hide ParseValue, ParseKey, SkipSpaces;
  }

  // ---- White space ----

  /** Each of the four white-space characters is passed over; no other one is. */
  lemma WhiteSpace(b: string, i: nat)
    requires i < |b|
    ensures b[i] == ' ' || b[i] == '\t' || b[i] == '\n' || b[i] == '\r' ==> ParseValue(b, i) == ParseValue(b, i + 1)
    ensures b[i] == ' ' || b[i] == '\t' || b[i] == '\n' || b[i] == '\r' <==> SkipSpaces(b, i) != i
  {
  }
}
