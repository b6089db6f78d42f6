/** Parsing undoes printing: the parser returns the value of every text of the grammar, and returns a
  * value for nothing else. */
module JsonRoundTrip {
  import opened Numbers
  import opened JsonSyntax
  import opened JsonGrammar

  // ---- Leading white space does not matter ----

  lemma SkipTwice(b: string, i: nat)
    requires i <= |b|
    ensures SkipSpaces(b, SkipSpaces(b, i)) == SkipSpaces(b, i)
  {
  }

  lemma ValueSkips(b: string, i: nat)
    requires i <= |b|
    ensures ParseValue(b, SkipSpaces(b, i)) == ParseValue(b, i)
  {
    SkipTwice(b, i);
  }

  lemma ItemsSkip(b: string, i: nat, values: seq<JsonValue>)
    requires i <= |b|
    ensures ParseItems(b, SkipSpaces(b, i), values) == ParseItems(b, i, values)
  {
    ValueSkips(b, i);
  }

  lemma KeySkips(b: string, i: nat)
    requires i <= |b|
    ensures ParseKey(b, SkipSpaces(b, i)) == ParseKey(b, i)
  {
    hide SkipSpaces, Until;
    SkipTwice(b, i);
  }

  lemma MembersSkip(b: string, i: nat, keys: seq<string>, values: seq<JsonValue>)
    requires i <= |b|
    ensures ParseMembers(b, SkipSpaces(b, i), keys, values) == ParseMembers(b, i, keys, values)
  {
    hide SkipSpaces, ParseKey, ParseValue;
    KeySkips(b, i);
  }

  // ---- Texts parse to their values ----

  /** The first character of a value's text, after white space. */
  function FirstChar(n: Node): char {
    match n
    case NullNode => 'n'
    case BoolNode(value) => if value then 't' else 'f'
    case NumNode(sign, digits) =>
      if sign == Minus then '-' else if sign == Plus then '+' else if digits == "" then '0' else digits[0]
    case StrNode(chars) => '"'
    case EmptyArray(gap) => '['
    case ArrayNode(items) => '['
    case EmptyObject(gap) => '{'
    case ObjectNode(members) => '{'
  }

  lemma NodeBegins(n: Node)
    requires NodeOk(n)
    ensures NodeText(n) != "" && NodeText(n)[0] == FirstChar(n)
    ensures n.NumNode? && n.sign == NoSign ==> IsDigit(FirstChar(n))
    ensures !IsSpace(FirstChar(n)) && FirstChar(n) !in "]},:"
  {
  }

  /** The text is in the buffer, and not followed by a digit when it ends in one. */
  ghost predicate Placed(b: string, i: nat, d: Doc) {
    && At(b, i, Text(d))
    && (d.node.NumNode? && i + |Text(d)| < |b| ==> !IsDigit(b[i + |Text(d)|]))
  }

  // ---- How many bytes must follow a text ----

  function Less(a: nat, b: nat): nat { if b < a then a - b else 0 }

  function Max(a: nat, b: nat): nat { if a < b then b else a }

  /** The probes for "true" and "false" look at five bytes from where a scalar starts, and break off
    * the program when they are not there. So a text needs this many bytes behind it. */
  function Need(n: Node): nat {
    match n
    case NullNode => 1
    case BoolNode(_) => 0
    case NumNode(_, _) => Less(5, |NodeText(n)|)
    case StrNode(_) => Less(5, |NodeText(n)|)
    case EmptyArray(_) => 0
    case ArrayNode(items) => ItemsNeed(items)
    case EmptyObject(_) => 0
    case ObjectNode(members) => MembersNeed(members)
  }

  function ItemsNeed(items: Items): nat {
    match items
    case LastItem(doc, post) => Less(Need(doc.node), |post| + 1)
    case MoreItems(doc, post, rest) => Max(Less(Need(doc.node), |post| + 1 + |ItemsText(rest)|), ItemsNeed(rest))
  }

  function MembersNeed(members: Members): nat {
    match members
    case LastMember(m) => Less(Need(m.doc.node), |m.post| + 1)
    case MoreMembers(m, rest) => Max(Less(Need(m.doc.node), |m.post| + 1 + |MembersText(rest)|), MembersNeed(rest))
  }

  /** Four bytes are always enough. */
  lemma {:induction false} NeedAtMostFour(n: Node)
    requires NodeOk(n)
    ensures Need(n) <= 4
    decreases n
  {
    match n
    case ArrayNode(items) => ItemsNeedAtMostFour(items);
    case ObjectNode(members) => MembersNeedAtMostFour(members);
    case _ =>
  }

  lemma {:induction false} ItemsNeedAtMostFour(items: Items)
    requires ItemsOk(items)
    ensures ItemsNeed(items) <= 4
    decreases items
  {
    NeedAtMostFour(items.doc.node);
    if items.MoreItems? {
      ItemsNeedAtMostFour(items.rest);
    }
  }

  lemma {:induction false} MembersNeedAtMostFour(members: Members)
    requires MembersOk(members)
    ensures MembersNeed(members) <= 4
    decreases members
  {
    assert MemberOk(members.member) && Ok(members.member.doc);
    NeedAtMostFour(members.member.doc.node);
    if members.MoreMembers? {
      MembersNeedAtMostFour(members.rest);
    }
  }

  /** What the parser makes of a text that ends at a place and needs so many bytes behind it. */
  function Expected<T>(b: string, value: T, end: nat, need: nat): Outcome<T> {
    if end + need <= |b| then Done(value, end) else Trapped
  }

  /** The cursor comes to the value behind its leading white space. */
  lemma DocBegins(b: string, i: nat, d: Doc)
    requires Ok(d) && At(b, i, Text(d))
    ensures var j := i + |d.lead|;
      j < |b| && SkipSpaces(b, i) == j && At(b, j, NodeText(d.node)) && b[j] == FirstChar(d.node)
  {
    NodeBegins(d.node);
    AtSplit(b, i, d.lead, NodeText(d.node));
    AtChar(b, i + |d.lead|, NodeText(d.node), 0);
    SpacesEnd(b, i, d.lead);
  }

  lemma LiteralsParse(b: string, j: nat, n: Node)
    requires (n.NullNode? || n.BoolNode?) && At(b, j, NodeText(n))
    ensures ParseScalar(b, j) == Expected(b, Value(Doc("", n)), j + |NodeText(n)|, Need(n))
  {
    AtChar(b, j, NodeText(n), 0);
    if At(b, j, "true") {
      AtChar(b, j, "true", 0);
    } else if At(b, j, "false") {
      AtChar(b, j, "false", 0);
    }
  }

  lemma StringParses(b: string, j: nat, chars: string)
    requires QuoteFree(chars) && At(b, j, NodeText(StrNode(chars)))
    ensures ParseScalar(b, j) == Expected(b, String(chars), j + |chars| + 2, Less(5, |chars| + 2))
  {
    hide At, Until;
    var t := NodeText(StrNode(chars));
    AtChar(b, j, t, 0);
    NotLiterals(b, j);
    AtSplit(b, j, "\"" + chars, "\"");
    AtSplit(b, j, "\"", chars);
    AtChar(b, j + 1 + |chars|, "\"", 0);
    QuoteEnds(b, j + 1, chars);
  }

  lemma NotLiterals(b: string, j: nat)
    requires j < |b| && b[j] != 't' && b[j] != 'f' && b[j] != 'n'
    ensures !At(b, j, "true") && !At(b, j, "false") && !At(b, j, "null")
  {
    if At(b, j, "true") {
      AtChar(b, j, "true", 0);
    }
    if At(b, j, "false") {
      AtChar(b, j, "false", 0);
    }
    if At(b, j, "null") {
      AtChar(b, j, "null", 0);
    }
  }

  lemma NumberParses(b: string, j: nat, sign: Sign, digits: string)
    requires NodeOk(NumNode(sign, digits)) && At(b, j, NodeText(NumNode(sign, digits)))
    requires var end := j + |NodeText(NumNode(sign, digits))|; end < |b| ==> !IsDigit(b[end])
    ensures var n := NumNode(sign, digits);
      ParseScalar(b, j) == Expected(b, Number(Signed(sign, Decimal(digits))), j + |NodeText(n)|, Need(n))
  {
    hide At, SkipDigits, Decimal;
    var n := NumNode(sign, digits);
    NodeBegins(n);
    AtChar(b, j, NodeText(n), 0);
    NotLiterals(b, j);
    AtSplit(b, j, SignText(sign), digits);
    var d := j + |SignText(sign)|;
    AtChar(b, d, digits, 0);
    DigitsEnd(b, d, digits);
    assert SignAt(b, j) == sign;
    assert b[d..d + |digits|] == digits;
  }

  lemma {:induction false} DocParses(b: string, i: nat, d: Doc)
    requires Ok(d) && Placed(b, i, d)
    ensures ParseValue(b, i) == Expected(b, Value(d), i + |Text(d)|, Need(d.node))
    decreases d
  {
    hide At, SkipSpaces, ParseScalar, ParseItems, ParseMembers, FirstChar, ItemsText, MembersText, ItemsNeed,
      MembersNeed, ItemValues, Keys, MemberValues;
    var j := i + |d.lead|;
    DocBegins(b, i, d);
    NodeBegins(d.node);
    match d.node
    case NullNode => LiteralsParse(b, j, d.node);
    case BoolNode(_) => LiteralsParse(b, j, d.node);
    case NumNode(sign, digits) => NumberParses(b, j, sign, digits);
    case StrNode(chars) => StringParses(b, j, chars);
    case EmptyArray(gap) => EmptyParses(b, j, "[", gap, "]");
    case EmptyObject(gap) => EmptyParses(b, j, "{", gap, "}");
    case ArrayNode(items) => ArrayParses(b, j, items);
    case ObjectNode(members) => ObjectParses(b, j, members);
  }

  lemma ArrayParses(b: string, j: nat, items: Items)
    requires ItemsOk(items) && At(b, j, "[" + ItemsText(items))
    ensures j + 1 <= |b|
    ensures ParseArray(b, j + 1) == Expected(b, Array(ItemValues(items)), j + 1 + |ItemsText(items)|, ItemsNeed(items))
    decreases items, 1
  {
    hide At, SkipSpaces, ParseItems, ItemValues, ItemsOk;
    AtSplit(b, j, "[", ItemsText(items));
    ItemsParse(b, j + 1, items, []);
    ItemsBegin(b, j + 1, items);
    ItemsSkip(b, j + 1, []);
    assert [] + ItemValues(items) == ItemValues(items);
  }

  lemma ObjectParses(b: string, j: nat, members: Members)
    requires MembersOk(members) && At(b, j, "{" + MembersText(members))
    ensures j + 1 <= |b|
    ensures ParseObject(b, j + 1) == Expected(b, Object(Keys(members), MemberValues(members)),
      j + 1 + |MembersText(members)|, MembersNeed(members))
    decreases members, 1
  {
    hide At, SkipSpaces, ParseMembers, Keys, MemberValues, MembersOk;
    AtSplit(b, j, "{", MembersText(members));
    MembersParse(b, j + 1, members, [], []);
    MembersBegin(b, j + 1, members);
    MembersSkip(b, j + 1, [], []);
    assert [] + Keys(members) == Keys(members) && [] + MemberValues(members) == MemberValues(members);
  }

  lemma EmptyParses(b: string, j: nat, open: string, gap: string, close: string)
    requires |open| == 1 && |close| == 1 && AllSpace(gap) && !IsSpace(close[0])
    requires At(b, j, open + gap + close)
    ensures var k := SkipSpaces(b, j + 1); k == j + 1 + |gap| && k < |b| && b[k] == close[0]
  {
    AtSplit(b, j, open + gap, close);
    AtSplit(b, j, open, gap);
    AtChar(b, j + 1 + |gap|, close, 0);
    SpacesEnd(b, j + 1, gap);
  }

  lemma ItemsBegin(b: string, i: nat, items: Items)
    requires ItemsOk(items) && At(b, i, ItemsText(items))
    ensures var j := SkipSpaces(b, i); j < |b| && b[j] != ']'
  {
    hide At, SkipSpaces, Text, FirstChar;
    var rest := if items.LastItem? then "]" else "," + ItemsText(items.rest);
    assert ItemsText(items) == Text(items.doc) + (items.post + rest);
    AtSplit(b, i, Text(items.doc), items.post + rest);
    DocBegins(b, i, items.doc);
    NodeBegins(items.doc.node);
  }

  /** After an item: white space, and then a comma or a bracket. */
  lemma ItemEnds(b: string, i: nat, d: Doc, post: string, c: char, rest: string)
    requires Ok(d) && AllSpace(post) && (c == ',' || c == ']' || c == '}')
    requires At(b, i, Text(d) + post + ([c] + rest))
    ensures Placed(b, i, d)
    ensures var n := i + |Text(d)|; var p := SkipSpaces(b, n);
      p == n + |post| && p < |b| && b[p] == c && At(b, p + 1, rest)
  {
    hide At, SkipSpaces, Text, Ok;
    var n := i + |Text(d)|;
    AtSplit(b, i, Text(d) + post, [c] + rest);
    AtSplit(b, i, Text(d), post);
    AtSplit(b, n + |post|, [c], rest);
    AtChar(b, n + |post|, [c], 0);
    SpacesEnd(b, n, post);
    if post != "" {
      AtChar(b, n, post, 0);
    }
  }

  lemma Regroup<T>(a: seq<T>, x: T, b: seq<T>)
    ensures a + [x] + b == a + ([x] + b)
  {
  }

  /** What one item makes of the rest. */
  lemma ItemsUnfold(b: string, i: nat, values: seq<JsonValue>, v: JsonValue, n: nat, need: nat, p: nat)
    requires i < |b| && ParseValue(b, i) == Expected(b, v, n, need)
    requires n <= p < |b| && SkipSpaces(b, n) == p
    ensures n + need > |b| ==> ParseItems(b, i, values) == Trapped
    ensures n + need <= |b| && b[p] == ']' ==> ParseItems(b, i, values) == Done(Array(values + [v]), p + 1)
    ensures n + need <= |b| && b[p] == ',' ==> ParseItems(b, i, values) == ParseItems(b, p + 1, values + [v])
  {
    hide SkipSpaces, ParseValue;
  }

  lemma {:induction false} ItemsParse(b: string, i: nat, items: Items, values: seq<JsonValue>)
    requires ItemsOk(items) && At(b, i, ItemsText(items))
    ensures i <= |b|
    ensures ParseItems(b, i, values) ==
      Expected(b, Array(values + ItemValues(items)), i + |ItemsText(items)|, ItemsNeed(items))
    decreases items, 0
  {
    hide At, SkipSpaces, ParseValue, ParseItems, Value, Text, Ok, Need;
    var d, post := items.doc, items.post;
    var n := i + |Text(d)|;
    match items
    case LastItem(_, _) =>
      assert ItemsText(items) == Text(d) + post + ([']'] + "");
      ItemEnds(b, i, d, post, ']', "");
      DocParses(b, i, d);
      ItemsUnfold(b, i, values, Value(d), n, Need(d.node), n + |post|);
    case MoreItems(_, _, rest) =>
      assert ItemsText(items) == Text(d) + post + ([','] + ItemsText(rest));
      ItemEnds(b, i, d, post, ',', ItemsText(rest));
      DocParses(b, i, d);
      ItemsUnfold(b, i, values, Value(d), n, Need(d.node), n + |post|);
      ItemsParse(b, i + |Text(d)| + |post| + 1, rest, values + [Value(d)]);
      Regroup(values, Value(d), ItemValues(rest));
  }

  /** Where the parts of a key are. */
  lemma KeyParts(b: string, i: nat, pre: string, key: string, mid: string)
    requires At(b, i, KeyText(pre, key, mid))
    ensures var j := i + |pre|; var k := j + 1 + |key|; var m := k + 1 + |mid|;
      && At(b, i, pre) && j < |b| && b[j] == '"' && At(b, j + 1, key) && k < |b| && b[k] == '"'
      && At(b, k + 1, mid) && m < |b| && b[m] == ':' && m + 1 == i + |KeyText(pre, key, mid)|
  {
    hide At;
    var j := i + |pre|;
    var k := j + 1 + |key|;
    AtSplit(b, i, pre + "\"" + key + "\"" + mid, ":");
    AtSplit(b, i, pre + "\"" + key + "\"", mid);
    AtSplit(b, i, pre + "\"" + key, "\"");
    AtSplit(b, i, pre + "\"", key);
    AtSplit(b, i, pre, "\"");
    AtChar(b, j, "\"", 0);
    AtChar(b, k, "\"", 0);
    AtChar(b, k + 1 + |mid|, ":", 0);
  }

  lemma KeyParses(b: string, i: nat, pre: string, key: string, mid: string)
    requires AllSpace(pre) && QuoteFree(key) && AllSpace(mid) && At(b, i, KeyText(pre, key, mid))
    ensures ParseKey(b, i) == Done(key, i + |KeyText(pre, key, mid)|)
    ensures var j := SkipSpaces(b, i); j < |b| && b[j] == '"'
  {
    hide KeyText, SkipSpaces, Until;
    var j := i + |pre|;
    var k := j + 1 + |key|;
    KeyParts(b, i, pre, key, mid);
    SpacesEnd(b, i, pre);
    QuoteEnds(b, j + 1, key);
    SpacesEnd(b, k + 1, mid);
    assert b[j + 1..k] == key;
  }

  /** A member: its key, its value, and what ends it. */
  lemma MemberParses(b: string, i: nat, m: Member, c: char, rest: string)
    requires MemberOk(m) && (c == ',' || c == '}')
    requires At(b, i, MemberText(m) + ([c] + rest))
    ensures var v := i + |KeyText(m.pre, m.key, m.mid)|;
      && ParseKey(b, i) == Done(m.key, v) && Ok(m.doc) && Placed(b, v, m.doc) && v + |Text(m.doc)| <= |b|
      && |MemberText(m)| == |KeyText(m.pre, m.key, m.mid)| + |Text(m.doc)| + |m.post|
    ensures var p := i + |MemberText(m)|;
      p < |b| && b[p] == c && At(b, p + 1, rest) && SkipSpaces(b, p - |m.post|) == p
  {
    hide At, SkipSpaces, Until, ParseKey;
    var key := KeyText(m.pre, m.key, m.mid);
    var tail := Text(m.doc) + m.post + ([c] + rest);
    assert MemberText(m) + ([c] + rest) == key + tail;
    AtSplit(b, i, key, tail);
    KeyParses(b, i, m.pre, m.key, m.mid);
    ItemEnds(b, i + |key|, m.doc, m.post, c, rest);
  }

  lemma MembersBegin(b: string, i: nat, members: Members)
    requires MembersOk(members) && At(b, i, MembersText(members))
    ensures var j := SkipSpaces(b, i); j < |b| && b[j] != '}'
  {
    var m := members.member;
    var key := KeyText(m.pre, m.key, m.mid);
    var rest := if members.LastMember? then "}" else "," + MembersText(members.rest);
    assert MembersText(members) == key + (Text(m.doc) + m.post + rest);
    AtSplit(b, i, key, Text(m.doc) + m.post + rest);
    KeyParses(b, i, m.pre, m.key, m.mid);
  }

  /** What one member makes of the rest. */
  lemma MembersUnfold(b: string, i: nat, keys: seq<string>, values: seq<JsonValue>, key: string, m: nat,
      v: JsonValue, n: nat, need: nat, p: nat)
    requires i <= |b| && m <= |b| && ParseKey(b, i) == Done(key, m) && ParseValue(b, m) == Expected(b, v, n, need)
    requires n <= p < |b| && SkipSpaces(b, n) == p
    ensures n + need > |b| ==> ParseMembers(b, i, keys, values) == Trapped
    ensures n + need <= |b| && b[p] == '}' ==>
      ParseMembers(b, i, keys, values) == Done(Object(keys + [key], values + [v]), p + 1)
    ensures n + need <= |b| && b[p] == ',' ==>
      ParseMembers(b, i, keys, values) == ParseMembers(b, p + 1, keys + [key], values + [v])
  {
    hide SkipSpaces, ParseKey, ParseValue;
  }

  lemma {:induction false} MembersParse(b: string, i: nat, members: Members, keys: seq<string>, values: seq<JsonValue>)
    requires MembersOk(members) && At(b, i, MembersText(members))
    ensures i <= |b|
    ensures ParseMembers(b, i, keys, values) ==
      Expected(b, Object(keys + Keys(members), values + MemberValues(members)), i + |MembersText(members)|,
        MembersNeed(members))
    decreases members, 0
  {
    hide At, SkipSpaces, ParseKey, ParseValue, ParseMembers, Value, Text, MemberOk, MemberText, Placed, Need;
    var m := members.member;
    var v := i + |KeyText(m.pre, m.key, m.mid)|;
    var n := v + |Text(m.doc)|;
    match members
    case LastMember(_) =>
      assert MembersText(members) == MemberText(m) + (['}'] + "");
      MemberParses(b, i, m, '}', "");
      DocParses(b, v, m.doc);
      MembersUnfold(b, i, keys, values, m.key, v, Value(m.doc), n, Need(m.doc.node), n + |m.post|);
    case MoreMembers(_, rest) =>
      assert MembersText(members) == MemberText(m) + ([','] + MembersText(rest));
      MemberParses(b, i, m, ',', MembersText(rest));
      DocParses(b, v, m.doc);
      MembersUnfold(b, i, keys, values, m.key, v, Value(m.doc), n, Need(m.doc.node), n + |m.post|);
      MembersParse(b, i + |MemberText(m)| + 1, rest, keys + [m.key], values + [Value(m.doc)]);
      Regroup(keys, m.key, Keys(rest));
      Regroup(values, Value(m.doc), MemberValues(rest));
  }

  /** The exact condition: a text of the grammar is parsed to its value, with the cursor just behind
    * it, if and only if it has the bytes it needs behind it. */
  lemma ParsingUndoesPrinting(b: string, i: nat, d: Doc)
    requires Ok(d) && Placed(b, i, d)
    ensures i <= |b|
    ensures ParseValue(b, i) == Done(Value(d), i + |Text(d)|) <==> i + |Text(d)| + Need(d.node) <= |b|
    ensures i + |Text(d)| + 4 <= |b| ==> ParseValue(b, i) == Done(Value(d), i + |Text(d)|)
  {
    DocParses(b, i, d);
    NeedAtMostFour(d.node);
  }

  lemma Embedded(pre: string, t: string, tail: string)
    requires tail != ""
    ensures At(pre + t + tail, |pre|, t) && (pre + t + tail)[|pre| + |t|] == tail[0]
  {
  }

  lemma TreeNumbers(v: JsonValue, ws: string)
    requires Printable(v) && AllSpace(ws)
    ensures Tree(v, ws).node.NumNode? <==> v.Number?
  {
  }

  lemma TextParses(d: Doc, pre: string, tail: string)
    requires Ok(d) && 4 <= |tail| && (d.node.NumNode? ==> !IsDigit(tail[0]))
    ensures ParseValue(pre + Text(d) + tail, |pre|) == Done(Value(d), |pre| + |Text(d)|)
  {
    hide Text, Ok, Value, At, ParseValue;
    Embedded(pre, Text(d), tail);
    ParsingUndoesPrinting(pre + Text(d) + tail, |pre|, d);
  }

  /** Every value without quotes in its strings and with integers above INT_MIN comes back from its
    * text, whatever white space stands between the tokens, when four more bytes follow. */
  lemma PrintedValuesParse(v: JsonValue, ws: string, pre: string, tail: string)
    requires Printable(v) && AllSpace(ws) && 4 <= |tail| && (v.Number? ==> !IsDigit(tail[0]))
    ensures var t := Text(Tree(v, ws));
      ParseValue(pre + t + tail, |pre|) == Done(v, |pre| + |t|)
  {
    hide Printable, Tree, Text, Ok, Value, ParseValue;
    TreeNumbers(v, ws);
    TextParses(Tree(v, ws), pre, tail);
  }

  /** Without the bytes behind it even a one-digit text breaks off the program. */
  lemma ShortTextTraps()
    ensures ParseValue("7", 0) == Trapped && ParseValue("[7]", 0) == Trapped
    ensures ParseValue("[7]   ", 0) == Done(Array([Number(7)]), 3)
  {
    hide ParseValue, Printable, Tree;
    var d := Doc("", NumNode(NoSign, "7"));
    var a := Doc("", ArrayNode(LastItem(d, "")));
    assert Decimal("7") == 7 by {
      assert "7"[..0] == "";
    }
    assert Text(d) == "7" && Text(a) == "[7]";
    DocParses("7", 0, d);
    DocParses("[7]", 0, a);
    DocParses("[7]   ", 0, a);
  }

  /** The first digit of a number counts most: what it is worth is a power of ten. */
  lemma {:induction false} DecimalLeads(c: char, s: string)
    ensures Decimal([c] + s) == Digit(c) * Power(10, |s|) + Decimal(s)
    decreases |s|
  {
    if s == "" {
      assert [c] + s == [c] && [c][..0] == "";
    } else {
      var t := s[..|s| - 1];
      DecimalLeads(c, t);
      assert ([c] + s)[..|s|] == [c] + t;
      PowerStep(Digit(c), 10, |t|);
    }
  }

  // ---- Every kind of value at once ----

  function NumberItems(): Items {
    MoreItems(Doc("", NumNode(NoSign, "12")), "", MoreItems(Doc("", NumNode(Minus, "3")), " ",
      LastItem(Doc("", NumNode(Plus, "4")), "")))
  }

  function OtherItems(): Items {
    MoreItems(Doc("", BoolNode(true)), "", MoreItems(Doc("", BoolNode(false)), "",
      MoreItems(Doc("", NullNode), "", LastItem(Doc("", StrNode("x")), ""))))
  }

  function FirstMember(): Member { Member(" ", "a", "", Doc("", ArrayNode(NumberItems())), "") }

  function SecondMember(): Member { Member("\t", "b", "", Doc(" ", ArrayNode(OtherItems())), "") }

  lemma NumberItemsAre()
    ensures ItemsOk(NumberItems()) && ItemValues(NumberItems()) == [Number(12), Number(-3), Number(4)]
  {
    assert "12"[..1] == "1" && "1"[..0] == "3"[..0] == "4"[..0] == "";
    assert Decimal("1") == 1;
  }

  lemma OtherItemsAre()
    ensures ItemsOk(OtherItems())
    ensures ItemValues(OtherItems()) == [Boolean(true), Boolean(false), Null, String("x")]
  {
  }

  lemma MemberTexts()
    ensures MemberText(FirstMember()) == " \"a\":[12,-3 ,+4]"
    ensures MemberText(SecondMember()) == "\t\"b\": [true,false,null,\"x\"]"
  {
    hide ItemsText, NumberItems, OtherItems;
    ItemTexts();
  }

  lemma ItemTexts()
    ensures ItemsText(NumberItems()) == "12,-3 ,+4]"
    ensures ItemsText(OtherItems()) == "true,false,null,\"x\"]"
  {
  }

  lemma MembersAre(members: Members)
    requires members == MoreMembers(FirstMember(), LastMember(SecondMember()))
    ensures MembersOk(members) && Keys(members) == ["a", "b"]
    ensures MemberValues(members) == [
      Array([Number(12), Number(-3), Number(4)]), Array([Boolean(true), Boolean(false), Null, String("x")])]
  {
    hide ItemsOk, ItemValues, NumberItems, OtherItems;
    NumberItemsAre();
    OtherItemsAre();
  }

  lemma ObjectText(d: Doc, first: Member, second: Member)
    requires d == Doc("", ObjectNode(MoreMembers(first, LastMember(second))))
    ensures Text(d) == "{" + MemberText(first) + "," + MemberText(second) + "}"
  {
    hide MemberText;
    assert MembersText(LastMember(second)) == MemberText(second) + "}";
    assert MembersText(d.node.members) == MemberText(first) + "," + (MemberText(second) + "}");
    assert Text(d) == "" + NodeText(d.node) == NodeText(d.node);
  }

  /** The order of items and members, the literals, and the signs of numbers. */
  lemma ValuesExample()
    ensures var t := "{" + " \"a\":[12,-3 ,+4]" + "," + "\t\"b\": [true,false,null,\"x\"]" + "}";
      ParseValue(t + "    ", 0) == Done(Object(["a", "b"], [
        Array([Number(12), Number(-3), Number(4)]),
        Array([Boolean(true), Boolean(false), Null, String("x")])]), |t|)
  {
    hide ParseValue, Text, MemberText, MembersOk, MemberValues, Keys, FirstMember, SecondMember;
    var members := MoreMembers(FirstMember(), LastMember(SecondMember()));
    var d := Doc("", ObjectNode(members));
    MembersAre(members);
    MemberTexts();
    ObjectText(d, FirstMember(), SecondMember());
    TextParses(d, "", "    ");
    var t := Text(d);
    assert "" + t + "    " == t + "    ";
    assert Ok(d) && !d.node.NumNode?;
    assert Value(d) == Object(Keys(members), MemberValues(members));
  }
}
