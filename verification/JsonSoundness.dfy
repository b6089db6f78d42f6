/** The parser returns a value only for a text of the grammar: the tree it has read can be given. */
module JsonSoundness {
  import opened JsonSyntax
  import opened JsonGrammar
  import opened JsonRoundTrip

  /** What was read between two places is the text of a tree with this value. */
  ghost predicate Reads(b: string, i: nat, next: nat, d: Doc, v: JsonValue) {
    Ok(d) && At(b, i, Text(d)) && next == i + |Text(d)| && v == Value(d)
  }

  lemma SpacesRead(b: string, i: nat) returns (ws: string)
    requires i <= |b|
    ensures AllSpace(ws) && At(b, i, ws) && SkipSpaces(b, i) == i + |ws|
  {
    ws := b[i..SkipSpaces(b, i)];
  }

  lemma CharRead(b: string, i: nat)
    requires i < |b|
    ensures At(b, i, [b[i]])
  {
  }

  /** A number's text is not followed by a further digit. */
  ghost predicate NotGlued(b: string, j: nat, n: Node) {
    var end := j + |NodeText(n)|;
    n.NumNode? && end < |b| ==> !IsDigit(b[end])
  }

  /** White space, and the text of a value behind it. */
  lemma LeadRead(b: string, i: nat, n: Node) returns (d: Doc)
    requires i <= |b| && NodeOk(n) && At(b, SkipSpaces(b, i), NodeText(n)) && NotGlued(b, SkipSpaces(b, i), n)
    ensures Reads(b, i, SkipSpaces(b, i) + |NodeText(n)|, d, Value(Doc("", n))) && Placed(b, i, d)
  {
    hide At, SkipSpaces, NodeText, NodeOk;
    var ws := SpacesRead(b, i);
    d := Doc(ws, n);
    AtJoin(b, i, ws, NodeText(n));
  }

  lemma IntRead(b: string, j: nat) returns (n: Node)
    requires j < |b| && ParseInt(b, j).Done?
    ensures n.NumNode? && NodeOk(n) && At(b, j, NodeText(n)) && NotGlued(b, j, n)
    ensures ParseInt(b, j) == Done(Signed(n.sign, Decimal(n.digits)), j + |NodeText(n)|)
  {
    hide At, Decimal;
    var sign := SignAt(b, j);
    var d := j + |SignText(sign)|;
    var digits := b[d..SkipDigits(b, d)];
    n := NumNode(sign, digits);
    AtJoin(b, j, SignText(sign), digits);
  }

  lemma StringRead(b: string, j: nat) returns (n: Node)
    requires j < |b| && b[j] == '"' && Until(b, j + 1, '"') < |b|
    ensures n == StrNode(b[j + 1..Until(b, j + 1, '"')]) && NodeOk(n)
    ensures At(b, j, NodeText(n)) && |NodeText(n)| == Until(b, j + 1, '"') + 1 - j
  {
    var k := Until(b, j + 1, '"');
    var chars := b[j + 1..k];
    n := StrNode(chars);
    CharRead(b, j);
    CharRead(b, k);
    AtJoin(b, j, "\"", chars);
    AtJoin(b, j, "\"" + chars, "\"");
  }

  lemma ScalarRead(b: string, j: nat) returns (n: Node)
    requires j < |b| && ParseScalar(b, j).Done?
    ensures NodeOk(n) && At(b, j, NodeText(n)) && NotGlued(b, j, n)
    ensures ParseScalar(b, j) == Done(Value(Doc("", n)), j + |NodeText(n)|)
  {
    hide At, Until, ParseInt;
    if At(b, j, "true") {
      n := BoolNode(true);
    } else if At(b, j, "false") {
      n := BoolNode(false);
    } else if At(b, j, "null") {
      n := NullNode;
    } else if b[j] == '"' {
      n := StringRead(b, j);
    } else {
      n := IntRead(b, j);
    }
  }

  lemma {:induction false} ValueRead(b: string, i: nat) returns (d: Doc)
    requires i <= |b| && ParseValue(b, i).Done?
    ensures Reads(b, i, ParseValue(b, i).next, d, ParseValue(b, i).value) && Placed(b, i, d)
    decreases |b| - i, 0
  {
    hide At, SkipSpaces, ParseScalar, ParseArray, ParseObject, Reads;
    var j := SkipSpaces(b, i);
    var n: Node;
    if b[j] == '{' {
      n := ObjectRead(b, j);
    } else if b[j] == '[' {
      n := ArrayRead(b, j);
    } else {
      n := ScalarRead(b, j);
    }
    d := LeadRead(b, i, n);
  }

  lemma {:induction false} ArrayRead(b: string, j: nat) returns (n: Node)
    requires j < |b| && b[j] == '[' && ParseArray(b, j + 1).Done?
    ensures NodeOk(n) && At(b, j, NodeText(n)) && !n.NumNode?
    ensures ParseArray(b, j + 1) == Done(Value(Doc("", n)), j + |NodeText(n)|)
    decreases |b| - j - 1, 2
  {
    hide At, SkipSpaces, ParseItems, ItemsText, ItemValues;
    CharRead(b, j);
    var k := SkipSpaces(b, j + 1);
    if b[k] == ']' {
      var ws := SpacesRead(b, j + 1);
      n := EmptyArray(ws);
      CharRead(b, k);
      AtJoin(b, j, "[", ws);
      AtJoin(b, j, "[" + ws, "]");
    } else {
      ItemsSkip(b, j + 1, []);
      var items := ItemsRead(b, j + 1, []);
      n := ArrayNode(items);
      AtJoin(b, j, "[", ItemsText(items));
      assert [] + ItemValues(items) == ItemValues(items);
    }
  }

  lemma {:induction false} ItemsRead(b: string, i: nat, values: seq<JsonValue>) returns (items: Items)
    requires i <= |b| && ParseItems(b, i, values).Done?
    ensures ItemsOk(items) && At(b, i, ItemsText(items))
    ensures ParseItems(b, i, values) == Done(Array(values + ItemValues(items)), i + |ItemsText(items)|)
    decreases |b| - i, 1
  {
    hide At, SkipSpaces, ParseValue, Text, Value, Ok;
    var d := ValueRead(b, i);
    var v, n := ParseValue(b, i).value, ParseValue(b, i).next;
    var post := SpacesRead(b, n);
    var p := SkipSpaces(b, n);
    CharRead(b, p);
    AtJoin(b, i, Text(d), post);
    AtJoin(b, i, Text(d) + post, [b[p]]);
    if b[p] == ',' {
      var rest := ItemsRead(b, p + 1, values + [v]);
      items := MoreItems(d, post, rest);
      AtJoin(b, i, Text(d) + post + ",", ItemsText(rest));
      assert values + [v] + ItemValues(rest) == values + ItemValues(items);
    } else {
      items := LastItem(d, post);
    }
  }

  lemma KeyJoin(b: string, i: nat, pre: string, key: string, mid: string)
    requires At(b, i, pre) && At(b, i + |pre|, NodeText(StrNode(key)))
    requires At(b, i + |pre| + |key| + 2, mid) && At(b, i + |pre| + |key| + 2 + |mid|, ":")
    ensures At(b, i, KeyText(pre, key, mid))
  {
    hide At;
    var quoted := NodeText(StrNode(key));
    AtJoin(b, i, pre, quoted);
    AtJoin(b, i, pre + quoted, mid);
    AtJoin(b, i, pre + quoted + mid, ":");
    assert pre + quoted == pre + "\"" + key + "\"";
  }

  lemma KeyRead(b: string, i: nat) returns (pre: string, mid: string)
    requires i <= |b| && ParseKey(b, i).Done?
    ensures var key := ParseKey(b, i).value;
      && AllSpace(pre) && QuoteFree(key) && AllSpace(mid)
      && At(b, i, KeyText(pre, key, mid)) && ParseKey(b, i).next == i + |KeyText(pre, key, mid)|
  {
    hide At, SkipSpaces, Until;
    var j := SkipSpaces(b, i);
    pre := SpacesRead(b, i);
    var n := StringRead(b, j);
    var k := Until(b, j + 1, '"');
    mid := SpacesRead(b, k + 1);
    CharRead(b, SkipSpaces(b, k + 1));
    KeyJoin(b, i, pre, b[j + 1..k], mid);
  }

  lemma {:induction false} ObjectRead(b: string, j: nat) returns (n: Node)
    requires j < |b| && b[j] == '{' && ParseObject(b, j + 1).Done?
    ensures NodeOk(n) && At(b, j, NodeText(n)) && !n.NumNode?
    ensures ParseObject(b, j + 1) == Done(Value(Doc("", n)), j + |NodeText(n)|)
    decreases |b| - j - 1, 2
  {
    hide At, SkipSpaces, ParseMembers, MembersText, Keys, MemberValues;
    CharRead(b, j);
    var k := SkipSpaces(b, j + 1);
    if b[k] == '}' {
      var ws := SpacesRead(b, j + 1);
      n := EmptyObject(ws);
      CharRead(b, k);
      AtJoin(b, j, "{", ws);
      AtJoin(b, j, "{" + ws, "}");
    } else {
      MembersSkip(b, j + 1, [], []);
      var members := MembersRead(b, j + 1, [], []);
      n := ObjectNode(members);
      AtJoin(b, j, "{", MembersText(members));
      assert [] + Keys(members) == Keys(members) && [] + MemberValues(members) == MemberValues(members);
    }
  }

  /** A member and the character after it, once its key and its value have been read. */
  lemma MemberJoin(b: string, i: nat, m: Member, c: char)
    requires At(b, i, KeyText(m.pre, m.key, m.mid))
    requires At(b, i + |KeyText(m.pre, m.key, m.mid)|, Text(m.doc))
    requires At(b, i + |KeyText(m.pre, m.key, m.mid)| + |Text(m.doc)|, m.post)
    requires At(b, i + |KeyText(m.pre, m.key, m.mid)| + |Text(m.doc)| + |m.post|, [c])
    ensures At(b, i, MemberText(m) + [c])
    ensures |MemberText(m)| == |KeyText(m.pre, m.key, m.mid)| + |Text(m.doc)| + |m.post|
  {
    hide At, KeyText, Text;
    var key := KeyText(m.pre, m.key, m.mid);
    AtJoin(b, i, key, Text(m.doc));
    AtJoin(b, i, key + Text(m.doc), m.post);
    AtJoin(b, i, MemberText(m), [c]);
  }

  lemma {:induction false} MemberRead(b: string, i: nat) returns (m: Member, p: nat)
    requires i <= |b| && ParseKey(b, i).Done? && ParseValue(b, ParseKey(b, i).next).Done?
    requires SkipSpaces(b, ParseValue(b, ParseKey(b, i).next).next) < |b|
    ensures p == SkipSpaces(b, ParseValue(b, ParseKey(b, i).next).next) && p == i + |MemberText(m)|
    ensures MemberOk(m) && At(b, i, MemberText(m) + [b[p]])
    ensures m.key == ParseKey(b, i).value && Value(m.doc) == ParseValue(b, ParseKey(b, i).next).value
    decreases |b| - i, 0
  {
    hide At, SkipSpaces, ParseKey, ParseValue, Text, Value, Ok, KeyText;
    var pre, mid := KeyRead(b, i);
    var d := ValueRead(b, ParseKey(b, i).next);
    var post := SpacesRead(b, ParseValue(b, ParseKey(b, i).next).next);
    p := SkipSpaces(b, ParseValue(b, ParseKey(b, i).next).next);
    m := Member(pre, ParseKey(b, i).value, mid, d, post);
    CharRead(b, p);
    MemberJoin(b, i, m, b[p]);
  }

  lemma {:induction false} MembersRead(b: string, i: nat, keys: seq<string>, values: seq<JsonValue>)
      returns (members: Members)
    requires i <= |b| && ParseMembers(b, i, keys, values).Done?
    ensures MembersOk(members) && At(b, i, MembersText(members))
    ensures ParseMembers(b, i, keys, values) ==
      Done(Object(keys + Keys(members), values + MemberValues(members)), i + |MembersText(members)|)
    decreases |b| - i, 1
  {
    hide At, SkipSpaces, ParseKey, ParseValue, MemberText, MemberOk, Value;
    var m, p := MemberRead(b, i);
    if b[p] == ',' {
      var rest := MembersRead(b, p + 1, keys + [m.key], values + [Value(m.doc)]);
      members := MoreMembers(m, rest);
      AtJoin(b, i, MemberText(m) + ",", MembersText(rest));
      assert keys + [m.key] + Keys(rest) == keys + Keys(members);
      assert values + [Value(m.doc)] + MemberValues(rest) == values + MemberValues(members);
    } else {
      members := LastMember(m);
    }
  }

  /** The parser reads exactly the grammar: a value is returned just when a text of the grammar with
    * that value has been read that has the bytes it needs behind it. */
  lemma ParsesExactlyTheGrammar(b: string, i: nat, v: JsonValue, next: nat)
    requires i <= |b|
    ensures ParseValue(b, i) == Done(v, next) <==>
      exists d: Doc :: Reads(b, i, next, d, v) && Placed(b, i, d) && next + Need(d.node) <= |b|
  {
    hide ParseValue, Value, Text, Need, Ok, At;
    if ParseValue(b, i) == Done(v, next) {
      var d := ValueRead(b, i);
      DocParses(b, i, d);
    }
    if exists d: Doc :: Reads(b, i, next, d, v) && Placed(b, i, d) && next + Need(d.node) <= |b| {
      var d: Doc :| Reads(b, i, next, d, v) && Placed(b, i, d) && next + Need(d.node) <= |b|;
      DocParses(b, i, d);
    }
  }
}
