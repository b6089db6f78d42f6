/** JSON values, and the texts that stand for them: a concrete syntax tree keeps the white space, the
  * signs and the digits that a value forgets. */
module JsonSyntax {
  datatype JsonValue =
    | Null
    | Boolean(boolean: bool)
    | Number(integer: int)
    | String(raw: string)
    | Array(values: seq<JsonValue>)
    | Object(keys: seq<string>, children: seq<JsonValue>)

  const INT_MAX: int := 0x7fff_ffff

  predicate IsSpace(c: char) { c == ' ' || c == '\t' || c == '\n' || c == '\r' }

  predicate IsDigit(c: char) { '0' <= c <= '9' }

  predicate AllSpace(s: string) { forall k: nat :: k < |s| ==> IsSpace(s[k]) }

  predicate AllDigits(s: string) { forall k: nat :: k < |s| ==> IsDigit(s[k]) }

  predicate QuoteFree(s: string) { forall k: nat :: k < |s| ==> s[k] != '"' }

  // ---- Numbers ----

  function Digit(c: char): int { c as int - '0' as int }

  /** The number a string of digits stands for. */
  function Decimal(s: string): (n: int)
    ensures AllDigits(s) ==> 0 <= n
  {
    if s == "" then 0 else 10 * Decimal(s[..|s| - 1]) + Digit(s[|s| - 1])
  }

  /** The shortest digits of a number. */
  function Digits(n: nat): (s: string)
    ensures s != "" && AllDigits(s) && Decimal(s) == n
  {
    var c := ('0' as int + n % 10) as char;
    if n < 10 then
      assert [c][..0] == "";
      [c]
    else
      assert (Digits(n / 10) + [c])[..|Digits(n / 10)|] == Digits(n / 10);
      Digits(n / 10) + [c]
  }

  datatype Sign = NoSign | Plus | Minus

  function SignText(s: Sign): string {
    match s
    case NoSign => ""
    case Plus => "+"
    case Minus => "-"
  }

  function Signed(s: Sign, n: int): int { if s == Minus then 0 - n else n }

  // ---- Trees ----

  /** White space and a value after it. */
  datatype Doc = Doc(lead: string, node: Node)

  datatype Node =
    | NullNode
    | BoolNode(value: bool)
    | NumNode(sign: Sign, digits: string)
    | StrNode(chars: string)
    | EmptyArray(gap: string)
    | ArrayNode(items: Items)
    | EmptyObject(gap: string)
    | ObjectNode(members: Members)

  datatype Items =
    | LastItem(doc: Doc, post: string)
    | MoreItems(doc: Doc, post: string, rest: Items)

  datatype Members =
    | LastMember(member: Member)
    | MoreMembers(member: Member, rest: Members)

  datatype Member = Member(pre: string, key: string, mid: string, doc: Doc, post: string)

  // ---- The text of a tree ----

  function Text(d: Doc): string { d.lead + NodeText(d.node) }

  function NodeText(n: Node): string {
    match n
    case NullNode => "null"
    case BoolNode(value) => if value then "true" else "false"
    case NumNode(sign, digits) => SignText(sign) + digits
    case StrNode(chars) => "\"" + chars + "\""
    case EmptyArray(gap) => "[" + gap + "]"
    case ArrayNode(items) => "[" + ItemsText(items)
    case EmptyObject(gap) => "{" + gap + "}"
    case ObjectNode(members) => "{" + MembersText(members)
  }

  function ItemsText(items: Items): string {
    match items
    case LastItem(doc, post) => Text(doc) + post + "]"
    case MoreItems(doc, post, rest) => Text(doc) + post + "," + ItemsText(rest)
  }

  function MembersText(members: Members): string {
    match members
    case LastMember(m) => MemberText(m) + "}"
    case MoreMembers(m, rest) => MemberText(m) + "," + MembersText(rest)
  }

  function MemberText(m: Member): string { KeyText(m.pre, m.key, m.mid) + Text(m.doc) + m.post }

  function KeyText(pre: string, key: string, mid: string): string {
    pre + "\"" + key + "\"" + mid + ":"
  }

  // ---- The value of a tree ----

  predicate Ok(d: Doc) { AllSpace(d.lead) && NodeOk(d.node) }

  predicate NodeOk(n: Node) {
    match n
    case NullNode => true
    case BoolNode(value) => true
    case NumNode(sign, digits) => digits != "" && AllDigits(digits) && Decimal(digits) <= INT_MAX
    case StrNode(chars) => QuoteFree(chars)
    case EmptyArray(gap) => AllSpace(gap)
    case ArrayNode(items) => ItemsOk(items)
    case EmptyObject(gap) => AllSpace(gap)
    case ObjectNode(members) => MembersOk(members)
  }

  predicate ItemsOk(items: Items) {
    Ok(items.doc) && AllSpace(items.post) && (items.MoreItems? ==> ItemsOk(items.rest))
  }

  predicate MembersOk(members: Members) {
    MemberOk(members.member) && (members.MoreMembers? ==> MembersOk(members.rest))
  }

  predicate MemberOk(m: Member) {
    AllSpace(m.pre) && QuoteFree(m.key) && AllSpace(m.mid) && Ok(m.doc) && AllSpace(m.post)
  }

  function Value(d: Doc): JsonValue {
    match d.node
    case NullNode => Null
    case BoolNode(value) => Boolean(value)
    case NumNode(sign, digits) => Number(Signed(sign, Decimal(digits)))
    case StrNode(chars) => String(chars)
    case EmptyArray(gap) => Array([])
    case ArrayNode(items) => Array(ItemValues(items))
    case EmptyObject(gap) => Object([], [])
    case ObjectNode(members) => Object(Keys(members), MemberValues(members))
  }

  function ItemValues(items: Items): seq<JsonValue> {
    match items
    case LastItem(doc, post) => [Value(doc)]
    case MoreItems(doc, post, rest) => [Value(doc)] + ItemValues(rest)
  }

  function Keys(members: Members): seq<string> {
    match members
    case LastMember(m) => [m.key]
    case MoreMembers(m, rest) => [m.key] + Keys(rest)
  }

  function MemberValues(members: Members): seq<JsonValue> {
    match members
    case LastMember(m) => [Value(m.doc)]
    case MoreMembers(m, rest) => [Value(m.doc)] + MemberValues(rest)
  }

  // ---- A tree for every value ----

  /** Values the grammar can express: no quotes in strings, and integers above INT_MIN. */
  predicate Printable(v: JsonValue) {
    match v
    case Null => true
    case Boolean(_) => true
    case Number(n) => 0 - INT_MAX <= n <= INT_MAX
    case String(s) => QuoteFree(s)
    case Array(values) => forall k: nat :: k < |values| ==> Printable(values[k])
    case Object(keys, children) =>
      |keys| == |children|
      && (forall k: nat :: k < |keys| ==> QuoteFree(keys[k]))
      && forall k: nat :: k < |children| ==> Printable(children[k])
  }

  /** The tree of a value with a given white space between all tokens. */
  function Tree(v: JsonValue, ws: string): (d: Doc)
    requires Printable(v) && AllSpace(ws)
    ensures Ok(d) && Value(d) == v
    decreases v, 0
  {
    match v
    case Null => Doc(ws, NullNode)
    case Boolean(b) => Doc(ws, BoolNode(b))
    case Number(n) => if n < 0 then Doc(ws, NumNode(Minus, Digits(0 - n))) else Doc(ws, NumNode(NoSign, Digits(n)))
    case String(s) => Doc(ws, StrNode(s))
    case Array(values) => if values == [] then Doc(ws, EmptyArray(ws)) else Doc(ws, ArrayNode(ItemTree(values, ws)))
    case Object(keys, children) =>
      if keys == [] then Doc(ws, EmptyObject(ws)) else Doc(ws, ObjectNode(MemberTree(keys, children, ws)))
  }

  function ItemTree(values: seq<JsonValue>, ws: string): (items: Items)
    requires values != [] && (forall k: nat :: k < |values| ==> Printable(values[k])) && AllSpace(ws)
    ensures ItemsOk(items) && ItemValues(items) == values
    decreases values, 1
  {
    if |values| == 1 then LastItem(Tree(values[0], ws), ws)
    else MoreItems(Tree(values[0], ws), ws, ItemTree(values[1..], ws))
  }

  function MemberTree(keys: seq<string>, values: seq<JsonValue>, ws: string): (members: Members)
    requires keys != [] && |keys| == |values| && AllSpace(ws)
    requires forall k: nat :: k < |keys| ==> QuoteFree(keys[k])
    requires forall k: nat :: k < |values| ==> Printable(values[k])
    ensures MembersOk(members) && Keys(members) == keys && MemberValues(members) == values
    decreases values, 1
  {
    var m := Member(ws, keys[0], ws, Tree(values[0], ws), ws);
    if |keys| == 1 then LastMember(m) else MoreMembers(m, MemberTree(keys[1..], values[1..], ws))
  }
}
