/**
 JSON texts after sections 2 to 7 of RFC 8259: concrete syntax trees with their insignificant
 whitespace, their text, and the preorder list of tokens jsmn should find in it.
 */
module Json {
  import opened Lexer
  import opened Tokens

  datatype Number = Number(minus: bool, whole: string, fraction: string, exponent: string)

  datatype StrChar = Plain(c: char) | Escape(c: char) | Unicode(digits: string)

  datatype Value =
    | True | False | Null
    | Num(n: Number)
    | Str(body: seq<StrChar>)
    | EmptyArr(ws: string)
    | EmptyObj(ws: string)
    | Arr(items: Items)
    | Obj(members: Members)

  /** A value with the whitespace around it; also a whole JSON text. */
  datatype Padded = Padded(before: string, v: Value, after: string)

  datatype Items = LastItem(item: Padded) | MoreItems(item: Padded, rest: Items)

  datatype Key = Key(before: string, body: seq<StrChar>, after: string)

  datatype Members = LastMember(key: Key, item: Padded) | MoreMembers(key: Key, item: Padded, more: Members)

  // ---------- the text ----------

  function NumberText(n: Number): string {
    (if n.minus then "-" else "") + n.whole + n.fraction + n.exponent
  }

  function CharText(u: StrChar): string {
    match u
    case Plain(c) => [c]
    case Escape(c) => ['\\', c]
    case Unicode(d) => "\\u" + d
  }

  function BodyText(body: seq<StrChar>): string {
    if body == [] then "" else CharText(body[0]) + BodyText(body[1..])
  }

  function Text(v: Value): (t: string)
    ensures |t| > 0 || v.Num?
    decreases v, 0
  {
    match v
    case True => "true"
    case False => "false"
    case Null => "null"
    case Num(n) => NumberText(n)
    case Str(body) => "\"" + BodyText(body) + "\""
    case EmptyArr(ws) => "[" + ws + "]"
    case EmptyObj(ws) => "{" + ws + "}"
    case Arr(items) => "[" + ItemsText(items) + "]"
    case Obj(members) => "{" + MembersText(members) + "}"
  }

  function PaddedText(p: Padded): string
    decreases p, 0
  {
    p.before + Text(p.v) + p.after
  }

  function ItemsText(items: Items): string
    decreases items, 0
  {
    match items
    case LastItem(p) => PaddedText(p)
    case MoreItems(p, rest) => PaddedText(p) + "," + ItemsText(rest)
  }

  function KeyText(k: Key): string {
    k.before + "\"" + BodyText(k.body) + "\"" + k.after
  }

  function MemberText(k: Key, p: Padded): string
    decreases p, 1
  {
    KeyText(k) + ":" + PaddedText(p)
  }

  function MembersText(members: Members): string
    decreases members, 0
  {
    match members
    case LastMember(k, p) => MemberText(k, p)
    case MoreMembers(k, p, rest) => MemberText(k, p) + "," + MembersText(rest)
  }

  // ---------- the grammar ----------

  /** Section 2. */
  predicate Blanks(ws: string) {
    forall i :: 0 <= i < |ws| ==> ws[i] in {' ', '\t', '\n', '\r'}
  }

  predicate Digits(t: string) {
    |t| > 0 && forall i :: 0 <= i < |t| ==> '0' <= t[i] <= '9'
  }

  /** Section 6. */
  predicate NumberOk(n: Number) {
    && Digits(n.whole) && (|n.whole| > 1 ==> n.whole[0] != '0')
    && (n.fraction == "" || (n.fraction[0] == '.' && Digits(n.fraction[1..])))
    && (n.exponent == "" ||
        (n.exponent[0] in {'e', 'E'} &&
         (Digits(n.exponent[1..]) ||
          (|n.exponent| > 1 && n.exponent[1] in {'+', '-'} && Digits(n.exponent[2..])))))
  }

  predicate HexDigit(c: char) {
    '0' <= c <= '9' || 'a' <= c <= 'f' || 'A' <= c <= 'F'
  }

  /** Section 7. */
  predicate CharOk(u: StrChar) {
    match u
    case Plain(c) => ' ' <= c && c != '"' && c != '\\'
    case Escape(c) => c in {'"', '\\', '/', 'b', 'f', 'n', 'r', 't'}
    case Unicode(d) => |d| == 4 && forall i :: 0 <= i < 4 ==> HexDigit(d[i])
  }

  predicate BodyOk(body: seq<StrChar>) {
    forall i :: 0 <= i < |body| ==> CharOk(body[i])
  }

  predicate ValueOk(v: Value) {
    match v
    case Num(n) => NumberOk(n)
    case Str(body) => BodyOk(body)
    case EmptyArr(ws) => Blanks(ws)
    case EmptyObj(ws) => Blanks(ws)
    case Arr(items) => ItemsOk(items)
    case Obj(members) => MembersOk(members)
    case _ => true
  }

  predicate PaddedOk(p: Padded) {
    Blanks(p.before) && ValueOk(p.v) && Blanks(p.after)
  }

  predicate ItemsOk(items: Items) {
    PaddedOk(items.item) && (items.MoreItems? ==> ItemsOk(items.rest))
  }

  predicate MembersOk(members: Members) {
    && Blanks(members.key.before) && BodyOk(members.key.body) && Blanks(members.key.after)
    && PaddedOk(members.item) && (members.MoreMembers? ==> MembersOk(members.more))
  }

  // ---------- the tokens ----------

  function CountItems(items: Items): nat {
    match items
    case LastItem(_) => 1
    case MoreItems(_, rest) => 1 + CountItems(rest)
  }

  function CountMembers(members: Members): nat {
    match members
    case LastMember(_, _) => 1
    case MoreMembers(_, _, rest) => 1 + CountMembers(rest)
  }

  predicate IsBracketed(v: Value) {
    v.EmptyArr? || v.EmptyObj? || v.Arr? || v.Obj?
  }

  function Leaf(kind: Kind, start: nat, end: nat, parent: int): Node {
    Node(Token(kind, start, end, 0), parent)
  }

  /** The tokens of a value whose text starts at `at`, in preorder: `base` tokens come before them
      and `parent` is the container or key they belong to. Objects count their members, arrays
      their elements, a key its one value. */
  function Nodes(v: Value, at: nat, parent: int, base: nat): (ns: seq<Node>)
    ensures |ns| > 0
  {
    var end := at + |Text(v)|;
    match v
    case Str(body) => [Leaf(String, at + 1, at + 1 + |BodyText(body)|, parent)]
    case EmptyArr(_) => [Leaf(Array, at, end, parent)]
    case EmptyObj(_) => [Leaf(Object, at, end, parent)]
    case Arr(items) =>
      [Node(Token(Array, at, end, CountItems(items)), parent)] + ItemNodes(items, at + 1, base, base + 1)
    case Obj(members) =>
      [Node(Token(Object, at, end, CountMembers(members)), parent)] + MemberNodes(members, at + 1, base, base + 1)
    case _ => [Leaf(Primitive, at, end, parent)]
  }

  function ItemNodes(items: Items, at: nat, parent: int, base: nat): seq<Node> {
    var first := Nodes(items.item.v, at + |items.item.before|, parent, base);
    match items
    case LastItem(_) => first
    case MoreItems(p, rest) => first + ItemNodes(rest, at + |PaddedText(p)| + 1, parent, base + |first|)
  }

  function KeyNode(k: Key, at: nat, parent: int): Node {
    var start := at + |k.before| + 1;
    Node(Token(String, start, start + |BodyText(k.body)|, 1), parent)
  }

  function MemberNodes(members: Members, at: nat, parent: int, base: nat): seq<Node> {
    var k, p := members.key, members.item;
    var value := at + |KeyText(k)| + 1;
    var first := [KeyNode(k, at, parent)] + Nodes(p.v, value + |p.before|, base, base + 1);
    match members
    case LastMember(_, _) => first
    case MoreMembers(_, _, rest) =>
      first + MemberNodes(rest, value + |PaddedText(p)| + 1, parent, base + |first|)
  }

  /** The number of tokens of a value. */
  function Size(v: Value): nat {
    match v
    case Arr(items) => 1 + ItemsSize(items)
    case Obj(members) => 1 + MembersSize(members)
    case _ => 1
  }

  function ItemsSize(items: Items): nat {
    Size(items.item.v) + match items case LastItem(_) => 0 case MoreItems(_, rest) => ItemsSize(rest)
  }

  function MembersSize(members: Members): nat {
    1 + Size(members.item.v)
    + match members case LastMember(_, _) => 0 case MoreMembers(_, _, rest) => MembersSize(rest)
  }

  lemma {:induction false} NodesSize(v: Value, at: nat, parent: int, base: nat)
    ensures |Nodes(v, at, parent, base)| == Size(v)
    decreases v
  {
    match v
    case Arr(items) => ItemNodesSize(items, at + 1, base, base + 1);
    case Obj(members) => MemberNodesSize(members, at + 1, base, base + 1);
    case _ =>
  }

  lemma {:induction false} ItemNodesSize(items: Items, at: nat, parent: int, base: nat)
    ensures |ItemNodes(items, at, parent, base)| == ItemsSize(items)
    decreases items
  {
    NodesSize(items.item.v, at + |items.item.before|, parent, base);
    if items.MoreItems? {
      ItemNodesSize(items.rest, at + |PaddedText(items.item)| + 1, parent, base + Size(items.item.v));
    }
  }

  lemma {:induction false} MemberNodesSize(members: Members, at: nat, parent: int, base: nat)
    ensures |MemberNodes(members, at, parent, base)| == MembersSize(members)
    decreases members
  {
    var value := at + |KeyText(members.key)| + 1;
    NodesSize(members.item.v, value + |members.item.before|, base, base + 1);
    if members.MoreMembers? {
      MemberNodesSize(members.more, value + |PaddedText(members.item)| + 1, parent, base + 1 + Size(members.item.v));
    }
  }

  /** Tokens of a subtree: all closed, and no parent outside but the given one. */
  ghost predicate Subtree(ns: seq<Node>, parent: int, base: nat) {
    forall i :: 0 <= i < |ns| ==> ns[i].tok.end >= 0 && (ns[i].parent == parent || base <= ns[i].parent)
  }

  lemma SubtreeJoin(a: seq<Node>, b: seq<Node>, parent: int, base: nat)
    requires Subtree(a, parent, base) && Subtree(b, parent, base)
    ensures Subtree(a + b, parent, base)
  {
  }

  /** Moving the first index down, or taking the parent for the first index. */
  lemma SubtreeWiden(a: seq<Node>, inner: int, from: nat, parent: int, base: nat)
    requires Subtree(a, inner, from) && base <= from && (inner == parent || base <= inner)
    ensures Subtree(a, parent, base)
  {
  }

  lemma {:induction false} NodesSubtree(v: Value, at: nat, parent: int, base: nat)
    ensures Subtree(Nodes(v, at, parent, base), parent, base)
    decreases v
  {
    match v
    case Arr(items) =>
      ItemNodesSubtree(items, at + 1, base, base + 1);
      SubtreeWiden(ItemNodes(items, at + 1, base, base + 1), base, base + 1, parent, base);
    case Obj(members) =>
      MemberNodesSubtree(members, at + 1, base, base + 1);
      SubtreeWiden(MemberNodes(members, at + 1, base, base + 1), base, base + 1, parent, base);
    case _ =>
  }

  lemma {:induction false} ItemNodesSubtree(items: Items, at: nat, parent: int, base: nat)
    ensures Subtree(ItemNodes(items, at, parent, base), parent, base)
    decreases items
  {
    NodesSubtree(items.item.v, at + |items.item.before|, parent, base);
    if items.MoreItems? {
      var first := Nodes(items.item.v, at + |items.item.before|, parent, base);
      var next := at + |PaddedText(items.item)| + 1;
      ItemNodesSubtree(items.rest, next, parent, base + |first|);
      SubtreeWiden(ItemNodes(items.rest, next, parent, base + |first|), parent, base + |first|, parent, base);
      SubtreeJoin(first, ItemNodes(items.rest, next, parent, base + |first|), parent, base);
    }
  }

  lemma KeySubtree(k: Key, at: nat, parent: int, base: nat)
    ensures Subtree([KeyNode(k, at, parent)], parent, base)
  {
  }

  lemma {:induction false} MemberNodesSubtree(members: Members, at: nat, parent: int, base: nat)
    ensures Subtree(MemberNodes(members, at, parent, base), parent, base)
    decreases members
  {
    hide Subtree, KeyText, PaddedText, KeyNode, Nodes;
    KeySubtree(members.key, at, parent, base);
    var value := at + |KeyText(members.key)| + 1;
    var v := Nodes(members.item.v, value + |members.item.before|, base, base + 1);
    NodesSubtree(members.item.v, value + |members.item.before|, base, base + 1);
    SubtreeWiden(v, base, base + 1, parent, base);
    var first := [KeyNode(members.key, at, parent)] + v;
    SubtreeJoin([KeyNode(members.key, at, parent)], v, parent, base);
    if members.MoreMembers? {
      var next := value + |PaddedText(members.item)| + 1;
      MemberNodesSubtree(members.more, next, parent, base + |first|);
      SubtreeWiden(MemberNodes(members.more, next, parent, base + |first|), parent, base + |first|, parent, base);
      SubtreeJoin(first, MemberNodes(members.more, next, parent, base + |first|), parent, base);
    }
  }

  // ---------- no NUL ----------

  predicate NoNul(t: string) {
    forall i :: 0 <= i < |t| ==> t[i] != '\0'
  }

  lemma NoNulJoin(a: string, b: string)
    requires NoNul(a) && NoNul(b)
    ensures NoNul(a + b)
  {
  }

  lemma BlanksNoNul(ws: string)
    requires Blanks(ws)
    ensures NoNul(ws)
  {
  }

  lemma {:induction false} BodyNoNul(body: seq<StrChar>)
    requires BodyOk(body)
    ensures NoNul(BodyText(body))
    decreases |body|
  {
    if body != [] {
      assert CharOk(body[0]);
      BodyNoNul(body[1..]);
      NoNulJoin(CharText(body[0]), BodyText(body[1..]));
    }
  }

  lemma NumberNoNul(n: Number)
    requires NumberOk(n)
    ensures NoNul(NumberText(n))
  {
    assert NoNul(n.whole);
    assert NoNul(n.fraction) by {
      forall i | 0 <= i < |n.fraction| ensures n.fraction[i] != '\0' {
        if i > 0 { assert n.fraction[i] == n.fraction[1..][i - 1]; }
      }
    }
    assert NoNul(n.exponent) by {
      forall i | 0 <= i < |n.exponent| ensures n.exponent[i] != '\0' {
        if i > 0 && Digits(n.exponent[1..]) { assert n.exponent[i] == n.exponent[1..][i - 1]; }
        else if i > 1 { assert n.exponent[i] == n.exponent[2..][i - 2]; }
      }
    }
    var sign := if n.minus then "-" else "";
    NoNulJoin(sign, n.whole);
    NoNulJoin(sign + n.whole, n.fraction);
    NoNulJoin(sign + n.whole + n.fraction, n.exponent);
  }

  /** A JSON text contains no NUL: `strlen` sees all of it. */
  lemma {:induction false} TextNoNul(v: Value)
    requires ValueOk(v)
    ensures NoNul(Text(v))
    decreases v, 0
  {
    match v
    case Num(n) => NumberNoNul(n);
    case Str(body) =>
      BodyNoNul(body);
      NoNulJoin("\"", BodyText(body));
      NoNulJoin("\"" + BodyText(body), "\"");
    case EmptyArr(ws) => BlanksNoNul(ws); NoNulJoin("[", ws); NoNulJoin("[" + ws, "]");
    case EmptyObj(ws) => BlanksNoNul(ws); NoNulJoin("{", ws); NoNulJoin("{" + ws, "}");
    case Arr(items) => ItemsNoNul(items); NoNulJoin("[", ItemsText(items)); NoNulJoin("[" + ItemsText(items), "]");
    case Obj(ms) => MembersNoNul(ms); NoNulJoin("{", MembersText(ms)); NoNulJoin("{" + MembersText(ms), "}");
    case _ =>
  }

  lemma {:induction false} PaddedNoNul(p: Padded)
    requires PaddedOk(p)
    ensures NoNul(PaddedText(p))
    decreases p, 0
  {
    BlanksNoNul(p.before);
    BlanksNoNul(p.after);
    TextNoNul(p.v);
    NoNulJoin(p.before, Text(p.v));
    NoNulJoin(p.before + Text(p.v), p.after);
  }

  lemma {:induction false} ItemsNoNul(items: Items)
    requires ItemsOk(items)
    ensures NoNul(ItemsText(items))
    decreases items, 0
  {
    PaddedNoNul(items.item);
    if items.MoreItems? {
      ItemsNoNul(items.rest);
      NoNulJoin(PaddedText(items.item), ",");
      NoNulJoin(PaddedText(items.item) + ",", ItemsText(items.rest));
    }
  }

  lemma KeyNoNul(k: Key)
    requires Blanks(k.before) && BodyOk(k.body) && Blanks(k.after)
    ensures NoNul(KeyText(k))
  {
    BlanksNoNul(k.before);
    BlanksNoNul(k.after);
    BodyNoNul(k.body);
    NoNulJoin(k.before, "\"");
    NoNulJoin(k.before + "\"", BodyText(k.body));
    NoNulJoin(k.before + "\"" + BodyText(k.body), "\"");
    NoNulJoin(k.before + "\"" + BodyText(k.body) + "\"", k.after);
  }

  lemma {:induction false} MembersNoNul(ms: Members)
    requires MembersOk(ms)
    ensures NoNul(MembersText(ms))
    decreases ms, 0
  {
    KeyNoNul(ms.key);
    PaddedNoNul(ms.item);
    NoNulJoin(KeyText(ms.key), ":");
    NoNulJoin(KeyText(ms.key) + ":", PaddedText(ms.item));
    if ms.MoreMembers? {
      MembersNoNul(ms.more);
      NoNulJoin(MemberText(ms.key, ms.item), ",");
      NoNulJoin(MemberText(ms.key, ms.item) + ",", MembersText(ms.more));
    }
  }
}
