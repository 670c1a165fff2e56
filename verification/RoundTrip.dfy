/**
 jsmn inverts the JSON printer: on every RFC 8259 text it finds exactly the preorder tokens of the
 value, whether closers and commas scan backwards or follow parents.
 */
module RoundTrip {
  import opened Bytes
  import opened Lexer
  import opened Tokens
  import opened Json
  import opened Lexemes

  // ---------- lexemes ----------

  predicate IsScalarText(t: string) {
    |t| > 0 && t[0] !in {'{', '[', '"'} && forall i :: 0 <= i < |t| ==> InPrimitive(t[i])
  }

  lemma NumberIsScalar(n: Number)
    requires NumberOk(n)
    ensures IsScalarText(NumberText(n))
  {
    var t := NumberText(n);
    forall i | 0 <= i < |t| ensures IsNumberChar(t[i]) {
      assert forall c :: c in n.fraction ==> IsNumberChar(c) by { FractionChars(n.fraction); }
      assert forall c :: c in n.exponent ==> IsNumberChar(c) by { ExponentChars(n); }
      assert t[i] == '-' || t[i] in n.whole || t[i] in n.fraction || t[i] in n.exponent;
    }
  }

  predicate IsNumberChar(c: char) {
    '0' <= c <= '9' || c in {'+', '-', '.', 'e', 'E'}
  }

  lemma FractionChars(f: string)
    requires f == "" || (f[0] == '.' && Digits(f[1..]))
    ensures forall c :: c in f ==> IsNumberChar(c)
  {
    forall i | 0 <= i < |f| ensures IsNumberChar(f[i]) {
      if i > 0 { assert f[i] == f[1..][i - 1]; }
    }
  }

  lemma ExponentChars(n: Number)
    requires NumberOk(n)
    ensures forall c :: c in n.exponent ==> IsNumberChar(c)
  {
    var e := n.exponent;
    forall i | 0 <= i < |e| ensures IsNumberChar(e[i]) {
      if i > 0 && Digits(e[1..]) { assert e[i] == e[1..][i - 1]; }
      else if i > 1 { assert e[i] == e[2..][i - 2]; }
    }
  }

  lemma ScalarText(v: Value)
    requires ValueOk(v) && !IsBracketed(v) && !v.Str?
    ensures IsScalarText(Text(v))
  {
    if v.Num? { NumberIsScalar(v.n); }
  }

  // ---------- single steps ----------

  lemma BlankStep(m: Mode, js: string, s: PState, cap: nat)
    requires Inv(s) && !AtEnd(js, s.pos) && IsBlank(js[s.pos])
    ensures Inv(s.(pos := s.pos + 1)) && Run(m, js, s, cap) == Run(m, js, s.(pos := s.pos + 1), cap)
  {
    assert Advance(m, js, s, cap) == Go(s.(pos := s.pos + 1));
  }

  lemma BlankAt(js: string, pos: nat, ws: string)
    requires Blanks(ws) && At(js, pos, ws) && ws != ""
    ensures !AtEnd(js, pos) && IsBlank(js[pos]) && Blanks(ws[1..]) && At(js, pos + 1, ws[1..])
  {
    AtChar(js, pos, ws, 0);
    AtTail(js, pos, ws);
  }

  lemma {:induction false} SkipBlanks(m: Mode, js: string, s: PState, cap: nat, ws: string)
    requires Inv(s) && Blanks(ws) && At(js, s.pos, ws)
    ensures Inv(s.(pos := s.pos + |ws|)) && Run(m, js, s, cap) == Run(m, js, s.(pos := s.pos + |ws|), cap)
    decreases |ws|
  {
    hide At, Run, Inv, Blanks;
    if ws == "" {
      assert s.(pos := s.pos) == s;
    } else {
      BlankAt(js, s.pos, ws);
      var t := s.(pos := s.pos + 1);
      BlankStep(m, js, s, cap);
      SkipBlanks(m, js, t, cap, ws[1..]);
      assert t.(pos := t.pos + |ws[1..]|) == s.(pos := s.pos + |ws|);
    }
  }

  /** A string or primitive is one lexeme. */
  lemma StringLexeme(js: string, pos: nat, body: seq<StrChar>)
    requires BodyOk(body) && At(js, pos, "\"" + BodyText(body) + "\"")
    ensures !AtEnd(js, pos)
    ensures LexAt(js, pos) == (Scalar(String, pos + 1, pos + 1 + |BodyText(body)|), pos + |BodyText(body)| + 2)
  {
    hide At, BodyText, BodyOk;
    var rest := BodyText(body) + "\"";
    Assoc("\"", BodyText(body), "\"");
    AtChar(js, pos, "\"" + rest, 0);
    AtSplit(js, pos, "\"", rest);
    BodyEnds(js, pos + 1, body);
  }

  lemma PrimitiveLexeme(js: string, pos: nat, t: string)
    requires IsScalarText(t) && At(js, pos, t) && (AtEnd(js, pos + |t|) || IsDelimiter(js[pos + |t|]))
    ensures !AtEnd(js, pos) && LexAt(js, pos) == (Scalar(Primitive, pos, pos + |t|), pos + |t|)
  {
    hide LexAt, PrimitiveEnd;
    AtChar(js, pos, t, 0);
    forall k | pos <= k < pos + |t| ensures InPrimitive(js[k]) { AtChar(js, pos, t, k - pos); }
    PrimitiveIff(js, pos, pos + |t|);
  }

  lemma LeafLexeme(js: string, pos: nat, v: Value)
    requires ValueOk(v) && !IsBracketed(v) && At(js, pos, Text(v))
    requires v.Str? || AtEnd(js, pos + |Text(v)|) || IsDelimiter(js[pos + |Text(v)|])
    ensures !AtEnd(js, pos)
    ensures LexAt(js, pos) == (if v.Str? then (Scalar(String, pos + 1, pos + 1 + |BodyText(v.body)|), pos + |Text(v)|)
                               else (Scalar(Primitive, pos, pos + |Text(v)|), pos + |Text(v)|))
  {
    hide LexAt, At, BodyText;
    if v.Str? {
      StringLexeme(js, pos, v.body);
    } else {
      ScalarText(v);
      PrimitiveLexeme(js, pos, Text(v));
    }
  }

  lemma ScalarStep(m: Mode, js: string, s: PState, cap: nat, kind: Kind, start: nat, end: nat, next: nat)
    returns (t: PState)
    requires Inv(s) && !AtEnd(js, s.pos) && LexAt(js, s.pos) == (Scalar(kind, start, end), next) && |s.nodes| < cap
    ensures Inv(t) && Run(m, js, s, cap) == Run(m, js, t, cap)
    ensures t == s.(pos := next, nodes := Bump(s.nodes, s.super) + [Leaf(kind, start, end, s.super)])
  {
    t := Advance(m, js, s, cap).s;
  }

  /** A string or primitive: one more leaf. */
  lemma LeafStep(m: Mode, js: string, s: PState, cap: nat, v: Value) returns (t: PState)
    requires Inv(s) && ValueOk(v) && !IsBracketed(v) && At(js, s.pos, Text(v)) && |s.nodes| < cap
    requires v.Str? || AtEnd(js, s.pos + |Text(v)|) || IsDelimiter(js[s.pos + |Text(v)|])
    ensures Inv(t) && Run(m, js, s, cap) == Run(m, js, t, cap)
    ensures t == s.(pos := s.pos + |Text(v)|, nodes := Bump(s.nodes, s.super) + Nodes(v, s.pos, s.super, |s.nodes|))
  {
    hide At, Run, Inv, Text, Bump, ValueOk, LexAt, BodyText;
    LeafLexeme(js, s.pos, v);
    var (lx, next) := LexAt(js, s.pos);
    t := ScalarStep(m, js, s, cap, lx.kind, lx.start, lx.end, next);
  }

  /** One more open container. */
  lemma OpenStep(m: Mode, js: string, s: PState, cap: nat, kind: Kind) returns (t: PState)
    requires Inv(s) && !AtEnd(js, s.pos) && js[s.pos] == (if kind == Object then '{' else '[')
    requires IsContainer(kind) && |s.nodes| < cap
    ensures Inv(t) && Run(m, js, s, cap) == Run(m, js, t, cap)
    ensures t == PState(s.pos + 1, Bump(s.nodes, s.super) + [Node(Token(kind, s.pos, -1, 0), s.super)],
                        |s.nodes|, s.stack + [|s.nodes|])
  {
    t := Advance(m, js, s, cap).s;
  }

  lemma {:induction false} ChaseFinds(nodes: seq<Node>, i: nat, k: nat, super: int)
    requires k <= i < |nodes| && ParentsBelow(nodes) && nodes[k].tok.end == -1
    requires forall j :: k < j < |nodes| ==> nodes[j].tok.end != -1 && k <= nodes[j].parent
    ensures Chase(nodes, i, nodes[k].tok.kind, super) == Found(k)
    decreases i
  {
    if i > k { ChaseFinds(nodes, nodes[i].parent, k, super); }
  }

  /** The innermost container `k` is closed; everything behind it is its subtree. */
  lemma CloseStep(m: Mode, js: string, s: PState, cap: nat, k: nat) returns (t: PState)
    requires Inv(s) && k < |s.nodes| && s.stack != [] && Top(s.stack) == k
    requires !AtEnd(js, s.pos) && js[s.pos] == (if s.nodes[k].tok.kind == Object then '}' else ']')
    requires Subtree(s.nodes[k + 1..], k, k)
    ensures Inv(t) && Run(m, js, s, cap) == Run(m, js, t, cap)
    ensures var rest := s.stack[..|s.stack| - 1];
            t == PState(s.pos + 1, SetEnd(s.nodes, k, s.pos + 1),
                        if m == Scan then Top(rest) else s.nodes[k].parent, rest)
  {
    hide Inv, Run, CloseScan, CloseLinks, Subtree;
    CloseScanIs(s, k);
    if m == Links { CloseLinksIs(s, k); }
    CloserLexeme(js, s, k);
    t := Advance(m, js, s, cap).s;
    AdvanceRun(m, js, s, cap);
  }

  lemma AdvanceRun(m: Mode, js: string, s: PState, cap: nat)
    requires Inv(s) && !AtEnd(js, s.pos) && Advance(m, js, s, cap).Go?
    ensures Run(m, js, s, cap) == Run(m, js, Advance(m, js, s, cap).s, cap)
  {
  }

  lemma CloserLexeme(js: string, s: PState, k: nat)
    requires Inv(s) && k < |s.nodes| && s.nodes[k].tok.end == -1
    requires !AtEnd(js, s.pos) && js[s.pos] == (if s.nodes[k].tok.kind == Object then '}' else ']')
    ensures LexAt(js, s.pos) == (Close(s.nodes[k].tok.kind), s.pos + 1)
  {
    assert NodeOk(s, k);
  }

  lemma CloseScanIs(s: PState, k: nat)
    requires Inv(s) && k < |s.nodes| && s.stack != [] && Top(s.stack) == k
    ensures s.nodes[k].tok.end == -1
    ensures var rest := s.stack[..|s.stack| - 1];
            CloseScan(s, s.nodes[k].tok.kind) ==
              Go(s.(nodes := SetEnd(s.nodes, k, s.pos + 1), stack := rest, super := Top(rest)))
  {
  }

  lemma CloseLinksIs(s: PState, k: nat)
    requires Inv(s) && k < |s.nodes| && s.stack != [] && Top(s.stack) == k && Subtree(s.nodes[k + 1..], k, k)
    ensures CloseLinks(s, s.nodes[k].tok.kind) ==
              Go(s.(nodes := SetEnd(s.nodes, k, s.pos + 1), stack := s.stack[..|s.stack| - 1],
                super := s.nodes[k].parent))
  {
    InvParents(s);
    forall j | k < j < |s.nodes| ensures s.nodes[j].tok.end != -1 && k <= s.nodes[j].parent {
      assert s.nodes[j] == s.nodes[k + 1..][j - k - 1];
    }
    ChaseFinds(s.nodes, |s.nodes| - 1, k, s.super);
    WithoutLast(s.stack, k);
  }

  // ---------- node arithmetic ----------

  /** `n` more children for token `k`. */
  function AddSize(nodes: seq<Node>, k: nat, n: nat): (r: seq<Node>)
    requires k < |nodes|
    ensures |r| == |nodes|
  {
    var d := nodes[k];
    nodes[k := d.(tok := d.tok.(size := d.tok.size + n))]
  }

  lemma AddMore(nodes: seq<Node>, k: nat, n: nat, x: seq<Node>, y: seq<Node>)
    requires k < |nodes|
    ensures AddSize(AddSize(nodes, k, 1) + x, k, n) + y == AddSize(nodes, k, 1 + n) + (x + y)
  {
  }

  /** Closing the container at the end of `base` puts the finished container node there. */
  lemma Finished(base: seq<Node>, kind: Kind, start: nat, end: nat, parent: int, n: nat, inner: seq<Node>)
    ensures var open := Node(Token(kind, start, -1, 0), parent);
            SetEnd(AddSize(base + [open], |base|, n) + inner, |base|, end)
              == base + ([Node(Token(kind, start, end, n), parent)] + inner)
  {
  }

  lemma BumpIsAdd(nodes: seq<Node>, k: nat)
    requires k < |nodes|
    ensures Bump(nodes, k) == AddSize(nodes, k, 1)
  {
  }

  /** A member: the key, counted by its object, with its one value, counted by the key. */
  lemma MemberAdds(nodes: seq<Node>, k: nat, start: nat, end: nat, value: seq<Node>)
    requires k < |nodes|
    ensures Bump(Bump(nodes, k) + [Leaf(String, start, end, k)], |nodes|) + value
              == AddSize(nodes, k, 1) + ([Node(Token(String, start, end, 1), k)] + value)
  {
  }

  lemma CommaStep(m: Mode, js: string, s: PState, cap: nat, k: nat) returns (t: PState)
    requires Inv(s) && !AtEnd(js, s.pos) && js[s.pos] == ',' && s.stack != [] && Top(s.stack) == k
    requires s.super != -1
    requires if s.super == k then IsContainer(s.nodes[k].tok.kind)
             else !IsContainer(s.nodes[s.super].tok.kind) && s.nodes[s.super].parent == k
    ensures Inv(t) && Run(m, js, s, cap) == Run(m, js, t, cap) && t == s.(pos := s.pos + 1, super := k)
  {
    t := Advance(m, js, s, cap).s;
  }

  lemma ColonStep(m: Mode, js: string, s: PState, cap: nat) returns (t: PState)
    requires Inv(s) && !AtEnd(js, s.pos) && js[s.pos] == ':'
    ensures Inv(t) && Run(m, js, s, cap) == Run(m, js, t, cap) && t == s.(pos := s.pos + 1, super := |s.nodes| - 1)
  {
    t := Advance(m, js, s, cap).s;
  }

  // ---------- values ----------

  /** What follows a value in a JSON text. */
  predicate Delimits(js: string, i: nat) {
    AtEnd(js, i) || IsDelimiter(js[i])
  }

  /** After a bracketed value the backward scan makes the enclosing container super, the parent
      links whatever was super before. */
  function SuperAfter(m: Mode, s: PState, v: Value): int {
    if m == Scan && IsBracketed(v) then Top(s.stack) else s.super
  }

  /** The effect of a value that starts at `at`, its tokens added and counted. */
  ghost predicate Took(m: Mode, s: PState, t: PState, v: Value, at: nat, end: nat) {
    && Inv(s) && Inv(t) && t.pos == end && t.stack == s.stack && t.super == SuperAfter(m, s, v)
    && t.nodes == Bump(s.nodes, s.super) + Nodes(v, at, s.super, |s.nodes|)
  }

  lemma {:induction false} ValueRun(m: Mode, js: string, s: PState, cap: nat, v: Value) returns (t: PState)
    requires Inv(s) && ValueOk(v) && At(js, s.pos, Text(v)) && |s.nodes| + Size(v) <= cap
    requires Delimits(js, s.pos + |Text(v)|)
    ensures Took(m, s, t, v, s.pos, s.pos + |Text(v)|) && Run(m, js, s, cap) == Run(m, js, t, cap)
    decreases v, 2
  {
    if v.Arr? || v.Obj? || v.EmptyArr? || v.EmptyObj? {
      t := BracketRun(m, js, s, cap, v);
    } else {
      t := LeafStep(m, js, s, cap, v);
    }
  }

  function Inner(v: Value): string
    requires IsBracketed(v)
  {
    match v
    case EmptyArr(ws) => ws
    case EmptyObj(ws) => ws
    case Arr(items) => ItemsText(items)
    case Obj(members) => MembersText(members)
  }

  function BracketKind(v: Value): Kind {
    if v.EmptyObj? || v.Obj? then Object else Array
  }

  function InnerCount(v: Value): nat {
    match v
    case Arr(items) => CountItems(items)
    case Obj(members) => CountMembers(members)
    case _ => 0
  }

  function InnerNodes(v: Value, at: nat, k: nat): seq<Node> {
    match v
    case Arr(items) => ItemNodes(items, at, k, k + 1)
    case Obj(members) => MemberNodes(members, at, k, k + 1)
    case _ => []
  }

  lemma {:induction false} BracketRun(m: Mode, js: string, s: PState, cap: nat, v: Value) returns (t: PState)
    requires IsBracketed(v)
    requires Inv(s) && ValueOk(v) && At(js, s.pos, Text(v)) && |s.nodes| + Size(v) <= cap
    ensures Took(m, s, t, v, s.pos, s.pos + |Text(v)|) && Run(m, js, s, cap) == Run(m, js, t, cap)
    decreases v, 1
  {
    hide At, Run, Inv, Text, Nodes, Bump, ValueOk, Size, InnerNodes, InnerCount, Inner, Subtree, AddSize, SetEnd,
         BracketKind;
    SuperInRange(s);
    var k, kind := |s.nodes|, BracketKind(v);
    var inner, n, base := InnerNodes(v, s.pos + 1, k), InnerCount(v), Bump(s.nodes, s.super);
    BracketLayout(js, s.pos, v);
    BracketNodes(v, s.pos, s.super, k);
    var s1 := OpenStep(m, js, s, cap, kind);
    var s2 := InnerRun(m, js, s1, cap, v);
    TailOf(s1.nodes, k, n, inner);
    InnerSubtree(v, s.pos + 1, k);
    t := CloseStep(m, js, s2, cap, k);
    Finished(base, kind, s.pos, s.pos + |Text(v)|, s.super, n, inner);
    PopPush(s.stack, k);
  }

  lemma SuperInRange(s: PState)
    requires Inv(s)
    ensures -1 <= s.super < |s.nodes|
  {
  }

  lemma PopPush(stack: seq<nat>, k: nat)
    ensures var grown := stack + [k]; grown != [] && Top(grown) == k && grown[..|grown| - 1] == stack
  {
  }

  lemma BracketLayout(js: string, pos: nat, v: Value)
    requires IsBracketed(v) && At(js, pos, Text(v))
    ensures |Text(v)| == |Inner(v)| + 2 && At(js, pos + 1, Inner(v)) && pos + |Text(v)| <= |js|
    ensures IsContainer(BracketKind(v)) && Size(v) > 0
    ensures !AtEnd(js, pos) && !AtEnd(js, pos + 1 + |Inner(v)|) && Delimits(js, pos + 1 + |Inner(v)|)
    ensures js[pos] == (if BracketKind(v) == Object then '{' else '[')
    ensures js[pos + 1 + |Inner(v)|] == (if BracketKind(v) == Object then '}' else ']')
  {
    if BracketKind(v) == Object { BetweenBrackets(js, pos, "{", Inner(v), "}"); }
    else { BetweenBrackets(js, pos, "[", Inner(v), "]"); }
  }

  lemma BetweenBrackets(js: string, pos: nat, open: string, inner: string, close: string)
    requires At(js, pos, open + inner + close) && |open| == |close| == 1
    ensures At(js, pos + 1, inner) && js[pos] == open[0] && js[pos + 1 + |inner|] == close[0]
  {
    AtSplit(js, pos, open + inner, close);
    AtSplit(js, pos, open, inner);
    AtChar(js, pos, open, 0);
    AtChar(js, pos + 1 + |inner|, close, 0);
  }

  lemma BracketNodes(v: Value, at: nat, parent: int, base: nat)
    requires IsBracketed(v)
    ensures Nodes(v, at, parent, base)
              == [Node(Token(BracketKind(v), at, at + |Text(v)|, InnerCount(v)), parent)] + InnerNodes(v, at + 1, base)
  {
  }

  lemma TailOf(nodes: seq<Node>, k: nat, n: nat, inner: seq<Node>)
    requires |nodes| == k + 1
    ensures (AddSize(nodes, k, n) + inner)[k + 1..] == inner
    ensures AddSize(nodes, k, n)[k].tok.kind == nodes[k].tok.kind && AddSize(nodes, k, n)[k].parent == nodes[k].parent
  {
  }

  lemma InnerSubtree(v: Value, at: nat, k: nat)
    requires IsBracketed(v)
    ensures Subtree(InnerNodes(v, at, k), k, k)
  {
    match v
    case Arr(items) =>
      ItemNodesSubtree(items, at, k, k + 1);
      SubtreeWiden(ItemNodes(items, at, k, k + 1), k, k + 1, k, k);
    case Obj(members) =>
      MemberNodesSubtree(members, at, k, k + 1);
      SubtreeWiden(MemberNodes(members, at, k, k + 1), k, k + 1, k, k);
    case _ =>
  }

  /** What stands between the brackets of `v`, the container `k` being the last token so far. */
  lemma {:induction false} InnerRun(m: Mode, js: string, s: PState, cap: nat, v: Value) returns (t: PState)
    requires IsBracketed(v) && ValueOk(v) && Inv(s) && At(js, s.pos, Inner(v)) && |s.nodes| + Size(v) - 1 <= cap
    requires |s.nodes| > 0 && s.super == Top(s.stack) == |s.nodes| - 1 && s.nodes[s.super].tok.kind == BracketKind(v)
    requires Delimits(js, s.pos + |Inner(v)|)
    ensures Inv(t) && Run(m, js, s, cap) == Run(m, js, t, cap)
    ensures t.pos == s.pos + |Inner(v)| && t.stack == s.stack
    ensures t.nodes == AddSize(s.nodes, |s.nodes| - 1, InnerCount(v)) + InnerNodes(v, s.pos, |s.nodes| - 1)
    decreases v, 0
  {
    hide At, Run, Inv, Blanks, Delimits, AddSize, ItemsText, MembersText, ItemsOk, MembersOk, ItemNodes, MemberNodes;
    match v
    case EmptyArr(ws) => SkipBlanks(m, js, s, cap, ws); t := s.(pos := s.pos + |ws|); AddNone(s.nodes, |s.nodes| - 1);
    case EmptyObj(ws) => SkipBlanks(m, js, s, cap, ws); t := s.(pos := s.pos + |ws|); AddNone(s.nodes, |s.nodes| - 1);
    case Arr(items) => t := ItemsRun(m, js, s, cap, items, |s.nodes| - 1);
    case Obj(members) => t := MembersRun(m, js, s, cap, members, |s.nodes| - 1);
  }

  lemma AddNone(nodes: seq<Node>, k: nat)
    requires k < |nodes|
    ensures AddSize(nodes, k, 0) + [] == nodes
  {
  }

  lemma {:induction false} PaddedRun(m: Mode, js: string, s: PState, cap: nat, p: Padded) returns (t: PState)
    requires Inv(s) && PaddedOk(p) && At(js, s.pos, PaddedText(p)) && |s.nodes| + Size(p.v) <= cap
    requires Delimits(js, s.pos + |PaddedText(p)|)
    ensures Took(m, s, t, p.v, s.pos + |p.before|, s.pos + |PaddedText(p)|) && Run(m, js, s, cap) == Run(m, js, t, cap)
    decreases p, 0
  {
    hide At, Run, Inv, Text, Nodes, Bump, ValueOk, Delimits, Size, PaddedText;
    PaddedLayout(js, s.pos, p);
    SkipBlanks(m, js, s, cap, p.before);
    var s1 := s.(pos := s.pos + |p.before|);
    var s2 := ValueRun(m, js, s1, cap, p.v);
    SkipBlanks(m, js, s2, cap, p.after);
    t := s2.(pos := s2.pos + |p.after|);
  }

  lemma PaddedLayout(js: string, pos: nat, p: Padded)
    requires PaddedOk(p) && At(js, pos, PaddedText(p)) && Delimits(js, pos + |PaddedText(p)|)
    ensures At(js, pos, p.before) && At(js, pos + |p.before|, Text(p.v))
            && At(js, pos + |p.before| + |Text(p.v)|, p.after)
    ensures Delimits(js, pos + |p.before| + |Text(p.v)|)
    ensures |PaddedText(p)| == |p.before| + |Text(p.v)| + |p.after|
  {
    AtSplit(js, pos, p.before + Text(p.v), p.after);
    AtSplit(js, pos, p.before, Text(p.v));
    if p.after != "" { AtChar(js, pos + |p.before| + |Text(p.v)|, p.after, 0); }
  }

  /** Elements: all are children of the array `k`. */
  lemma {:induction false} ItemsRun(m: Mode, js: string, s: PState, cap: nat, items: Items, k: nat) returns (t: PState)
    requires Inv(s) && ItemsOk(items) && At(js, s.pos, ItemsText(items)) && |s.nodes| + ItemsSize(items) <= cap
    requires k < |s.nodes| && s.super == Top(s.stack) == k && IsContainer(s.nodes[k].tok.kind)
    requires Delimits(js, s.pos + |ItemsText(items)|)
    ensures Inv(t) && Run(m, js, s, cap) == Run(m, js, t, cap)
    ensures t.pos == s.pos + |ItemsText(items)| && t.stack == s.stack
    ensures t.nodes == AddSize(s.nodes, k, CountItems(items)) + ItemNodes(items, s.pos, k, |s.nodes|)
    decreases items, 0
  {
    hide At, Run, Inv, Text, Nodes, Bump, ValueOk, PaddedOk, Delimits, PaddedText, ItemsText, AddSize;
    var p := items.item;
    BumpIsAdd(s.nodes, k);
    ItemsLayout(js, s.pos, items);
    if items.LastItem? {
      t := PaddedRun(m, js, s, cap, p);
    } else {
      var first := Nodes(p.v, s.pos + |p.before|, k, |s.nodes|);
      NodesSize(p.v, s.pos + |p.before|, k, |s.nodes|);
      var s1 := PaddedRun(m, js, s, cap, p);
      KindKept(s.nodes, k, 1, first);
      var s2 := CommaStep(m, js, s1, cap, k);
      t := ItemsRun(m, js, s2, cap, items.rest, k);
      AddMore(s.nodes, k, CountItems(items.rest), first, ItemNodes(items.rest, s2.pos, k, |s2.nodes|));
    }
  }

  lemma ItemsLayout(js: string, pos: nat, items: Items)
    requires ItemsOk(items) && At(js, pos, ItemsText(items)) && Delimits(js, pos + |ItemsText(items)|)
    ensures PaddedOk(items.item) && At(js, pos, PaddedText(items.item)) && Delimits(js, pos + |PaddedText(items.item)|)
    ensures items.LastItem? ==> ItemsText(items) == PaddedText(items.item)
    ensures items.MoreItems? ==> var comma := pos + |PaddedText(items.item)|;
              && !AtEnd(js, comma) && js[comma] == ',' && At(js, comma + 1, ItemsText(items.rest))
              && comma + 1 + |ItemsText(items.rest)| == pos + |ItemsText(items)|
  {
    if items.MoreItems? {
      var p := PaddedText(items.item);
      AtSplit(js, pos, p + ",", ItemsText(items.rest));
      AtSplit(js, pos, p, ",");
      AtChar(js, pos + |p|, ",", 0);
    }
  }

  lemma KindKept(nodes: seq<Node>, k: nat, n: nat, more: seq<Node>)
    requires k < |nodes|
    ensures (AddSize(nodes, k, n) + more)[k].tok.kind == nodes[k].tok.kind
  {
  }

  /** A key and its colon: the key is a child of the object `k` and becomes super. */
  lemma {:induction false} KeyRun(m: Mode, js: string, s: PState, cap: nat, key: Key, k: nat) returns (t: PState)
    requires Inv(s) && Blanks(key.before) && BodyOk(key.body) && Blanks(key.after)
    requires At(js, s.pos, KeyText(key) + ":") && |s.nodes| < cap && k < |s.nodes| && s.super == k
    ensures Inv(t) && Run(m, js, s, cap) == Run(m, js, t, cap)
    ensures var start := s.pos + |key.before| + 1;
            t == PState(s.pos + |KeyText(key)| + 1,
                        Bump(s.nodes, k) + [Leaf(String, start, start + |BodyText(key.body)|, k)],
                        |s.nodes|, s.stack)
  {
    hide At, Run, Inv, Bump, KeyText, BodyText, BodyOk, Blanks;
    var v := Str(key.body);
    KeyLayout(js, s.pos, key);
    SkipBlanks(m, js, s, cap, key.before);
    var s1 := LeafStep(m, js, s.(pos := s.pos + |key.before|), cap, v);
    SkipBlanks(m, js, s1, cap, key.after);
    t := ColonStep(m, js, s1.(pos := s1.pos + |key.after|), cap);
  }

  lemma Regroup(a: string, q: string, b: string, r: string, c: string)
    ensures a + q + b + r + c == a + (q + b + r) + c
  {
    assert a + q + b + r == a + (q + b + r);
  }

  lemma KeyLayout(js: string, pos: nat, key: Key)
    requires At(js, pos, KeyText(key) + ":")
    ensures var text := Text(Str(key.body)); var start := pos + |key.before|; var after := start + |text|;
            && At(js, pos, key.before) && At(js, start, text) && At(js, after, key.after)
            && |text| == |BodyText(key.body)| + 2 && after + |key.after| == pos + |KeyText(key)|
            && !AtEnd(js, after + |key.after|) && js[after + |key.after|] == ':'
  {
    var text := Text(Str(key.body));
    Regroup(key.before, "\"", BodyText(key.body), "\"", key.after);
    AtSplit(js, pos, key.before + text + key.after, ":");
    AtSplit(js, pos, key.before + text, key.after);
    AtSplit(js, pos, key.before, text);
    AtChar(js, pos + |KeyText(key)|, ":", 0);
  }

  /** One member, up to the comma or closing brace. */
  lemma {:induction false} MemberRun(m: Mode, js: string, s: PState, cap: nat, key: Key, p: Padded, k: nat)
    returns (t: PState)
    requires Inv(s) && Blanks(key.before) && BodyOk(key.body) && Blanks(key.after) && PaddedOk(p)
    requires At(js, s.pos, MemberText(key, p)) && |s.nodes| + 1 + Size(p.v) <= cap
    requires k < |s.nodes| && s.super == Top(s.stack) == k && IsContainer(s.nodes[k].tok.kind)
    requires Delimits(js, s.pos + |MemberText(key, p)|)
    ensures Inv(t) && Run(m, js, s, cap) == Run(m, js, t, cap)
    ensures t.pos == s.pos + |MemberText(key, p)| && t.stack == s.stack
    ensures t.nodes == AddSize(s.nodes, k, 1) + ([KeyNode(key, s.pos, k)]
              + Nodes(p.v, s.pos + |KeyText(key)| + 1 + |p.before|, |s.nodes|, |s.nodes| + 1))
    ensures t.super == k || t.super == |s.nodes|
    decreases p, 1
  {
    hide At, Run, Inv, Text, Nodes, Bump, BodyText, BodyOk, Blanks, ValueOk, PaddedOk, Delimits, PaddedText, KeyText,
         MemberText, AddSize;
    MemberLayout(js, s.pos, key, p);
    var s1 := KeyRun(m, js, s, cap, key, k);
    t := PaddedRun(m, js, s1, cap, p);
    var start := s.pos + |key.before| + 1;
    MemberAdds(s.nodes, k, start, start + |BodyText(key.body)|,
               Nodes(p.v, s1.pos + |p.before|, |s.nodes|, |s.nodes| + 1));
  }

  lemma MemberLayout(js: string, pos: nat, key: Key, p: Padded)
    requires At(js, pos, MemberText(key, p)) && Delimits(js, pos + |MemberText(key, p)|)
    ensures |MemberText(key, p)| == |KeyText(key)| + 1 + |PaddedText(p)|
    ensures At(js, pos, KeyText(key) + ":") && At(js, pos + |KeyText(key)| + 1, PaddedText(p))
  {
    AtSplit(js, pos, KeyText(key) + ":", PaddedText(p));
  }

  /** Members: all keys are children of the object `k`. */
  lemma {:induction false} MembersRun(m: Mode, js: string, s: PState, cap: nat, members: Members, k: nat)
    returns (t: PState)
    requires Inv(s) && MembersOk(members) && At(js, s.pos, MembersText(members))
             && |s.nodes| + MembersSize(members) <= cap
    requires k < |s.nodes| && s.super == Top(s.stack) == k && IsContainer(s.nodes[k].tok.kind)
    requires Delimits(js, s.pos + |MembersText(members)|)
    ensures Inv(t) && Run(m, js, s, cap) == Run(m, js, t, cap)
    ensures t.pos == s.pos + |MembersText(members)| && t.stack == s.stack
    ensures t.nodes == AddSize(s.nodes, k, CountMembers(members)) + MemberNodes(members, s.pos, k, |s.nodes|)
    decreases members, 0
  {
    hide At, Run, Inv, Text, Nodes, Bump, BodyText, BodyOk, Blanks, ValueOk, PaddedOk, Delimits, MemberText,
         MembersText, AddSize;
    var key, p := members.key, members.item;
    MembersLayout(js, s.pos, members);
    if members.LastMember? {
      t := MemberRun(m, js, s, cap, key, p, k);
    } else {
      var value := s.pos + |KeyText(key)| + 1 + |p.before|;
      var v := Nodes(p.v, value, |s.nodes|, |s.nodes| + 1);
      var first := [KeyNode(key, s.pos, k)] + v;
      NodesSize(p.v, value, |s.nodes|, |s.nodes| + 1);
      var s1 := MemberRun(m, js, s, cap, key, p, k);
      KindKept(s.nodes, k, 1, first);
      var s2 := CommaStep(m, js, s1, cap, k);
      t := MembersRun(m, js, s2, cap, members.more, k);
      AddMore(s.nodes, k, CountMembers(members.more), first, MemberNodes(members.more, s2.pos, k, |s2.nodes|));
    }
  }

  lemma MembersLayout(js: string, pos: nat, members: Members)
    requires MembersOk(members) && At(js, pos, MembersText(members)) && Delimits(js, pos + |MembersText(members)|)
    ensures Blanks(members.key.before) && BodyOk(members.key.body) && Blanks(members.key.after)
            && PaddedOk(members.item)
    ensures var text := MemberText(members.key, members.item);
            && At(js, pos, text) && Delimits(js, pos + |text|)
            && |text| == |KeyText(members.key)| + 1 + |PaddedText(members.item)|
            && (members.LastMember? ==> MembersText(members) == text)
            && (members.MoreMembers? ==>
                  && !AtEnd(js, pos + |text|) && js[pos + |text|] == ',' && MembersOk(members.more)
                  && At(js, pos + |text| + 1, MembersText(members.more))
                  && |text| + 1 + |MembersText(members.more)| == |MembersText(members)|)
  {
    if members.MoreMembers? {
      var text := MemberText(members.key, members.item);
      AtSplit(js, pos, text + ",", MembersText(members.more));
      AtSplit(js, pos, text, ",");
      AtChar(js, pos + |text|, ",", 0);
    }
  }

  /** Printer and parser: the code is the number of tokens and the tokens are the value's, in
      preorder, with their kinds, spans, child counts and parents. */
  lemma ParsePrinted(m: Mode, doc: Padded, cap: nat)
    requires PaddedOk(doc) && Size(doc.v) <= cap
    ensures var (t, r) := Run(m, PaddedText(doc), INIT, cap);
            r == Size(doc.v) && t.nodes == Nodes(doc.v, |doc.before|, -1, 0)
  {
    hide Text, PaddedText, Nodes, Size, Advance;
    var js := PaddedText(doc);
    assert At(js, 0, js);
    NodesSize(doc.v, |doc.before|, -1, 0);
    var t := PaddedRun(m, js, INIT, cap, doc);
    assert [] + Nodes(doc.v, |doc.before|, -1, 0) == Nodes(doc.v, |doc.before|, -1, 0);
  }
}
