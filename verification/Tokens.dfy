/**
 jsmn as a machine with an explicit stack of open brackets and explicit parents: what the token
 array and `toksuper` mean. The parser itself keeps neither.
 */
module Tokens {
  import opened Lexer

  /** `jsmntok_t`. A bracket not closed yet has end -1. */
  datatype Token = Token(kind: Kind, start: int, end: int, size: int)

  /** A token and the token that was `toksuper` when it was created, or -1. */
  datatype Node = Node(tok: Token, parent: int)

  datatype PState = PState(pos: nat, nodes: seq<Node>, super: int, stack: seq<nat>)

  /** `jsmn_init`. */
  const INIT: PState := PState(0, [], -1, [])

  /** How closers and commas find the enclosing container: by scanning the tokens backwards, or,
      with JSMN_PARENT_LINKS, by following parents. */
  datatype Mode = Scan | Links

  function Erase(nodes: seq<Node>): (tokens: seq<Token>)
    ensures |tokens| == |nodes|
    ensures forall i :: 0 <= i < |nodes| ==> tokens[i] == nodes[i].tok
  {
    seq(|nodes|, i requires 0 <= i < |nodes| => nodes[i].tok)
  }

  predicate IsContainer(k: Kind) {
    k == Object || k == Array
  }

  /** The open tokens are exactly the stack, in order; parents come before their children. */
  ghost predicate Inv(s: PState) {
    && -1 <= s.super < |s.nodes|
    && (forall i :: 0 <= i < |s.stack| ==> s.stack[i] < |s.nodes|)
    && (forall i, j :: 0 <= i < j < |s.stack| ==> s.stack[i] < s.stack[j])
    && (forall i :: 0 <= i < |s.stack| ==> s.nodes[s.stack[i]].tok.end == -1)
    && (forall i :: 0 <= i < |s.nodes| ==> NodeOk(s, i))
  }

  ghost predicate NodeOk(s: PState, i: nat)
    requires i < |s.nodes|
  {
    var n := s.nodes[i];
    && -1 <= n.parent < i && 0 <= n.tok.start
    && (n.tok.end == -1 ==> i in s.stack && IsContainer(n.tok.kind))
  }

  function Top(stack: seq<nat>): int {
    if stack == [] then -1 else stack[|stack| - 1]
  }

  /** The last open token is the top of the stack. */
  lemma InnermostOpen(s: PState, i: int)
    requires Inv(s) && -1 <= i < |s.nodes|
    requires forall k :: i < k < |s.nodes| ==> s.nodes[k].tok.end != -1
    requires i >= 0 ==> s.nodes[i].tok.end == -1
    ensures i == Top(s.stack)
  {
    assert s.stack != [] ==> s.nodes[s.stack[0]].tok.end == -1;
    if i >= 0 {
      assert NodeOk(s, i);
      var j :| 0 <= j < |s.stack| && s.stack[j] == i;
      assert s.stack[|s.stack| - 1] >= i;
    }
  }

  /** Everything behind the top of the stack is closed. */
  lemma ClosedBehindTop(s: PState)
    requires Inv(s)
    ensures forall j :: 0 <= j < |s.nodes| && j > Top(s.stack) ==> s.nodes[j].tok.end != -1
  {
    assert forall x :: x in s.stack ==> x <= Top(s.stack);
    forall j | 0 <= j < |s.nodes| && j > Top(s.stack) ensures s.nodes[j].tok.end != -1 {
      assert NodeOk(s, j);
    }
  }

  /** One more child for the current super token, if there is one. */
  function Bump(nodes: seq<Node>, super: int): (r: seq<Node>)
    requires -1 <= super < |nodes|
    ensures |r| == |nodes|
  {
    if super == -1 then nodes
    else
      var n := nodes[super];
      nodes[super := n.(tok := n.tok.(size := n.tok.size + 1))]
  }

  datatype Step = Go(s: PState) | Stop(code: int)

  /** A new token becomes the last one and a child of the super token. */
  function Create(s: PState, tok: Token): PState
    requires Inv(s)
  {
    s.(nodes := Bump(s.nodes, s.super) + [Node(tok, s.super)])
  }

  function SetEnd(nodes: seq<Node>, i: nat, end: nat): (r: seq<Node>)
    requires i < |nodes|
    ensures |r| == |nodes|
  {
    nodes[i := nodes[i].(tok := nodes[i].tok.(end := end))]
  }

  ghost predicate ParentsBelow(nodes: seq<Node>) {
    forall i :: 0 <= i < |nodes| ==> -1 <= nodes[i].parent < i
  }

  lemma InvParents(s: PState)
    requires Inv(s)
    ensures ParentsBelow(s.nodes)
  {
    forall i | 0 <= i < |s.nodes| ensures -1 <= s.nodes[i].parent < i { assert NodeOk(s, i); }
  }

  datatype Chased = Found(at: nat) | Settled | Lost

  /** The closer's walk up the parents with JSMN_PARENT_LINKS, from token `i`. */
  function Chase(nodes: seq<Node>, i: nat, kind: Kind, super: int): (r: Chased)
    requires i < |nodes| && ParentsBelow(nodes)
    ensures r.Found? ==> r.at <= i && nodes[r.at].tok.end == -1 && nodes[r.at].tok.kind == kind
    decreases i
  {
    var n := nodes[i];
    if n.tok.end == -1 then (if n.tok.kind == kind then Found(i) else Lost)
    else if n.parent < 0 then (if n.tok.kind == kind && super != -1 then Settled else Lost)
    else Chase(nodes, n.parent, kind, super)
  }

  /** A closing bracket: the innermost open one must match it. */
  function CloseScan(s: PState, kind: Kind): Step
    requires Inv(s)
  {
    if s.stack == [] || s.nodes[Top(s.stack)].tok.kind != kind then Stop(INVAL)
    else
      var rest := s.stack[..|s.stack| - 1];
      Go(s.(nodes := SetEnd(s.nodes, Top(s.stack), s.pos + 1), stack := rest, super := Top(rest)))
  }

  function CloseLinks(s: PState, kind: Kind): Step
    requires Inv(s)
  {
    if s.nodes == [] then Stop(INVAL)
    else
      InvParents(s);
      match Chase(s.nodes, |s.nodes| - 1, kind, s.super)
      case Lost => Stop(INVAL)
      case Settled => Go(s)
      case Found(k) =>
        Go(s.(nodes := SetEnd(s.nodes, k, s.pos + 1), stack := Without(s.stack, k), super := s.nodes[k].parent))
  }

  function IndexOf(stack: seq<nat>, k: nat): (j: nat)
    ensures j <= |stack| && (j < |stack| ==> stack[j] == k) && (j == |stack| ==> k !in stack)
  {
    if stack == [] then 0 else if stack[0] == k then 0 else 1 + IndexOf(stack[1..], k)
  }

  function Without(stack: seq<nat>, k: nat): seq<nat> {
    var j := IndexOf(stack, k);
    if j < |stack| then stack[..j] + stack[j + 1..] else stack
  }

  /** The token an opening bracket, a string or a primitive creates. */
  function NewToken(lx: Lexeme, pos: nat): Token
    requires IsToken(lx)
  {
    if lx.Open? then Token(lx.kind, pos, -1, 0) else Token(lx.kind, lx.start, lx.end, 0)
  }

  /** What one lexeme does, given room for `cap` tokens. */
  function Apply(m: Mode, s: PState, lx: Lexeme, cap: nat): Step
    requires Inv(s)
  {
    match lx
    case Bad(code) => Stop(code)
    case Blank => Go(s)
    case Colon => Go(s.(super := |s.nodes| - 1))
    case Comma =>
      if s.super == -1 || IsContainer(s.nodes[s.super].tok.kind) then Go(s)
      else if m == Links then Go(s.(super := s.nodes[s.super].parent))
      else if s.stack == [] then Go(s)
      else Go(s.(super := Top(s.stack)))
    case Open(kind) =>
      if |s.nodes| >= cap then Stop(NOMEM)
      else
        var t := Create(s, NewToken(lx, s.pos));
        Go(t.(stack := s.stack + [|s.nodes|], super := |s.nodes|))
    case Scalar(_, _, _) =>
      if |s.nodes| >= cap then Stop(NOMEM) else Go(Create(s, NewToken(lx, s.pos)))
    case Close(kind) =>
      if m == Links then CloseLinks(s, kind) else CloseScan(s, kind)
  }

  lemma BumpKeeps(nodes: seq<Node>, super: int)
    requires -1 <= super < |nodes|
    ensures forall i :: 0 <= i < |nodes| ==>
              && Bump(nodes, super)[i].parent == nodes[i].parent
              && Bump(nodes, super)[i].tok.kind == nodes[i].tok.kind
              && Bump(nodes, super)[i].tok.start == nodes[i].tok.start
              && Bump(nodes, super)[i].tok.end == nodes[i].tok.end
  {
  }

  lemma CreateInv(s: PState, tok: Token, open: bool)
    requires Inv(s) && 0 <= tok.start && (tok.end == -1 <==> open) && (open ==> IsContainer(tok.kind))
    ensures var t := Create(s, tok);
            Inv(if open then t.(stack := s.stack + [|s.nodes|], super := |s.nodes|) else t)
  {
    BumpKeeps(s.nodes, s.super);
    var t := Create(s, tok);
    var r := if open then t.(stack := s.stack + [|s.nodes|], super := |s.nodes|) else t;
    forall i | 0 <= i < |r.nodes| ensures NodeOk(r, i) {
      if i < |s.nodes| { assert NodeOk(s, i); }
    }
  }

  lemma CloseScanInv(s: PState, kind: Kind)
    requires Inv(s)
    ensures CloseScan(s, kind).Go? ==> Inv(CloseScan(s, kind).s)
  {
    var r := CloseScan(s, kind);
    if r.Go? {
      forall i | 0 <= i < |r.s.nodes| ensures NodeOk(r.s, i) { assert NodeOk(s, i); }
    }
  }

  lemma WithoutKeeps(stack: seq<nat>, k: nat)
    requires forall i, j :: 0 <= i < j < |stack| ==> stack[i] < stack[j]
    ensures forall x :: x in Without(stack, k) <==> x in stack && x != k
    ensures forall i, j :: 0 <= i < j < |Without(stack, k)| ==> Without(stack, k)[i] < Without(stack, k)[j]
  {
    var at := IndexOf(stack, k);
    var r := Without(stack, k);
    if at < |stack| {
      forall x | x in stack && x != k ensures x in r {
        var i :| 0 <= i < |stack| && stack[i] == x;
        assert x == r[if i < at then i else i - 1];
      }
    }
  }

  lemma WithoutLast(stack: seq<nat>, k: nat)
    requires forall i, j :: 0 <= i < j < |stack| ==> stack[i] < stack[j]
    requires stack != [] && stack[|stack| - 1] == k
    ensures Without(stack, k) == stack[..|stack| - 1]
  {
  }

  lemma CloseLinksInv(s: PState, kind: Kind)
    requires Inv(s)
    ensures CloseLinks(s, kind).Go? ==> Inv(CloseLinks(s, kind).s)
  {
    var r := CloseLinks(s, kind);
    if r.Go? && r.s != s {
      InvParents(s);
      var k := Chase(s.nodes, |s.nodes| - 1, kind, s.super).at;
      WithoutKeeps(s.stack, k);
      forall i | 0 <= i < |r.s.stack| ensures r.s.stack[i] < |s.nodes| && r.s.nodes[r.s.stack[i]].tok.end == -1 {
        assert r.s.stack[i] in s.stack && r.s.stack[i] != k;
      }
      forall i | 0 <= i < |r.s.nodes| ensures NodeOk(r.s, i) { assert NodeOk(s, i); }
    }
  }

  /** Every step keeps the invariant. */
  lemma ApplyInv(m: Mode, s: PState, lx: Lexeme, cap: nat)
    requires Inv(s) && (lx.Open? ==> IsContainer(lx.kind))
    ensures Apply(m, s, lx, cap).Go? ==> Inv(Apply(m, s, lx, cap).s)
  {
    match lx
    case Open(_) => CreateInv(s, NewToken(lx, s.pos), true);
    case Scalar(_, _, _) => CreateInv(s, NewToken(lx, s.pos), false);
    case Close(kind) => if m == Links { CloseLinksInv(s, kind); } else { CloseScanInv(s, kind); }
    case Comma =>
      if s.super != -1 { assert NodeOk(s, s.super); }
      OnlySuper(s, Apply(m, s, lx, cap).s);
    case Colon => OnlySuper(s, Apply(m, s, lx, cap).s);
    case _ =>
  }

  lemma OnlySuper(s: PState, t: PState)
    requires Inv(s) && t == s.(super := t.super, pos := t.pos) && -1 <= t.super < |s.nodes|
    ensures Inv(t)
  {
    forall i | 0 <= i < |t.nodes| ensures NodeOk(t, i) { assert NodeOk(s, i); }
  }

  /** One round of the main loop. */
  function Advance(m: Mode, js: string, s: PState, cap: nat): (r: Step)
    requires Inv(s) && !AtEnd(js, s.pos)
    ensures r.Go? ==> Inv(r.s) && s.pos < r.s.pos <= |js|
  {
    var (lx, next) := LexAt(js, s.pos);
    ApplyInv(m, s, lx, cap);
    match Apply(m, s, lx, cap)
    case Stop(code) => Stop(code)
    case Go(t) =>
      OnlySuper(t, t.(pos := next));
      Go(t.(pos := next))
  }

  /** What a round does to the tokens: a new one, or one bracket closed, or nothing. */
  lemma AdvanceEffect(m: Mode, js: string, s: PState, cap: nat) returns (k: nat)
    requires Inv(s) && !AtEnd(js, s.pos) && Advance(m, js, s, cap).Go?
    ensures var t := Advance(m, js, s, cap).s; var (lx, next) := LexAt(js, s.pos);
            && t.pos == next && !lx.Bad?
            && if IsToken(lx) then t.nodes == Create(s, NewToken(lx, s.pos)).nodes
               else t.nodes == s.nodes || (lx.Close? && k < |s.nodes| && t.nodes == SetEnd(s.nodes, k, s.pos + 1))
  {
    k := 0;
    var lx := LexAt(js, s.pos).0;
    if lx.Close? {
      if m == Scan {
        k := Top(s.stack);
      } else {
        InvParents(s);
        var ch := Chase(s.nodes, |s.nodes| - 1, lx.kind, s.super);
        if ch.Found? { k := ch.at; }
      }
    }
  }

  /** `jsmn_parse` with a token array: the state it leaves and the code it returns. */
  function Run(m: Mode, js: string, s: PState, cap: nat): (r: (PState, int))
    requires Inv(s)
    ensures Inv(r.0)
    decreases |js| - s.pos
  {
    if AtEnd(js, s.pos) then (s, if s.stack == [] then |s.nodes| else PART)
    else
      match Advance(m, js, s, cap)
      case Stop(code) => (s, code)
      case Go(t) => Run(m, js, t, cap)
  }

  /** `jsmn_parse` without a token array: brackets and capacity are not looked at. */
  function CountRun(js: string, pos: nat, count: int): (r: (nat, int))
    decreases |js| - pos
  {
    if AtEnd(js, pos) then (pos, count)
    else
      var (lx, next) := LexAt(js, pos);
      if lx.Bad? then (pos, lx.code) else CountRun(js, next, if IsToken(lx) then count + 1 else count)
  }
}
