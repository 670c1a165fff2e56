/**
 What jsmn promises on every text, well-formed JSON or not.
 */
module TokenFacts {
  import opened Lexer
  import opened Tokens

  // ---------- child counts ----------

  /** The number of tokens whose parent is `p`. */
  function Children(nodes: seq<Node>, p: int): nat {
    if nodes == [] then 0
    else Children(nodes[..|nodes| - 1], p) + (if nodes[|nodes| - 1].parent == p then 1 else 0)
  }

  function SumSizes(nodes: seq<Node>): int {
    if nodes == [] then 0 else SumSizes(nodes[..|nodes| - 1]) + nodes[|nodes| - 1].tok.size
  }

  /** Every token's size is the number of its children; so sizes and roots add up to all tokens. */
  ghost predicate Conserved(nodes: seq<Node>) {
    && (forall i :: 0 <= i < |nodes| ==> nodes[i].tok.size == Children(nodes, i))
    && SumSizes(nodes) + Children(nodes, -1) == |nodes|
  }

  lemma {:induction false} SameParents(a: seq<Node>, b: seq<Node>, p: int)
    requires |a| == |b| && forall i :: 0 <= i < |a| ==> a[i].parent == b[i].parent
    ensures Children(a, p) == Children(b, p)
    decreases |a|
  {
    if a != [] { SameParents(a[..|a| - 1], b[..|b| - 1], p); }
  }

  lemma {:induction false} SameSizes(a: seq<Node>, b: seq<Node>)
    requires |a| == |b| && forall i :: 0 <= i < |a| ==> a[i].tok.size == b[i].tok.size
    ensures SumSizes(a) == SumSizes(b)
    decreases |a|
  {
    if a != [] { SameSizes(a[..|a| - 1], b[..|b| - 1]); }
  }

  lemma {:induction false} BumpSum(nodes: seq<Node>, super: int)
    requires 0 <= super < |nodes|
    ensures SumSizes(Bump(nodes, super)) == SumSizes(nodes) + 1
    decreases |nodes|
  {
    var last := |nodes| - 1;
    var r := Bump(nodes, super);
    if super < last {
      BumpSum(nodes[..last], super);
      assert r[..last] == Bump(nodes[..last], super);
    } else {
      assert r[..last] == nodes[..last];
    }
  }

  lemma {:induction false} NoChildrenYet(nodes: seq<Node>, p: nat)
    requires |nodes| <= p && ParentsBelow(nodes)
    ensures Children(nodes, p) == 0
    decreases |nodes|
  {
    if nodes != [] { NoChildrenYet(nodes[..|nodes| - 1], p); }
  }

  lemma CreateConserves(s: PState, tok: Token)
    requires Inv(s) && Conserved(s.nodes) && tok.size == 0
    ensures Conserved(Create(s, tok).nodes)
  {
    var bumped := Bump(s.nodes, s.super);
    var r := Create(s, tok).nodes;
    assert r[..|r| - 1] == bumped;
    BumpKeeps(s.nodes, s.super);
    InvParents(s);
    forall i | 0 <= i < |r| ensures r[i].tok.size == Children(r, i) {
      SameParents(s.nodes, bumped, i);
      if i == |r| - 1 { NoChildrenYet(bumped, i); }
    }
    SameParents(s.nodes, bumped, -1);
    if s.super != -1 { BumpSum(s.nodes, s.super); }
  }

  /** Closing a bracket changes an end, never a size or a parent. */
  lemma SetEndConserves(nodes: seq<Node>, k: nat, end: nat)
    requires k < |nodes| && Conserved(nodes)
    ensures Conserved(SetEnd(nodes, k, end))
  {
    var r := SetEnd(nodes, k, end);
    forall i | 0 <= i < |r| ensures r[i].tok.size == Children(r, i) { SameParents(nodes, r, i); }
    SameParents(nodes, r, -1);
    SameSizes(nodes, r);
  }

  lemma AdvanceConserves(m: Mode, js: string, s: PState, cap: nat)
    requires Inv(s) && !AtEnd(js, s.pos) && Conserved(s.nodes)
    ensures Advance(m, js, s, cap).Go? ==> Conserved(Advance(m, js, s, cap).s.nodes)
  {
    hide Inv, Advance, LexAt, Conserved, Create, SetEnd, AtEnd;
    if Advance(m, js, s, cap).Go? {
      var k := AdvanceEffect(m, js, s, cap);
      var lx := LexAt(js, s.pos).0;
      if IsToken(lx) {
        CreateConserves(s, NewToken(lx, s.pos));
      } else if Advance(m, js, s, cap).s.nodes != s.nodes {
        SetEndConserves(s.nodes, k, s.pos + 1);
      }
    }
  }

  /** Child-count conservation, whatever the text and wherever the parser stops. */
  lemma {:induction false} ChildCounts(m: Mode, js: string, s: PState, cap: nat)
    requires Inv(s) && Conserved(s.nodes)
    ensures Conserved(Run(m, js, s, cap).0.nodes)
    decreases |js| - s.pos
  {
    if !AtEnd(js, s.pos) {
      AdvanceConserves(m, js, s, cap);
      var r := Advance(m, js, s, cap);
      if r.Go? { ChildCounts(m, js, r.s, cap); }
    }
  }

  // ---------- nesting ----------

  /** The characters around a token are the ones its kind calls for. */
  ghost predicate Delimited(js: string, t: Token) {
    && 0 <= t.start < |js| && t.end <= |js|
    && match t.kind
       case Object => js[t.start] == '{' && (t.end != -1 ==> t.start < t.end - 1 && js[t.end - 1] == '}')
       case Array => js[t.start] == '[' && (t.end != -1 ==> t.start < t.end - 1 && js[t.end - 1] == ']')
       case String => 0 < t.start <= t.end < |js| && js[t.start - 1] == '"' && js[t.end] == '"'
       case Primitive => t.start < t.end && (t.end < |js| ==> AtEnd(js, t.end) || IsDelimiter(js[t.end]))
       case Undefined => false
  }

  predicate IsClosed(n: Node) {
    n.tok.end != -1
  }

  /** Token `j`, created after `i`, lies wholly inside `i` or wholly behind it. */
  predicate InsideOrBehind(a: Token, b: Token) {
    a.end == -1 || a.end <= b.start || (b.end != -1 && b.end <= a.end)
  }

  ghost predicate Nested(js: string, s: PState) {
    && s.pos <= |js|
    && (forall i :: 0 <= i < |s.nodes| ==>
          Delimited(js, s.nodes[i].tok) && s.nodes[i].tok.start < s.pos && s.nodes[i].tok.end <= s.pos)
    && (forall i, j :: 0 <= i < j < |s.nodes| ==> s.nodes[i].tok.start < s.nodes[j].tok.start)
    && (forall i, j :: 0 <= i < j < |s.nodes| ==> InsideOrBehind(s.nodes[i].tok, s.nodes[j].tok))
  }

  lemma PrimitiveStops(js: string, i: nat)
    requires PrimitiveEnd(js, i) != -1
    ensures var e := PrimitiveEnd(js, i); AtEnd(js, e) || IsDelimiter(js[e])
    decreases |js| - i
  {
    if !(AtEnd(js, i) || IsDelimiter(js[i])) { PrimitiveStops(js, i + 1); }
  }

  lemma CreateNests(js: string, s: PState, tok: Token, next: nat)
    requires Inv(s) && Nested(js, s) && Delimited(js, tok)
    requires s.pos <= tok.start < next <= |js| && tok.end <= next
    ensures Nested(js, Create(s, tok).(pos := next))
  {
    BumpKeeps(s.nodes, s.super);
  }

  lemma CloseNests(js: string, s: PState, kind: Kind)
    requires Inv(s) && Nested(js, s) && s.pos < |js| && js[s.pos] == (if kind == Object then '}' else ']')
    requires IsContainer(kind) && CloseScan(s, kind).Go?
    ensures Nested(js, CloseScan(s, kind).s.(pos := s.pos + 1))
  {
    ClosedBehindTop(s);
  }

  lemma LexemeShape(js: string, pos: nat)
    requires !AtEnd(js, pos)
    ensures var (lx, next) := LexAt(js, pos);
            && (IsToken(lx) ==>
                  var t := NewToken(lx, pos);
                  next <= |js| && Delimited(js, t) && pos <= t.start < next && t.end <= next)
            && (lx.Close? ==>
                  && next == pos + 1 && IsContainer(lx.kind)
                  && js[pos] == if lx.kind == Object then '}' else ']')
            && (!lx.Bad? ==> pos < next <= |js|)
  {
    var (lx, next) := LexAt(js, pos);
    if lx.Scalar? && lx.kind == Primitive { PrimitiveStops(js, pos); }
  }

  lemma MovedNests(js: string, s: PState, t: PState)
    requires Nested(js, s) && t.nodes == s.nodes && s.pos <= t.pos <= |js|
    ensures Nested(js, t)
  {
  }

  lemma AdvanceNests(js: string, s: PState, cap: nat)
    requires Inv(s) && !AtEnd(js, s.pos) && Nested(js, s)
    ensures Advance(Scan, js, s, cap).Go? ==> Nested(js, Advance(Scan, js, s, cap).s)
  {
    hide Inv, LexAt, Nested, AtEnd, Delimited, CloseScan, Create;
    LexemeShape(js, s.pos);
    var (lx, next) := LexAt(js, s.pos);
    if Advance(Scan, js, s, cap).Go? {
      var t := Advance(Scan, js, s, cap).s;
      if IsToken(lx) {
        CreateNests(js, s, NewToken(lx, s.pos), next);
        MovedNests(js, Create(s, NewToken(lx, s.pos)).(pos := next), t);
      } else if lx.Close? {
        CloseNests(js, s, lx.kind);
      } else {
        MovedNests(js, s, t);
      }
    }
  }

  /** Bracket discipline and nesting at every step: starts increase with the index, each token is
      delimited as its kind demands, and any two spans are nested or disjoint. */
  lemma {:induction false} Nesting(js: string, s: PState, cap: nat)
    requires Inv(s) && Nested(js, s)
    ensures Nested(js, Run(Scan, js, s, cap).0)
    decreases |js| - s.pos
  {
    if !AtEnd(js, s.pos) {
      AdvanceNests(js, s, cap);
      var r := Advance(Scan, js, s, cap);
      if r.Go? { Nesting(js, r.s, cap); }
    }
  }

  lemma {:induction false} SuccessCode(m: Mode, js: string, s: PState, cap: nat)
    requires Inv(s) && Run(m, js, s, cap).1 >= 0
    ensures var (t, r) := Run(m, js, s, cap); r == |t.nodes| && t.stack == [] && AtEnd(js, t.pos)
    decreases |js| - s.pos
  {
    if !AtEnd(js, s.pos) {
      var r := Advance(m, js, s, cap);
      if r.Stop? { StopCode(m, js, s, cap); } else { SuccessCode(m, js, r.s, cap); }
    }
  }

  lemma StopCode(m: Mode, js: string, s: PState, cap: nat)
    requires Inv(s) && !AtEnd(js, s.pos)
    ensures Advance(m, js, s, cap).Stop? ==> Advance(m, js, s, cap).code < 0
  {
  }

  /** On success the tokens form a forest of properly delimited, nested spans, all closed, whose
      sizes count children; the code is the number of tokens. */
  lemma Success(js: string, cap: nat)
    requires Run(Scan, js, INIT, cap).1 >= 0
    ensures var (t, r) := Run(Scan, js, INIT, cap);
            && r == |t.nodes| == SumSizes(t.nodes) + Children(t.nodes, -1)
            && (forall i :: 0 <= i < r ==> IsClosed(t.nodes[i]) && Delimited(js, t.nodes[i].tok))
            && (forall i :: 0 <= i < r ==> -1 <= t.nodes[i].parent < i && t.nodes[i].tok.size == Children(t.nodes, i))
            && (forall i, j :: 0 <= i < j < r ==>
                  && t.nodes[i].tok.start < t.nodes[j].tok.start
                  && (t.nodes[i].tok.end <= t.nodes[j].tok.start || t.nodes[j].tok.end <= t.nodes[i].tok.end))
  {
    var t := Run(Scan, js, INIT, cap).0;
    ChildCounts(Scan, js, INIT, cap);
    Nesting(js, INIT, cap);
    SuccessCode(Scan, js, INIT, cap);
    InvParents(t);
    forall i | 0 <= i < |t.nodes| ensures IsClosed(t.nodes[i]) { assert NodeOk(t, i); }
    forall i, j | 0 <= i < j < |t.nodes|
      ensures t.nodes[i].tok.end <= t.nodes[j].tok.start || t.nodes[j].tok.end <= t.nodes[i].tok.end
    {
      assert InsideOrBehind(t.nodes[i].tok, t.nodes[j].tok);
    }
  }

  // ---------- capacity ----------

  /** The outcome of a text, judged on its lexemes and brackets alone: the code `jsmn_parse` returns
      when there is room, and the number of tokens it needs until then. */
  function Judge(js: string, pos: nat, open: seq<Kind>, count: nat): (r: (int, nat))
    ensures r.1 >= count
    decreases |js| - pos
  {
    if AtEnd(js, pos) then (if open == [] then count else PART, count)
    else
      var (lx, next) := LexAt(js, pos);
      match lx
      case Bad(code) => (code, count)
      case Open(kind) => Judge(js, next, open + [kind], count + 1)
      case Close(kind) =>
        if open == [] || open[|open| - 1] != kind then (INVAL, count)
        else Judge(js, next, open[..|open| - 1], count)
      case Scalar(_, _, _) => Judge(js, next, open, count + 1)
      case _ => Judge(js, next, open, count)
  }

  function OpenKinds(s: PState): (k: seq<Kind>)
    requires forall i :: 0 <= i < |s.stack| ==> s.stack[i] < |s.nodes|
    ensures |k| == |s.stack|
  {
    seq(|s.stack|, i requires 0 <= i < |s.stack| => s.nodes[s.stack[i]].tok.kind)
  }

  lemma AdvanceKinds(js: string, s: PState, cap: nat)
    requires Inv(s) && !AtEnd(js, s.pos) && Advance(Scan, js, s, cap).Go?
    ensures var t := Advance(Scan, js, s, cap).s; var lx := LexAt(js, s.pos).0;
            && |t.nodes| == |s.nodes| + (if IsToken(lx) then 1 else 0)
            && OpenKinds(t) == match lx
                               case Open(kind) => OpenKinds(s) + [kind]
                               case Close(_) => OpenKinds(s)[..|s.stack| - 1]
                               case _ => OpenKinds(s)
  {
    BumpKeeps(s.nodes, s.super);
  }

  /** When a step stops, the judgement stops there too. */
  lemma StopIsJudged(js: string, s: PState, cap: nat)
    requires Inv(s) && !AtEnd(js, s.pos) && |s.nodes| <= cap && Advance(Scan, js, s, cap).Stop?
    ensures var (code, needed) := Judge(js, s.pos, OpenKinds(s), |s.nodes|);
            Advance(Scan, js, s, cap).code == if needed > cap then NOMEM else code
  {
    var (lx, next) := LexAt(js, s.pos);
    if lx.Close? && s.stack != [] {
      assert OpenKinds(s)[|s.stack| - 1] == s.nodes[Top(s.stack)].tok.kind;
    }
  }

  /** When it goes on, so does the judgement. */
  lemma StepIsJudged(js: string, s: PState, cap: nat)
    requires Inv(s) && !AtEnd(js, s.pos) && Advance(Scan, js, s, cap).Go?
    ensures var t := Advance(Scan, js, s, cap).s;
            Judge(js, s.pos, OpenKinds(s), |s.nodes|) == Judge(js, t.pos, OpenKinds(t), |t.nodes|)
  {
    AdvanceKinds(js, s, cap);
    CloserMatches(js, s, cap);
    hide Inv, LexAt, Advance, OpenKinds, AtEnd;
    var (lx, next) := LexAt(js, s.pos);
    match lx
    case _ =>
  }

  lemma CloserMatches(js: string, s: PState, cap: nat)
    requires Inv(s) && !AtEnd(js, s.pos) && Advance(Scan, js, s, cap).Go?
    ensures var (lx, next) := LexAt(js, s.pos);
            && !lx.Bad? && next == Advance(Scan, js, s, cap).s.pos
            && (lx.Close? ==> OpenKinds(s) != [] && OpenKinds(s)[|s.stack| - 1] == lx.kind)
  {
  }

  /** Acceptance: the code is the verdict on the brackets and lexemes of the text, NOMEM replacing
      it exactly when the tokens needed up to that point exceed the capacity. */
  lemma {:induction false} CodeIsJudged(js: string, s: PState, cap: nat)
    requires Inv(s) && |s.nodes| <= cap
    ensures var (code, needed) := Judge(js, s.pos, OpenKinds(s), |s.nodes|);
            Run(Scan, js, s, cap).1 == if needed > cap then NOMEM else code
    decreases |js| - s.pos
  {
    if !AtEnd(js, s.pos) {
      var r := Advance(Scan, js, s, cap);
      if r.Go? {
        StepIsJudged(js, s, cap);
        FitsIn(js, s, cap);
        CodeIsJudged(js, r.s, cap);
      } else {
        StopIsJudged(js, s, cap);
      }
    }
  }

  lemma FitsIn(js: string, s: PState, cap: nat)
    requires Inv(s) && !AtEnd(js, s.pos) && |s.nodes| <= cap && Advance(Scan, js, s, cap).Go?
    ensures |Advance(Scan, js, s, cap).s.nodes| <= cap
  {
  }

  lemma {:induction false} CountIsJudged(js: string, pos: nat, open: seq<Kind>, count: nat)
    ensures Judge(js, pos, open, count).0 >= 0 ==>
              Judge(js, pos, open, count) == (CountRun(js, pos, count).1, CountRun(js, pos, count).1)
    ensures CountRun(js, pos, count).1 >= 0 ==> Judge(js, pos, open, count).1 <= CountRun(js, pos, count).1
    ensures CountRun(js, pos, count).1 >= count || CountRun(js, pos, count).1 < 0
    ensures CountRun(js, pos, count).1 < 0 ==> Judge(js, pos, open, count).0 in {CountRun(js, pos, count).1, INVAL}
    decreases |js| - pos
  {
    if !AtEnd(js, pos) {
      var (lx, next) := LexAt(js, pos);
      match lx
      case Bad(code) =>
      case Open(kind) => CountIsJudged(js, next, open + [kind], count + 1);
      case Close(kind) => CountIsJudged(js, next, if open == [] then [] else open[..|open| - 1], count);
      case Scalar(_, _, _) => CountIsJudged(js, next, open, count + 1);
      case _ => CountIsJudged(js, next, open, count);
    }
  }

  /** Counting mode agrees with filling mode, and its count is always room enough; where it fails, filling
      with room fails with the same code, unless a bracket that does not match, which counting mode does
      not look at, came first. */
  lemma CountingAgrees(js: string, cap: nat)
    ensures Run(Scan, js, INIT, cap).1 >= 0 ==> CountRun(js, 0, 0).1 == Run(Scan, js, INIT, cap).1
    ensures 0 <= CountRun(js, 0, 0).1 <= cap ==> Run(Scan, js, INIT, cap).1 != NOMEM
    ensures CountRun(js, 0, 0).1 < 0 && Run(Scan, js, INIT, cap).1 != NOMEM ==>
              Run(Scan, js, INIT, cap).1 in {CountRun(js, 0, 0).1, INVAL}
  {
    assert OpenKinds(INIT) == [];
    CodeIsJudged(js, INIT, cap);
    CountIsJudged(js, 0, [], 0);
    JudgeNeverNomem(js, 0, [], 0);
  }

  lemma JudgeNeverNomem(js: string, pos: nat, open: seq<Kind>, count: nat)
    ensures Judge(js, pos, open, count).0 != NOMEM
    decreases |js| - pos
  {
  }

  // ---------- restart ----------

  /** A step with less room, when it succeeds, is the step with more room. */
  lemma AdvanceMonotone(m: Mode, js: string, s: PState, small: nat, large: nat)
    requires Inv(s) && !AtEnd(js, s.pos) && small <= large
    ensures Advance(m, js, s, small) == Advance(m, js, s, large) || Advance(m, js, s, small) == Stop(NOMEM)
  {
  }

  /** Restart after NOMEM: parsing on from where a smaller array gave out is parsing with the larger
      one from the start. */
  lemma {:induction false} Restart(m: Mode, js: string, s: PState, small: nat, large: nat)
    requires Inv(s) && small <= large
    ensures var (t, r) := Run(m, js, s, small);
            Run(m, js, s, large) == if r == NOMEM then Run(m, js, t, large) else (t, r)
    decreases |js| - s.pos
  {
    if !AtEnd(js, s.pos) {
      AdvanceMonotone(m, js, s, small, large);
      var r := Advance(m, js, s, small);
      if r.Go? { Restart(m, js, r.s, small, large); }
    }
  }

  /** A call after any stop, with the same array, changes nothing and returns the same code: what was left
      behind is the state before the lexeme that failed. */
  lemma {:induction false} SameAgain(m: Mode, js: string, s: PState, cap: nat)
    requires Inv(s)
    ensures Run(m, js, Run(m, js, s, cap).0, cap) == Run(m, js, s, cap)
    decreases |js| - s.pos
  {
    hide Inv, Advance;
    if !AtEnd(js, s.pos) {
      var r := Advance(m, js, s, cap);
      if r.Go? { SameAgain(m, js, r.s, cap); }
    }
  }

  /** Parse with the first capacity, and after each NOMEM go on with the next one. */
  function RunAll(m: Mode, js: string, s: PState, caps: seq<nat>): (PState, int)
    requires Inv(s) && caps != []
    decreases |caps|
  {
    var (t, r) := Run(m, js, s, caps[0]);
    if r == NOMEM && |caps| > 1 then RunAll(m, js, t, caps[1..]) else (t, r)
  }

  /** For every growing sequence of capacities the final outcome, tokens included, is that of one
      call with the last capacity. */
  lemma {:induction false} RestartAll(m: Mode, js: string, s: PState, caps: seq<nat>)
    requires Inv(s) && caps != [] && forall i, j :: 0 <= i < j < |caps| ==> caps[i] <= caps[j]
    ensures RunAll(m, js, s, caps) == Run(m, js, s, caps[|caps| - 1])
    decreases |caps|
  {
    hide Run, Inv;
    if |caps| > 1 {
      Restart(m, js, s, caps[0], caps[|caps| - 1]);
      var (t, r) := Run(m, js, s, caps[0]);
      if r == NOMEM { RestartAll(m, js, t, caps[1..]); }
    }
  }
}
