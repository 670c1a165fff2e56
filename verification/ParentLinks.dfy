/**
 The two forms of jsmn side by side: closers and commas that scan backwards, and those that follow
 parents. On any text they stay together up to exactly the lexemes described here.
 */
module ParentLinks {
  import opened Lexer
  import opened Tokens
  import opened TokenFacts
  import opened Json
  import opened RoundTrip

  /** Everything created after an open bracket descends from it, and what comes next will. */
  ghost predicate Chained(s: PState) {
    && (forall b, i :: b in s.stack && b < i < |s.nodes| ==> b <= s.nodes[i].parent)
    && (forall b :: b in s.stack ==> b <= s.super)
  }

  /** Up the parents from token `i`, the token without one. */
  function Root(nodes: seq<Node>, i: nat): (r: nat)
    requires i < |nodes| && ParentsBelow(nodes)
    ensures r <= i && nodes[r].parent == -1
    decreases i
  {
    if nodes[i].parent < 0 then i else Root(nodes, nodes[i].parent)
  }

  lemma {:induction false} ChaseTop(nodes: seq<Node>, i: nat, k: nat, kind: Kind, super: int)
    requires k <= i < |nodes| && ParentsBelow(nodes) && nodes[k].tok.end == -1
    requires forall j :: k < j < |nodes| ==> nodes[j].tok.end != -1 && k <= nodes[j].parent
    ensures Chase(nodes, i, kind, super) == if nodes[k].tok.kind == kind then Found(k) else Lost
    decreases i
  {
    if i > k { ChaseTop(nodes, nodes[i].parent, k, kind, super); }
  }

  lemma {:induction false} ChaseRoot(nodes: seq<Node>, i: nat, kind: Kind, super: int)
    requires i < |nodes| && ParentsBelow(nodes) && forall j :: 0 <= j < |nodes| ==> nodes[j].tok.end != -1
    ensures Chase(nodes, i, kind, super) ==
              if nodes[Root(nodes, i)].tok.kind == kind && super != -1 then Settled else Lost
    decreases i
  {
    if nodes[i].parent >= 0 { ChaseRoot(nodes, nodes[i].parent, kind, super); }
  }

  /** With a bracket open, following parents is popping too; with none, a closer settles on a closed
      root of its kind as long as there is a super token. */
  lemma LinksClose(s: PState, kind: Kind)
    requires Inv(s) && Chained(s)
    ensures ParentsBelow(s.nodes)
    ensures CloseLinks(s, kind) ==
              if s.stack != [] then
                var k := Top(s.stack);
                if s.nodes[k].tok.kind != kind then Stop(INVAL)
                else Go(s.(nodes := SetEnd(s.nodes, k, s.pos + 1), stack := s.stack[..|s.stack| - 1],
                           super := s.nodes[k].parent))
              else if s.nodes != [] && s.super != -1 && s.nodes[Root(s.nodes, |s.nodes| - 1)].tok.kind == kind
              then Go(s) else Stop(INVAL)
  {
    InvParents(s);
    ClosedBehindTop(s);
    var last := |s.nodes| - 1;
    if s.stack != [] {
      assert Top(s.stack) in s.stack;
      ChaseTop(s.nodes, last, Top(s.stack), kind, s.super);
      WithoutLast(s.stack, Top(s.stack));
    } else if s.nodes != [] {
      ChaseRoot(s.nodes, last, kind, s.super);
    }
  }

  lemma OpenAreContainers(s: PState, b: nat)
    requires Inv(s) && b in s.stack
    ensures b < |s.nodes| && IsContainer(s.nodes[b].tok.kind) && b <= Top(s.stack)
  {
    var j :| 0 <= j < |s.stack| && s.stack[j] == b;
    assert NodeOk(s, b);
  }

  lemma CreateChains(s: PState, tok: Token)
    requires Inv(s) && Chained(s)
    ensures Chained(Create(s, tok))
  {
    BumpKeeps(s.nodes, s.super);
  }

  lemma PopChains(s: PState, end: nat, super: int)
    requires Inv(s) && Chained(s) && s.stack != []
    requires super == Top(s.stack[..|s.stack| - 1]) || super == s.nodes[Top(s.stack)].parent
    ensures Chained(s.(nodes := SetEnd(s.nodes, Top(s.stack), end), stack := s.stack[..|s.stack| - 1], super := super))
  {
    var k, rest := Top(s.stack), s.stack[..|s.stack| - 1];
    forall b | b in rest ensures b in s.stack && b < k && b <= Top(rest) {
      var j :| 0 <= j < |rest| && rest[j] == b;
    }
    assert k in s.stack;
  }

  lemma CloseChains(m: Mode, s: PState, kind: Kind)
    requires Inv(s) && Chained(s)
    ensures var r := if m == Links then CloseLinks(s, kind) else CloseScan(s, kind); r.Go? ==> Chained(r.s)
  {
    hide Inv, Chained, CloseLinks, SetEnd;
    LinksClose(s, kind);
    if s.stack != [] {
      InStack(s);
      PopChains(s, s.pos + 1, Top(s.stack[..|s.stack| - 1]));
      PopChains(s, s.pos + 1, s.nodes[Top(s.stack)].parent);
    }
  }

  lemma InStack(s: PState)
    requires Inv(s) && s.stack != []
    ensures 0 <= Top(s.stack) < |s.nodes|
  {
  }

  /** Every step of either form keeps the chains, on any text. */
  lemma ApplyChains(m: Mode, s: PState, lx: Lexeme, cap: nat)
    requires Inv(s) && Chained(s)
    ensures Apply(m, s, lx, cap).Go? ==> Chained(Apply(m, s, lx, cap).s)
  {
    match lx
    case Open(_) => CreateChains(s, NewToken(lx, s.pos));
    case Scalar(_, _, _) => CreateChains(s, NewToken(lx, s.pos));
    case Close(kind) => CloseChains(m, s, kind);
    case Comma =>
      forall b | b in s.stack ensures b < |s.nodes| && IsContainer(s.nodes[b].tok.kind) && b <= Top(s.stack) {
        OpenAreContainers(s, b);
      }
    case _ =>
  }

  /** The same cursor, tokens, parents and open brackets; the super tokens may differ. */
  predicate Alike(s: PState, u: PState) {
    s.pos == u.pos && s.nodes == u.nodes && s.stack == u.stack
  }

  /** The lexemes that part the two forms: a token for which there is room, while the super tokens
      differ; and a closer with no bracket open that following parents lets pass. */
  predicate Parts(s: PState, u: PState, lx: Lexeme, cap: nat)
    requires ParentsBelow(s.nodes)
  {
    || (IsToken(lx) && |s.nodes| < cap && s.super != u.super)
    || (lx.Close? && s.stack == [] && s.nodes != [] && u.super != -1
        && s.nodes[Root(s.nodes, |s.nodes| - 1)].tok.kind == lx.kind)
  }

  /** Equal in everything the caller can see: stopped with the same code, or gone on with the same
      cursor and token array. */
  ghost predicate SameTokens(a: Step, b: Step) {
    if a.Stop? then b == a else b.Go? && a.s.pos == b.s.pos && Erase(a.s.nodes) == Erase(b.s.nodes)
  }

  ghost predicate SameStep(a: Step, b: Step) {
    if a.Stop? then b == a else b.Go? && Alike(a.s, b.s)
  }

  /** A token under different super tokens counts as a child of different tokens. */
  lemma CreateDiffers(s: PState, u: PState, tok: Token)
    requires Inv(s) && Inv(u) && s.nodes == u.nodes && s.super != u.super
    ensures Erase(Create(s, tok).nodes) != Erase(Create(u, tok).nodes)
  {
    var i := if s.super != -1 then s.super else u.super;
    var a, b := Create(s, tok).nodes, Create(u, tok).nodes;
    assert a[i].tok.size != b[i].tok.size;
    assert Erase(a)[i] == a[i].tok && Erase(b)[i] == b[i].tok;
  }

  /** One lexeme keeps the two forms together if and only if it is none of those. */
  lemma StepIff(s: PState, u: PState, lx: Lexeme, cap: nat)
    requires Inv(s) && Inv(u) && Chained(s) && Chained(u) && Alike(s, u)
    ensures ParentsBelow(s.nodes)
    ensures var a, b := Apply(Scan, s, lx, cap), Apply(Links, u, lx, cap);
            && (SameTokens(a, b) <==> !Parts(s, u, lx, cap))
            && (SameStep(a, b) <==> !Parts(s, u, lx, cap))
  {
    hide Inv, Chained, CloseScan, CloseLinks, Parts, SetEnd, Erase, Bump;
    InvParents(s);
    PartsCases(s, u, lx, cap);
    if lx.Close? {
      CloseIff(s, u, lx.kind);
    } else if IsToken(lx) {
      if s.super != u.super { CreateDiffers(s, u, NewToken(lx, s.pos)); }
    }
  }

  lemma PartsCases(s: PState, u: PState, lx: Lexeme, cap: nat)
    requires ParentsBelow(s.nodes)
    ensures IsToken(lx) ==> (Parts(s, u, lx, cap) <==> |s.nodes| < cap && s.super != u.super)
    ensures !IsToken(lx) && !lx.Close? ==> !Parts(s, u, lx, cap)
  {
  }

  lemma CloseIff(s: PState, u: PState, kind: Kind)
    requires Inv(s) && Inv(u) && Chained(u) && Alike(s, u) && ParentsBelow(s.nodes)
    ensures var a, b := CloseScan(s, kind), CloseLinks(u, kind);
            && (SameTokens(a, b) <==> !Parts(s, u, Close(kind), 0))
            && (SameStep(a, b) <==> !Parts(s, u, Close(kind), 0))
            && forall cap :: Parts(s, u, Close(kind), cap) == Parts(s, u, Close(kind), 0)
  {
    hide Chained;
    LinksClose(u, kind);
  }

  /** No lexeme of the text, from here on, parts them. */
  predicate Together(js: string, s: PState, u: PState, cap: nat)
    requires Inv(s) && Inv(u)
    decreases |js| - s.pos
  {
    if AtEnd(js, s.pos) || AtEnd(js, u.pos) then true
    else
      InvParents(s);
      var a, b := Advance(Scan, js, s, cap), Advance(Links, js, u, cap);
      !Parts(s, u, LexAt(js, s.pos).0, cap) && (a.Go? && b.Go? ==> Together(js, a.s, b.s, cap))
  }

  lemma AdvanceTogether(js: string, s: PState, u: PState, cap: nat)
    requires Inv(s) && Inv(u) && Chained(s) && Chained(u) && Alike(s, u) && !AtEnd(js, s.pos)
    ensures ParentsBelow(s.nodes)
    ensures var a, b := Advance(Scan, js, s, cap), Advance(Links, js, u, cap);
            && (SameStep(a, b) <==> !Parts(s, u, LexAt(js, s.pos).0, cap))
            && (a.Go? ==> Chained(a.s)) && (b.Go? ==> Chained(b.s))
  {
    hide Inv, Chained, LexAt, Apply, Parts;
    var lx := LexAt(js, s.pos).0;
    StepIff(s, u, lx, cap);
    ApplyChains(Scan, s, lx, cap);
    ApplyChains(Links, u, lx, cap);
    MovedChains(js, Scan, s, cap);
    MovedChains(js, Links, u, cap);
    ApplyStays(Scan, s, lx, cap);
    ApplyStays(Links, u, lx, cap);
  }

  lemma ApplyStays(m: Mode, s: PState, lx: Lexeme, cap: nat)
    requires Inv(s)
    ensures Apply(m, s, lx, cap).Go? ==> Apply(m, s, lx, cap).s.pos == s.pos
  {
    hide Inv;
  }

  lemma MovedChains(js: string, m: Mode, s: PState, cap: nat)
    requires Inv(s) && !AtEnd(js, s.pos)
    ensures var lx := LexAt(js, s.pos).0; var r := Apply(m, s, lx, cap);
            r.Go? && Chained(r.s) ==> Advance(m, js, s, cap).Go? && Chained(Advance(m, js, s, cap).s)
  {
    hide Apply, LexAt;
  }

  /** When a closer parts them, the parent-link form goes on. */
  lemma LinksGoesOn(js: string, s: PState, u: PState, cap: nat)
    requires Inv(s) && Inv(u) && Chained(u) && Alike(s, u) && !AtEnd(js, s.pos) && LexAt(js, s.pos).0.Close?
    requires ParentsBelow(s.nodes) && Parts(s, u, LexAt(js, s.pos).0, cap)
    ensures Advance(Links, js, u, cap).Go?
  {
    hide LexAt, Chained, AtEnd;
    LinksClose(u, LexAt(js, s.pos).0.kind);
  }

  /** Parents once given stay, and the cursor only moves on. */
  lemma {:induction false} RunKeeps(m: Mode, js: string, s: PState, cap: nat)
    requires Inv(s)
    ensures var t := Run(m, js, s, cap).0;
            && |t.nodes| >= |s.nodes| && (forall i :: 0 <= i < |s.nodes| ==> t.nodes[i].parent == s.nodes[i].parent)
            && t.pos >= s.pos && (s.pos <= |js| ==> t.pos <= |js|)
    decreases |js| - s.pos
  {
    if !AtEnd(js, s.pos) {
      var r := Advance(m, js, s, cap);
      if r.Go? {
        AdvanceKeeps(m, js, s, cap);
        RunKeeps(m, js, r.s, cap);
      }
    }
  }

  lemma AdvanceKeeps(m: Mode, js: string, s: PState, cap: nat)
    requires Inv(s) && !AtEnd(js, s.pos) && Advance(m, js, s, cap).Go?
    ensures var t := Advance(m, js, s, cap).s;
            && |t.nodes| >= |s.nodes| && (forall i :: 0 <= i < |s.nodes| ==> t.nodes[i].parent == s.nodes[i].parent)
            && s.pos < t.pos <= |js|
  {
    hide Inv, Apply, Advance, AtEnd, LexAt;
    var k := AdvanceEffect(m, js, s, cap);
    BumpRange(s);
    BumpKeeps(s.nodes, s.super);
    LexemeShape(js, s.pos);
  }

  lemma BumpRange(s: PState)
    requires Inv(s)
    ensures -1 <= s.super < |s.nodes|
  {
  }

  /** The outcome of a whole parse, seen with parents. */
  ghost predicate SameOutcome(a: (PState, int), b: (PState, int)) {
    a.1 == b.1 && Alike(a.0, b.0)
  }

  /** The outcome as a caller sees it: the code, the cursor and the token array. */
  ghost predicate SameVisible(a: (PState, int), b: (PState, int)) {
    a.1 == b.1 && a.0.pos == b.0.pos && Erase(a.0.nodes) == Erase(b.0.nodes)
  }

  /** How the super tokens can differ while everything else is equal: scanning has gone back to the
      innermost open bracket and following parents has not got so far; or, at the top level, following
      parents has gone back and scanning has not. */
  predicate Related(s: PState, u: PState) {
    || s.super == u.super
    || (s.super == Top(s.stack) && s.super < u.super)
    || (s.stack == [] && u.super < s.super)
  }

  lemma RelatedStep(s: PState, u: PState, lx: Lexeme, cap: nat)
    requires Inv(s) && Inv(u) && Chained(s) && Chained(u) && Alike(s, u) && Related(s, u)
    requires ParentsBelow(s.nodes) && !Parts(s, u, lx, cap)
    ensures var a, b := Apply(Scan, s, lx, cap), Apply(Links, u, lx, cap); a.Go? && b.Go? ==> Related(a.s, b.s)
  {
    match lx
    case Close(kind) => RelatedClose(s, u, kind);
    case Comma => RelatedComma(s, u);
    case _ =>
  }

  lemma RelatedClose(s: PState, u: PState, kind: Kind)
    requires Inv(s) && Inv(u) && Chained(u) && Alike(s, u)
    ensures var a, b := CloseScan(s, kind), CloseLinks(u, kind); a.Go? && b.Go? ==> Related(a.s, b.s)
  {
    LinksClose(u, kind);
    if s.stack != [] {
      InStack(s);
      BelowTop(s);
    }
  }

  /** The bracket around the innermost open one is among its ancestors. */
  lemma BelowTop(s: PState)
    requires Inv(s) && s.stack != []
    ensures var k, rest := Top(s.stack), s.stack[..|s.stack| - 1];
            0 <= k < |s.nodes| && s.nodes[k].parent >= -1 && (rest != [] ==> Top(rest) in s.stack && Top(rest) < k)
  {
    InvParents(s);
    if |s.stack| > 1 { assert s.stack[|s.stack| - 2] in s.stack; }
  }

  lemma RelatedComma(s: PState, u: PState)
    requires Inv(s) && Inv(u) && Chained(s) && Chained(u) && Alike(s, u) && Related(s, u)
    ensures Related(Apply(Scan, s, Comma, 0).s, Apply(Links, u, Comma, 0).s)
  {
    InvParents(u);
    if s.stack != [] {
      assert Top(s.stack) in s.stack;
      OpenAreContainers(s, Top(s.stack));
    }
  }

  // ---------- tokens that will have no more children ----------

  /** Scanning never comes back to `x`. */
  predicate ScanDone(s: PState, x: nat) {
    x < |s.nodes| - 1 && x != s.super && x !in s.stack
  }

  /** `x` is `i` or above it. */
  predicate On(nodes: seq<Node>, x: nat, i: int)
    requires i < |nodes| && ParentsBelow(nodes)
    decreases i
  {
    i >= 0 && (i == x || On(nodes, x, nodes[i].parent))
  }

  /** Nor does following parents: `x` is above nothing it can start from. */
  ghost predicate LinksDone(s: PState, x: nat)
    requires Inv(s) && ParentsBelow(s.nodes)
  {
    && x < |s.nodes| && !On(s.nodes, x, s.super) && !On(s.nodes, x, |s.nodes| - 1)
    && forall e :: e in s.stack && e < |s.nodes| ==> !On(s.nodes, x, e)
  }

  lemma SizeKept(nodes: seq<Node>, super: int, x: nat)
    requires -1 <= super < |nodes| && x < |nodes|
    ensures Bump(nodes, super)[x].tok.size == nodes[x].tok.size + (if x == super then 1 else 0)
  {
  }

  lemma ScanStays(s: PState, lx: Lexeme, cap: nat, x: nat)
    requires Inv(s) && ScanDone(s, x) && Apply(Scan, s, lx, cap).Go?
    ensures var t := Apply(Scan, s, lx, cap).s;
            |t.nodes| >= |s.nodes| && ScanDone(t, x) && t.nodes[x].tok.size == s.nodes[x].tok.size
  {
    SizeKept(s.nodes, s.super, x);
    if s.stack != [] { BelowTop(s); }
  }

  lemma {:induction false} OnSame(a: seq<Node>, b: seq<Node>, x: nat, i: int)
    requires ParentsBelow(a) && ParentsBelow(b) && |a| <= |b| && i < |a|
    requires forall j :: 0 <= j < |a| ==> b[j].parent == a[j].parent
    ensures On(b, x, i) == On(a, x, i)
    decreases i
  {
    if i >= 0 { OnSame(a, b, x, a[i].parent); }
  }

  lemma {:induction false} NotOnBelow(nodes: seq<Node>, x: nat, i: int)
    requires ParentsBelow(nodes) && i < x && i < |nodes|
    ensures !On(nodes, x, i)
    decreases i
  {
    if i >= 0 { NotOnBelow(nodes, x, nodes[i].parent); }
  }

  lemma NoChild(nodes: seq<Node>, x: nat, tok: Token, super: int)
    requires ParentsBelow(nodes) && -1 <= super < |nodes| && x < |nodes| && !On(nodes, x, super)
    ensures var r := Bump(nodes, super) + [Node(tok, super)];
            ParentsBelow(r) && !On(r, x, |r| - 1) && !On(r, x, super) && r[x].tok.size == nodes[x].tok.size
  {
    var r := Bump(nodes, super) + [Node(tok, super)];
    BumpKeeps(nodes, super);
    OnSame(nodes, r, x, super);
    SizeKept(nodes, super, x);
  }

  lemma LinksCreate(s: PState, x: nat, tok: Token)
    requires Inv(s) && ParentsBelow(s.nodes) && LinksDone(s, x)
    ensures var t := Create(s, tok);
            && ParentsBelow(t.nodes) && x < |t.nodes| && t.nodes[x].tok.size == s.nodes[x].tok.size
            && !On(t.nodes, x, t.super) && !On(t.nodes, x, |t.nodes| - 1)
            && forall e :: e in s.stack && e < |t.nodes| ==> !On(t.nodes, x, e)
  {
    NoChild(s.nodes, x, tok, s.super);
    BumpKeeps(s.nodes, s.super);
    forall e | e in s.stack ensures e < |s.nodes| && !On(Create(s, tok).nodes, x, e) {
      OpenAreContainers(s, e);
      OnSame(s.nodes, Create(s, tok).nodes, x, e);
    }
  }

  lemma LinksCloseDone(s: PState, x: nat, kind: Kind)
    requires Inv(s) && Chained(s) && ParentsBelow(s.nodes) && LinksDone(s, x) && CloseLinks(s, kind).Go?
    ensures var t := CloseLinks(s, kind).s;
            && Inv(t) && ParentsBelow(t.nodes) && LinksDone(t, x) && |t.nodes| == |s.nodes|
            && t.nodes[x].tok.size == s.nodes[x].tok.size
  {
    CloseLinksInv(s, kind);
    LinksClose(s, kind);
    var t := CloseLinks(s, kind).s;
    InvParents(t);
    if s.stack != [] {
      BelowTop(s);
      var k := Top(s.stack);
      assert k in s.stack && !On(s.nodes, x, k);
      assert !On(s.nodes, x, s.nodes[k].parent);
      OnSame(s.nodes, t.nodes, x, s.nodes[k].parent);
      OnSame(s.nodes, t.nodes, x, |s.nodes| - 1);
      forall e | e in t.stack && e < |t.nodes| ensures !On(t.nodes, x, e) {
        assert e in s.stack;
        OnSame(s.nodes, t.nodes, x, e);
      }
    }
  }

  lemma LinksStays(s: PState, lx: Lexeme, cap: nat, x: nat)
    requires Inv(s) && Chained(s) && ParentsBelow(s.nodes) && LinksDone(s, x)
    requires (lx.Open? ==> IsContainer(lx.kind)) && Apply(Links, s, lx, cap).Go?
    ensures var t := Apply(Links, s, lx, cap).s;
            && Inv(t) && ParentsBelow(t.nodes) && LinksDone(t, x)
            && |t.nodes| >= |s.nodes| && t.nodes[x].tok.size == s.nodes[x].tok.size
  {
    ApplyInv(Links, s, lx, cap);
    InvParents(Apply(Links, s, lx, cap).s);
    match lx
    case Open(_) => LinksCreate(s, x, NewToken(lx, s.pos));
    case Scalar(_, _, _) => LinksCreate(s, x, NewToken(lx, s.pos));
    case Close(kind) => LinksCloseDone(s, x, kind);
    case _ =>
  }

  /** Child counts never shrink. */
  lemma SizesGrow(m: Mode, s: PState, lx: Lexeme, cap: nat, x: nat)
    requires Inv(s) && x < |s.nodes| && Apply(m, s, lx, cap).Go?
    ensures var t := Apply(m, s, lx, cap).s; |t.nodes| >= |s.nodes| && t.nodes[x].tok.size >= s.nodes[x].tok.size
  {
    SizeKept(s.nodes, s.super, x);
    if lx.Close? && m == Links { InvParents(s); }
  }

  lemma {:induction false} ScanFrozen(js: string, s: PState, cap: nat, x: nat)
    requires Inv(s) && ScanDone(s, x)
    ensures var t := Run(Scan, js, s, cap).0; |t.nodes| >= |s.nodes| && t.nodes[x].tok.size == s.nodes[x].tok.size
    decreases |js| - s.pos
  {
    hide Inv, Apply, LexAt;
    if !AtEnd(js, s.pos) {
      var r := Advance(Scan, js, s, cap);
      if r.Go? {
        ScanStays(s, LexAt(js, s.pos).0, cap, x);
        ScanFrozen(js, r.s, cap, x);
      }
    }
  }

  lemma {:induction false} LinksFrozen(js: string, s: PState, cap: nat, x: nat)
    requires Inv(s) && Chained(s) && ParentsBelow(s.nodes) && LinksDone(s, x)
    ensures var t := Run(Links, js, s, cap).0; |t.nodes| >= |s.nodes| && t.nodes[x].tok.size == s.nodes[x].tok.size
    decreases |js| - s.pos
  {
    hide Inv, Apply, LexAt, Chained, On;
    if !AtEnd(js, s.pos) {
      var lx := LexAt(js, s.pos).0;
      var r := Advance(Links, js, s, cap);
      if r.Go? {
        LexemeKinds(js, s.pos);
        LinksStays(s, lx, cap, x);
        ApplyChains(Links, s, lx, cap);
        MovedChains(js, Links, s, cap);
        LinksFrozen(js, r.s, cap, x);
      }
    }
  }

  lemma LexemeKinds(js: string, pos: nat)
    requires !AtEnd(js, pos)
    ensures LexAt(js, pos).0.Open? ==> IsContainer(LexAt(js, pos).0.kind)
  {
  }

  lemma {:induction false} RunGrows(m: Mode, js: string, s: PState, cap: nat, x: nat)
    requires Inv(s) && x < |s.nodes|
    ensures var t := Run(m, js, s, cap).0; |t.nodes| >= |s.nodes| && t.nodes[x].tok.size >= s.nodes[x].tok.size
    decreases |js| - s.pos
  {
    hide Inv, Apply, LexAt;
    if !AtEnd(js, s.pos) {
      var r := Advance(m, js, s, cap);
      if r.Go? {
        SizesGrow(m, s, LexAt(js, s.pos).0, cap, x);
        RunGrows(m, js, r.s, cap, x);
      }
    }
  }

  /** A token that parts the forms is counted by a token that the other form has left behind for good:
      their child counts of it never meet again. */
  lemma NeverAgain(js: string, s: PState, u: PState, cap: nat) returns (x: nat)
    requires Inv(s) && Inv(u) && Chained(s) && Chained(u) && Alike(s, u) && Related(s, u) && !AtEnd(js, s.pos)
    requires IsToken(LexAt(js, s.pos).0) && |s.nodes| < cap && s.super != u.super
    ensures var t, v := Run(Scan, js, s, cap).0, Run(Links, js, u, cap).0;
            x < |t.nodes| && x < |v.nodes| && t.nodes[x].tok.size != v.nodes[x].tok.size
  {
    hide LexAt, Run, On;
    var lx := LexAt(js, s.pos).0;
    var a, b := Advance(Scan, js, s, cap).s, Advance(Links, js, u, cap).s;
    StepRun(Scan, js, s, cap);
    StepRun(Links, js, u, cap);
    if s.super < u.super {
      x := u.super;
      SizeKept(s.nodes, s.super, x);
      SizeKept(u.nodes, u.super, x);
      TopIsLast(s);
      ScanFrozen(js, a, cap, x);
      RunGrows(Links, js, b, cap, x);
    } else {
      x := s.super;
      SizeKept(s.nodes, s.super, x);
      RunGrows(Scan, js, a, cap, x);
      LinksLeft(js, u, cap, x);
      LinksFrozen(js, b, cap, x);
    }
  }

  lemma StepRun(m: Mode, js: string, s: PState, cap: nat)
    requires Inv(s) && !AtEnd(js, s.pos) && IsToken(LexAt(js, s.pos).0) && |s.nodes| < cap
    ensures Advance(m, js, s, cap).Go? && Run(m, js, s, cap) == Run(m, js, Advance(m, js, s, cap).s, cap)
  {
    hide Inv;
  }

  lemma TopIsLast(s: PState)
    requires Inv(s)
    ensures forall e :: e in s.stack ==> e <= Top(s.stack)
  {
  }

  /** At the top level, the token before the new one, and everything above that, is behind `x`. */
  lemma LinksLeft(js: string, u: PState, cap: nat, x: nat)
    requires Inv(u) && Chained(u) && u.stack == [] && u.super < x < |u.nodes| < cap && !AtEnd(js, u.pos)
    requires IsToken(LexAt(js, u.pos).0)
    ensures var b := Advance(Links, js, u, cap);
            && b.Go? && Chained(b.s) && ParentsBelow(b.s.nodes) && LinksDone(b.s, x)
            && b.s.nodes[x].tok.size == u.nodes[x].tok.size
  {
    hide LexAt;
    var lx := LexAt(js, u.pos).0;
    InvParents(u);
    NotOnBelow(u.nodes, x, u.super);
    NoChild(u.nodes, x, NewToken(lx, u.pos), u.super);
    ApplyChains(Links, u, lx, cap);
    MovedChains(js, Links, u, cap);
  }

  /** Over a whole text, with any capacity: the two forms end with the same code, cursor and token
      array if and only if no lexeme on the way parts them; then their parents are the same too. */
  lemma {:induction false} TogetherIff(js: string, s: PState, u: PState, cap: nat)
    requires Inv(s) && Inv(u) && Chained(s) && Chained(u) && Alike(s, u) && Related(s, u)
    ensures Together(js, s, u, cap) <==> SameVisible(Run(Scan, js, s, cap), Run(Links, js, u, cap))
    ensures Together(js, s, u, cap) ==> SameOutcome(Run(Scan, js, s, cap), Run(Links, js, u, cap))
    decreases |js| - s.pos
  {
    hide Inv, Chained, Advance, LexAt, Parts, Related;
    if !AtEnd(js, s.pos) {
      AdvanceTogether(js, s, u, cap);
      var a, b := Advance(Scan, js, s, cap), Advance(Links, js, u, cap);
      if Parts(s, u, LexAt(js, s.pos).0, cap) {
        PartedVisibly(js, s, u, cap);
      } else if a.Go? {
        AdvanceRelated(js, s, u, cap);
        TogetherIff(js, a.s, b.s, cap);
      }
    }
  }

  lemma AdvanceRelated(js: string, s: PState, u: PState, cap: nat)
    requires Inv(s) && Inv(u) && Chained(s) && Chained(u) && Alike(s, u) && Related(s, u) && !AtEnd(js, s.pos)
    requires ParentsBelow(s.nodes) && !Parts(s, u, LexAt(js, s.pos).0, cap)
    ensures var a, b := Advance(Scan, js, s, cap), Advance(Links, js, u, cap); a.Go? && b.Go? ==> Related(a.s, b.s)
  {
    hide Inv, Chained, LexAt, Apply, Parts;
    RelatedStep(s, u, LexAt(js, s.pos).0, cap);
  }

  lemma PartedVisibly(js: string, s: PState, u: PState, cap: nat)
    requires Inv(s) && Inv(u) && Chained(s) && Chained(u) && Alike(s, u) && Related(s, u) && !AtEnd(js, s.pos)
    requires ParentsBelow(s.nodes) && Parts(s, u, LexAt(js, s.pos).0, cap)
    ensures !SameVisible(Run(Scan, js, s, cap), Run(Links, js, u, cap))
  {
    hide LexAt, Inv, Chained, Related;
    var lx := LexAt(js, s.pos).0;
    if lx.Close? {
      LinksGoesOn(js, s, u, cap);
      ScanStops(js, s, cap);
      RunKeeps(Links, js, Advance(Links, js, u, cap).s, cap);
    } else {
      var x := NeverAgain(js, s, u, cap);
      var t, v := Run(Scan, js, s, cap).0.nodes, Run(Links, js, u, cap).0.nodes;
      assert Erase(t)[x] == t[x].tok && Erase(v)[x] == v[x].tok;
    }
  }

  lemma ScanStops(js: string, s: PState, cap: nat)
    requires Inv(s) && !AtEnd(js, s.pos) && LexAt(js, s.pos).0.Close? && s.stack == []
    ensures Run(Scan, js, s, cap) == (s, INVAL)
  {
    hide Inv, LexAt;
  }

  /** With less room they part no sooner. */
  lemma {:induction false} TogetherSmaller(js: string, s: PState, u: PState, small: nat, large: nat)
    requires Inv(s) && Inv(u) && Chained(s) && Chained(u) && Alike(s, u)
    requires small <= large && Together(js, s, u, large)
    ensures Together(js, s, u, small)
    decreases |js| - s.pos
  {
    hide Inv, Chained, Advance, LexAt, Parts;
    if !AtEnd(js, s.pos) {
      PartsSmaller(js, s, u, small, large);
      AdvanceTogether(js, s, u, small);
      AdvanceMonotone(Scan, js, s, small, large);
      AdvanceMonotone(Links, js, u, small, large);
      var a, b := Advance(Scan, js, s, small), Advance(Links, js, u, small);
      if a.Go? && b.Go? { TogetherSmaller(js, a.s, b.s, small, large); }
    }
  }

  lemma PartsSmaller(js: string, s: PState, u: PState, small: nat, large: nat)
    requires Inv(s) && !AtEnd(js, s.pos) && small <= large
    ensures ParentsBelow(s.nodes)
    ensures Parts(s, u, LexAt(js, s.pos).0, small) ==> Parts(s, u, LexAt(js, s.pos).0, large)
  {
    hide LexAt;
    InvParents(s);
  }

  /** On every JSON text, and with every capacity, NOMEM included, the two forms end with the same
      code, cursor, tokens and parents. */
  lemma LinksAgree(doc: Padded, cap: nat)
    requires PaddedOk(doc)
    ensures var (t, r) := Run(Scan, PaddedText(doc), INIT, cap); var (u, q) := Run(Links, PaddedText(doc), INIT, cap);
            r == q && Alike(t, u) && Erase(t.nodes) == Erase(u.nodes)
  {
    hide Run, PaddedText, PaddedOk, Size, Together;
    var js, room := PaddedText(doc), cap + Size(doc.v);
    EndsAtEnd(Scan, doc, room);
    EndsAtEnd(Links, doc, room);
    TogetherIff(js, INIT, INIT, room);
    TogetherSmaller(js, INIT, INIT, cap, room);
    TogetherIff(js, INIT, INIT, cap);
  }

  /** With enough room a JSON text is read to its end, with nothing left open. */
  lemma EndsAtEnd(m: Mode, doc: Padded, cap: nat)
    requires PaddedOk(doc) && Size(doc.v) <= cap
    ensures var (t, r) := Run(m, PaddedText(doc), INIT, cap);
            t == PState(|PaddedText(doc)|, Nodes(doc.v, |doc.before|, -1, 0), t.super, []) && r == Size(doc.v)
  {
    hide Run, PaddedText, PaddedOk, Nodes, Size;
    ParsePrinted(m, doc, cap);
    SuccessCode(m, PaddedText(doc), INIT, cap);
    RunKeeps(m, PaddedText(doc), INIT, cap);
    PaddedNoNul(doc);
  }

  /** The state after `{}:`, the same both ways. */
  const ONE_CLOSED: PState := PState(3, [Node(Token(Object, 0, 2, 0), -1)], 0, [])

  lemma NoSubtree(nodes: seq<Node>, k: nat)
    requires |nodes| == k + 1
    ensures Subtree(nodes[k + 1..], k, k)
  {
  }

  lemma ReachOneClosed(m: Mode, js: string, cap: nat)
    requires cap > 0 && |js| == 4 && js[0] == '{' && js[1] == '}' && js[2] == ':'
    ensures Run(m, js, INIT, cap) == Run(m, js, ONE_CLOSED, cap)
  {
    hide Run, Inv, Subtree, Advance;
    var s1 := OpenStep(m, js, INIT, cap, Object);
    NoSubtree(s1.nodes, 0);
    var s2 := CloseStep(m, js, s1, cap, 0);
    var s3 := ColonStep(m, js, s2, cap);
    assert s3.nodes == ONE_CLOSED.nodes && s3.stack == [];
  }

  /** Off the grammar they part: a closer after a colon finds nothing open by scanning, but settles
      on a closed bracket by following parents. */
  lemma LinksDiverge(cap: nat)
    requires cap > 0
    ensures Run(Scan, "{}:}", INIT, cap).1 == INVAL && Run(Links, "{}:}", INIT, cap).1 == 1
  {
    hide Run, Inv;
    ReachOneClosed(Scan, "{}:}", cap);
    ReachOneClosed(Links, "{}:}", cap);
    LastCloser("{}:}", cap);
  }

  lemma LastCloser(js: string, cap: nat)
    requires |js| == 4 && js[3] == '}'
    ensures Inv(ONE_CLOSED) && Run(Scan, js, ONE_CLOSED, cap).1 == INVAL && Run(Links, js, ONE_CLOSED, cap).1 == 1
  {
    assert LexAt(js, 3) == (Close(Object), 4);
    assert Advance(Links, js, ONE_CLOSED, cap) == Go(ONE_CLOSED.(pos := 4));
  }

  lemma StringStep(m: Mode, js: string, s: PState, cap: nat) returns (t: PState)
    requires Inv(s) && s.pos + 2 < |js| && js[s.pos] == js[s.pos + 2] == '"' && js[s.pos + 1] == 'a' && |s.nodes| < cap
    ensures Inv(t) && Run(m, js, s, cap) == Run(m, js, t, cap)
    ensures t == s.(pos := s.pos + 3, nodes := Bump(s.nodes, s.super) + [Leaf(String, s.pos + 1, s.pos + 2, s.super)])
  {
    assert StringEnd(js, s.pos + 2) == Closed(s.pos + 2);
    assert StringEnd(js, s.pos + 1) == Closed(s.pos + 2);
    t := ScalarStep(m, js, s, cap, String, s.pos + 1, s.pos + 2, s.pos + 3);
  }

  predicate Spells(js: string) {
    && |js| == 10 && js[0] == '{' && js[1] == js[3] == '"' && js[2] == 'a' && js[4] == ':'
    && js[5] == '[' && js[6] == ']' && js[7] == ' ' && js[8] == '1' && js[9] == '}'
  }

  /** The tokens of `{"a":[] 1}` up to the blank, and what is super then. */
  lemma ReachBlank(m: Mode, js: string, cap: nat) returns (t: PState)
    requires Spells(js) && cap >= 4
    ensures Inv(t) && Run(m, js, INIT, cap) == Run(m, js, t, cap)
    ensures t == PState(8, [Node(Token(Object, 0, -1, 1), -1), Node(Token(String, 2, 3, 1), 0),
                            Node(Token(Array, 5, 7, 0), 1)], if m == Scan then 0 else 1, [0])
  {
    hide Run, Inv, LexAt, Subtree;
    t := OpenStep(m, js, INIT, cap, Object);
    t := StringStep(m, js, t, cap);
    t := ColonStep(m, js, t, cap);
    t := OpenStep(m, js, t, cap, Array);
    NoSubtree(t.nodes, 2);
    assert t.stack[..1] == [0];
    t := CloseStep(m, js, t, cap, 2);
    BlankStep(m, js, t, cap);
    t := t.(pos := 8);
  }

  lemma OneDigit(js: string)
    requires Spells(js)
    ensures !AtEnd(js, 8) && LexAt(js, 8) == (Scalar(Primitive, 8, 9), 9)
  {
    assert PrimitiveEnd(js, 9) == 9;
  }

  /** The four tokens, with the child counts of the object and of the key. */
  function Spelled(root: nat, key: nat): seq<Token> {
    [Token(Object, 0, 10, root), Token(String, 2, 3, key), Token(Array, 5, 7, 0), Token(Primitive, 8, 9, 0)]
  }

  lemma ReachNumber(m: Mode, js: string, cap: nat) returns (t: PState)
    requires Spells(js) && cap >= 4
    ensures Inv(t) && Run(m, js, INIT, cap) == Run(m, js, t, cap)
    ensures t.pos == 9 && |t.nodes| == 4 && t.stack == [0] && Subtree(t.nodes[1..], 0, 0)
    ensures Erase(t.nodes) == (if m == Scan then Spelled(2, 1) else Spelled(1, 2))[0 := t.nodes[0].tok]
    ensures t.nodes[0].tok == Token(Object, 0, -1, if m == Scan then 2 else 1)
  {
    hide Run, Inv, LexAt;
    t := ReachBlank(m, js, cap);
    OneDigit(js);
    t := ScalarStep(m, js, t, cap, Primitive, 8, 9, 9);
  }

  lemma ClosedAtEnd(m: Mode, js: string, t: PState, cap: nat)
    requires Inv(t) && AtEnd(js, t.pos) && t.stack == []
    ensures Run(m, js, t, cap) == (t, |t.nodes|)
  {
  }

  /** The number is the object's second child by scanning, the key's second by following parents. */
  lemma RunSpelled(m: Mode, js: string, cap: nat)
    requires Spells(js) && cap >= 4
    ensures var (t, r) := Run(m, js, INIT, cap);
            r == 4 && Erase(t.nodes) == if m == Scan then Spelled(2, 1) else Spelled(1, 2)
  {
    hide Run, Inv, LexAt, Subtree;
    var t := ReachNumber(m, js, cap);
    var v := CloseStep(m, js, t, cap, 0);
    ClosedAtEnd(m, js, v, cap);
  }

  /** Or both succeed with the same code and count children differently. */
  lemma CountsDiverge(cap: nat)
    requires cap >= 4
    ensures var js := "{\"a\":[] 1}"; var (t, r) := Run(Scan, js, INIT, cap); var (u, q) := Run(Links, js, INIT, cap);
            r == q == 4 && Erase(t.nodes) == Spelled(2, 1) && Erase(u.nodes) == Spelled(1, 2)
  {
    hide Run, Spelled;
    RunSpelled(Scan, "{\"a\":[] 1}", cap);
    RunSpelled(Links, "{\"a\":[] 1}", cap);
  }

  /** One character that is a primitive by itself. */
  lemma LetterStep(m: Mode, js: string, s: PState, cap: nat) returns (t: PState)
    requires Inv(s) && s.pos < |js| && js[s.pos] in {'a', 'b', 'c'} && |s.nodes| < cap
    requires s.pos + 1 == |js| || js[s.pos + 1] in {':', ','}
    ensures Inv(t) && Run(m, js, s, cap) == Run(m, js, t, cap)
    ensures t == s.(pos := s.pos + 1, nodes := Bump(s.nodes, s.super) + [Leaf(Primitive, s.pos, s.pos + 1, s.super)])
  {
    assert PrimitiveEnd(js, s.pos + 1) == s.pos + 1;
    t := ScalarStep(m, js, s, cap, Primitive, s.pos, s.pos + 1, s.pos + 1);
  }

  /** A comma outside all brackets leaves the key where it is when scanning, and returns to its parent, here
      none, when following links. */
  lemma RootComma(m: Mode, js: string, s: PState, cap: nat) returns (t: PState)
    requires Inv(s) && s.pos < |js| && js[s.pos] == ',' && s.stack == []
    requires s.super >= 0 && s.nodes[s.super].tok.kind == Primitive && s.nodes[s.super].parent == -1
    ensures Inv(t) && Run(m, js, s, cap) == Run(m, js, t, cap)
    ensures t == s.(pos := s.pos + 1, super := if m == Scan then s.super else -1)
  {
    t := Advance(m, js, s, cap).s;
  }

  /** The three tokens of `a:b,c`, with the child count of the first. */
  function Letters(children: nat): seq<Token> {
    [Token(Primitive, 0, 1, children), Token(Primitive, 2, 3, 0), Token(Primitive, 4, 5, 0)]
  }

  lemma RunLetters(m: Mode, js: string, cap: nat)
    requires cap >= 3 && |js| == 5
    requires js[0] == 'a' && js[1] == ':' && js[2] == 'b' && js[3] == ',' && js[4] == 'c'
    ensures var (t, r) := Run(m, js, INIT, cap); r == 3 && Erase(t.nodes) == Letters(if m == Scan then 2 else 1)
  {
    hide Run, Inv, LexAt;
    var t := LetterStep(m, js, INIT, cap);
    t := ColonStep(m, js, t, cap);
    t := LetterStep(m, js, t, cap);
    t := RootComma(m, js, t, cap);
    t := LetterStep(m, js, t, cap);
    ClosedAtEnd(m, js, t, cap);
  }

  /** A comma with no bracket open is another such place: on `a:b,c` the last value is the first one's
      second child by scanning, and a root by following parents. */
  lemma CommaDiverges(cap: nat)
    requires cap >= 3
    ensures var (t, r) := Run(Scan, "a:b,c", INIT, cap); var (u, q) := Run(Links, "a:b,c", INIT, cap);
            r == q == 3 && Erase(t.nodes) == Letters(2) && Erase(u.nodes) == Letters(1)
  {
    hide Run, Letters;
    RunLetters(Scan, "a:b,c", cap);
    RunLetters(Links, "a:b,c", cap);
  }
}
