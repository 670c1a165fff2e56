/**
 The tokenizer of jsmn.h as this project compiles it (no JSMN_STRICT, no JSMN_PARENT_LINKS): one
 pass, a token array filled in place, no stack. Proved to be the machine of module Tokens.
 */
module Jsmn {
  import opened Lexer
  import opened Tokens

  /** `jsmn_parser`. */
  class Parser {
    var pos: nat
    var toknext: nat
    var toksuper: int
    ghost var st: PState

    /** `jsmn_init`. */
    constructor ()
      ensures pos == 0 && toknext == 0 && toksuper == -1 && st == INIT
    {
      pos, toknext, toksuper := 0, 0, -1;
      st := INIT;
    }

    /** The token array holds the machine's tokens, without parents; the stack is implicit in it. */
    ghost predicate Valid(tokens: array<Token>)
      reads this, tokens
    {
      && Inv(st) && pos == st.pos && toksuper == st.super && toknext == |st.nodes|
      && toknext <= tokens.Length && tokens[..toknext] == Erase(st.nodes)
    }

    /** `jsmn_alloc_token`: the index of the token, or -1 for NULL. */
    method AllocToken(tokens: array<Token>, numTokens: nat) returns (i: int)
      requires toknext <= tokens.Length && numTokens <= tokens.Length
      modifies `toknext, tokens
      ensures i == if old(toknext) >= numTokens then -1 else old(toknext)
      ensures i == -1 ==> unchanged(`toknext, tokens)
      ensures i != -1 ==> toknext == i + 1 && tokens[..i] == old(tokens[..i]) && tokens[i].start == tokens[i].end == -1
      ensures i != -1 ==> tokens[i].size == 0
    {
      if toknext >= numTokens { return -1; }
      i := toknext;
      toknext := toknext + 1;
      tokens[i] := tokens[i].(start := -1, end := -1, size := 0);
    }

    /** What scanning a string or primitive leaves behind: an error code with the cursor back where
        it was, or one more token and the cursor on the last character of the lexeme. */
    twostate predicate Scanned(js: string, tokens: array?<Token>, numTokens: nat, r: int)
      reads this, tokens
      requires !AtEnd(js, old(pos))
      requires tokens != null ==> old(toknext) <= tokens.Length && toknext <= tokens.Length
    {
      var (lx, next) := LexAt(js, old(pos));
      if lx.Bad? then r == lx.code && pos == old(pos) && toknext == old(toknext)
                      && (tokens != null ==> tokens[..toknext] == old(tokens[..toknext]))
      else if tokens == null then r == 0 && pos + 1 == next && toknext == old(toknext)
      else if old(toknext) >= numTokens then
        r == NOMEM && pos == old(pos) && toknext == old(toknext) && tokens[..toknext] == old(tokens[..toknext])
      else
        && lx.Scalar? && r == 0 && pos + 1 == next && toknext == old(toknext) + 1
        && tokens[..toknext] == old(tokens[..toknext]) + [Token(lx.kind, lx.start, lx.end, 0)]
    }

    /** Allocates and fills a token for the text just scanned (`jsmn_fill_token`). */
    method AddToken(tokens: array<Token>, numTokens: nat, kind: Kind, start: nat, end: nat) returns (ok: bool)
      requires toknext <= tokens.Length && numTokens <= tokens.Length
      modifies `toknext, tokens
      ensures ok <==> old(toknext) < numTokens
      ensures !ok ==> unchanged(`toknext, tokens)
      ensures ok ==> toknext == old(toknext) + 1 <= tokens.Length
      ensures ok ==> tokens[..toknext] == old(tokens[..toknext]) + [Token(kind, start, end, 0)]
    {
      var i := AllocToken(tokens, numTokens);
      if i == -1 { return false; }
      tokens[i] := Token(kind, start, end, 0);
      return true;
    }

    /** `jsmn_parse_primitive`. */
    method ParsePrimitive(js: string, tokens: array?<Token>, numTokens: nat) returns (r: int)
      requires !AtEnd(js, pos) && !IsDelimiter(js[pos]) && js[pos] !in {'{', '[', '"'}
      requires tokens != null ==> toknext <= tokens.Length && numTokens <= tokens.Length
      modifies `pos, `toknext, tokens
      ensures tokens != null ==> toknext <= tokens.Length
      ensures Scanned(js, tokens, numTokens, r)
    {
      var start := pos;
      while pos < |js| && js[pos] != '\0'
        invariant start <= pos <= |js| && PrimitiveEnd(js, start) == PrimitiveEnd(js, pos)
        modifies `pos
        decreases |js| - pos
      {
        if IsDelimiter(js[pos]) { break; }
        if js[pos] < ' ' || js[pos] as int >= 127 {
          pos := start;
          return INVAL;
        }
        pos := pos + 1;
      }
      assert PrimitiveEnd(js, start) == pos;
      if tokens == null {
        pos := pos - 1;
        return 0;
      }
      var ok := AddToken(tokens, numTokens, Primitive, start, pos);
      if !ok {
        pos := start;
        return NOMEM;
      }
      pos := pos - 1;
      return 0;
    }

    /** The four digits of a `\u` escape, as far as the text goes. */
    method SkipHex(js: string) returns (ok: bool)
      requires pos <= |js|
      modifies `pos
      ensures ok <==> HexRun(js, old(pos), 4) != -1
      ensures ok ==> pos == HexRun(js, old(pos), 4) <= |js|
    {
      var i := 0;
      while i < 4 && pos < |js| && js[pos] != '\0'
        invariant 0 <= i <= 4 && old(pos) <= pos <= |js|
        invariant HexRun(js, old(pos), 4) == HexRun(js, pos, 4 - i)
      {
        if !IsHex(js[pos]) { return false; }
        pos := pos + 1;
        i := i + 1;
      }
      return true;
    }

    /** An escape, from its backslash to its last character. */
    method SkipEscape(js: string) returns (ok: bool)
      requires pos + 1 < |js| && js[pos] == '\\'
      modifies `pos
      ensures ok ==> old(pos) < pos < |js| && StringEnd(js, old(pos)) == StringEnd(js, pos + 1)
      ensures !ok ==> StringEnd(js, old(pos)) == Broken
    {
      pos := pos + 1;
      if !IsEscape(js[pos]) {
        if js[pos] != 'u' { return false; }
        pos := pos + 1;
        ok := SkipHex(js);
        if !ok { return false; }
        pos := pos - 1;
      }
      return true;
    }

    /** The closing quote of a string that began at `start`. */
    method CloseString(tokens: array?<Token>, numTokens: nat, start: nat) returns (r: int)
      requires start < pos && (tokens != null ==> toknext <= tokens.Length && numTokens <= tokens.Length)
      modifies `pos, `toknext, tokens
      ensures tokens != null ==> toknext <= tokens.Length
      ensures tokens == null ==> r == 0 && pos == old(pos) && toknext == old(toknext)
      ensures tokens != null && old(toknext) >= numTokens ==>
                r == NOMEM && pos == start && toknext == old(toknext) && tokens[..toknext] == old(tokens[..toknext])
      ensures tokens != null && old(toknext) < numTokens ==>
                && r == 0 && pos == old(pos) && toknext == old(toknext) + 1
                && tokens[..toknext] == old(tokens[..toknext]) + [Token(String, start + 1, pos, 0)]
    {
      if tokens == null { return 0; }
      var ok := AddToken(tokens, numTokens, String, start + 1, pos);
      if !ok {
        pos := start;
        return NOMEM;
      }
      return 0;
    }

    /** `jsmn_parse_string`. */
    method ParseString(js: string, tokens: array?<Token>, numTokens: nat) returns (r: int)
      requires pos < |js| && js[pos] == '"'
      requires tokens != null ==> toknext <= tokens.Length && numTokens <= tokens.Length
      modifies `pos, `toknext, tokens
      ensures tokens != null ==> toknext <= tokens.Length
      ensures Scanned(js, tokens, numTokens, r)
    {
      var start := pos;
      pos := pos + 1;
      while pos < |js| && js[pos] != '\0' && js[pos] != '"'
        invariant start < pos <= |js| && StringEnd(js, start + 1) == StringEnd(js, pos)
        modifies `pos
        decreases |js| - pos
      {
        if js[pos] == '\\' && pos + 1 < |js| {
          var ok := SkipEscape(js);
          if !ok {
            pos := start;
            return INVAL;
          }
        }
        pos := pos + 1;
      }
      if pos < |js| && js[pos] == '"' {
        r := CloseString(tokens, numTokens, start);
      } else {
        pos := start;
        r := PART;
      }
    }

    /** An opening bracket. */
    method OpenBracket(js: string, tokens: array<Token>, numTokens: nat) returns (ok: bool)
      requires Valid(tokens) && numTokens <= tokens.Length && pos < |js| && js[pos] in {'{', '['}
      modifies this, tokens
      ensures ok <==> Advance(Scan, js, old(st), numTokens).Go?
      ensures !ok ==> Valid(tokens) && st == old(st) && Advance(Scan, js, st, numTokens) == Stop(NOMEM)
      ensures ok ==> Synced(tokens, Advance(Scan, js, old(st), numTokens).s)
    {
      var i := AllocToken(tokens, numTokens);
      if i == -1 { return false; }
      if toksuper != -1 {
        tokens[toksuper] := tokens[toksuper].(size := tokens[toksuper].size + 1);
      }
      tokens[i] := tokens[i].(kind := if js[pos] == '{' then Object else Array, start := pos);
      toksuper := toknext - 1;
      st := Advance(Scan, js, st, numTokens).s;
      return true;
    }

    /** The state after a round of the main loop, before its `pos++`. */
    ghost predicate Synced(tokens: array<Token>, t: PState)
      reads this, tokens
    {
      && st == t && Inv(st) && pos + 1 == st.pos && toksuper == st.super && toknext == |st.nodes|
      && toknext <= tokens.Length && tokens[..toknext] == Erase(st.nodes)
    }

    predicate IsOpen(t: Token) {
      t.start != -1 && t.end == -1
    }

    /** The last open token at or before `from`, or -1: the backward scan of the parser. */
    method FindOpen(tokens: array<Token>, from: int) returns (i: int)
      requires -1 <= from < tokens.Length
      ensures -1 <= i <= from
      ensures i >= 0 ==> IsOpen(tokens[i])
      ensures forall k :: i < k <= from ==> !IsOpen(tokens[k])
    {
      i := from;
      while i >= 0
        invariant -1 <= i <= from
        invariant forall k :: i < k <= from ==> !IsOpen(tokens[k])
      {
        if IsOpen(tokens[i]) { return; }
        i := i - 1;
      }
    }

    lemma OpenMeansEnd(tokens: array<Token>)
      requires Valid(tokens)
      ensures forall k :: 0 <= k < toknext ==>
                tokens[k] == st.nodes[k].tok && (IsOpen(tokens[k]) <==> tokens[k].end == -1)
    {
      forall k | 0 <= k < toknext
        ensures tokens[k] == st.nodes[k].tok && (IsOpen(tokens[k]) <==> tokens[k].end == -1)
      {
        assert tokens[..toknext][k] == tokens[k] && NodeOk(st, k);
      }
    }

    /** A closing bracket. */
    method CloseBracket(js: string, tokens: array<Token>, numTokens: nat) returns (ok: bool)
      requires Valid(tokens) && pos < |js| && js[pos] in {'}', ']'}
      modifies this, tokens
      ensures ok <==> Advance(Scan, js, old(st), numTokens).Go?
      ensures !ok ==> Valid(tokens) && st == old(st) && Advance(Scan, js, st, numTokens) == Stop(INVAL)
      ensures ok ==> Synced(tokens, Advance(Scan, js, old(st), numTokens).s)
    {
      var kind := if js[pos] == '}' then Object else Array;
      OpenMeansEnd(tokens);
      var i := FindOpen(tokens, toknext - 1);
      InnermostOpen(st, i);
      if i >= 0 && tokens[i].kind != kind { return false; }
      if i == -1 { return false; }
      ghost var t := Advance(Scan, js, st, numTokens).s;
      toksuper := -1;
      tokens[i] := tokens[i].(end := pos + 1);
      st := t.(super := -1, pos := pos);
      var j := FindOpen(tokens, i);
      assert j != i;
      ClosedBelow(tokens, t, j);
      if j >= 0 { toksuper := j; }
      st := t;
      return true;
    }

    lemma ClosedBelow(tokens: array<Token>, t: PState, j: int)
      requires Inv(t) && |t.nodes| == toknext <= tokens.Length && tokens[..toknext] == Erase(t.nodes)
      requires -1 <= j < toknext && (j >= 0 ==> IsOpen(tokens[j]))
      requires forall k :: j < k < toknext ==> !IsOpen(tokens[k])
      ensures j == Top(t.stack)
    {
      forall k | 0 <= k < toknext ensures tokens[k] == t.nodes[k].tok && (IsOpen(tokens[k]) <==> tokens[k].end == -1) {
        assert tokens[..toknext][k] == tokens[k] && NodeOk(t, k);
      }
      InnermostOpen(t, j);
    }

    /** A comma: after a member of an object the object itself is the super token again. */
    method Separator(js: string, tokens: array<Token>, numTokens: nat)
      requires Valid(tokens) && pos < |js| && js[pos] == ','
      modifies `toksuper, `st
      ensures Advance(Scan, js, old(st), numTokens).Go?
      ensures Synced(tokens, Advance(Scan, js, old(st), numTokens).s)
    {
      OpenMeansEnd(tokens);
      if toksuper != -1 && tokens[toksuper].kind != Array && tokens[toksuper].kind != Object {
        var i := toknext - 1;
        while i >= 0
          invariant -1 <= i < toknext
          invariant toksuper == old(toksuper)
          invariant forall k :: i < k < toknext ==> st.nodes[k].tok.end != -1
        {
          if tokens[i].kind == Array || tokens[i].kind == Object {
            if tokens[i].start != -1 && tokens[i].end == -1 {
              toksuper := i;
              break;
            }
          }
          assert NodeOk(st, i);
          i := i - 1;
        }
        InnermostOpen(st, i);
      }
      st := Advance(Scan, js, st, numTokens).s;
    }

    /** A string or a primitive. */
    method Value(js: string, tokens: array<Token>, numTokens: nat) returns (r: int)
      requires Valid(tokens) && numTokens <= tokens.Length && !AtEnd(js, pos)
      requires js[pos] == '"' || (!IsDelimiter(js[pos]) && js[pos] !in {'{', '['})
      modifies this, tokens
      ensures r == 0 || r < 0
      ensures r < 0 ==> Valid(tokens) && st == old(st) && Advance(Scan, js, st, numTokens) == Stop(r)
      ensures r == 0 ==> Advance(Scan, js, old(st), numTokens).Go?
      ensures r == 0 ==> Synced(tokens, Advance(Scan, js, old(st), numTokens).s)
    {
      if js[pos] == '"' {
        r := ParseString(js, tokens, numTokens);
      } else {
        r := ParsePrimitive(js, tokens, numTokens);
      }
      if r < 0 { return; }
      if toksuper != -1 {
        tokens[toksuper] := tokens[toksuper].(size := tokens[toksuper].size + 1);
      }
      st := Advance(Scan, js, st, numTokens).s;
    }

    /** One round of the main loop on the character at the cursor, up to its `pos++`; 0 means go on.
        Without a token array only `count` and the cursor matter. */
    method Round(js: string, tokens: array?<Token>, numTokens: nat, count: int) returns (r: int, count': int)
      requires !AtEnd(js, pos)
      requires tokens != null ==> Valid(tokens) && numTokens <= tokens.Length && count == toknext
      modifies this, tokens
      ensures r <= 0
      ensures tokens != null && r < 0 ==> Valid(tokens) && st == old(st) && Advance(Scan, js, st, numTokens) == Stop(r)
      ensures tokens != null && r == 0 ==>
                && Advance(Scan, js, old(st), numTokens).Go? && Synced(tokens, Advance(Scan, js, old(st), numTokens).s)
                && count' == toknext
      ensures tokens == null ==> Counted(LexAt(js, old(pos)), r, old(pos), count' - count)
      ensures tokens == null ==> toknext == old(toknext)
    {
      var c := js[pos];
      r, count' := 0, count;
      ghost var before := st;
      if c == '{' || c == '[' {
        count' := count + 1;
        if tokens != null {
          var ok := OpenBracket(js, tokens, numTokens);
          if !ok { return NOMEM, count'; }
        }
      } else if c == '}' || c == ']' {
        if tokens != null {
          var ok := CloseBracket(js, tokens, numTokens);
          if !ok { return INVAL, count'; }
        }
      } else if IsBlank(c) {
        st := if tokens != null then Advance(Scan, js, st, numTokens).s else st;
      } else if c == ':' {
        toksuper := toknext - 1;
        st := if tokens != null then Advance(Scan, js, st, numTokens).s else st;
      } else if c == ',' {
        if tokens != null { Separator(js, tokens, numTokens); }
      } else {
        if tokens != null {
          r := Value(js, tokens, numTokens);
        } else if c == '"' {
          r := ParseString(js, tokens, numTokens);
        } else {
          r := ParsePrimitive(js, tokens, numTokens);
        }
        if r < 0 { return; }
        count' := count + 1;
      }
    }

    ghost predicate Counted(lexed: (Lexeme, nat), r: int, from: nat, added: int)
      reads this
    {
      if lexed.0.Bad? then r == lexed.0.code && pos == from
      else r == 0 && pos + 1 == lexed.1 && added == if IsToken(lexed.0) then 1 else 0
    }

    /** `jsmn_parse`. `tokens` may be NULL: then tokens are only counted. */
    method Parse(js: string, tokens: array?<Token>, numTokens: nat) returns (r: int)
      requires tokens != null ==> Valid(tokens) && numTokens <= tokens.Length
      modifies this, tokens
      ensures tokens != null ==> Valid(tokens) && (st, r) == Run(Scan, js, old(st), numTokens)
      ensures tokens == null ==> (pos, r) == CountRun(js, old(pos), old(toknext)) && toknext == old(toknext)
    {
      var count := toknext as int;
      while pos < |js| && js[pos] != '\0'
        invariant tokens != null ==>
                    Valid(tokens) && count == toknext
                      && Run(Scan, js, st, numTokens) == Run(Scan, js, old(st), numTokens)
        invariant tokens == null ==>
                    CountRun(js, pos, count) == CountRun(js, old(pos), old(toknext)) && toknext == old(toknext)
        decreases |js| - pos
      {
        r, count := Round(js, tokens, numTokens, count);
        if r < 0 { return; }
        pos := pos + 1;
      }
      if tokens != null {
        OpenMeansEnd(tokens);
        var i := FindOpen(tokens, toknext - 1);
        InnermostOpen(st, i);
        if i >= 0 { return PART; }
      }
      return count;
    }
  }
}
