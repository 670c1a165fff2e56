/**
 The lexical half of jsmn: what the character at the cursor starts, where it ends, and whether it
 is well formed. Texts are strings of bytes; a NUL ends them early.
 */
module Lexer {
  const NOMEM: int := -1
  const INVAL: int := -2
  const PART: int := -3

  datatype Kind = Undefined | Object | Array | String | Primitive

  datatype Lexeme =
    | Open(kind: Kind)
    | Close(kind: Kind)
    | Scalar(kind: Kind, start: nat, end: nat)  // a string's contents, or a primitive
    | Colon
    | Comma
    | Blank
    | Bad(code: int)

  predicate AtEnd(js: string, i: nat) {
    i >= |js| || js[i] == '\0'
  }

  predicate IsBlank(c: char) {
    c in {'\t', '\r', '\n', ' '}
  }

  predicate IsDelimiter(c: char) {
    IsBlank(c) || c in {':', ',', ']', '}'}
  }

  predicate IsPrintable(c: char) {
    32 <= c as int < 127
  }

  predicate IsHex(c: char) {
    '0' <= c <= '9' || 'A' <= c <= 'F' || 'a' <= c <= 'f'
  }

  predicate IsEscape(c: char) {
    c in {'"', '/', '\\', 'b', 'f', 'r', 'n', 't'}
  }

  /** Where the primitive around `i` ends; -1 if an unprintable character comes first. */
  function PrimitiveEnd(js: string, i: nat): (e: int)
    ensures e == -1 || i <= e
    ensures e > |js| ==> e == i
    decreases |js| - i
  {
    if AtEnd(js, i) || IsDelimiter(js[i]) then i
    else if !IsPrintable(js[i]) then -1
    else PrimitiveEnd(js, i + 1)
  }

  datatype StringScan = Closed(at: nat) | Broken | Cut

  /** At most `n` hexadecimal digits from `i` on, fewer only at the end of the text; -1 if another
      character comes first. */
  function HexRun(js: string, i: nat, n: nat): (j: int)
    ensures j == -1 || i <= j <= i + n
    ensures j > i ==> j <= |js|
    decreases n
  {
    if n == 0 || AtEnd(js, i) then i
    else if !IsHex(js[i]) then -1
    else HexRun(js, i + 1, n - 1)
  }

  /** The closing quote of the string whose contents continue at `i`. */
  function StringEnd(js: string, i: nat): (r: StringScan)
    ensures r.Closed? ==> i <= r.at < |js| && js[r.at] == '"'
    decreases |js| - i
  {
    if AtEnd(js, i) then Cut
    else if js[i] == '"' then Closed(i)
    else if js[i] == '\\' && i + 1 < |js| then
      if IsEscape(js[i + 1]) then StringEnd(js, i + 2)
      else if js[i + 1] != 'u' then Broken
      else
        var j := HexRun(js, i + 2, 4);
        if j == -1 then Broken else StringEnd(js, j)
    else StringEnd(js, i + 1)
  }

  /** The lexeme at the cursor and the position after it. */
  function LexAt(js: string, pos: nat): (r: (Lexeme, nat))
    requires !AtEnd(js, pos)
    ensures !r.0.Bad? ==> pos < r.1 <= |js|
  {
    var c := js[pos];
    if c == '{' then (Open(Object), pos + 1)
    else if c == '[' then (Open(Array), pos + 1)
    else if c == '}' then (Close(Object), pos + 1)
    else if c == ']' then (Close(Array), pos + 1)
    else if c == '"' then
      match StringEnd(js, pos + 1)
      case Closed(at) => (Scalar(String, pos + 1, at), at + 1)
      case Broken => (Bad(INVAL), pos)
      case Cut => (Bad(PART), pos)
    else if IsBlank(c) then (Blank, pos + 1)
    else if c == ':' then (Colon, pos + 1)
    else if c == ',' then (Comma, pos + 1)
    else
      var e := PrimitiveEnd(js, pos);
      if e == -1 then (Bad(INVAL), pos)
      else
        FirstIsPrimitive(js, pos);
        (Scalar(Primitive, pos, e), e)
  }

  lemma FirstIsPrimitive(js: string, pos: nat)
    requires !AtEnd(js, pos) && !IsDelimiter(js[pos]) && PrimitiveEnd(js, pos) != -1
    ensures pos < PrimitiveEnd(js, pos) <= |js|
  {
    assert PrimitiveEnd(js, pos) == PrimitiveEnd(js, pos + 1);
  }

  predicate IsToken(lx: Lexeme) {
    lx.Open? || lx.Scalar?
  }
}
