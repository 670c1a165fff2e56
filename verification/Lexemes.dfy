/**
 Exactly which strings and primitives the lexer accepts and which it rejects, on every text, in the
 characters of RFC 8259 and without its own scanning functions.
 */
module Lexemes {
  import opened Bytes
  import opened Lexer
  import opened Json

  /** `t` occurs in `js` at `pos`. */
  predicate At(js: string, pos: nat, t: string) {
    pos + |t| <= |js| && js[pos..pos + |t|] == t
  }

  lemma AtSplit(js: string, pos: nat, a: string, b: string)
    requires At(js, pos, a + b)
    ensures At(js, pos, a) && At(js, pos + |a|, b)
  {
    assert js[pos..pos + |a + b|][..|a|] == js[pos..pos + |a|];
    assert js[pos..pos + |a + b|][|a|..] == js[pos + |a|..pos + |a + b|];
  }

  lemma AtChar(js: string, pos: nat, t: string, i: nat)
    requires At(js, pos, t) && i < |t|
    ensures js[pos + i] == t[i]
  {
    assert js[pos..pos + |t|][i] == js[pos + i];
  }

  lemma AtTail(js: string, pos: nat, t: string)
    requires At(js, pos, t) && t != ""
    ensures At(js, pos + 1, t[1..])
  {
    assert t == t[..1] + t[1..];
    AtSplit(js, pos, t[..1], t[1..]);
  }

  // ---------- four hexadecimal digits ----------

  predicate Hexes(js: string, i: nat, k: nat) {
    i + k <= |js| && forall j :: i <= j < i + k ==> HexDigit(js[j])
  }

  /** Fewer than `n` digits, and then another character. */
  predicate BadDigit(js: string, i: nat, n: nat, k: nat) {
    k < n && Hexes(js, i, k) && i + k < |js| && js[i + k] != '\0' && !HexDigit(js[i + k])
  }

  /** Fewer than `n` digits, and then the end. */
  predicate DigitsEnd(js: string, i: nat, n: nat, k: nat) {
    k < n && Hexes(js, i, k) && (i + k == |js| || js[i + k] == '\0')
  }

  lemma {:induction false} HexRunIs(js: string, i: nat, n: nat, k: nat)
    requires i <= |js|
    ensures BadDigit(js, i, n, k) ==> HexRun(js, i, n) == -1
    ensures DigitsEnd(js, i, n, k) ==> HexRun(js, i, n) == i + k
    ensures Hexes(js, i, n) ==> HexRun(js, i, n) == i + n
    decreases n
  {
    if n > 0 && !AtEnd(js, i) && IsHex(js[i]) {
      HexRunIs(js, i + 1, n - 1, if k == 0 then 0 else k - 1);
    }
  }

  /** How far the digits go. */
  lemma {:induction false} HexRunStops(js: string, i: nat, n: nat) returns (k: nat)
    requires i <= |js|
    ensures BadDigit(js, i, n, k) || DigitsEnd(js, i, n, k) || (k == n && Hexes(js, i, n))
    decreases n
  {
    if n == 0 || AtEnd(js, i) || !HexDigit(js[i]) {
      k := 0;
    } else {
      k := HexRunStops(js, i + 1, n - 1);
      k := k + 1;
    }
  }

  /** After `\\u`: not four digits, because another character comes, or because the text ends. */
  ghost predicate FourBroken(js: string, i: nat) {
    exists k :: BadDigit(js, i, 4, k)
  }

  ghost predicate FourCut(js: string, i: nat) {
    exists k :: DigitsEnd(js, i, 4, k)
  }

  // ---------- strings ----------

  /** Section 7 as the lexer takes it: any character stands for itself but quote, backslash and NUL. */
  predicate UnitOk(u: StrChar) {
    match u
    case Plain(c) => c !in {'"', '\\', '\0'}
    case _ => CharOk(u)
  }

  /** From `i` to `p` the text is the contents of a string. */
  ghost predicate Reads(js: string, i: nat, body: seq<StrChar>, p: nat) {
    && (forall k :: 0 <= k < |body| ==> UnitOk(body[k]))
    && At(js, i, BodyText(body)) && p == i + |BodyText(body)|
  }

  predicate Quote(js: string, p: nat) {
    p < |js| && js[p] == '"'
  }

  /** A backslash, and behind it none of the characters of section 7; or `u`, and behind that another
      character before four hexadecimal digits are complete. */
  ghost predicate BadEscape(js: string, p: nat) {
    && p + 1 < |js| && js[p] == '\\'
    && if js[p + 1] == 'u' then FourBroken(js, p + 2)
       else js[p + 1] !in {'"', '\\', '/', 'b', 'f', 'n', 'r', 't'}
  }

  /** The end of the text, also in the middle of an escape. */
  ghost predicate CutOff(js: string, p: nat) {
    || p == |js|
    || (p < |js| && js[p] == '\0')
    || (p + 1 == |js| && js[p] == '\\')
    || (p + 1 < |js| && js[p] == '\\' && js[p + 1] == 'u' && FourCut(js, p + 2))
  }

  lemma BodySplit(body: seq<StrChar>)
    requires body != []
    ensures BodyText(body) == CharText(body[0]) + BodyText(body[1..])
  {
  }

  lemma ReadsMore(js: string, i: nat, u: StrChar, body: seq<StrChar>, p: nat)
    requires UnitOk(u) && At(js, i, CharText(u)) && Reads(js, i + |CharText(u)|, body, p)
    ensures Reads(js, i, [u] + body, p)
  {
    hide UnitOk, CharText, BodyText;
    assert ([u] + body)[1..] == body;
    BodySplit([u] + body);
  }

  lemma ReadsLess(js: string, i: nat, body: seq<StrChar>, p: nat)
    requires Reads(js, i, body, p) && body != []
    ensures UnitOk(body[0]) && At(js, i, CharText(body[0])) && Reads(js, i + |CharText(body[0])|, body[1..], p)
  {
    hide UnitOk, CharText, BodyText, At;
    BodySplit(body);
    AtSplit(js, i, CharText(body[0]), BodyText(body[1..]));
  }

  lemma UnitSkipped(js: string, i: nat, u: StrChar)
    requires UnitOk(u) && At(js, i, CharText(u))
    ensures StringEnd(js, i) == StringEnd(js, i + |CharText(u)|)
  {
    AtChar(js, i, CharText(u), 0);
    match u
    case Plain(c) =>
    case Escape(c) => AtChar(js, i, CharText(u), 1);
    case Unicode(d) =>
      AtChar(js, i, CharText(u), 1);
      AtSplit(js, i, "\\u", d);
      forall j | i + 2 <= j < i + 6 ensures HexDigit(js[j]) { AtChar(js, i + 2, d, j - i - 2); }
      HexRunIs(js, i + 2, 4, 0);
  }

  lemma {:induction false} BodySkipped(js: string, i: nat, body: seq<StrChar>, p: nat)
    requires Reads(js, i, body, p)
    ensures StringEnd(js, i) == StringEnd(js, p)
    decreases |body|
  {
    hide StringEnd, At, UnitOk, CharText;
    if body != [] {
      ReadsLess(js, i, body, p);
      UnitSkipped(js, i, body[0]);
      BodySkipped(js, i + |CharText(body[0])|, body[1..], p);
    }
  }

  lemma StringStops(js: string, p: nat)
    ensures Quote(js, p) ==> StringEnd(js, p) == Closed(p)
    ensures BadEscape(js, p) ==> StringEnd(js, p) == Broken
    ensures CutOff(js, p) ==> StringEnd(js, p) == Cut
  {
    if p + 1 < |js| && js[p] == '\\' && js[p + 1] == 'u' {
      var k := HexRunStops(js, p + 2, 4);
      HexRunIs(js, p + 2, 4, k);
    }
  }

  /** The lexer reads contents as far as there are any, and then stops for one of three reasons. */
  lemma {:induction false} StringReads(js: string, i: nat) returns (body: seq<StrChar>, p: nat)
    requires i <= |js|
    ensures Reads(js, i, body, p) && (Quote(js, p) || BadEscape(js, p) || CutOff(js, p))
    decreases |js| - i
  {
    hide Reads;
    NothingRead(js, i);
    body, p := [], i;
    if i + 1 < |js| && js[i] == '\\' && js[i + 1] in {'"', '\\', '/', 'b', 'f', 'n', 'r', 't'} {
      body, p := StringReads(js, i + 2);
      ReadsMore(js, i, Escape(js[i + 1]), body, p);
      body := [Escape(js[i + 1])] + body;
    } else if i + 1 < |js| && js[i] == '\\' && js[i + 1] == 'u' {
      var k := HexRunStops(js, i + 2, 4);
      if Hexes(js, i + 2, 4) {
        var u := Unicode(js[i + 2..i + 6]);
        assert CharText(u) == js[i..i + 6];
        body, p := StringReads(js, i + 6);
        ReadsMore(js, i, u, body, p);
        body := [u] + body;
      }
    } else if i < |js| && js[i] !in {'"', '\\', '\0'} {
      body, p := StringReads(js, i + 1);
      ReadsMore(js, i, Plain(js[i]), body, p);
      body := [Plain(js[i])] + body;
    }
  }

  lemma NothingRead(js: string, i: nat)
    requires i <= |js|
    ensures Reads(js, i, [], i)
  {
  }

  /** A string lexeme with its opening quote before `i`, told from the text alone: it is accepted, up to
      the quote at `at`, if and only if what is before that quote is contents; it is rejected if and
      only if after some contents comes an escape that is none; and it is incomplete if and only if
      after some contents the text ends. */
  lemma StringIff(js: string, i: nat, at: nat)
    requires 0 < i <= |js| && js[i - 1] == '"'
    ensures LexAt(js, i - 1) == (Scalar(String, i, at), at + 1) <==>
              Quote(js, at) && exists body :: Reads(js, i, body, at)
    ensures LexAt(js, i - 1).0 == Bad(INVAL) <==> exists body, p :: Reads(js, i, body, p) && BadEscape(js, p)
    ensures LexAt(js, i - 1).0 == Bad(PART) <==> exists body, p :: Reads(js, i, body, p) && CutOff(js, p)
  {
    hide Reads, BadEscape, CutOff, StringEnd;
    var body, p := StringReads(js, i);
    BodySkipped(js, i, body, p);
    StringStops(js, p);
    forall b, q | Reads(js, i, b, q)
      ensures Quote(js, q) ==> StringEnd(js, i) == Closed(q)
      ensures BadEscape(js, q) ==> StringEnd(js, i) == Broken
      ensures CutOff(js, q) ==> StringEnd(js, i) == Cut
    {
      BodySkipped(js, i, b, q);
      StringStops(js, q);
    }
  }

  /** Contents as RFC 8259 has them, with their quote behind. */
  lemma BodyEnds(js: string, i: nat, body: seq<StrChar>)
    requires BodyOk(body) && At(js, i, BodyText(body) + "\"")
    ensures StringEnd(js, i) == Closed(i + |BodyText(body)|)
  {
    hide StringEnd;
    AtSplit(js, i, BodyText(body), "\"");
    AtChar(js, i + |BodyText(body)|, "\"", 0);
    forall k | 0 <= k < |body| ensures UnitOk(body[k]) { assert CharOk(body[k]); }
    BodySkipped(js, i, body, i + |BodyText(body)|);
    StringStops(js, i + |BodyText(body)|);
  }

  // ---------- primitives ----------

  /** What a primitive may consist of, and what ends it. */
  predicate InPrimitive(c: char) {
    '!' <= c <= '~' && c !in {':', ',', ']', '}'}
  }

  predicate EndsPrimitive(js: string, e: nat) {
    e == |js| || (e < |js| && js[e] in {'\0', '\t', '\r', '\n', ' ', ':', ',', ']', '}'})
  }

  predicate AllPrimitive(js: string, i: nat, e: nat) {
    i <= e <= |js| && forall k :: i <= k < e ==> InPrimitive(js[k])
  }

  lemma {:induction false} PrimitiveIs(js: string, i: nat, e: nat)
    requires AllPrimitive(js, i, e)
    ensures EndsPrimitive(js, e) ==> PrimitiveEnd(js, i) == e
    ensures !EndsPrimitive(js, e) && !InPrimitive(js[e]) ==> PrimitiveEnd(js, i) == -1
    decreases e - i
  {
    if i < e { PrimitiveIs(js, i + 1, e); }
  }

  lemma {:induction false} PrimitiveReads(js: string, i: nat) returns (e: nat)
    requires i <= |js|
    ensures AllPrimitive(js, i, e) && (EndsPrimitive(js, e) || !InPrimitive(js[e]))
    decreases |js| - i
  {
    if i < |js| && InPrimitive(js[i]) { e := PrimitiveReads(js, i + 1); } else { e := i; }
  }

  /** A primitive lexeme: accepted up to `e` if and only if nothing but its characters come before `e`
      and one that ends it is there; rejected if and only if another character comes first. */
  lemma PrimitiveIff(js: string, pos: nat, e: nat)
    requires pos < |js| && js[pos] !in {'{', '[', '"'} && !EndsPrimitive(js, pos)
    ensures LexAt(js, pos) == (Scalar(Primitive, pos, e), e) <==> AllPrimitive(js, pos, e) && EndsPrimitive(js, e)
    ensures LexAt(js, pos).0 == Bad(INVAL) <==>
              exists k: nat :: AllPrimitive(js, pos, k) && !EndsPrimitive(js, k) && !InPrimitive(js[k])
  {
    var f := PrimitiveReads(js, pos);
    PrimitiveIs(js, pos, f);
    forall k: nat | AllPrimitive(js, pos, k)
      ensures EndsPrimitive(js, k) ==> PrimitiveEnd(js, pos) == k
      ensures !EndsPrimitive(js, k) && !InPrimitive(js[k]) ==> PrimitiveEnd(js, pos) == -1
    {
      PrimitiveIs(js, pos, k);
    }
  }
}
