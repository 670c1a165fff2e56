/**
 Commands on the socket: `json_to_str_parm`, which picks a name and a value out of a message by
 token position, `atoi`, and the messages the client sends.
 */
module Commands {
  import opened Lexer
  import opened Tokens
  import opened TokenFacts
  import opened Json
  import opened Lexemes
  import opened RoundTrip
  import J = Jsmn

  const FIELD: nat := 64  // the size of the caller's name and value buffers

  // ---------- C strings ----------

  /** The string a NUL-terminated buffer holds. */
  function CStr(buf: string): (s: string)
    ensures |s| <= |buf| && s == buf[..|s|]
    ensures forall i :: 0 <= i < |s| ==> s[i] != '\0'
  {
    if buf == "" || buf[0] == '\0' then "" else [buf[0]] + CStr(buf[1..])
  }

  lemma {:induction false} CStrIs(buf: string, s: string)
    requires |s| < |buf| && buf[..|s|] == s && buf[|s|] == '\0' && forall i :: 0 <= i < |s| ==> s[i] != '\0'
    ensures CStr(buf) == s
    decreases |s|
  {
    if s != "" {
      assert buf[0] == s[0];
      assert buf[1..][..|s| - 1] == s[1..];
      CStrIs(buf[1..], s[1..]);
    }
  }

  /** `strncpy(dst, src, |src|)` of a NUL-free source, and the terminator written after it. */
  method CopyField(dst: array<char>, src: string)
    requires |src| < dst.Length && forall i :: 0 <= i < |src| ==> src[i] != '\0'
    modifies dst
    ensures CStr(dst[..]) == src
  {
    for i := 0 to |src|
      invariant dst[..i] == src[..i]
    {
      dst[i] := src[i];
    }
    dst[|src|] := '\0';
    assert dst[..][..|src|] == src;
    CStrIs(dst[..], src);
  }

  // ---------- json_to_str_parm ----------

  datatype Pair = Malformed | Pair(name: string, value: string)

  function Span(js: string, t: Token): string {
    if 0 <= t.start <= t.end <= |js| then js[t.start..t.end] else ""
  }

  function Parsed(js: string): (PState, int) {
    Run(Scan, js, INIT, 5)
  }

  /** With 2 or 4 tokens the code reads one that was never filled, and a field of 64 characters or
      more does not fit: what it does on such messages is not defined. */
  predicate Defined(js: string) {
    var (t, r) := Parsed(js);
    r < 2 || (r in {3, 5} && |t.nodes| == r && |Span(js, t.nodes[2].tok)| < FIELD
              && (r == 5 ==> |Span(js, t.nodes[4].tok)| < FIELD))
  }

  /** The third token is the name, the fifth the value. */
  function FieldsOf(js: string): Pair
    requires Defined(js)
  {
    var (t, r) := Parsed(js);
    if r < 2 then Malformed
    else Pair(Span(js, t.nodes[2].tok), if r > 3 then Span(js, t.nodes[4].tok) else "")
  }

  method JsonToStrParm(jsonstr: string, nameStr: array<char>, valStr: array<char>) returns (ok: bool)
    requires Defined(CStr(jsonstr)) && nameStr != valStr && nameStr.Length == valStr.Length == FIELD
    modifies nameStr, valStr
    ensures ok <==> Parsed(CStr(jsonstr)).1 >= 2
    ensures ok ==>
              var (t, r) := Parsed(CStr(jsonstr));
              && CStr(nameStr[..]) == Span(CStr(jsonstr), t.nodes[2].tok)
              && CStr(valStr[..]) == if r == 5 then Span(CStr(jsonstr), t.nodes[4].tok) else ""
    ensures ok <==> FieldsOf(CStr(jsonstr)).Pair?
    ensures ok ==> FieldsOf(CStr(jsonstr)) == Pair(CStr(nameStr[..]), CStr(valStr[..]))
    ensures !ok ==> CStr(nameStr[..]) == CStr(valStr[..]) == ""
  {
    var js := CStr(jsonstr);
    var p := new J.Parser();
    var t := new Token[5](_ => Token(Undefined, 0, 0, 0));
    assert INIT.nodes == [] && t[..0] == [];
    var r := p.Parse(js, t, 5);
    if r < 2 {
      CopyField(valStr, "");
      CopyField(nameStr, "");
      return false;
    }
    TokensAreSpans(js, t[..], r);
    CopyField(nameStr, js[t[2].start..t[2].end]);
    if r > 3 {
      CopyField(valStr, js[t[4].start..t[4].end]);
    } else {
      CopyField(valStr, "");
    }
    return true;
  }

  lemma TokensAreSpans(js: string, t: seq<Token>, r: int)
    requires Defined(js) && Parsed(js).1 == r >= 2 && |t| == 5 && t[..r] == Erase(Parsed(js).0.nodes)
    ensures t[2] == Parsed(js).0.nodes[2].tok && 0 <= t[2].start <= t[2].end <= |js|
    ensures r > 3 ==> t[4] == Parsed(js).0.nodes[4].tok && 0 <= t[4].start <= t[4].end <= |js|
  {
    Success(js, 5);
    assert t[2] == t[..r][2] && Delimited(js, Parsed(js).0.nodes[2].tok);
    if r > 3 { assert t[4] == t[..r][4] && Delimited(js, Parsed(js).0.nodes[4].tok); }
  }

  // ---------- messages of a name and a value ----------

  /** What the parser hands over for a scalar: the text between the quotes, escapes as written. */
  function Raw(v: Value): string {
    if v.Str? then BodyText(v.body) else Text(v)
  }

  /** An object of two members with scalar values, whatever its keys and whitespace. */
  predicate IsCommand(doc: Padded) {
    && PaddedOk(doc) && doc.v.Obj? && doc.v.members.MoreMembers? && doc.v.members.more.LastMember?
    && !IsBracketed(doc.v.members.item.v) && !IsBracketed(doc.v.members.more.item.v)
  }

  function NameOf(doc: Padded): string
    requires IsCommand(doc)
  {
    Raw(doc.v.members.item.v)
  }

  function ValueOf(doc: Padded): string
    requires IsCommand(doc)
  {
    Raw(doc.v.members.more.item.v)
  }

  /** Command round trip: `json_to_str_parm` has room for exactly those messages whose two values are
      shorter than the buffers, and hands back exactly the two values. */
  lemma CommandDecodes(doc: Padded)
    requires IsCommand(doc)
    ensures Defined(PaddedText(doc)) <==> |NameOf(doc)| < FIELD && |ValueOf(doc)| < FIELD
    ensures Defined(PaddedText(doc)) ==> FieldsOf(PaddedText(doc)) == Pair(NameOf(doc), ValueOf(doc))
  {
    hide Run, PaddedOk, PaddedText, Nodes, Span, Raw, Text;
    var js, ms := PaddedText(doc), doc.v.members;
    var at1 := FirstAt(doc);
    var at2 := SecondAt(doc);
    CommandNodes(doc);
    ParsePrinted(Scan, doc, 5);
    CommandLayout(doc);
    ScalarSpan(js, at1, ms.item.v, 1, 2);
    ScalarSpan(js, at2, ms.more.item.v, 3, 4);
  }

  /** Where the texts of the two values start. */
  function FirstAt(doc: Padded): nat
    requires doc.v.Obj?
  {
    |doc.before| + 1 + |KeyText(doc.v.members.key)| + 1 + |doc.v.members.item.before|
  }

  function SecondAt(doc: Padded): nat
    requires doc.v.Obj? && doc.v.members.MoreMembers?
  {
    var ms := doc.v.members;
    |doc.before| + 1 + |MemberText(ms.key, ms.item)| + 1 + |KeyText(ms.more.key)| + 1 + |ms.more.item.before|
  }

  lemma CommandNodes(doc: Padded)
    requires IsCommand(doc)
    ensures Size(doc.v) == 5 == |Nodes(doc.v, |doc.before|, -1, 0)|
    ensures Nodes(doc.v, |doc.before|, -1, 0)[2] == Nodes(doc.v.members.item.v, FirstAt(doc), 1, 2)[0]
    ensures Nodes(doc.v, |doc.before|, -1, 0)[4] == Nodes(doc.v.members.more.item.v, SecondAt(doc), 3, 4)[0]
  {
    hide PaddedOk, Text, BodyText;
    var ms, pos := doc.v.members, |doc.before| + 1;
    var first := Nodes(ms.item.v, FirstAt(doc), 1, 2);
    var second := Nodes(ms.more.item.v, SecondAt(doc), 3, 4);
    assert |first| == |second| == 1;
    var tail := MemberNodes(ms.more, pos + |MemberText(ms.key, ms.item)| + 1, 0, 3);
    assert tail == [KeyNode(ms.more.key, pos + |MemberText(ms.key, ms.item)| + 1, 0)] + second;
    assert MemberNodes(ms, pos, 0, 1) == [KeyNode(ms.key, pos, 0)] + first + tail;
    assert MembersSize(ms.more) == 2 && MembersSize(ms) == 4;
  }

  lemma CommandLayout(doc: Padded)
    requires IsCommand(doc)
    ensures At(PaddedText(doc), FirstAt(doc), Text(doc.v.members.item.v))
    ensures At(PaddedText(doc), SecondAt(doc), Text(doc.v.members.more.item.v))
  {
    hide At, KeyText, BodyText, PaddedOk, MemberText;
    var js, ms := PaddedText(doc), doc.v.members;
    var pos := |doc.before| + 1;
    ObjectAt(doc);
    MembersAt(js, pos, ms);
    MemberValueAt(js, pos, ms.key, ms.item);
    MemberValueAt(js, pos + |MemberText(ms.key, ms.item)| + 1, ms.more.key, ms.more.item);
  }

  lemma ObjectAt(doc: Padded)
    requires doc.v.Obj?
    ensures At(PaddedText(doc), |doc.before| + 1, MembersText(doc.v.members))
  {
    var js, ms := PaddedText(doc), doc.v.members;
    assert At(js, 0, js);
    AtSplit(js, 0, doc.before + Text(doc.v), doc.after);
    AtSplit(js, 0, doc.before, Text(doc.v));
    BetweenBrackets(js, |doc.before|, "{", MembersText(ms), "}");
  }

  lemma MembersAt(js: string, pos: nat, ms: Members)
    requires ms.MoreMembers? && ms.more.LastMember? && At(js, pos, MembersText(ms))
    ensures At(js, pos, MemberText(ms.key, ms.item))
    ensures At(js, pos + |MemberText(ms.key, ms.item)| + 1, MemberText(ms.more.key, ms.more.item))
  {
    var m1 := MemberText(ms.key, ms.item);
    AtSplit(js, pos, m1 + ",", MembersText(ms.more));
    AtSplit(js, pos, m1, ",");
  }

  lemma MemberValueAt(js: string, pos: nat, k: Key, p: Padded)
    requires At(js, pos, MemberText(k, p))
    ensures At(js, pos + |KeyText(k)| + 1 + |p.before|, Text(p.v))
  {
    AtSplit(js, pos, KeyText(k) + ":", PaddedText(p));
    AtSplit(js, pos + |KeyText(k)| + 1, p.before + Text(p.v), p.after);
    AtSplit(js, pos + |KeyText(k)| + 1, p.before, Text(p.v));
  }

  lemma ScalarSpan(js: string, pos: nat, v: Value, parent: int, base: nat)
    requires At(js, pos, Text(v)) && !IsBracketed(v)
    ensures Span(js, Nodes(v, pos, parent, base)[0].tok) == Raw(v)
  {
    if v.Str? {
      AtSplit(js, pos, "\"" + BodyText(v.body), "\"");
      AtSplit(js, pos, "\"", BodyText(v.body));
    }
  }

  // ---------- messages of one member ----------

  /** An object of one member with a scalar value, such as `{"name":"otaCancel"}`. */
  predicate IsSingle(doc: Padded) {
    PaddedOk(doc) && doc.v.Obj? && doc.v.members.LastMember? && !IsBracketed(doc.v.members.item.v)
  }

  /** Its value is the name, and there is no value. */
  lemma SingleDecodes(doc: Padded)
    requires IsSingle(doc)
    ensures Defined(PaddedText(doc)) <==> |Raw(doc.v.members.item.v)| < FIELD
    ensures Defined(PaddedText(doc)) ==> FieldsOf(PaddedText(doc)) == Pair(Raw(doc.v.members.item.v), "")
  {
    hide Run, PaddedOk, PaddedText, Nodes, Span, Raw, Text, At, KeyText;
    var v := doc.v.members.item.v;
    SingleNodes(doc);
    ParsePrinted(Scan, doc, 5);
    ObjectAt(doc);
    MemberValueAt(PaddedText(doc), |doc.before| + 1, doc.v.members.key, doc.v.members.item);
    ScalarSpan(PaddedText(doc), FirstAt(doc), v, 1, 2);
  }

  lemma SingleNodes(doc: Padded)
    requires IsSingle(doc)
    ensures Size(doc.v) == 3 == |Nodes(doc.v, |doc.before|, -1, 0)|
    ensures Nodes(doc.v, |doc.before|, -1, 0)[2] == Nodes(doc.v.members.item.v, FirstAt(doc), 1, 2)[0]
  {
    hide PaddedOk, Text, BodyText;
    var ms, pos := doc.v.members, |doc.before| + 1;
    var first := Nodes(ms.item.v, FirstAt(doc), 1, 2);
    assert |first| == 1;
    assert MemberNodes(ms, pos, 0, 1) == [KeyNode(ms.key, pos, 0)] + first;
    assert MembersSize(ms) == 2;
  }

  // ---------- the client's messages ----------

  function HexChar(n: nat): char
    requires n < 16
  {
    if n < 10 then '0' + n as char else 'a' + (n - 10) as char
  }

  /** How `JSON.stringify` writes one character of a string. */
  function Quoted(c: char): (u: StrChar)
    ensures CharOk(u)
  {
    if c == '"' || c == '\\' then Escape(c)
    else if c == '\U{08}' then Escape('b')
    else if c == '\U{0C}' then Escape('f')
    else if c == '\n' then Escape('n')
    else if c == '\r' then Escape('r')
    else if c == '\t' then Escape('t')
    else if c < ' ' then Unicode(['0', '0', HexChar(c as int / 16), HexChar(c as int % 16)])
    else Plain(c)
  }

  function QuotedBody(s: string): (body: seq<StrChar>)
    ensures BodyOk(body)
  {
    if s == "" then [] else [Quoted(s[0])] + QuotedBody(s[1..])
  }

  function HexValue(c: char): nat
    requires HexDigit(c)
  {
    if c <= '9' then c as int - '0' as int
    else if c <= 'F' then c as int - 'A' as int + 10
    else c as int - 'a' as int + 10
  }

  /** The character a unit of a string stands for after section 7 of RFC 8259. */
  predicate Means(u: StrChar, c: char)
    requires CharOk(u)
  {
    match u
    case Plain(p) => p == c
    case Escape(e) =>
      (e, c) in {('"', '"'), ('\\', '\\'), ('/', '/'), ('b', '\U{08}'), ('f', '\U{0C}'), ('n', '\n'), ('r', '\r'),
                 ('t', '\t')}
    case Unicode(d) =>
      c as int == 4096 * HexValue(d[0]) + 256 * HexValue(d[1]) + 16 * HexValue(d[2]) + HexValue(d[3])
  }

  lemma {:induction false} QuotedMeans(s: string)
    ensures var body := QuotedBody(s); |body| == |s| && forall i :: 0 <= i < |s| ==> Means(body[i], s[i])
    decreases |s|
  {
    if s != "" {
      QuotedMeans(s[1..]);
      CharMeans(s[0]);
    }
  }

  lemma CharMeans(c: char)
    ensures Means(Quoted(c), c)
  {
    assert forall n: nat :: n < 16 ==> HexValue(HexChar(n)) == n;
  }

  /** What stands between the quotes. */
  function Written(s: string): string {
    BodyText(QuotedBody(s))
  }

  /** Characters a JSON string shows as themselves. */
  predicate Unescaped(s: string) {
    forall i :: 0 <= i < |s| ==> ' ' <= s[i] && s[i] != '"' && s[i] != '\\'
  }

  /** A string is written as itself exactly if none of its characters needs an escape. */
  lemma {:induction false} WrittenIff(s: string)
    ensures Written(s) == s <==> Unescaped(s)
    ensures |Written(s)| >= |s| && (|Written(s)| == |s| <==> Unescaped(s))
    decreases |s|
  {
    if s != "" {
      WrittenIff(s[1..]);
      var u := Quoted(s[0]);
      assert QuotedBody(s)[0] == u && QuotedBody(s)[1..] == QuotedBody(s[1..]);
      assert Written(s) == CharText(u) + Written(s[1..]);
      assert s == [s[0]] + s[1..];
      assert Unescaped(s) <==> Unescaped([s[0]]) && Unescaped(s[1..]);
      assert Unescaped([s[0]]) <==> u.Plain?;
    }
  }

  /** `JSON.stringify({name: .., value: ..})`. */
  function Message(name: string, value: Value): Padded {
    Padded("", Obj(MoreMembers(Key("", QuotedBody("name"), ""), Padded("", Str(QuotedBody(name)), ""),
                               LastMember(Key("", QuotedBody("value"), ""), Padded("", value, "")))), "")
  }

  function Stringify(name: string, value: Value): string {
    PaddedText(Message(name, value))
  }

  lemma MessageOk(name: string, value: Value)
    requires ValueOk(value) && !IsBracketed(value)
    ensures IsCommand(Message(name, value))
    ensures NameOf(Message(name, value)) == Written(name) && ValueOf(Message(name, value)) == Raw(value)
  {
    hide QuotedBody, BodyOk;
    var last := LastMember(Key("", QuotedBody("value"), ""), Padded("", value, ""));
    assert MembersOk(last);
    assert PaddedOk(Padded("", Str(QuotedBody(name)), ""));
    assert MembersOk(Message(name, value).v.members);
    assert ValueOk(Message(name, value).v) && PaddedOk(Message(name, value));
  }

  lemma {:induction false} WholeCStr(s: string)
    requires NoNul(s)
    ensures CStr(s) == s
    decreases |s|
  {
    if s != "" {
      assert NoNul(s[1..]);
      WholeCStr(s[1..]);
    }
  }

  /** The device's `strlen` sees the whole message. */
  lemma StringifyIsCStr(name: string, value: Value)
    requires ValueOk(value) && !IsBracketed(value)
    ensures Stringify(name, value) != "" && CStr(Stringify(name, value)) == Stringify(name, value)
  {
    hide Message, IsCommand;
    MessageOk(name, value);
    CommandNotEmpty(Message(name, value));
    PaddedNoNul(Message(name, value));
    WholeCStr(Stringify(name, value));
  }

  lemma CommandNotEmpty(doc: Padded)
    requires IsCommand(doc)
    ensures PaddedOk(doc) && PaddedText(doc) != ""
  {
    assert |Text(doc.v)| >= 2;
  }

  /** The device undoes no escapes: it receives name and value as written, if both fit, and so the
      name itself if and only if none of its characters needs an escape. */
  lemma MessageDecodes(name: string, value: Value)
    requires ValueOk(value) && !IsBracketed(value)
    ensures var text := Stringify(name, value);
            && (Defined(text) <==> |Written(name)| < FIELD && |Raw(value)| < FIELD)
            && (Defined(text) ==>
                  && FieldsOf(text) == Pair(Written(name), Raw(value))
                  && (FieldsOf(text).name == name <==> Unescaped(name)))
  {
    hide Message, IsCommand, NameOf, ValueOf, Defined, FieldsOf, Raw, Written, Unescaped;
    MessageOk(name, value);
    CommandDecodes(Message(name, value));
    WrittenIff(name);
  }

  // ---------- numbers ----------

  const INT_MAX: int := 0x7FFF_FFFF

  function Digit(n: nat): char
    requires n < 10
  {
    '0' + n as char
  }

  /** The decimal text of a number. */
  function Decimal(n: nat): (s: string)
    ensures Digits(s) && (|s| > 1 ==> s[0] != '0') && (n > 0 ==> s[0] != '0')
  {
    if n < 10 then [Digit(n)] else Decimal(n / 10) + [Digit(n % 10)]
  }

  predicate IsSpace(c: char) {
    c in {' ', '\t', '\n', '\r', '\U{0B}', '\U{0C}'}
  }

  function LeadingDigits(s: string, acc: nat): nat {
    if s == "" || !('0' <= s[0] <= '9') then acc
    else LeadingDigits(s[1..], 10 * acc + (s[0] as int - '0' as int))
  }

  function Clamp(n: int): int {
    if n > INT_MAX then INT_MAX else if n < -INT_MAX - 1 then -INT_MAX - 1 else n
  }

  /** `atoi`, saturating as a `strtol`-based implementation does. */
  function Atoi(s: string): (n: int)
    ensures -INT_MAX - 1 <= n <= INT_MAX
  {
    if s != "" && IsSpace(s[0]) then Atoi(s[1..])
    else if s != "" && s[0] == '-' then Clamp(-(LeadingDigits(s[1..], 0) as int))
    else if s != "" && s[0] == '+' then Clamp(LeadingDigits(s[1..], 0))
    else Clamp(LeadingDigits(s, 0))
  }

  lemma {:induction false} LeadingAppend(s: string, c: char, acc: nat)
    requires (forall i :: 0 <= i < |s| ==> '0' <= s[i] <= '9') && '0' <= c <= '9'
    ensures LeadingDigits(s + [c], acc) == 10 * LeadingDigits(s, acc) + (c as int - '0' as int)
    decreases |s|
  {
    if s != "" {
      assert (s + [c])[1..] == s[1..] + [c];
      LeadingAppend(s[1..], c, 10 * acc + (s[0] as int - '0' as int));
    } else {
      assert LeadingDigits([c], acc) == LeadingDigits("", 10 * acc + (c as int - '0' as int));
    }
  }

  predicate AllDigits(d: string) {
    forall i :: 0 <= i < |d| ==> '0' <= d[i] <= '9'
  }

  /** The number a string of digits stands for. */
  function Numeral(d: string): nat
    requires AllDigits(d)
  {
    if d == "" then 0 else 10 * Numeral(d[..|d| - 1]) + (d[|d| - 1] as int - '0' as int)
  }

  lemma {:induction false} LeadingIsNumeral(d: string)
    requires AllDigits(d)
    ensures LeadingDigits(d, 0) == Numeral(d)
    decreases |d|
  {
    if d != "" {
      var init := d[..|d| - 1];
      LeadingIsNumeral(init);
      assert d == init + [d[|d| - 1]];
      LeadingAppend(init, d[|d| - 1], 0);
    }
  }

  /** Printed numbers stand for themselves. */
  lemma {:induction false} DecimalNumeral(n: nat)
    ensures Numeral(Decimal(n)) == n
    decreases n
  {
    if n < 10 {
      assert Numeral("") == 0 && Decimal(n)[..0] == "";
    } else {
      DecimalNumeral(n / 10);
      assert Decimal(n)[..|Decimal(n)| - 1] == Decimal(n / 10);
    }
  }

  lemma {:induction false} LeadingStops(s: string, rest: string, acc: nat)
    requires (forall i :: 0 <= i < |s| ==> '0' <= s[i] <= '9') && (rest == "" || !('0' <= rest[0] <= '9'))
    ensures LeadingDigits(s + rest, acc) == LeadingDigits(s, acc)
    decreases |s|
  {
    if s == "" {
      assert s + rest == rest;
    } else {
      assert (s + rest)[1..] == s[1..] + rest;
      LeadingStops(s[1..], rest, 10 * acc + (s[0] as int - '0' as int));
    }
  }

  /** The six characters of C's `isspace`. */
  predicate White(c: char) {
    '\t' <= c <= '\r' || c == ' '
  }

  /** White space, a sign, digits, and what is not part of the number. */
  predicate Parts(ws: string, sign: string, d: string, rest: string) {
    && (forall i :: 0 <= i < |ws| ==> White(ws[i])) && sign in {"", "+", "-"} && AllDigits(d)
    && (rest == "" || !('0' <= rest[0] <= '9'))
    && (sign == "" && d == "" && rest != "" ==> !White(rest[0]) && rest[0] !in {'+', '-'})
  }

  lemma MoreWhite(c: char, ws: string, sign: string, d: string, rest: string)
    requires White(c) && Parts(ws, sign, d, rest)
    ensures Parts([c] + ws, sign, d, rest) && [c] + (ws + (sign + (d + rest))) == [c] + ws + (sign + (d + rest))
  {
  }

  lemma {:induction false} NumberParts(s: string) returns (sign: string, d: string, rest: string)
    requires s != "" ==> !White(s[0])
    ensures Parts("", sign, d, rest) && s == sign + (d + rest)
  {
    sign := if s == "" then "" else if s[0] == '+' then "+" else if s[0] == '-' then "-" else "";
    assert s == sign + s[|sign|..];
    d, rest := DigitsOf(s[|sign|..]);
    if sign == "" { assert s[0..] == s; }
  }

  /** Every text has these parts. */
  lemma {:induction false} PartsOf(s: string) returns (ws: string, sign: string, d: string, rest: string)
    ensures Parts(ws, sign, d, rest) && s == ws + (sign + (d + rest))
    decreases |s|
  {
    hide Parts, White;
    if s != "" && White(s[0]) {
      ws, sign, d, rest := PartsOf(s[1..]);
      MoreWhite(s[0], ws, sign, d, rest);
      assert s == [s[0]] + s[1..];
      ws := [s[0]] + ws;
    } else {
      ws := "";
      sign, d, rest := NumberParts(s);
      assert ws + s == s;
    }
  }

  lemma {:induction false} DigitsOf(s: string) returns (d: string, rest: string)
    ensures AllDigits(d) && s == d + rest && (rest == "" || !('0' <= rest[0] <= '9'))
    ensures d == "" ==> rest == s
    decreases |s|
  {
    if s == "" || !('0' <= s[0] <= '9') {
      d, rest := "", s;
    } else {
      d, rest := DigitsOf(s[1..]);
      d := s[..1] + d;
    }
  }

  function Saturated(n: int): int {
    if n > 0x7FFF_FFFF then 0x7FFF_FFFF else if n < -0x8000_0000 then -0x8000_0000 else n
  }

  lemma AtoiSigned(sign: string, number: string)
    requires sign in {"+", "-"}
    ensures Atoi(sign + number) ==
              Saturated(if sign == "-" then -(LeadingDigits(number, 0) as int) else LeadingDigits(number, 0))
  {
    hide LeadingDigits;
    assert (sign + number)[0] == sign[0] && (sign + number)[1..] == number;
  }

  lemma AtoiUnsigned(number: string)
    requires number != "" ==> !White(number[0]) && number[0] !in {'+', '-'}
    ensures Atoi(number) == Saturated(LeadingDigits(number, 0))
  {
    hide LeadingDigits;
  }

  lemma AtoiNumber(sign: string, d: string, rest: string)
    requires Parts("", sign, d, rest)
    ensures Atoi(sign + (d + rest)) == Saturated(if sign == "-" then -(Numeral(d) as int) else Numeral(d))
  {
    hide LeadingDigits, Numeral, Atoi, Saturated;
    LeadingIsNumeral(d);
    LeadingStops(d, rest, 0);
    if sign == "" {
      assert sign + (d + rest) == d + rest;
      if d == "" { assert d + rest == rest; }
      AtoiUnsigned(d + rest);
    } else {
      AtoiSigned(sign, d + rest);
    }
  }

  /** `atoi` skips white space, takes a sign, reads a number and ignores what follows it; without digits
      it yields 0, beyond the range of `int` the nearest end. */
  lemma {:induction false} AtoiReads(ws: string, sign: string, d: string, rest: string)
    requires Parts(ws, sign, d, rest)
    ensures Atoi(ws + (sign + (d + rest))) == Saturated(if sign == "-" then -(Numeral(d) as int) else Numeral(d))
    decreases |ws|
  {
    hide LeadingDigits, Numeral, Saturated;
    var number := sign + (d + rest);
    if ws == "" {
      AtoiNumber(sign, d, rest);
      assert ws + number == number;
    } else {
      assert (ws + number)[1..] == ws[1..] + number;
      AtoiReads(ws[1..], sign, d, rest);
    }
  }

  /** `atoi` reads back what was printed. */
  lemma AtoiDecimal(n: nat)
    requires n <= INT_MAX
    ensures Atoi(Decimal(n)) == n
  {
    AtoiReads("", "", Decimal(n), "");
    DecimalNumeral(n);
    assert "" + ("" + (Decimal(n) + "")) == Decimal(n);
  }

  lemma {:induction false} DecimalShort(n: nat, k: nat)
    requires n < Pow10(k) && k > 0
    ensures |Decimal(n)| <= k
    decreases k
  {
    if n >= 10 { DecimalShort(n / 10, k - 1); }
  }

  function Pow10(k: nat): nat {
    if k == 0 then 1 else 10 * Pow10(k - 1)
  }

  function NumberValue(n: nat): Value {
    Num(Number(false, Decimal(n), "", ""))
  }

  /** A number sent by the client under any name that fits arrives as its decimal text, whose `atoi`
      is the number, and the name arrives as itself if and only if it needs no escapes. */
  lemma NumberDecodes(name: string, n: nat)
    requires |Written(name)| < FIELD && n <= INT_MAX
    ensures var text := Stringify(name, NumberValue(n));
            && Defined(text) && FieldsOf(text) == Pair(Written(name), Decimal(n)) && Atoi(Decimal(n)) == n
            && (FieldsOf(text).name == name <==> Unescaped(name))
  {
    hide Defined, FieldsOf, Stringify, Decimal, Atoi, Written;
    var v := NumberValue(n);
    assert Raw(v) == Decimal(n) by {
      assert "" + Decimal(n) + "" + "" == Decimal(n);
    }
    assert Pow10(10) == 10000000000;
    DecimalShort(n, 10);
    MessageDecodes(name, v);
    AtoiDecimal(n);
  }

  /** Likewise a string. */
  lemma StringDecodes(name: string, s: string)
    requires |Written(name)| < FIELD && |Written(s)| < FIELD
    ensures var text := Stringify(name, Str(QuotedBody(s)));
            && Defined(text) && FieldsOf(text) == Pair(Written(name), Written(s))
            && (FieldsOf(text) == Pair(name, s) <==> Unescaped(name) && Unescaped(s))
  {
    hide Defined, FieldsOf, Stringify, QuotedBody;
    MessageDecodes(name, Str(QuotedBody(s)));
    WrittenIff(name);
    WrittenIff(s);
  }
}
