// The JSON grammar the status-request scanner accepts, as concrete syntax trees:
// sections 2 to 7 of RFC 8259, except that leading zeros are allowed in numbers.
// A tree keeps every byte of its text, whitespace included.

module JsonGrammar {
  import opened Prelude
  import Utf8

  datatype Json =
    | Str(body: seq<byte>)
    | Num(number: Number)
    | Lit(literal: Literal)
    | EmptyObj(pad: seq<byte>)
    | Obj(pad: seq<byte>, members: Members)
    | EmptyArr(pad: seq<byte>)
    | Arr(pad: seq<byte>, items: Items)

  datatype Literal = True | False | Null

  datatype Number = Number(minus: bool, whole: seq<byte>, frac: Option<seq<byte>>, exp: Option<Exponent>)

  datatype Exponent = Exponent(mark: byte, sign: Option<byte>, digits: seq<byte>)

  // `"key" ws : ws value ws`
  datatype Member = Member(key: seq<byte>, w0: seq<byte>, w1: seq<byte>, value: Json, w2: seq<byte>)

  // `gap` is the whitespace behind a comma.
  datatype Members = LastMember(m: Member) | MoreMembers(m: Member, gap: seq<byte>, rest: Members)

  datatype Items =
    | LastItem(value: Json, w: seq<byte>)
    | MoreItems(value: Json, w: seq<byte>, gap: seq<byte>, rest: Items)

  datatype Document = Document(before: seq<byte>, root: Json, after: seq<byte>)

  predicate IsWs(b: byte) { b == SPACE || b == TAB || b == CR || b == LF }

  predicate Ws(s: seq<byte>) { forall k :: 0 <= k < |s| ==> IsWs(s[k]) }

  // The characters that may follow a backslash, `u` aside.
  predicate IsSimpleEscape(b: byte) {
    b == QUOTE || b == BACKSLASH || b == SLASH ||
    b == 0x62 || b == 0x66 || b == 0x6E || b == 0x72 || b == 0x74
  }

  const LETTER_U: byte := 0x75

  // The characters of a string, escapes not decoded.
  predicate Chars(s: seq<byte>)
    decreases |s|
  {
    s == [] ||
    if s[0] == BACKSLASH then
      if |s| >= 2 && IsSimpleEscape(s[1]) then Chars(s[2..])
      else |s| >= 6 && s[1] == LETTER_U && (forall k :: 2 <= k < 6 ==> IsHexDigit(s[k])) && Chars(s[6..])
    else s[0] >= 0x20 && s[0] != QUOTE && Chars(s[1..])
  }

  predicate StringBody(s: seq<byte>) { Chars(s) && Utf8.Valid(s) }

  predicate Digits(s: seq<byte>) { s != [] && AllDigits(s) }

  predicate IsExponentMark(b: byte) { b == 0x65 || b == 0x45 }

  predicate IsSign(b: byte) { b == PLUS || b == MINUS }

  predicate WfExp(e: Option<Exponent>) {
    e.Some? ==> IsExponentMark(e.value.mark) && Digits(e.value.digits) &&
                (e.value.sign.Some? ==> IsSign(e.value.sign.value))
  }

  predicate WfNumber(n: Number) {
    Digits(n.whole) && (n.frac.Some? ==> Digits(n.frac.value)) && WfExp(n.exp)
  }

  predicate Wf(v: Json) {
    match v
    case Str(body) => StringBody(body)
    case Num(n) => WfNumber(n)
    case Lit(_) => true
    case EmptyObj(pad) => Ws(pad)
    case Obj(pad, ms) => Ws(pad) && WfMembers(ms)
    case EmptyArr(pad) => Ws(pad)
    case Arr(pad, xs) => Ws(pad) && WfItems(xs)
  }

  predicate WfMember(m: Member) {
    StringBody(m.key) && Ws(m.w0) && Ws(m.w1) && Wf(m.value) && Ws(m.w2)
  }

  predicate WfMembers(ms: Members) {
    WfMember(ms.m) && (ms.MoreMembers? ==> Ws(ms.gap) && WfMembers(ms.rest))
  }

  predicate WfItems(xs: Items) {
    Wf(xs.value) && Ws(xs.w) && (xs.MoreItems? ==> Ws(xs.gap) && WfItems(xs.rest))
  }

  // A request document: one object with optional whitespace around it.
  predicate WfDocument(d: Document) {
    Ws(d.before) && Ws(d.after) && Wf(d.root) && (d.root.Obj? || d.root.EmptyObj?)
  }

  function LiteralText(l: Literal): (s: seq<byte>)
    ensures 4 <= |s|
  {
    match l
    case True => [0x74, 0x72, 0x75, 0x65]
    case False => [0x66, 0x61, 0x6C, 0x73, 0x65]
    case Null => [0x6E, 0x75, 0x6C, 0x6C]
  }

  function FracText(f: Option<seq<byte>>): seq<byte> { if f.Some? then [DOT] + f.value else [] }

  function SignText(s: Option<byte>): seq<byte> { if s.Some? then [s.value] else [] }

  function ExpText(e: Option<Exponent>): seq<byte> {
    if e.Some? then [e.value.mark] + (SignText(e.value.sign) + e.value.digits) else []
  }

  function MinusText(minus: bool): seq<byte> { if minus then [MINUS] else [] }

  function NumberText(n: Number): seq<byte> {
    MinusText(n.minus) + (n.whole + (FracText(n.frac) + ExpText(n.exp)))
  }

  function StringText(body: seq<byte>): seq<byte> { [QUOTE] + (body + [QUOTE]) }

  function Text(v: Json): (s: seq<byte>)
  {
    match v
    case Str(body) => StringText(body)
    case Num(n) => NumberText(n)
    case Lit(l) => LiteralText(l)
    case EmptyObj(pad) => [LBRACE] + (pad + [RBRACE])
    case Obj(pad, ms) => [LBRACE] + (pad + MembersText(ms))
    case EmptyArr(pad) => [LBRACKET] + (pad + [RBRACKET])
    case Arr(pad, xs) => [LBRACKET] + (pad + ItemsText(xs))
  }

  function MemberText(m: Member): seq<byte> {
    StringText(m.key) + (m.w0 + ([COLON] + (m.w1 + (Text(m.value) + m.w2))))
  }

  // The text of the members with the closing brace.
  function MembersText(ms: Members): seq<byte> {
    match ms
    case LastMember(m) => MemberText(m) + [RBRACE]
    case MoreMembers(m, gap, rest) => MemberText(m) + ([COMMA] + (gap + MembersText(rest)))
  }

  // The text of the items with the closing bracket.
  function ItemsText(xs: Items): seq<byte> {
    match xs
    case LastItem(v, w) => Text(v) + (w + [RBRACKET])
    case MoreItems(v, w, gap, rest) => Text(v) + (w + ([COMMA] + (gap + ItemsText(rest))))
  }

  function DocumentText(d: Document): seq<byte> { d.before + (Text(d.root) + d.after) }

  // The value of the first member with this key.
  function First(ms: Members, key: seq<byte>): Option<Json> {
    if ms.m.key == key then Some(ms.m.value)
    else if ms.MoreMembers? then First(ms.rest, key)
    else None
  }

  function FirstIn(v: Json, key: seq<byte>): Option<Json> {
    if v.Obj? then First(v.members, key) else None
  }

  // The members in the order they are written.
  function InOrder(ms: Members): (s: seq<Member>)
    ensures s != []
  {
    match ms
    case LastMember(m) => [m]
    case MoreMembers(m, _, rest) => [m] + InOrder(rest)
  }

  // The `k`th member has this key and value, and none before it has the key.
  predicate IsFirst(s: seq<Member>, k: nat, key: seq<byte>, v: Json) {
    k < |s| && s[k].key == key && s[k].value == v && forall j :: 0 <= j < k ==> s[j].key != key
  }

  lemma IsFirstBehind(m: Member, t: seq<Member>, k: nat, key: seq<byte>, v: Json)
    requires m.key != key
    ensures !IsFirst([m] + t, 0, key, v) && (IsFirst([m] + t, k + 1, key, v) <==> IsFirst(t, k, key, v))
  {
    var s := [m] + t;
    assert forall j :: 0 <= j < |t| ==> s[j + 1] == t[j];
    assert forall j :: 0 < j < |s| ==> s[j] == t[j - 1];
  }

  lemma FirstBehind(m: Member, t: seq<Member>, key: seq<byte>, v: Json)
    requires m.key != key
    ensures (exists k: nat :: IsFirst([m] + t, k, key, v)) <==> (exists k: nat :: IsFirst(t, k, key, v))
  {
    hide IsFirst;
    if k: nat :| IsFirst(t, k, key, v) {
      IsFirstBehind(m, t, k, key, v);
      assert IsFirst([m] + t, k + 1, key, v);
    }
    if k: nat :| IsFirst([m] + t, k, key, v) {
      IsFirstBehind(m, t, 0, key, v);
      IsFirstBehind(m, t, k - 1, key, v);
      assert IsFirst(t, k - 1, key, v);
    }
  }

  lemma {:induction false} FirstIff(ms: Members, key: seq<byte>, v: Json)
    ensures First(ms, key) == Some(v) <==> exists k: nat :: IsFirst(InOrder(ms), k, key, v)
  {
    if ms.m.key == key {
      FirstHere(ms.m, InOrder(ms), key, v);
    } else if ms.LastMember? {
      assert InOrder(ms) == [ms.m];
      FirstBehind(ms.m, [], key, v);
      assert [ms.m] + [] == [ms.m];
    } else {
      FirstIff(ms.rest, key, v);
      FirstBehind(ms.m, InOrder(ms.rest), key, v);
      assert InOrder(ms) == [ms.m] + InOrder(ms.rest);
      assert First(ms, key) == Some(v) <==> exists k: nat :: IsFirst(InOrder(ms.rest), k, key, v);
      assert First(ms, key) == Some(v) <==> exists k: nat :: IsFirst([ms.m] + InOrder(ms.rest), k, key, v);
    }
  }

  lemma FirstHere(m: Member, s: seq<Member>, key: seq<byte>, v: Json)
    requires s != [] && s[0] == m && m.key == key
    ensures (exists k: nat :: IsFirst(s, k, key, v)) <==> m.value == v
  {
    if m.value == v {
      assert IsFirst(s, 0, key, v);
    }
  }

  // The grammar's characters and literals, as RFC 8259 spells them.
  lemma Spelling(b: byte)
    ensures IsWs(b) <==> OneOf(b, " \t\n\r")
    ensures IsSimpleEscape(b) <==> OneOf(b, "\"\\/bfnrt")
    ensures IsExponentMark(b) <==> OneOf(b, "eE")
    ensures IsSign(b) <==> OneOf(b, "+-")
    ensures b == LETTER_U <==> OneOf(b, "u")
    ensures Spells(LiteralText(True), "true") && Spells(LiteralText(False), "false") && Spells(LiteralText(Null), "null")
  {
    var ws, escapes, marks, signs, u := " \t\n\r", "\"\\/bfnrt", "eE", "+-", "u";
    assert ws[0] == ' ' && ws[1] == '\t' && ws[2] == '\n' && ws[3] == '\r';
    assert escapes[0] == '"' && escapes[1] == '\\' && escapes[2] == '/' && escapes[3] == 'b';
    assert escapes[4] == 'f' && escapes[5] == 'n' && escapes[6] == 'r' && escapes[7] == 't';
    assert marks[0] == 'e' && marks[1] == 'E' && signs[0] == '+' && signs[1] == '-' && u[0] == 'u';
  }
}
