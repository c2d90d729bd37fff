// The bounded-buffer payload printers, and the round trip through the scanner.

module StatusResponse {
  import opened Prelude
  import opened JsonGrammar
  import opened ScanSpec
  import StatusTheorems
  import Utf8

  datatype EncodeError = Truncated

  // ----- The payloads -----

  // `{"uuid":"`
  const UUID_KEY: seq<byte> := [0x7B, 0x22, 0x75, 0x75, 0x69, 0x64, 0x22, 0x3A, 0x22]
  // `","result":{"open":`
  const RESULT_KEY: seq<byte> :=
    [0x22, 0x2C, 0x22, 0x72, 0x65, 0x73, 0x75, 0x6C, 0x74, 0x22, 0x3A, 0x7B, 0x22, 0x6F, 0x70, 0x65, 0x6E, 0x22, 0x3A]
  // `,"version":`
  const VERSION_KEY: seq<byte> := [0x2C, 0x22, 0x76, 0x65, 0x72, 0x73, 0x69, 0x6F, 0x6E, 0x22, 0x3A]
  // `}}`
  const CLOSE: seq<byte> := [RBRACE, RBRACE]
  // `{"open":`
  const OPEN_KEY: seq<byte> := [0x7B, 0x22, 0x6F, 0x70, 0x65, 0x6E, 0x22, 0x3A]

  function Flag(open: bool): Literal { if open then True else False }

  function ResponseText(uuid: seq<byte>, open: bool, version: u32): seq<byte> {
    UUID_KEY + uuid + RESULT_KEY + LiteralText(Flag(open)) + VERSION_KEY + Decimal(version) + CLOSE
  }

  function OnchangeText(open: bool): seq<byte> { OPEN_KEY + LiteralText(Flag(open)) + [RBRACE] }

  // The buffer behind `text` written over its start.
  function Overlay(buf: seq<byte>, text: seq<byte>): seq<byte>
    requires |text| <= |buf|
  {
    text + buf[|text|..]
  }

  // The buffer holds a prefix of `text` in front of its old bytes.
  predicate PartlyWritten(before: seq<byte>, after: seq<byte>, text: seq<byte>) {
    exists k: nat :: k <= |text| && k <= |before| && after == Overlay(before, text[..k])
  }

  // ----- The printers: each appends the next piece of a payload `text` -----

  method Write(buf: array<byte>, pos: nat, payload: seq<byte>, ghost before: seq<byte>, ghost text: seq<byte>)
    returns (r: Result<nat, EncodeError>)
    requires |before| == buf.Length && pos <= buf.Length && At(text, pos, payload)
    requires buf[..] == Overlay(before, text[..pos])
    modifies buf
    ensures r == if pos + |payload| <= buf.Length then Ok(pos + |payload|) else Err(Truncated)
    ensures if r.Ok? then buf[..] == Overlay(before, text[..r.value]) else PartlyWritten(before, buf[..], text)
  {
    var end := pos + |payload|;
    if end > buf.Length {
      return Err(Truncated);
    }
    forall k | 0 <= k < |payload| {
      buf[pos + k] := payload[k];
    }
    assert text[..end] == text[..pos] + payload;
    r := Ok(end);
  }

  // The digit loop: the decimal digits of `value`, last digit first.
  method ReversedDigits(value: u32) returns (digits: array<byte>, len: nat)
    ensures fresh(digits) && digits.Length == 10
    ensures len == |Decimal(value)| <= 10
    ensures forall k :: 0 <= k < len ==> digits[k] == Decimal(value)[len - 1 - k]
  {
    hide Decimal;
    ghost var text := Decimal(value);
    TenDigits(value);
    LastDigit(value);
    digits := new byte[10];
    len := 0;
    if value == 0 {
      digits[0] := 0x30;
      len := 1;
    } else {
      var rest := value;
      while rest > 0
        invariant 0 <= len <= |text|
        invariant if rest == 0 then len == |text| else text[..|text| - len] == Decimal(rest)
        invariant forall k :: 0 <= k < len ==> digits[k] == text[|text| - 1 - k]
      {
        digits[len] := 0x30 + rest % 10;
        LastDigit(rest);
        rest := rest / 10;
        len := len + 1;
      }
    }
  }

  lemma LastDigit(n: nat)
    ensures var s := Decimal(n);
            s[|s| - 1] == 0x30 + n % 10 && if n < 10 then |s| == 1 else s[..|s| - 1] == Decimal(n / 10)
  {
  }

  lemma TenDigits(value: u32)
    ensures |Decimal(value)| <= 10
  {
    DecimalLength(value, 10);
    assert Pow10(5) == 100000;
    assert Pow10(10) == 100000 * Pow10(5);
  }

  // Writes `value` as bare decimal digits, byte by byte, until the buffer is full.
  method WriteU32(buf: array<byte>, pos: nat, value: u32, ghost before: seq<byte>, ghost text: seq<byte>)
    returns (r: Result<nat, EncodeError>)
    requires |before| == buf.Length && pos <= buf.Length && At(text, pos, Decimal(value))
    requires buf[..] == Overlay(before, text[..pos])
    modifies buf
    ensures r == if pos + |Decimal(value)| <= buf.Length then Ok(pos + |Decimal(value)|) else Err(Truncated)
    ensures if r.Ok? then buf[..] == Overlay(before, text[..r.value]) else PartlyWritten(before, buf[..], text)
  {
    var digits, len := ReversedDigits(value);
    var at, index := pos, len;
    AtSplit(text, pos, Decimal(value), 0);
    while index > 0
      invariant 0 <= index <= len && at == pos + (len - index) <= buf.Length
      invariant buf[..] == Overlay(before, text[..at])
      invariant forall k :: 0 <= k < len ==> digits[k] == text[pos + len - 1 - k]
    {
      index := index - 1;
      if at >= buf.Length {
        return Err(Truncated);
      }
      OverlayNext(before, text, at);
      buf[at] := digits[index];
      at := at + 1;
    }
    r := Ok(at);
  }

  // One more byte of `text` overlays one more byte of the buffer.
  lemma OverlayNext(before: seq<byte>, text: seq<byte>, n: nat)
    requires n < |text| && n < |before|
    ensures Overlay(before, text[..n])[n := text[n]] == Overlay(before, text[..n + 1])
  {
    assert text[..n + 1] == text[..n] + [text[n]];
  }

  // Returns the written bytes exactly when they are the encoding of some text.
  method Finish(buf: array<byte>, len: nat) returns (r: Result<seq<byte>, EncodeError>)
    requires len <= buf.Length
    ensures r.Ok? <==> exists cs: seq<Utf8.Scalar> :: Utf8.Encode(cs) == buf[..len]
    ensures r.Ok? ==> r.value == buf[..len]
  {
    Utf8.ValidIffEncoding(buf[..len]);
    r := if Utf8.Valid(buf[..len]) then Ok(buf[..len]) else Err(Truncated);
  }

  // Succeeds exactly when the payload fits, and then has written it and nothing else.
  method FormatOnchange(buf: array<byte>, open: bool) returns (r: Result<seq<byte>, EncodeError>)
    modifies buf
    ensures var text := OnchangeText(open);
            r == if |text| <= buf.Length then Ok(text) else Err(Truncated)
    ensures buf[..] == if r.Ok? then Overlay(old(buf[..]), OnchangeText(open)) else old(buf[..])
  {
    hide OnchangeText, Utf8.Valid, Utf8.Encode;
    var text := OnchangeText(open);
    if |text| > buf.Length {
      return Err(Truncated);
    }
    forall k | 0 <= k < |text| {
      buf[k] := text[k];
    }
    OnchangeIsAscii(open);
    Utf8.AsciiIsValid(text);
    Utf8.ValidIffEncoding(text);
    assert buf[..|text|] == text;
    r := Finish(buf, |text|);
  }

  lemma OnchangeIsAscii(open: bool)
    ensures forall k :: 0 <= k < |OnchangeText(open)| ==> OnchangeText(open)[k] < 0x80
  {
  }

  // Succeeds exactly when the payload fits, and then has written it and nothing
  // else; otherwise the buffer holds a prefix of it.
  method FormatStatusResponse(buf: array<byte>, uuid: seq<byte>, open: bool, version: u32)
    returns (r: Result<seq<byte>, EncodeError>)
    requires Utf8.Valid(uuid)
    modifies buf
    ensures var text := ResponseText(uuid, open, version);
            r == if |text| <= buf.Length then Ok(text) else Err(Truncated)
    ensures var text := ResponseText(uuid, open, version);
            if r.Ok? then buf[..] == Overlay(old(buf[..]), text)
            else PartlyWritten(old(buf[..]), buf[..], text)
  {
    hide ResponseText, Overlay, PartlyWritten, LiteralText, Flag, Decimal, At, Utf8.Valid;
    ghost var before, text := buf[..], ResponseText(uuid, open, version);
    Pieces(uuid, open, version);
    NothingWritten(before, text);
    var w := Write(buf, 0, UUID_KEY, before, text);
    if w.Err? {
      return Err(w.error);
    }
    w := Write(buf, w.value, uuid, before, text);
    if w.Err? {
      return Err(w.error);
    }
    w := Write(buf, w.value, RESULT_KEY, before, text);
    if w.Err? {
      return Err(w.error);
    }
    w := Write(buf, w.value, LiteralText(Flag(open)), before, text);
    if w.Err? {
      return Err(w.error);
    }
    w := Write(buf, w.value, VERSION_KEY, before, text);
    if w.Err? {
      return Err(w.error);
    }
    w := WriteU32(buf, w.value, version, before, text);
    if w.Err? {
      return Err(w.error);
    }
    w := Write(buf, w.value, CLOSE, before, text);
    if w.Err? {
      return Err(w.error);
    }
    ResponseIsValid(uuid, open, version);
    Utf8.ValidIffEncoding(text);
    OverlayStarts(before, text);
    assert text[..w.value] == text;
    r := Finish(buf, w.value);
  }

  lemma Pieces(uuid: seq<byte>, open: bool, version: u32)
    ensures var text := ResponseText(uuid, open, version);
            var p1 := |UUID_KEY|;
            var p2 := p1 + |uuid|;
            var p3 := p2 + |RESULT_KEY|;
            var p4 := p3 + |LiteralText(Flag(open))|;
            var p5 := p4 + |VERSION_KEY|;
            var p6 := p5 + |Decimal(version)|;
            At(text, 0, UUID_KEY) && At(text, p1, uuid) && At(text, p2, RESULT_KEY) &&
            At(text, p3, LiteralText(Flag(open))) && At(text, p4, VERSION_KEY) &&
            At(text, p5, Decimal(version)) && At(text, p6, CLOSE) && |text| == p6 + |CLOSE|
  {
    hide LiteralText, Flag, Decimal, At;
    PiecesAt(UUID_KEY, uuid, RESULT_KEY, LiteralText(Flag(open)), VERSION_KEY, Decimal(version), CLOSE);
  }

  lemma PiecesAt(a: seq<byte>, b: seq<byte>, c: seq<byte>, d: seq<byte>, e: seq<byte>, f: seq<byte>, g: seq<byte>)
    ensures var text := a + b + c + d + e + f + g;
            At(text, 0, a) && At(text, |a|, b) && At(text, |a| + |b|, c) && At(text, |a| + |b| + |c|, d) &&
            At(text, |a| + |b| + |c| + |d|, e) && At(text, |a| + |b| + |c| + |d| + |e|, f) &&
            At(text, |a| + |b| + |c| + |d| + |e| + |f|, g)
  {
    var text := a + b + c + d + e + f + g;
    assert At(text, 0, text);
    hide At;
    AtConcat(text, 0, a + b + c + d + e + f, g);
    AtConcat(text, 0, a + b + c + d + e, f);
    AtConcat(text, 0, a + b + c + d, e);
    AtConcat(text, 0, a + b + c, d);
    AtConcat(text, 0, a + b, c);
    AtConcat(text, 0, a, b);
  }

  lemma NothingWritten(before: seq<byte>, text: seq<byte>)
    ensures Overlay(before, text[..0]) == before
  {
  }

  lemma OverlayStarts(before: seq<byte>, text: seq<byte>)
    requires |text| <= |before|
    ensures Overlay(before, text)[..|text|] == text
  {
  }

  // The exact size of a response: 41 bytes around its three variable parts.
  lemma ResponseSize(uuid: seq<byte>, open: bool, version: u32)
    ensures |ResponseText(uuid, open, version)| ==
            41 + |uuid| + |LiteralText(Flag(open))| + |Decimal(version)|
    ensures |uuid| <= 64 ==> |ResponseText(uuid, open, version)| <= 120
  {
    TenDigits(version);
  }

  lemma ThenAscii(a: seq<byte>, b: seq<byte>)
    requires Utf8.Valid(a) && forall k :: 0 <= k < |b| ==> b[k] < 0x80
    ensures Utf8.Valid(a + b)
  {
    Utf8.AsciiIsValid(b);
    Utf8.ValidConcat(a, b);
  }

  lemma ResponseIsValid(uuid: seq<byte>, open: bool, version: u32)
    requires Utf8.Valid(uuid)
    ensures Utf8.Valid(ResponseText(uuid, open, version))
  {
    hide Utf8.Valid;
    Utf8.AsciiIsValid(UUID_KEY);
    Utf8.ValidConcat(UUID_KEY, uuid);
    ThenAscii(UUID_KEY + uuid, RESULT_KEY);
    ThenAscii(UUID_KEY + uuid + RESULT_KEY, LiteralText(Flag(open)));
    ThenAscii(UUID_KEY + uuid + RESULT_KEY + LiteralText(Flag(open)), VERSION_KEY);
    ThenAscii(UUID_KEY + uuid + RESULT_KEY + LiteralText(Flag(open)) + VERSION_KEY, Decimal(version));
    ThenAscii(UUID_KEY + uuid + RESULT_KEY + LiteralText(Flag(open)) + VERSION_KEY + Decimal(version), CLOSE);
  }

  // ----- Round trip -----

  // The keys `result`, `open` and `version`.
  const RESULT: seq<byte> := [0x72, 0x65, 0x73, 0x75, 0x6C, 0x74]
  const OPEN: seq<byte> := [0x6F, 0x70, 0x65, 0x6E]
  const VERSION: seq<byte> := [0x76, 0x65, 0x72, 0x73, 0x69, 0x6F, 0x6E]

  // The number a JSON value denotes, when it is an unsigned integer.
  function UnsignedValue(v: Json): Option<nat> {
    if v.Num? && !v.number.minus && v.number.frac.None? && v.number.exp.None? && AllDigits(v.number.whole)
    then Some(DecimalValue(v.number.whole))
    else None
  }

  function Plain(key: seq<byte>, value: Json): Member { Member(key, [], [], value, []) }

  function ResultObject(open: bool, version: u32): Json {
    var number := Num(Number(false, Decimal(version), None, None));
    Pair(Plain(OPEN, Lit(Flag(open))), Plain(VERSION, number))
  }

  function ResponseDocument(uuid: seq<byte>, open: bool, version: u32): Document {
    Document([], Pair(Plain(UUID, Str(uuid)), Plain(RESULT, ResultObject(open, version))), [])
  }

  // `"key":`
  function KeyText(key: seq<byte>): seq<byte> { [QUOTE] + key + [QUOTE, COLON] }

  lemma PlainText(key: seq<byte>, value: Json)
    ensures MemberText(Plain(key, value)) == KeyText(key) + Text(value)
  {
    hide Text;
  }

  // An object of two plain members is written without whitespace.
  lemma PairText(m: Member, n: Member)
    ensures Text(Pair(m, n)) ==
            [LBRACE] + MemberText(m) + [COMMA] + MemberText(n) + [RBRACE]
  {
    hide MemberText;
    var last := LastMember(n);
    assert MembersText(last) == MemberText(n) + [RBRACE];
    assert MembersText(MoreMembers(m, [], last)) == MemberText(m) + ([COMMA] + ([] + MembersText(last)));
  }

  function Pair(m: Member, n: Member): Json { Obj([], MoreMembers(m, [], LastMember(n))) }

  lemma PairFacts(m: Member, n: Member)
    requires m.key != n.key
    ensures Wf(Pair(m, n)) <==> WfMember(m) && WfMember(n)
    ensures FirstIn(Pair(m, n), m.key) == Some(m.value)
    ensures FirstIn(Pair(m, n), n.key) == Some(n.value)
  {
    hide WfMember;
    assert WfMembers(LastMember(n)) <==> WfMember(n);
    assert First(LastMember(n), n.key) == Some(n.value);
  }

  lemma KeyConstants()
    ensures UUID_KEY == [LBRACE] + KeyText(UUID) + [QUOTE]
    ensures RESULT_KEY == [QUOTE, COMMA] + KeyText(RESULT) + [LBRACE] + KeyText(OPEN)
    ensures VERSION_KEY == [COMMA] + KeyText(VERSION)
  {
  }

  lemma ResponseTextIs(uuid: seq<byte>, open: bool, version: u32)
    ensures DocumentText(ResponseDocument(uuid, open, version)) == ResponseText(uuid, open, version)
  {
    var root := ResponseDocument(uuid, open, version).root;
    var number := Num(Number(false, Decimal(version), None, None));
    assert DocumentText(ResponseDocument(uuid, open, version)) == Text(root) by { hide Text; }
    assert Text(number) == Decimal(version);
    assert Text(Str(uuid)) == [QUOTE] + uuid + [QUOTE];
    hide KeyText, LiteralText, MemberText, Text;
    PairText(Plain(UUID, Str(uuid)), Plain(RESULT, ResultObject(open, version)));
    PairText(Plain(OPEN, Lit(Flag(open))), Plain(VERSION, number));
    PlainText(UUID, Str(uuid));
    PlainText(RESULT, ResultObject(open, version));
    PlainText(OPEN, Lit(Flag(open)));
    PlainText(VERSION, number);
    LitText(Flag(open));
    KeyConstants();
    Regroup(KeyText(UUID), uuid, KeyText(RESULT), KeyText(OPEN), LiteralText(Flag(open)), KeyText(VERSION), Decimal(version));
  }

  lemma LitText(l: Literal)
    ensures Text(Lit(l)) == LiteralText(l)
  {
  }

  lemma Regroup(k0: seq<byte>, u: seq<byte>, k1: seq<byte>, k2: seq<byte>, l: seq<byte>, k3: seq<byte>, n: seq<byte>)
    ensures var inner := [LBRACE] + (k2 + l) + [COMMA] + (k3 + n) + [RBRACE];
            [LBRACE] + (k0 + ([QUOTE] + u + [QUOTE])) + [COMMA] + (k1 + inner) + [RBRACE] ==
            ([LBRACE] + k0 + [QUOTE]) + u + ([QUOTE, COMMA] + k1 + [LBRACE] + k2) + l + ([COMMA] + k3) + n + CLOSE
  {
  }

  lemma {:induction false} FirstIsWf(ms: Members, key: seq<byte>)
    requires WfMembers(ms) && First(ms, key).Some?
    ensures Wf(First(ms, key).value)
  {
    if ms.m.key == key {
    } else {
      FirstIsWf(ms.rest, key);
    }
  }

  // What the scanner accepts as a uuid is the body of a JSON string, and not empty.
  lemma AcceptedIsBody(request: seq<byte>, uuid: seq<byte>)
    requires StatusRequest(request) == Ok(uuid)
    ensures uuid != [] && StringBody(uuid)
  {
    StatusTheorems.AcceptedIff(request, uuid);
    var d :| StatusTheorems.IsDocument(request, d) && FirstIn(d.root, UUID) == Some(Str(uuid));
    FirstIsWf(d.root.members, UUID);
  }

  // The response to an accepted request is itself accepted, with the same uuid,
  // and its nested `result` carries the flag and the version number.
  lemma RoundTrip(request: seq<byte>, uuid: seq<byte>, open: bool, version: u32)
    requires StatusRequest(request) == Ok(uuid)
    ensures var text := ResponseText(uuid, open, version);
            StatusRequest(text) == Ok(uuid) &&
            exists d, result :: StatusTheorems.IsDocument(text, d) && FirstIn(d.root, RESULT) == Some(result) &&
              FirstIn(result, OPEN) == Some(Lit(if open then True else False)) &&
              FirstIn(result, VERSION).Some? && UnsignedValue(FirstIn(result, VERSION).value) == Some(version)
  {
    var text, d, result := ResponseText(uuid, open, version), ResponseDocument(uuid, open, version), ResultObject(open, version);
    AcceptedIsBody(request, uuid);
    ResponseTextIs(uuid, open, version);
    ResponseIsWf(uuid, open, version);
    ResponseMembers(uuid, open, version);
    assert StatusTheorems.IsDocument(text, d) by { hide DocumentText, WfDocument, ResponseText; }
    hide StatusTheorems.IsDocument, FirstIn, ResponseText, UnsignedValue;
    StatusTheorems.AcceptedIff(text, uuid);
  }

  lemma ResponseIsWf(uuid: seq<byte>, open: bool, version: u32)
    requires StringBody(uuid)
    ensures WfDocument(ResponseDocument(uuid, open, version))
  {
    var number := Num(Number(false, Decimal(version), None, None));
    assert Wf(number) && Wf(Lit(Flag(open))) && Wf(Str(uuid));
    hide StringBody, Wf, WfMember;
    KeysAreBodies();
    ResponseMembers(uuid, open, version);
    PlainIsWf(OPEN, Lit(Flag(open)));
    PlainIsWf(VERSION, number);
    PairFacts(Plain(OPEN, Lit(Flag(open))), Plain(VERSION, number));
    PlainIsWf(UUID, Str(uuid));
    PlainIsWf(RESULT, ResultObject(open, version));
    PairFacts(Plain(UUID, Str(uuid)), Plain(RESULT, ResultObject(open, version)));
  }

  lemma PlainIsWf(key: seq<byte>, value: Json)
    requires StringBody(key) && Wf(value)
    ensures WfMember(Plain(key, value))
  {
  }

  lemma ResponseMembers(uuid: seq<byte>, open: bool, version: u32)
    ensures var root, result := ResponseDocument(uuid, open, version).root, ResultObject(open, version);
            FirstIn(root, UUID) == Some(Str(uuid)) && FirstIn(root, RESULT) == Some(result) &&
            FirstIn(result, OPEN) == Some(Lit(Flag(open))) &&
            FirstIn(result, VERSION).Some? && UnsignedValue(FirstIn(result, VERSION).value) == Some(version)
    ensures UUID != RESULT && OPEN != VERSION
  {
    var number := Num(Number(false, Decimal(version), None, None));
    DecimalValueOfDecimal(version);
    assert UUID[0] != RESULT[0] && OPEN[0] != VERSION[0];
    PairFacts(Plain(OPEN, Lit(Flag(open))), Plain(VERSION, number));
    PairFacts(Plain(UUID, Str(uuid)), Plain(RESULT, ResultObject(open, version)));
  }

  lemma KeysAreBodies()
    ensures StringBody(UUID) && StringBody(RESULT) && StringBody(OPEN) && StringBody(VERSION)
  {
    hide StringBody;
    LettersAreBody(UUID);
    LettersAreBody(RESULT);
    LettersAreBody(OPEN);
    LettersAreBody(VERSION);
  }

  lemma {:induction false} LettersAreBody(s: seq<byte>)
    requires forall k :: 0 <= k < |s| ==> IsLower(s[k])
    ensures StringBody(s)
  {
    if s == [] {
    } else {
      LettersAreBody(s[1..]);
      Utf8.AsciiIsValid(s);
    }
  }

  // A state notification is one document, whose one member says whether the door is
  // open.
  lemma OnchangeReads(open: bool)
    ensures exists d :: StatusTheorems.IsDocument(OnchangeText(open), d) &&
              d.root == Obj([], LastMember(Plain(OPEN, Lit(if open then True else False))))
  {
    var m := Plain(OPEN, Lit(Flag(open)));
    var d := Document([], Obj([], LastMember(m)), []);
    OnchangeIsWf(open);
    OnchangeTextIs(open);
    hide WfDocument, DocumentText, OnchangeText;
    assert StatusTheorems.IsDocument(OnchangeText(open), d);
  }

  lemma OnchangeTextIs(open: bool)
    ensures OnchangeText(open) == DocumentText(Document([], Obj([], LastMember(Plain(OPEN, Lit(Flag(open))))), []))
  {
    hide KeyText, LiteralText, MemberText, Text;
    PlainText(OPEN, Lit(Flag(open)));
    LitText(Flag(open));
    OpenKeyText();
    OneText(Plain(OPEN, Lit(Flag(open))));
  }

  lemma OpenKeyText()
    ensures OPEN_KEY == [LBRACE] + KeyText(OPEN)
  {
  }

  // So is an object of one plain member.
  lemma OneText(m: Member)
    ensures Text(Obj([], LastMember(m))) == [LBRACE] + MemberText(m) + [RBRACE]
  {
    hide MemberText;
    assert MembersText(LastMember(m)) == MemberText(m) + [RBRACE];
  }

  lemma OnchangeIsWf(open: bool)
    ensures WfDocument(Document([], Obj([], LastMember(Plain(OPEN, Lit(Flag(open))))), []))
  {
    assert Wf(Lit(Flag(open)));
    hide StringBody, WfMember, Wf;
    KeysAreBodies();
    PlainIsWf(OPEN, Lit(Flag(open)));
    OneIsWf(Plain(OPEN, Lit(Flag(open))));
  }

  lemma OneIsWf(m: Member)
    requires WfMember(m)
    ensures Wf(Obj([], LastMember(m)))
  {
    hide WfMember;
    assert WfMembers(LastMember(m));
  }

  // The fixed parts of the payloads, as they are sent.
  lemma Spelling()
    ensures Spells(UUID_KEY, "{\"uuid\":\"") && Spells(RESULT_KEY, "\",\"result\":{\"open\":")
    ensures Spells(VERSION_KEY, ",\"version\":") && Spells(CLOSE, "}}") && Spells(OPEN_KEY, "{\"open\":")
    ensures Spells(RESULT, "result") && Spells(OPEN, "open") && Spells(VERSION, "version")
  {
  }
}
