// What the status-request scanner computes, as functions of the payload and a
// position: each returns the syntax tree it reads and the position behind it.

module ScanSpec {
  import opened Prelude
  import opened JsonGrammar
  import Utf8

  // First position at or behind `i` that is not whitespace.
  function SkipWs(s: seq<byte>, i: nat): (j: nat)
    requires i <= |s|
    ensures i <= j <= |s|
    ensures Ws(s[i..j]) && (j < |s| ==> !IsWs(s[j]))
    decreases |s| - i
  {
    if i < |s| && IsWs(s[i]) then
      var j := SkipWs(s, i + 1);
      assert s[i..j] == [s[i]] + s[i + 1..j];
      j
    else i
  }

  // First position at or behind `i` that is not a digit.
  function SkipDigits(s: seq<byte>, i: nat): (j: nat)
    requires i <= |s|
    ensures i <= j <= |s|
    ensures AllDigits(s[i..j]) && (j < |s| ==> !IsDigit(s[j]))
    decreases |s| - i
  {
    if i < |s| && IsDigit(s[i]) then
      var j := SkipDigits(s, i + 1);
      assert s[i..j] == [s[i]] + s[i + 1..j];
      j
    else i
  }

  // Position of the quote that closes the string whose body continues at `i`.
  function BodyEnd(s: seq<byte>, i: nat): (r: Option<nat>)
    requires i <= |s|
    ensures r.Some? ==> i <= r.value < |s| && s[r.value] == QUOTE
    decreases |s| - i
  {
    if i == |s| then None
    else if s[i] == QUOTE then Some(i)
    else if s[i] == BACKSLASH then
      if i + 1 == |s| then None
      else if IsSimpleEscape(s[i + 1]) then BodyEnd(s, i + 2)
      else if s[i + 1] == LETTER_U && i + 6 <= |s| && forall k :: i + 2 <= k < i + 6 ==> IsHexDigit(s[k])
      then BodyEnd(s, i + 6)
      else None
    else if s[i] <= 0x1F then None
    else BodyEnd(s, i + 1)
  }

  function ParseString(s: seq<byte>, i: nat): (r: Option<(seq<byte>, nat)>)
    requires i < |s|
    ensures r.Some? ==> i < r.value.1 <= |s|
  {
    var e :- BodyEnd(s, i + 1);
    if Utf8.Valid(s[i + 1..e]) then Some((s[i + 1..e], e + 1)) else None
  }

  function ParseLiteral(s: seq<byte>, i: nat): (r: Option<(Literal, nat)>)
    requires i <= |s|
    ensures r.Some? ==> i < r.value.1 <= |s|
  {
    if At(s, i, LiteralText(True)) then Some((True, i + 4))
    else if At(s, i, LiteralText(False)) then Some((False, i + 5))
    else if At(s, i, LiteralText(Null)) then Some((Null, i + 4))
    else None
  }

  function ParseDigits(s: seq<byte>, i: nat): (r: Option<(seq<byte>, nat)>)
    requires i <= |s|
    ensures r.Some? ==> i < r.value.1 <= |s|
  {
    var j := SkipDigits(s, i);
    if j > i then Some((s[i..j], j)) else None
  }

  function ParseFrac(s: seq<byte>, i: nat): (r: Option<(Option<seq<byte>>, nat)>)
    requires i <= |s|
    ensures r.Some? ==> i <= r.value.1 <= |s|
  {
    if i < |s| && s[i] == DOT then
      var (digits, e) :- ParseDigits(s, i + 1);
      Some((Some(digits), e))
    else Some((None, i))
  }

  function ParseExp(s: seq<byte>, i: nat): (r: Option<(Option<Exponent>, nat)>)
    requires i <= |s|
    ensures r.Some? ==> i <= r.value.1 <= |s|
  {
    if i < |s| && IsExponentMark(s[i]) then
      var sign := if i + 1 < |s| && IsSign(s[i + 1]) then Some(s[i + 1]) else None;
      var (digits, e) :- ParseDigits(s, i + 1 + |SignText(sign)|);
      Some((Some(Exponent(s[i], sign, digits)), e))
    else Some((None, i))
  }

  function ParseNumber(s: seq<byte>, i: nat): (r: Option<(Number, nat)>)
    requires i <= |s|
    ensures r.Some? ==> i < r.value.1 <= |s|
  {
    var minus := i < |s| && s[i] == MINUS;
    var (whole, e0) :- ParseDigits(s, i + |MinusText(minus)|);
    var (frac, e1) :- ParseFrac(s, e0);
    var (exp, e2) :- ParseExp(s, e1);
    Some((Number(minus, whole, frac, exp), e2))
  }

  function ParseValue(s: seq<byte>, i: nat): (r: Option<(Json, nat)>)
    requires i <= |s|
    ensures r.Some? ==> i < r.value.1 <= |s|
    decreases |s| - i, 0
  {
    if i == |s| then None
    else if s[i] == QUOTE then
      var (body, e) :- ParseString(s, i);
      Some((Str(body), e))
    else if s[i] == LBRACE then
      var j := SkipWs(s, i + 1);
      if j < |s| && s[j] == RBRACE then Some((EmptyObj(s[i + 1..j]), j + 1))
      else
        var (ms, e) :- ParseMembers(s, j);
        Some((Obj(s[i + 1..j], ms), e))
    else if s[i] == LBRACKET then
      var j := SkipWs(s, i + 1);
      if j < |s| && s[j] == RBRACKET then Some((EmptyArr(s[i + 1..j]), j + 1))
      else
        var (xs, e) :- ParseItems(s, j);
        Some((Arr(s[i + 1..j], xs), e))
    else if s[i] == 0x74 || s[i] == 0x66 || s[i] == 0x6E then
      var (l, e) :- ParseLiteral(s, i);
      Some((Lit(l), e))
    else if s[i] == MINUS || IsDigit(s[i]) then
      var (n, e) :- ParseNumber(s, i);
      Some((Num(n), e))
    else None
  }

  function ParseMember(s: seq<byte>, i: nat): (r: Option<(Member, nat)>)
    requires i <= |s|
    ensures r.Some? ==> i < r.value.1 <= |s|
    decreases |s| - i, 0
  {
    if i == |s| || s[i] != QUOTE then None
    else
      var (key, e0) :- ParseString(s, i);
      var j0 := SkipWs(s, e0);
      if j0 == |s| || s[j0] != COLON then None
      else
        var j1 := SkipWs(s, j0 + 1);
        var (v, e1) :- ParseValue(s, j1);
        var j2 := SkipWs(s, e1);
        Some((Member(key, s[e0..j0], s[j0 + 1..j1], v, s[e1..j2]), j2))
  }

  function ParseMembers(s: seq<byte>, i: nat): (r: Option<(Members, nat)>)
    requires i <= |s|
    ensures r.Some? ==> i < r.value.1 <= |s|
    decreases |s| - i, 1
  {
    var (m, e) :- ParseMember(s, i);
    if e < |s| && s[e] == COMMA then
      var j := SkipWs(s, e + 1);
      var (rest, e') :- ParseMembers(s, j);
      Some((MoreMembers(m, s[e + 1..j], rest), e'))
    else if e < |s| && s[e] == RBRACE then Some((LastMember(m), e + 1))
    else None
  }

  function ParseItems(s: seq<byte>, i: nat): (r: Option<(Items, nat)>)
    requires i <= |s|
    ensures r.Some? ==> i < r.value.1 <= |s|
    decreases |s| - i, 1
  {
    var (v, e) :- ParseValue(s, i);
    var j := SkipWs(s, e);
    if j < |s| && s[j] == COMMA then
      var k := SkipWs(s, j + 1);
      var (rest, e') :- ParseItems(s, k);
      Some((MoreItems(v, s[e..j], s[j + 1..k], rest), e'))
    else if j < |s| && s[j] == RBRACKET then Some((LastItem(v, s[e..j]), j + 1))
    else None
  }

  datatype StatusRequestError = NotObject | MissingUuid | UuidNotString | EmptyUuid | Malformed

  // The key `uuid`.
  const UUID: seq<byte> := [0x75, 0x75, 0x69, 0x64]

  lemma UuidSpelling()
    ensures Spells(UUID, "uuid")
  {
  }

  // The top-level member loop: the first `uuid` string found, and where the object ends.
  function TopMembers(s: seq<byte>, i: nat, found: Option<seq<byte>>)
    : (r: Result<(Option<seq<byte>>, nat), StatusRequestError>)
    requires i <= |s|
    ensures r.Ok? ==> i < r.value.1 <= |s|
    decreases |s| - i
  {
    match ParseMember(s, i)
    case None => Err(Malformed)
    case Some((m, e)) =>
      var isUuid := m.key == UUID && found.None?;
      if isUuid && !m.value.Str? then Err(UuidNotString)
      else
        var found' := if isUuid then Some(m.value.body) else found;
        if e < |s| && s[e] == COMMA then TopMembers(s, SkipWs(s, e + 1), found')
        else if e < |s| && s[e] == RBRACE then Ok((found', e + 1))
        else Err(Malformed)
  }

  function StatusRequest(s: seq<byte>): Result<seq<byte>, StatusRequestError> {
    var i := SkipWs(s, 0);
    if i == |s| || s[i] != LBRACE then Err(NotObject)
    else
      var j := SkipWs(s, i + 1);
      var top: Result<(Option<seq<byte>>, nat), StatusRequestError> :=
        if j < |s| && s[j] == RBRACE then Ok((None, j + 1)) else TopMembers(s, j, None);
      match top
      case Err(error) => Err(error)
      case Ok((found, e)) =>
        if SkipWs(s, e) != |s| then Err(Malformed)
        else if found.None? then Err(MissingUuid)
        else if found.value == [] then Err(EmptyUuid)
        else Ok(found.value)
  }
}
