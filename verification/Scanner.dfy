// The recursive-descent scanner itself: one position, advanced in place.

module Scanner {
  import opened Prelude
  import opened JsonGrammar
  import opened ScanSpec
  import Utf8

  datatype Value = String(body: seq<byte>) | Other

  // Where a read ended, whatever tree it returned.
  function End<T>(r: Option<(T, nat)>): Option<nat> { if r.Some? then Some(r.value.1) else None }

  lemma StartsWithAt(s: seq<byte>, i: nat, t: seq<byte>)
    requires i <= |s|
    ensures t <= s[i..] <==> At(s, i, t)
  {
    if t <= s[i..] {
      assert s[i..i + |t|] == s[i..][..|t|];
    }
  }

  const LITERALS: seq<seq<byte>> := [LiteralText(True), LiteralText(False), LiteralText(Null)]

  // The first literal found is the one the scan reads.
  lemma LiteralEnd(s: seq<byte>, i: nat, k: nat)
    requires i <= |s| && k < 3 && At(s, i, LITERALS[k])
    requires forall j :: 0 <= j < k ==> !At(s, i, LITERALS[j])
    ensures End(ParseLiteral(s, i)) == Some(i + |LITERALS[k]|)
  {
    if k == 0 {
    } else if k == 1 {
      assert !At(s, i, LITERALS[0]);
    } else {
      assert !At(s, i, LITERALS[0]) && !At(s, i, LITERALS[1]);
    }
  }

  lemma ObjectEnd(s: seq<byte>, i: nat)
    requires i < |s| && s[i] == LBRACE
    ensures var j := SkipWs(s, i + 1);
            End(ParseValue(s, i)) ==
            if j < |s| && s[j] == RBRACE then Some(j + 1) else End(ParseMembers(s, j))
  {
  }

  lemma ArrayEnd(s: seq<byte>, i: nat)
    requires i < |s| && s[i] == LBRACKET
    ensures var j := SkipWs(s, i + 1);
            End(ParseValue(s, i)) ==
            if j < |s| && s[j] == RBRACKET then Some(j + 1) else End(ParseItems(s, j))
  {
  }

  lemma MembersEnd(s: seq<byte>, i: nat)
    requires i <= |s|
    ensures End(ParseMembers(s, i)) ==
            match End(ParseMember(s, i))
            case None => None
            case Some(e) =>
              if e < |s| && s[e] == COMMA then End(ParseMembers(s, SkipWs(s, e + 1)))
              else if e < |s| && s[e] == RBRACE then Some(e + 1)
              else None
  {
    hide ParseMember, SkipWs;
  }

  lemma ItemsEnd(s: seq<byte>, i: nat)
    requires i <= |s|
    ensures End(ParseItems(s, i)) ==
            match End(ParseValue(s, i))
            case None => None
            case Some(e) =>
              var j := SkipWs(s, e);
              if j < |s| && s[j] == COMMA then End(ParseItems(s, SkipWs(s, j + 1)))
              else if j < |s| && s[j] == RBRACKET then Some(j + 1)
              else None
  {
    hide ParseValue, SkipWs;
  }

  // The positions of a number, part by part.
  function RunEnd(s: seq<byte>, i: nat): Option<nat>
    requires i <= |s|
  {
    if SkipDigits(s, i) > i then Some(SkipDigits(s, i)) else None
  }

  lemma FracEnd(s: seq<byte>, i: nat)
    requires i <= |s|
    ensures End(ParseFrac(s, i)) == if i < |s| && s[i] == DOT then RunEnd(s, i + 1) else Some(i)
  {
  }

  lemma ExpEnd(s: seq<byte>, i: nat)
    requires i <= |s|
    ensures End(ParseExp(s, i)) ==
            if i < |s| && IsExponentMark(s[i]) then
              RunEnd(s, if i + 1 < |s| && IsSign(s[i + 1]) then i + 2 else i + 1)
            else Some(i)
  {
  }

  lemma NumberEnd(s: seq<byte>, i: nat)
    requires i <= |s|
    ensures End(ParseNumber(s, i)) ==
            match RunEnd(s, if i < |s| && s[i] == MINUS then i + 1 else i)
            case None => None
            case Some(e0) =>
              match End(ParseFrac(s, e0))
              case None => None
              case Some(e1) => End(ParseExp(s, e1))
  {
    hide ParseFrac, ParseExp, SkipDigits;
  }

  // What the top-level loop decides at one member.
  lemma TopStep(s: seq<byte>, i: nat, m: Member, e: nat, found: Option<seq<byte>>)
    requires i <= |s| && ParseMember(s, i) == Some((m, e))
    ensures var isUuid := m.key == UUID && found.None?;
            var found' := if isUuid && m.value.Str? then Some(m.value.body) else found;
            TopMembers(s, i, found) ==
            if isUuid && !m.value.Str? then Err(UuidNotString)
            else if e < |s| && s[e] == COMMA then TopMembers(s, SkipWs(s, e + 1), found')
            else if e < |s| && s[e] == RBRACE then Ok((found', e + 1))
            else Err(Malformed)
  {
    hide ParseMember, SkipWs;
  }

  lemma NoMember(s: seq<byte>, i: nat, found: Option<seq<byte>>)
    requires i <= |s| && ParseMember(s, i).None?
    ensures TopMembers(s, i, found) == Err(Malformed)
  {
    hide ParseMember;
  }

  function Kind(v: Json): Value { if v.Str? then String(v.body) else Other }

  class Scanner {
    const bytes: seq<byte>
    var pos: nat

    constructor (payload: seq<byte>)
      ensures bytes == payload && pos == 0
    {
      bytes := payload;
      pos := 0;
    }

    function Peek(): (b: Option<byte>)
      reads this
    {
      if pos < |bytes| then Some(bytes[pos]) else None
    }

    method Advance()
      modifies this
      ensures pos == old(pos) + 1
    {
      pos := pos + 1;
    }

    method Next() returns (b: Option<byte>)
      requires pos <= |bytes|
      modifies this
      ensures b == old(Peek())
      ensures pos == if b.Some? then old(pos) + 1 else old(pos)
    {
      b := Peek();
      if b.Some? {
        pos := pos + 1;
      }
    }

    method SkipWhitespace()
      requires pos <= |bytes|
      modifies this
      ensures pos == SkipWs(bytes, old(pos))
    {
      while pos < |bytes| && IsWs(bytes[pos])
        invariant pos <= |bytes|
        invariant SkipWs(bytes, pos) == SkipWs(bytes, old(pos))
      {
        Advance();
      }
    }

    // Reads the string whose opening quote is at `pos`.
    method ParseStringRaw() returns (r: Result<seq<byte>, StatusRequestError>)
      requires pos < |bytes|
      modifies this
      ensures match ParseString(bytes, old(pos))
              case Some((body, e)) => r == Ok(body) && pos == e
              case None => r == Err(Malformed)
    {
      Advance();
      var start := pos;
      while true
        invariant start <= pos <= |bytes|
        invariant BodyEnd(bytes, pos) == BodyEnd(bytes, start)
        decreases |bytes| - pos
      {
        var c := Next();
        if c == None {
          return Err(Malformed);
        } else if c.value == QUOTE {
          var end := pos - 1;
          return if Utf8.Valid(bytes[start..end]) then Ok(bytes[start..end]) else Err(Malformed);
        } else if c.value == BACKSLASH {
          var escape := pos - 1;
          var d := Next();
          if d == None {
            return Err(Malformed);
          } else if IsSimpleEscape(d.value) {
          } else if d.value == LETTER_U {
            for n := 0 to 4
              invariant pos == escape + 2 + n <= |bytes|
              invariant forall k :: escape + 2 <= k < pos ==> IsHexDigit(bytes[k])
            {
              var digit := Next();
              if digit == None || !IsHexDigit(digit.value) {
                return Err(Malformed);
              }
            }
          } else {
            return Err(Malformed);
          }
        } else if c.value <= 0x1F {
          return Err(Malformed);
        }
      }
    }

    method SkipDigitRun() returns (some: bool)
      requires pos <= |bytes|
      modifies this
      ensures pos == SkipDigits(bytes, old(pos))
      ensures some == (pos > old(pos))
    {
      var start := pos;
      while pos < |bytes| && IsDigit(bytes[pos])
        invariant start <= pos <= |bytes|
        invariant SkipDigits(bytes, pos) == SkipDigits(bytes, start)
      {
        Advance();
      }
      some := pos > start;
    }

    method SkipLiteral() returns (r: Result<(), StatusRequestError>)
      requires pos <= |bytes|
      modifies this
      ensures match ParseLiteral(bytes, old(pos))
              case Some((_, e)) => r == Ok(()) && pos == e
              case None => r == Err(Malformed)
    {
      var literals := LITERALS;
      for k := 0 to 3
        invariant pos == old(pos)
        invariant forall j :: 0 <= j < k ==> !At(bytes, pos, literals[j])
      {
        StartsWithAt(bytes, pos, literals[k]);
        if literals[k] <= bytes[pos..] {
          LiteralEnd(bytes, pos, k);
          pos := pos + |literals[k]|;
          return Ok(());
        }
      }
      assert !At(bytes, pos, literals[0]) && !At(bytes, pos, literals[1]) && !At(bytes, pos, literals[2]);
      r := Err(Malformed);
    }

    method SkipNumber() returns (r: Result<(), StatusRequestError>)
      requires pos <= |bytes|
      modifies this
      ensures match ParseNumber(bytes, old(pos))
              case Some((_, e)) => r == Ok(()) && pos == e
              case None => r == Err(Malformed)
    {
      hide SkipDigits, ParseNumber, ParseFrac, ParseExp, IsExponentMark, IsSign, IsDigit, AllDigits;
      NumberEnd(bytes, pos);
      if Peek() == Some(MINUS) {
        Advance();
      }
      var some := SkipDigitRun();
      if !some {
        return Err(Malformed);
      }
      FracEnd(bytes, pos);
      if Peek() == Some(DOT) {
        Advance();
        some := SkipDigitRun();
        if !some {
          return Err(Malformed);
        }
      }
      ExpEnd(bytes, pos);
      if Peek().Some? && IsExponentMark(Peek().value) {
        Advance();
        if Peek().Some? && IsSign(Peek().value) {
          Advance();
        }
        some := SkipDigitRun();
        if !some {
          return Err(Malformed);
        }
      }
      r := Ok(());
    }

    method ParseAnyValue() returns (r: Result<Value, StatusRequestError>)
      requires pos <= |bytes|
      modifies this
      ensures match ParseValue(bytes, SkipWs(bytes, old(pos)))
              case Some((v, e)) => r == Ok(Kind(v)) && pos == e
              case None => r == Err(Malformed)
      decreases |bytes| - pos, 1
    {
      SkipWhitespace();
      var c := Peek();
      if c == Some(QUOTE) {
        var body := ParseStringRaw();
        r := if body.Ok? then Ok(String(body.value)) else Err(body.error);
      } else if c == Some(LBRACE) {
        var skipped := SkipObject();
        r := if skipped.Ok? then Ok(Other) else Err(skipped.error);
      } else if c == Some(LBRACKET) {
        var skipped := SkipArray();
        r := if skipped.Ok? then Ok(Other) else Err(skipped.error);
      } else if c == Some(0x74) || c == Some(0x66) || c == Some(0x6E) {
        var skipped := SkipLiteral();
        r := if skipped.Ok? then Ok(Other) else Err(skipped.error);
      } else if c == Some(MINUS) || (c.Some? && IsDigit(c.value)) {
        var skipped := SkipNumber();
        r := if skipped.Ok? then Ok(Other) else Err(skipped.error);
      } else {
        r := Err(Malformed);
      }
    }

    // One member, with the whitespace around it: the lines both member loops share.
    method ReadMember() returns (r: Result<(seq<byte>, Value), StatusRequestError>)
      requires pos <= |bytes|
      modifies this
      ensures match ParseMember(bytes, SkipWs(bytes, old(pos)))
              case Some((m, e)) => r == Ok((m.key, Kind(m.value))) && pos == e
              case None => r == Err(Malformed)
      decreases |bytes| - pos, 2
    {
      hide ParseValue, ParseString, SkipWs;
      SkipWhitespace();
      if Peek() != Some(QUOTE) {
        return Err(Malformed);
      }
      var key := ParseStringRaw();
      if key.Err? {
        return Err(key.error);
      }
      SkipWhitespace();
      if Peek() != Some(COLON) {
        return Err(Malformed);
      }
      Advance();
      var value := ParseAnyValue();
      if value.Err? {
        return Err(value.error);
      }
      SkipWhitespace();
      r := Ok((key.value, value.value));
    }

    method SkipObject() returns (r: Result<(), StatusRequestError>)
      requires pos < |bytes| && bytes[pos] == LBRACE
      modifies this
      ensures match ParseValue(bytes, old(pos))
              case Some((_, e)) => r == Ok(()) && pos == e
              case None => r == Err(Malformed)
      decreases |bytes| - pos, 0
    {
      hide ParseValue, ParseMembers, ParseMember, SkipWs;
      ObjectEnd(bytes, pos);
      Advance();
      SkipWhitespace();
      if Peek() == Some(RBRACE) {
        Advance();
        return Ok(());
      }
      ghost var start := pos;
      while true
        invariant old(pos) < pos <= |bytes|
        invariant End(ParseMembers(bytes, start)) == End(ParseMembers(bytes, SkipWs(bytes, pos)))
        decreases |bytes| - pos
      {
        MembersEnd(bytes, SkipWs(bytes, pos));
        var member := ReadMember();
        if member.Err? {
          return Err(member.error);
        }
        if Peek() == Some(COMMA) {
          Advance();
        } else if Peek() == Some(RBRACE) {
          Advance();
          return Ok(());
        } else {
          return Err(Malformed);
        }
      }
    }

    method SkipArray() returns (r: Result<(), StatusRequestError>)
      requires pos < |bytes| && bytes[pos] == LBRACKET
      modifies this
      ensures match ParseValue(bytes, old(pos))
              case Some((_, e)) => r == Ok(()) && pos == e
              case None => r == Err(Malformed)
      decreases |bytes| - pos, 0
    {
      hide ParseValue, ParseItems, SkipWs;
      ArrayEnd(bytes, pos);
      Advance();
      SkipWhitespace();
      if Peek() == Some(RBRACKET) {
        Advance();
        return Ok(());
      }
      ghost var start := pos;
      while true
        invariant old(pos) < pos <= |bytes|
        invariant End(ParseItems(bytes, start)) == End(ParseItems(bytes, SkipWs(bytes, pos)))
        decreases |bytes| - pos
      {
        ItemsEnd(bytes, SkipWs(bytes, pos));
        var value := ParseAnyValue();
        if value.Err? {
          return Err(value.error);
        }
        SkipWhitespace();
        if Peek() == Some(COMMA) {
          Advance();
        } else if Peek() == Some(RBRACKET) {
          Advance();
          return Ok(());
        } else {
          return Err(Malformed);
        }
      }
    }
  }

  method ParseStatusRequest(payload: seq<byte>) returns (r: Result<seq<byte>, StatusRequestError>)
    ensures r == StatusRequest(payload)
  {
    hide ParseMember, TopMembers, SkipWs;
    var scanner := new Scanner(payload);
    scanner.SkipWhitespace();
    if scanner.Peek() != Some(LBRACE) {
      return Err(NotObject);
    }
    scanner.Advance();
    scanner.SkipWhitespace();

    var found: Option<seq<byte>> := None;
    if scanner.Peek() == Some(RBRACE) {
      scanner.Advance();
    } else {
      ghost var start := scanner.pos;
      while true
        invariant scanner.bytes == payload && start <= scanner.pos <= |payload|
        invariant TopMembers(payload, start, None) == TopMembers(payload, SkipWs(payload, scanner.pos), found)
        decreases |payload| - scanner.pos
      {
        ghost var p := SkipWs(payload, scanner.pos);
        var member := scanner.ReadMember();
        if member.Err? {
          NoMember(payload, p, found);
          return Err(member.error);
        }
        var (key, value) := member.value;
        ghost var (m, e) := ParseMember(payload, p).value;
        TopStep(payload, p, m, e, found);
        if key == UUID && found.None? {
          match value
          case String(uuid) => found := Some(uuid);
          case Other => return Err(UuidNotString);
        }
        if scanner.Peek() == Some(COMMA) {
          scanner.Advance();
        } else if scanner.Peek() == Some(RBRACE) {
          scanner.Advance();
          break;
        } else {
          return Err(Malformed);
        }
      }
    }

    scanner.SkipWhitespace();
    if scanner.pos != |scanner.bytes| {
      return Err(Malformed);
    }
    match found
    case Some(uuid) => r := if uuid == [] then Err(EmptyUuid) else Ok(uuid);
    case None => r := Err(MissingUuid);
  }
}
