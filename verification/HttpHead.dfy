// The byte-fed HTTP response-head parser, against a definition over the whole
// byte string and against what an accepted head means.

module HttpHead {
  import opened Prelude
  import opened OtaText

  const MAX_HEAD_BYTES: nat := 2048

  datatype ResponseHead = ResponseHead(status: u16, contentLength: Option<u64>)

  datatype HeadError =
    | MalformedStatusLine | TooFewStatusTokens | NonNumericStatus | UnexpectedStatus | TransferEncoding
    | MissingContentLength | DuplicateContentLength | MalformedHeader | OversizedHeader

  datatype HeadEvent = NeedMore | Complete(head: ResponseHead) | Reject(error: HeadError)

  datatype State = StatusLine | Headers | Done

  // `HTTP/1.0 ` and `HTTP/1.1 `
  const HTTP10: seq<byte> := [0x48, 0x54, 0x54, 0x50, 0x2F, 0x31, 0x2E, 0x30, SPACE]
  const HTTP11: seq<byte> := [0x48, 0x54, 0x54, 0x50, 0x2F, 0x31, 0x2E, 0x31, SPACE]
  // `content-length` and `transfer-encoding`
  const CONTENT_LENGTH: seq<byte> :=
    [0x63, 0x6F, 0x6E, 0x74, 0x65, 0x6E, 0x74, 0x2D, 0x6C, 0x65, 0x6E, 0x67, 0x74, 0x68]
  const TRANSFER_ENCODING: seq<byte> :=
    [0x74, 0x72, 0x61, 0x6E, 0x73, 0x66, 0x65, 0x72, 0x2D, 0x65, 0x6E, 0x63, 0x6F, 0x64, 0x69, 0x6E, 0x67]

  function Lower(b: byte): byte { if IsUpper(b) then b + 0x20 else b }

  predicate EqIgnoreCase(a: seq<byte>, b: seq<byte>) {
    |a| == |b| && forall k :: 0 <= k < |a| ==> Lower(a[k]) == Lower(b[k])
  }

  // ----- One line -----

  // The line without its one trailing carriage return.
  function StripCr(line: seq<byte>): seq<byte> {
    if line != [] && line[|line| - 1] == CR then line[..|line| - 1] else line
  }

  function StatusOf(line: seq<byte>): Result<u16, HeadError> {
    if !(HTTP10 <= line || HTTP11 <= line) then Err(MalformedStatusLine)
    else if |Pieces(line, SPACE)| < 3 then Err(TooFewStatusTokens)
    else
      var code := UpTo(line[9..], SPACE);
      if code != [] && AllDigits(code) && DecimalValue(code) <= U16_MAX then Ok(DecimalValue(code))
      else Err(NonNumericStatus)
  }

  // A status line: the version and a space, the code in decimal, a space, and a
  // reason that is not blank.
  ghost predicate IsStatusLine(line: seq<byte>, status: u16) {
    exists version, code, reason :: StatusLineOf(line, version, code, reason) && DecimalValue(code) == status
  }

  predicate StatusLineOf(line: seq<byte>, version: seq<byte>, code: seq<byte>, reason: seq<byte>) {
    (version == HTTP10 || version == HTTP11) && line == version + (code + ([SPACE] + reason)) &&
    code != [] && AllDigits(code) && exists k :: 0 <= k < |reason| && reason[k] != SPACE
  }

  // The version is a token, and the tokens of the rest follow it.
  lemma VersionToken(version: seq<byte>, rest: seq<byte>)
    requires version == HTTP10 || version == HTTP11
    ensures |Pieces(version + rest, SPACE)| == 1 + |Pieces(rest, SPACE)|
  {
    var line, q := version + rest, version[..8];
    assert line[9..] == rest && q <= line && line[8] == SPACE;
    PiecesStep(line, SPACE, q);
  }

  lemma CodeToken(code: seq<byte>, reason: seq<byte>)
    requires code != [] && SPACE !in code
    ensures var rest := code + ([SPACE] + reason);
            UpTo(rest, SPACE) == code &&
            (|Pieces(rest, SPACE)| >= 2 <==> exists k :: 0 <= k < |reason| && reason[k] != SPACE)
  {
    var rest := code + ([SPACE] + reason);
    assert rest[|code| + 1..] == reason;
    UpToUnique(rest, SPACE, code);
    PiecesStep(rest, SPACE, code);
    NoPiecesIff(reason, SPACE);
  }

  // The parser takes a status line for what it is.
  lemma StatusIff(line: seq<byte>, status: u16)
    ensures StatusOf(line) == Ok(status) <==> IsStatusLine(line, status)
  {
    if StatusOf(line) == Ok(status) {
      StatusParts(line, status);
    }
    if IsStatusLine(line, status) {
      var version, code, reason :| StatusLineOf(line, version, code, reason) && DecimalValue(code) == status;
      var rest := code + ([SPACE] + reason);
      assert line[..9] == version && line[9..] == rest;
      VersionToken(version, rest);
      CodeToken(code, reason);
    }
  }

  lemma StatusParts(line: seq<byte>, status: u16)
    requires StatusOf(line) == Ok(status)
    ensures IsStatusLine(line, status)
  {
    hide Pieces, UpTo, DecimalValue;
    var version, rest := line[..9], line[9..];
    var code := UpTo(rest, SPACE);
    assert line == version + rest;
    assert version == HTTP10 || version == HTTP11;
    VersionToken(version, rest);
    var reason := CodeParts(rest);
    assert StatusLineOf(line, version, code, reason);
  }

  // Two tokens or more: a code and a reason.
  lemma CodeParts(rest: seq<byte>) returns (reason: seq<byte>)
    requires |Pieces(rest, SPACE)| >= 2 && UpTo(rest, SPACE) != []
    ensures rest == UpTo(rest, SPACE) + ([SPACE] + reason) && exists k :: 0 <= k < |reason| && reason[k] != SPACE
  {
    hide Pieces;
    var code := UpTo(rest, SPACE);
    if code == rest {
      PiecesOfOne(rest, SPACE);
    }
    reason := rest[|code| + 1..];
    assert rest == code + ([SPACE] + reason);
    CodeToken(code, reason);
  }

  predicate HasColon(line: seq<byte>) { COLON in line }

  function FieldName(line: seq<byte>): seq<byte> { Trim(UpTo(line, COLON)) }

  function FieldValue(line: seq<byte>): seq<byte>
    requires HasColon(line)
  {
    Trim(line[|UpTo(line, COLON)| + 1..])
  }

  predicate IsTransferEncoding(line: seq<byte>) { EqIgnoreCase(FieldName(line), TRANSFER_ENCODING) }

  predicate IsContentLength(line: seq<byte>) { EqIgnoreCase(FieldName(line), CONTENT_LENGTH) }

  predicate LengthIsValid(value: seq<byte>) {
    value != [] && AllDigits(value) && DecimalValue(value) <= U64_MAX
  }

  // A header line the parser takes: it has a colon, and a content length is a
  // decimal that fits 64 bits.
  predicate IsField(line: seq<byte>) {
    HasColon(line) && (IsContentLength(line) ==> LengthIsValid(FieldValue(line)))
  }

  datatype HeaderUpdate = HeaderUpdate(transferEncoding: bool, contentLength: Option<u64>)

  function UpdateOf(line: seq<byte>): HeaderUpdate
    requires IsField(line)
  {
    HeaderUpdate(IsTransferEncoding(line), if IsContentLength(line) then Some(DecimalValue(FieldValue(line))) else None)
  }

  method ParseStatus(line: seq<byte>) returns (r: Result<u16, HeadError>)
    ensures r == StatusOf(line)
  {
    if !(HTTP10 <= line || HTTP11 <= line) {
      return Err(MalformedStatusLine);
    }
    var tokenCount := |Pieces(line, SPACE)|;
    if tokenCount < 3 {
      return Err(TooFewStatusTokens);
    }
    var rest := line[9..];
    var space := Position(rest, SPACE);
    var code := match space case Some(i) => rest[..i] case None => rest;
    assert code == UpTo(rest, SPACE);
    if code == [] {
      return Err(NonNumericStatus);
    }
    var value := CheckedDecimal(code, U16_MAX);
    r := match value case Some(v) => Ok(v) case None => Err(NonNumericStatus);
  }

  // No name is both.
  lemma NamesDiffer(line: seq<byte>)
    ensures !(IsTransferEncoding(line) && IsContentLength(line))
  {
    assert |TRANSFER_ENCODING| != |CONTENT_LENGTH|;
  }

  method ParseHeader(line: seq<byte>) returns (r: Result<HeaderUpdate, HeadError>)
    ensures r == if IsField(line) then Ok(UpdateOf(line)) else Err(MalformedHeader)
  {
    var colon := Position(line, COLON);
    if colon == None {
      assert UpTo(line, COLON) == line;
      return Err(MalformedHeader);
    }
    assert line[colon.value] == COLON && line[..colon.value] == UpTo(line, COLON);
    var name := TrimAscii(line[..colon.value]);
    var value := TrimAscii(line[colon.value + 1..]);
    assert name == FieldName(line) && value == FieldValue(line);
    NamesDiffer(line);
    var update := HeaderUpdate(false, None);
    if EqIgnoreCase(name, TRANSFER_ENCODING) {
      update := update.(transferEncoding := true);
    } else if EqIgnoreCase(name, CONTENT_LENGTH) {
      if value == [] {
        return Err(MalformedHeader);
      }
      var parsed := CheckedDecimal(value, U64_MAX);
      if parsed == None {
        return Err(MalformedHeader);
      }
      update := update.(contentLength := parsed);
    }
    r := Ok(update);
  }

  // ----- The whole byte string, line by line -----

  // What the lines read so far have said.
  datatype Facts = Facts(status: Option<u16>, contentLength: Option<u64>, transferEncoding: bool)

  const NOTHING_READ: Facts := Facts(None, None, false)

  datatype Step = Next(facts: Facts) | Stop(event: HeadEvent)

  predicate AcceptableStatus(status: u16) { 200 <= status <= 299 || status == 404 }

  // The event of the blank line.
  function Verdict(facts: Facts): HeadEvent
    requires facts.status.Some?
  {
    var status := facts.status.value;
    if facts.transferEncoding then Reject(TransferEncoding)
    else if !AcceptableStatus(status) then Reject(UnexpectedStatus)
    else if facts.contentLength.None? && status != 404 then Reject(MissingContentLength)
    else Complete(ResponseHead(status, facts.contentLength))
  }

  function ReadLine(facts: Facts, line: seq<byte>): (step: Step)
    ensures step.Stop? ==> !step.event.NeedMore?
  {
    if facts.status.None? then
      match StatusOf(line)
      case Ok(status) => Next(facts.(status := Some(status)))
      case Err(error) => Stop(Reject(error))
    else if line == [] then Stop(Verdict(facts))
    else if !IsField(line) then Stop(Reject(MalformedHeader))
    else
      var update := UpdateOf(line);
      if update.contentLength.Some? && facts.contentLength.Some? then Stop(Reject(DuplicateContentLength))
      else
        Next(Facts(facts.status,
                   if update.contentLength.Some? then update.contentLength else facts.contentLength,
                   facts.transferEncoding || update.transferEncoding))
  }

  // Position of the first line feed at or behind `i`, or the end.
  function NextLf(s: seq<byte>, i: nat): (j: nat)
    requires i <= |s|
    ensures i <= j <= |s| && (j < |s| ==> s[j] == LF) && forall k :: i <= k < j ==> s[k] != LF
    decreases |s| - i
  {
    if i < |s| && s[i] != LF then NextLf(s, i + 1) else i
  }

  // A byte string is either an unfinished head, with its last line begun at `start`, or
  // decided by an event at the `consumed`th byte.
  datatype Scan = Unfinished(start: nat, facts: Facts) | Decided(event: HeadEvent, consumed: nat)

  function ScanFrom(s: seq<byte>, i: nat, facts: Facts): (r: Scan)
    requires i <= |s|
    ensures r.Unfinished? ==> r.start <= |s|
    ensures r.Decided? ==> !r.event.NeedMore?
    decreases |s| - i
  {
    var j := NextLf(s, i);
    if j >= MAX_HEAD_BYTES && |s| > MAX_HEAD_BYTES then Decided(Reject(OversizedHeader), MAX_HEAD_BYTES + 1)
    else if j == |s| then Unfinished(i, facts)
    else
      match ReadLine(facts, StripCr(s[i..j]))
      case Next(facts') => ScanFrom(s, j + 1, facts')
      case Stop(event) => Decided(event, j + 1)
  }

  lemma {:induction false} DecidedInside(s: seq<byte>, i: nat, facts: Facts)
    requires i <= |s| && ScanFrom(s, i, facts).Decided?
    ensures ScanFrom(s, i, facts).consumed <= |s|
    decreases |s| - i
  {
    hide ReadLine, StripCr;
    var j := NextLf(s, i);
    if j == |s| {
    } else {
      var step := ReadLine(facts, StripCr(s[i..j]));
      if step.Next? && ScanFrom(s, j + 1, step.facts).Decided? {
        DecidedInside(s, j + 1, step.facts);
      }
    }
  }

  function ScanHead(s: seq<byte>): (r: Scan)
    ensures r.Decided? ==> r.consumed <= |s| && !r.event.NeedMore?
  {
    if ScanFrom(s, 0, NOTHING_READ).Decided? then
      DecidedInside(s, 0, NOTHING_READ);
      ScanFrom(s, 0, NOTHING_READ)
    else ScanFrom(s, 0, NOTHING_READ)
  }

  function EventOf(scan: Scan): HeadEvent { if scan.Unfinished? then NeedMore else scan.event }

  // An unfinished scan ends inside the limit, in its last line.
  lemma {:induction false} UnfinishedScan(s: seq<byte>, i: nat, facts: Facts)
    requires i <= |s| && ScanFrom(s, i, facts).Unfinished?
    ensures var scan := ScanFrom(s, i, facts);
            i <= scan.start <= |s| <= MAX_HEAD_BYTES && NextLf(s, scan.start) == |s| &&
            scan == ScanFrom(s, scan.start, scan.facts)
    decreases |s| - i
  {
    hide ReadLine, StripCr;
    var j := NextLf(s, i);
    if j == |s| {
    } else {
      UnfinishedScan(s, j + 1, ReadLine(facts, StripCr(s[i..j])).facts);
    }
  }

  lemma {:induction false} NextLfSnoc(s: seq<byte>, b: byte, i: nat)
    requires i <= |s|
    ensures NextLf(s + [b], i) == if NextLf(s, i) < |s| || b == LF then NextLf(s, i) else |s| + 1
    decreases |s| - i
  {
    if i == |s| {
    } else {
      NextLfSnoc(s, b, i + 1);
    }
  }

  // One more byte: a decided scan stays as it is, an unfinished one takes one step.
  lemma {:induction false} ScanSnoc(s: seq<byte>, b: byte, i: nat, facts: Facts)
    requires i <= |s|
    ensures ScanFrom(s + [b], i, facts) ==
            match ScanFrom(s, i, facts)
            case Decided(event, n) => Decided(event, n)
            case Unfinished(start, facts') =>
              if |s| >= MAX_HEAD_BYTES then Decided(Reject(OversizedHeader), MAX_HEAD_BYTES + 1)
              else if b != LF then Unfinished(start, facts')
              else
                match ReadLine(facts', StripCr(s[start..]))
                case Next(facts'') => Unfinished(|s| + 1, facts'')
                case Stop(event) => Decided(event, |s| + 1)
    decreases |s| - i
  {
    hide ReadLine, StripCr, NextLf;
    var j := NextLf(s, i);
    NextLfSnoc(s, b, i);
    if j < |s| {
      assert (s + [b])[i..j] == s[i..j];
      var step := ReadLine(facts, StripCr(s[i..j]));
      if step.Next? {
        ScanSnoc(s, b, j + 1, step.facts);
      }
    } else {
      assert (s + [b])[i..j] == s[i..];
    }
  }

  // ----- The parser, fed one byte at a time -----

  class HeadParser {
    var state: State
    var terminal: Option<HeadEvent>
    const line: array<byte>
    var lineLen: nat
    var total: nat
    var status: u16
    var contentLength: Option<u64>
    var transferEncoding: bool
    // Every byte pushed so far.
    ghost var fed: seq<byte>

    // The fields are those of the whole-string scan of the bytes fed.
    ghost predicate Valid()
      reads this, line
    {
      line.Length == MAX_HEAD_BYTES &&
      match ScanHead(fed)
      case Decided(event, n) => terminal == Some(event) && total == n && state == Done
      case Unfinished(start, facts) =>
        && terminal == None && total == |fed| <= MAX_HEAD_BYTES
        && lineLen == |fed| - start && line[..lineLen] == fed[start..]
        && state == (if facts.status.None? then StatusLine else Headers)
        && (facts.status.Some? ==> status == facts.status.value)
        && contentLength == facts.contentLength && transferEncoding == facts.transferEncoding
    }

    constructor ()
      ensures Valid() && fed == [] && fresh(line)
    {
      state, terminal := StatusLine, None;
      line := new byte[MAX_HEAD_BYTES](_ => 0);
      lineLen, total, status := 0, 0, 0;
      contentLength, transferEncoding := None, false;
      fed := [];
    }

    function Consumed(): nat
      reads this
    {
      total
    }

    // The event is the one of the whole string fed; the line buffer is never full.
    method Push(b: byte) returns (event: HeadEvent)
      requires Valid()
      modifies this, line
      ensures Valid() && fed == old(fed) + [b]
      ensures event == EventOf(ScanHead(fed))
      ensures old(ScanHead(fed).Unfinished?) && ScanHead(fed).Decided? ==> Consumed() == |fed|
    {
      hide ReadLine, ScanFrom;
      ScanSnoc(fed, b, 0, NOTHING_READ);
      ghost var before := ScanHead(fed);
      fed := fed + [b];
      if terminal.Some? {
        return terminal.value;
      }
      total := total + 1;
      if total > MAX_HEAD_BYTES {
        event := RejectWith(OversizedHeader);
        return;
      }
      if b != LF {
        // The line is never longer than the bytes counted: the overflow branch,
        // which would reject with `MalformedHeader`, cannot be taken.
        if lineLen >= line.Length {
          assert false;
        }
        line[lineLen] := b;
        lineLen := lineLen + 1;
        return NeedMore;
      }
      var end := lineLen;
      if end > 0 && line[end - 1] == CR {
        end := end - 1;
      }
      var text := line[..end];
      assert text == StripCr(old(fed)[before.start..]);
      lineLen := 0;
      event := TakeLine(text, before.facts);
    }

    method TakeLine(text: seq<byte>, ghost facts: Facts) returns (event: HeadEvent)
      requires state == (if facts.status.None? then StatusLine else Headers)
      requires facts.status.Some? ==> status == facts.status.value
      requires contentLength == facts.contentLength && transferEncoding == facts.transferEncoding
      requires terminal == None
      modifies this`state, this`terminal, this`status, this`contentLength, this`transferEncoding
      ensures match ReadLine(facts, text)
              case Stop(e) => event == e && terminal == Some(e) && state == Done
              case Next(facts') =>
                event == NeedMore && terminal == None && state == Headers &&
                facts'.status == Some(status) && contentLength == facts'.contentLength &&
                transferEncoding == facts'.transferEncoding
    {
      match state
      case StatusLine =>
        var parsed := ParseStatus(text);
        match parsed {
          case Ok(code) =>
            status, state := code, Headers;
            event := NeedMore;
          case Err(error) => event := RejectWith(error);
        }
      case Headers =>
        if text == [] {
          event := Finish();
          return;
        }
        var parsed := ParseHeader(text);
        match parsed {
          case Err(error) => event := RejectWith(error);
          case Ok(update) =>
            if update.transferEncoding {
              transferEncoding := true;
            }
            if update.contentLength.Some? {
              if contentLength.Some? {
                event := RejectWith(DuplicateContentLength);
                return;
              }
              contentLength := update.contentLength;
            }
            event := NeedMore;
        }
    }

    method Finish() returns (event: HeadEvent)
      modifies this`state, this`terminal
      ensures event == Verdict(Facts(Some(status), contentLength, transferEncoding))
      ensures state == Done && terminal == Some(event)
    {
      if transferEncoding {
        event := RejectWith(TransferEncoding);
        return;
      }
      if !(200 <= status <= 299) && status != 404 {
        event := RejectWith(UnexpectedStatus);
        return;
      }
      match contentLength
      case Some(length) => event := CompleteWith(Some(length));
      case None =>
        if status == 404 {
          event := CompleteWith(None);
        } else {
          event := RejectWith(MissingContentLength);
        }
    }

    method CompleteWith(length: Option<u64>) returns (event: HeadEvent)
      modifies this`state, this`terminal
      ensures event == Complete(ResponseHead(status, length)) && state == Done && terminal == Some(event)
    {
      event := Complete(ResponseHead(status, length));
      state, terminal := Done, Some(event);
    }

    method RejectWith(error: HeadError) returns (event: HeadEvent)
      modifies this`state, this`terminal
      ensures event == Reject(error) && state == Done && terminal == Some(event)
    {
      event := Reject(error);
      state, terminal := Done, Some(event);
    }
  }

  // ----- What a scan says in terms of the whole string -----

  // Pushing the bytes one at a time gives the event of the whole string, and from
  // the first terminal event on neither event nor count changes.
  lemma {:induction false} Sticky(s: seq<byte>, t: seq<byte>)
    ensures ScanHead(s).Decided? ==> ScanHead(s + t) == ScanHead(s)
    decreases |t|
  {
    hide ScanFrom, ReadLine, StripCr;
    if t == [] {
      assert s + t == s;
    } else {
      var n := |t| - 1;
      Sticky(s, t[..n]);
      ScanSnoc(s + t[..n], t[n], 0, NOTHING_READ);
      assert s + t == (s + t[..n]) + [t[n]];
    }
  }

  // A decision falls within the limit, or is the one of the byte behind it.
  lemma {:induction false} DecidedWithin(s: seq<byte>, i: nat, facts: Facts)
    requires i <= |s| && ScanFrom(s, i, facts).Decided?
    ensures var scan := ScanFrom(s, i, facts);
            if scan.event == Reject(OversizedHeader) then scan.consumed == MAX_HEAD_BYTES + 1 < |s| + 1
            else scan.consumed <= MAX_HEAD_BYTES
    decreases |s| - i
  {
    hide StripCr;
    var j := NextLf(s, i);
    if j == |s| {
    } else {
      NeverOversized(facts, StripCr(s[i..j]));
      hide ReadLine;
      var step := ReadLine(facts, StripCr(s[i..j]));
      if step.Next? && ScanFrom(s, j + 1, step.facts).Decided? {
        DecidedWithin(s, j + 1, step.facts);
      }
    }
  }

  lemma NeverOversized(facts: Facts, line: seq<byte>)
    ensures ReadLine(facts, line) != Stop(Reject(OversizedHeader))
  {
  }

  // A head is too long exactly when its first 2048 bytes decide nothing and another
  // byte follows.
  lemma OversizedIff(s: seq<byte>, n: nat)
    ensures ScanHead(s) == Decided(Reject(OversizedHeader), n) <==>
            |s| > 2048 && ScanHead(s[..2048]).Unfinished? && n == 2049
  {
    hide ScanFrom;
    if ScanHead(s).Decided? {
      DecidedWithin(s, 0, NOTHING_READ);
    }
    if |s| > 2048 {
      var p, rest := s[..2048], s[2048..];
      assert s == p + rest;
      if ScanHead(p).Decided? {
        Sticky(p, rest);
      } else {
        ScanSnoc(p, rest[0], 0, NOTHING_READ);
        Sticky(p + [rest[0]], rest[1..]);
        assert (p + [rest[0]]) + rest[1..] == s;
      }
    }
  }

  // A line of a head as sent: no line feed in it.
  predicate IsLine(line: seq<byte>) { LF !in line }

  function HeadText(lines: seq<seq<byte>>): seq<byte> {
    if lines == [] then [] else lines[0] + ([LF] + HeadText(lines[1..]))
  }

  // Header lines that are taken.
  predicate IsFields(fields: seq<seq<byte>>) {
    forall k :: 0 <= k < |fields| ==>
      IsLine(fields[k]) && StripCr(fields[k]) != [] && IsField(StripCr(fields[k]))
  }

  predicate HasEncoding(fields: seq<seq<byte>>) {
    exists k :: 0 <= k < |fields| && IsTransferEncoding(StripCr(fields[k]))
  }

  // The values of the content-length fields, in order.
  function Lengths(fields: seq<seq<byte>>): seq<u64>
    requires IsFields(fields)
  {
    if fields == [] then []
    else
      var update := UpdateOf(StripCr(fields[0]));
      (if update.contentLength.Some? then [update.contentLength.value] else []) + Lengths(fields[1..])
  }

  function AsSeq(o: Option<u64>): seq<u64> { if o.Some? then [o.value] else [] }

  // A response head with this meaning: a status line, header fields none of which
  // is a transfer encoding and at most one a content length, and a blank line. The
  // status is 2xx or 404, and only a 404 may leave the length out.
  ghost predicate Means(lines: seq<seq<byte>>, head: ResponseHead) {
    && |lines| >= 2 && IsLine(lines[0]) && IsStatusLine(StripCr(lines[0]), head.status)
    && (200 <= head.status <= 299 || head.status == 404)
    && (head.contentLength.None? ==> head.status == 404)
    && (var fields, last := lines[1..|lines| - 1], lines[|lines| - 1];
        IsFields(fields) && !HasEncoding(fields) && Lengths(fields) == AsSeq(head.contentLength) &&
        IsLine(last) && StripCr(last) == [])
  }

  predicate HasVersion(line: seq<byte>) { HTTP10 <= line || HTTP11 <= line }

  // The last line of a head with this status and these fields is why it is rejected.
  predicate LastRejects(status: u16, fields: seq<seq<byte>>, last: seq<byte>, error: HeadError)
    requires IsFields(fields)
  {
    match error
    case MalformedHeader => last != [] && !IsField(last)
    case DuplicateContentLength => last != [] && IsField(last) && IsContentLength(last) && Lengths(fields) != []
    case TransferEncoding => last == [] && HasEncoding(fields)
    case UnexpectedStatus => last == [] && !HasEncoding(fields) && !(200 <= status <= 299 || status == 404)
    case MissingContentLength =>
      last == [] && !HasEncoding(fields) && 200 <= status <= 299 && Lengths(fields) == []
    case _ => false
  }

  // Lines whose last one is the first that is not acceptable, and for this reason.
  ghost predicate Rejects(lines: seq<seq<byte>>, error: HeadError) {
    lines != [] && IsLine(lines[0]) &&
    var first := StripCr(lines[0]);
    match error
    case MalformedStatusLine => |lines| == 1 && !HasVersion(first)
    case TooFewStatusTokens => |lines| == 1 && HasVersion(first) && |Pieces(first, SPACE)| < 3
    case NonNumericStatus =>
      |lines| == 1 && HasVersion(first) && |Pieces(first, SPACE)| >= 3 && !exists status :: IsStatusLine(first, status)
    case _ =>
      |lines| >= 2 &&
      var fields, last := lines[1..|lines| - 1], lines[|lines| - 1];
      IsFields(fields) && |Lengths(fields)| <= 1 && IsLine(last) &&
      exists status :: IsStatusLine(first, status) && LastRejects(status, fields, StripCr(last), error)
  }

  // ----- Line by line -----

  function First(s: seq<u64>): Option<u64> { if s == [] then None else Some(s[0]) }

  // What is known behind the fields.
  function FactsBehind(facts: Facts, fields: seq<seq<byte>>): Facts
    requires IsFields(fields)
  {
    Facts(facts.status, First(AsSeq(facts.contentLength) + Lengths(fields)), facts.transferEncoding || HasEncoding(fields))
  }

  // Read with `facts`, the last line of the block ends the head with `event`.
  ghost predicate BlockStops(facts: Facts, block: seq<seq<byte>>, event: HeadEvent) {
    block != [] && facts.status.Some? &&
    var fields, last := block[..|block| - 1], block[|block| - 1];
    IsFields(fields) && IsLine(last) && |AsSeq(facts.contentLength) + Lengths(fields)| <= 1 &&
    ReadLine(FactsBehind(facts, fields), StripCr(last)) == Stop(event)
  }

  lemma FieldsCons(line: seq<byte>, fields: seq<seq<byte>>)
    ensures IsFields([line] + fields) <==>
            IsLine(line) && StripCr(line) != [] && IsField(StripCr(line)) && IsFields(fields)
    ensures HasEncoding([line] + fields) <==> IsTransferEncoding(StripCr(line)) || HasEncoding(fields)
    ensures IsFields([line] + fields) ==>
              Lengths([line] + fields) == AsSeq(UpdateOf(StripCr(line)).contentLength) + Lengths(fields)
  {
    hide IsLine, StripCr, IsField, IsTransferEncoding, UpdateOf;
    var all := [line] + fields;
    assert all[0] == line && all[1..] == fields;
    assert forall k :: 0 <= k < |fields| ==> fields[k] == all[k + 1];
    assert forall k :: 0 < k < |all| ==> all[k] == fields[k - 1];
  }

  // A field in front of fields, before and after it is taken into account.
  lemma FactsCons(facts: Facts, line: seq<byte>, fields: seq<seq<byte>>)
    requires facts.status.Some? && IsFields([line] + fields) && IsFields(fields)
    ensures var lengths := AsSeq(facts.contentLength) + Lengths([line] + fields);
            var step := ReadLine(facts, StripCr(line));
            if step.Stop? then |lengths| > 1
            else
              lengths == AsSeq(step.facts.contentLength) + Lengths(fields) && step.facts.status == facts.status &&
              FactsBehind(facts, [line] + fields) == FactsBehind(step.facts, fields)
  {
    hide IsLine, StripCr, IsField, IsTransferEncoding, IsContentLength, FieldValue, DecimalValue, IsFields, HasEncoding, Lengths;
    FieldsCons(line, fields);
    var update := UpdateOf(StripCr(line));
    assert AsSeq(facts.contentLength) + (AsSeq(update.contentLength) + Lengths(fields)) ==
           (AsSeq(facts.contentLength) + AsSeq(update.contentLength)) + Lengths(fields);
  }

  lemma BlockCons(facts: Facts, line: seq<byte>, block: seq<seq<byte>>, event: HeadEvent)
    requires block != [] && StripCr(line) != []
    ensures BlockStops(facts, [line] + block, event) <==>
            facts.status.Some? && IsLine(line) &&
            var step := ReadLine(facts, StripCr(line));
            step.Next? && BlockStops(step.facts, block, event)
  {
    hide StripCr, IsLine, IsFields, Lengths, FactsBehind, AsSeq;
    var all, fields := [line] + block, block[..|block| - 1];
    assert all[..|all| - 1] == [line] + fields && all[|all| - 1] == block[|block| - 1];
    FieldsCons(line, fields);
    FieldOrNot(facts, line);
    if facts.status.Some? && IsFields([line] + fields) {
      FactsCons(facts, line, fields);
    }
  }

  lemma FieldOrNot(facts: Facts, line: seq<byte>)
    requires StripCr(line) != []
    ensures facts.status.Some? && ReadLine(facts, StripCr(line)).Next? ==> IsField(StripCr(line))
  {
    hide StripCr, IsField, IsContentLength, IsTransferEncoding;
  }

  lemma BlockLast(facts: Facts, line: seq<byte>, event: HeadEvent)
    ensures BlockStops(facts, [line], event) <==>
            facts.status.Some? && IsLine(line) && ReadLine(facts, StripCr(line)) == Stop(event)
  {
    hide ReadLine, StripCr, IsLine;
    assert [line][..0] == [];
    assert AsSeq(facts.contentLength) + [] == AsSeq(facts.contentLength);
    assert FactsBehind(facts, []) == facts;
  }

  lemma NextLfFinds(s: seq<byte>, i: nat, line: seq<byte>)
    requires At(s, i, line + [LF]) && IsLine(line)
    ensures i <= |s| && NextLf(s, i) == i + |line| < |s| && s[i..i + |line|] == line
  {
    AtConcat(s, i, line, [LF]);
    AtSplit(s, i, line + [LF], 0);
    var j := NextLf(s, i);
    assert s[i + |line|] == (line + [LF])[|line|];
    forall k | i <= k < i + |line| ensures s[k] != LF {
      assert s[i + (k - i)] == (line + [LF])[k - i] == line[k - i];
    }
  }

  // The bytes from `i` to the `n`th are the lines of `block`.
  ghost predicate Spans(s: seq<byte>, i: nat, n: nat, block: seq<seq<byte>>) {
    At(s, i, HeadText(block)) && n == i + |HeadText(block)| <= 2048
  }

  lemma SpansCons(s: seq<byte>, i: nat, n: nat, line: seq<byte>, block: seq<seq<byte>>)
    ensures Spans(s, i, n, [line] + block) <==> At(s, i, line + [LF]) && Spans(s, i + |line| + 1, n, block)
  {
    assert ([line] + block)[1..] == block;
    assert line + ([LF] + HeadText(block)) == (line + [LF]) + HeadText(block);
    AtConcat(s, i, line + [LF], HeadText(block));
  }

  lemma SpansLast(s: seq<byte>, i: nat, line: seq<byte>)
    requires At(s, i, line + [LF]) && i + |line| + 1 <= MAX_HEAD_BYTES
    ensures Spans(s, i, i + |line| + 1, [line])
  {
    assert HeadText([line][1..]) == [];
    assert HeadText([line]) == line + [LF];
  }

  lemma SpansBound(s: seq<byte>, i: nat, n: nat, block: seq<seq<byte>>)
    requires Spans(s, i, n, block)
    ensures i <= n <= MAX_HEAD_BYTES && n <= |s| && (block == [] ==> n == i)
  {
  }

  // The line that begins at `i`.
  lemma LineAt(s: seq<byte>, i: nat)
    requires i <= |s| && NextLf(s, i) < |s|
    ensures IsLine(s[i..NextLf(s, i)]) && At(s, i, s[i..NextLf(s, i)] + [LF])
  {
    var j := NextLf(s, i);
    assert s[i..j + 1] == s[i..j] + [LF];
  }

  lemma {:induction false} BlockForward(s: seq<byte>, i: nat, facts: Facts, event: HeadEvent, n: nat)
    returns (block: seq<seq<byte>>)
    requires i <= |s| && facts.status.Some? && ScanFrom(s, i, facts) == Decided(event, n) && n <= MAX_HEAD_BYTES
    ensures block != [] && BlockStops(facts, block, event) && Spans(s, i, n, block)
    decreases |s| - i
  {
    hide ReadLine, StripCr, BlockStops, Spans, IsLine, NextLf, At;
    var j := NextLf(s, i);
    var line := s[i..j];
    LineAt(s, i);
    ReadLineCases(facts, line);
    match ReadLine(facts, StripCr(line))
    case Stop(_) =>
      block := [line];
      BlockLast(facts, line, event);
      SpansLast(s, i, line);
    case Next(facts') =>
      var rest := BlockForward(s, j + 1, facts', event, n);
      block := [line] + rest;
      BlockCons(facts, line, rest, event);
      SpansCons(s, i, n, line, rest);
  }

  lemma ReadLineCases(facts: Facts, line: seq<byte>)
    requires facts.status.Some?
    ensures var step := ReadLine(facts, StripCr(line));
            step.Next? ==> StripCr(line) != [] && step.facts.status.Some?
  {
  }

  lemma {:induction false} BlockBackward(s: seq<byte>, i: nat, facts: Facts, event: HeadEvent, n: nat, block: seq<seq<byte>>)
    requires i <= |s| && BlockStops(facts, block, event) && Spans(s, i, n, block)
    ensures ScanFrom(s, i, facts) == Decided(event, n)
    decreases |block|
  {
    hide ReadLine, StripCr, BlockStops, Spans, IsLine, NextLf, At;
    BlockLines(facts, block, event);
    var line, rest := block[0], block[1..];
    assert block == [line] + rest;
    SpansCons(s, i, n, line, rest);
    NextLfFinds(s, i, line);
    var j := i + |line|;
    SpansBound(s, j + 1, n, rest);
    if rest == [] {
      assert block == [line];
      BlockLast(facts, line, event);
    } else {
      BlockCons(facts, line, rest, event);
      BlockBackward(s, j + 1, ReadLine(facts, StripCr(line)).facts, event, n, rest);
    }
  }

  lemma BlockLines(facts: Facts, block: seq<seq<byte>>, event: HeadEvent)
    requires BlockStops(facts, block, event)
    ensures block != [] && facts.status.Some? && IsLine(block[0]) && (|block| > 1 ==> StripCr(block[0]) != [])
  {
    hide ReadLine, StripCr, IsLine, Lengths;
    assert |block| > 1 ==> block[0] == block[..|block| - 1][0];
  }

  // The lines end a head with `event`, and its last one does.
  ghost predicate HeadStops(lines: seq<seq<byte>>, event: HeadEvent) {
    lines != [] && IsLine(lines[0]) &&
    match StatusOf(StripCr(lines[0]))
    case Err(error) => |lines| == 1 && event == Reject(error)
    case Ok(status) => BlockStops(Facts(Some(status), None, false), lines[1..], event)
  }

  lemma HeadForward(s: seq<byte>, event: HeadEvent, n: nat) returns (lines: seq<seq<byte>>)
    requires ScanHead(s) == Decided(event, n) && n <= MAX_HEAD_BYTES
    ensures HeadStops(lines, event) && Spans(s, 0, n, lines)
  {
    hide StatusOf, StripCr, BlockStops, IsLine, Spans, At, NextLf;
    var j := NextLf(s, 0);
    var line := s[0..j];
    LineAt(s, 0);
    match StatusOf(StripCr(line))
    case Err(_) =>
      lines := [line];
      SpansLast(s, 0, line);
    case Ok(status) =>
      var block := BlockForward(s, j + 1, Facts(Some(status), None, false), event, n);
      lines := [line] + block;
      assert lines[1..] == block;
      SpansCons(s, 0, n, line, block);
  }

  lemma HeadBackward(s: seq<byte>, event: HeadEvent, n: nat, line: seq<byte>, block: seq<seq<byte>>)
    requires HeadStops([line] + block, event) && Spans(s, 0, n, [line] + block)
    ensures ScanHead(s) == Decided(event, n)
  {
    hide StatusOf, StripCr, BlockStops, IsLine, Spans, At, NextLf;
    assert ([line] + block)[1..] == block;
    SpansCons(s, 0, n, line, block);
    NextLfFinds(s, 0, line);
    SpansBound(s, |line| + 1, n, block);
    match StatusOf(StripCr(line))
    case Err(_) =>
    case Ok(status) => BlockBackward(s, |line| + 1, Facts(Some(status), None, false), event, n, block);
  }

  // A head is decided within the limit exactly by lines that end it that way.
  lemma StopsIff(s: seq<byte>, event: HeadEvent, n: nat)
    ensures ScanHead(s) == Decided(event, n) && n <= MAX_HEAD_BYTES <==>
            exists lines :: HeadStops(lines, event) && Spans(s, 0, n, lines)
  {
    hide ScanHead, HeadStops, Spans;
    if ScanHead(s) == Decided(event, n) && n <= MAX_HEAD_BYTES {
      var lines := HeadForward(s, event, n);
    }
    forall lines | HeadStops(lines, event) && Spans(s, 0, n, lines)
      ensures ScanHead(s) == Decided(event, n) && n <= MAX_HEAD_BYTES
    {
      LinesNotEmpty(lines, event);
      assert lines == [lines[0]] + lines[1..];
      HeadBackward(s, event, n, lines[0], lines[1..]);
      SpansBound(s, 0, n, lines);
    }
  }

  lemma LinesNotEmpty(lines: seq<seq<byte>>, event: HeadEvent)
    requires HeadStops(lines, event)
    ensures lines != []
  {
  }

  lemma StatusFirst(line: seq<byte>)
    ensures match StatusOf(line)
            case Ok(status) => forall other :: IsStatusLine(line, other) <==> other == status
            case Err(error) =>
              (forall other :: !IsStatusLine(line, other)) &&
              error == if !HasVersion(line) then MalformedStatusLine
                       else if |Pieces(line, SPACE)| < 3 then TooFewStatusTokens else NonNumericStatus
    ensures (exists other :: IsStatusLine(line, other)) ==> HasVersion(line) && |Pieces(line, SPACE)| >= 3
  {
    forall other: u16 ensures IsStatusLine(line, other) <==> StatusOf(line) == Ok(other) {
      StatusIff(line, other);
    }
    hide IsStatusLine;
  }

  // The ends of a block in the lines' own terms.
  lemma BlockEnds(status: u16, block: seq<seq<byte>>, event: HeadEvent)
    requires block != []
    ensures var fields, last := block[..|block| - 1], block[|block| - 1];
            BlockStops(Facts(Some(status), None, false), block, event) <==>
            IsFields(fields) && |Lengths(fields)| <= 1 && IsLine(last) &&
            match event
            case Reject(error) => LastRejects(status, fields, StripCr(last), error)
            case Complete(head) =>
              StripCr(last) == [] && !HasEncoding(fields) && Lengths(fields) == AsSeq(head.contentLength) &&
              status == head.status && (200 <= status <= 299 || status == 404) &&
              (head.contentLength.None? ==> head.status == 404)
            case NeedMore => false
  {
    hide IsLine, StripCr, IsField, IsFields, HasEncoding, Lengths, IsTransferEncoding, FieldValue, DecimalValue;
    var fields := block[..|block| - 1];
    if IsFields(fields) {
      var lengths := Lengths(fields);
      assert [] + lengths == lengths;
      if |lengths| == 1 {
        assert lengths == [lengths[0]];
      }
    }
  }

  lemma MeansIff(lines: seq<seq<byte>>, head: ResponseHead)
    ensures Means(lines, head) <==> HeadStops(lines, Complete(head))
  {
    hide IsLine, StripCr, IsFields, HasEncoding, Lengths, StatusOf, BlockStops, IsStatusLine;
    if lines == [] {
    } else {
      StatusFirst(StripCr(lines[0]));
      if |lines| >= 2 {
        BlockParts(lines);
        BlockEnds(head.status, lines[1..], Complete(head));
        if StatusOf(StripCr(lines[0])).Ok? {
          BlockEnds(StatusOf(StripCr(lines[0])).value, lines[1..], Complete(head));
        }
      } else {
        NothingStops(lines[1..], Complete(head));
      }
    }
  }

  lemma NothingStops(block: seq<seq<byte>>, event: HeadEvent)
    requires block == []
    ensures forall facts :: !BlockStops(facts, block, event)
  {
  }

  lemma BlockParts(lines: seq<seq<byte>>)
    requires |lines| >= 2
    ensures var block := lines[1..];
            block != [] && block[..|block| - 1] == lines[1..|lines| - 1] && block[|block| - 1] == lines[|lines| - 1]
  {
  }

  lemma RejectsIff(lines: seq<seq<byte>>, error: HeadError)
    ensures Rejects(lines, error) <==> HeadStops(lines, Reject(error))
  {
    hide IsLine, StripCr, IsFields, HasEncoding, Lengths, StatusOf, BlockStops, IsStatusLine, HasVersion, LastRejects, Pieces;
    if lines == [] {
    } else {
      var first := StripCr(lines[0]);
      StatusFirst(first);
      assert StatusOf(first).Ok? ==> IsStatusLine(first, StatusOf(first).value);
      NotOfStatus(error);
      if |lines| >= 2 {
        BlockParts(lines);
        if StatusOf(StripCr(lines[0])).Ok? {
          BlockEnds(StatusOf(StripCr(lines[0])).value, lines[1..], Reject(error));
        }
      } else {
        NothingStops(lines[1..], Reject(error));
      }
    }
  }

  // The errors of the status line are not those of the lines behind it.
  lemma NotOfStatus(error: HeadError)
    ensures error in {MalformedStatusLine, TooFewStatusTokens, NonNumericStatus, OversizedHeader} ==>
              forall status, fields, last :: IsFields(fields) ==> !LastRejects(status, fields, last, error)
  {
    hide IsFields;
  }

  // A head is accepted with `n` bytes exactly when it fits 2048 bytes and those
  // `n` bytes are lines with this meaning.
  lemma CompleteIff(s: seq<byte>, head: ResponseHead, n: nat)
    ensures ScanHead(s) == Decided(Complete(head), n) <==>
            n <= 2048 && exists lines :: Means(lines, head) && At(s, 0, HeadText(lines)) && n == |HeadText(lines)|
  {
    hide ScanFrom, Means, HeadStops;
    if ScanHead(s) == Decided(Complete(head), n) {
      DecidedWithin(s, 0, NOTHING_READ);
    }
    StopsIff(s, Complete(head), n);
    forall lines ensures Means(lines, head) <==> HeadStops(lines, Complete(head)) {
      MeansIff(lines, head);
    }
    assert forall lines :: Spans(s, 0, n, lines) <==> At(s, 0, HeadText(lines)) && n == |HeadText(lines)| <= 2048;
  }

  // A head is rejected for being too long as said above, and for any other reason
  // exactly by the first line that is not acceptable, within 2048 bytes.
  lemma RejectIff(s: seq<byte>, error: HeadError, n: nat)
    requires error != OversizedHeader
    ensures ScanHead(s) == Decided(Reject(error), n) <==>
            n <= 2048 && exists lines :: Rejects(lines, error) && At(s, 0, HeadText(lines)) && n == |HeadText(lines)|
  {
    hide ScanFrom, Rejects, HeadStops;
    if ScanHead(s) == Decided(Reject(error), n) {
      DecidedWithin(s, 0, NOTHING_READ);
    }
    StopsIff(s, Reject(error), n);
    forall lines ensures Rejects(lines, error) <==> HeadStops(lines, Reject(error)) {
      RejectsIff(lines, error);
    }
    assert forall lines :: Spans(s, 0, n, lines) <==> At(s, 0, HeadText(lines)) && n == |HeadText(lines)| <= 2048;
  }

  // ----- Heads as written -----

  lemma Spelling(b: byte)
    ensures Spells(HTTP10, "HTTP/1.0 ") && Spells(HTTP11, "HTTP/1.1 ")
    ensures Spells(CONTENT_LENGTH, "content-length") && Spells(TRANSFER_ENCODING, "transfer-encoding")
    ensures 'A' as int <= b <= 'Z' as int ==> Lower(b) == b - 'A' as int + 'a' as int
    ensures !('A' as int <= b <= 'Z' as int) ==> Lower(b) == b
  {
  }

  // One carriage return goes, and nothing else.
  lemma StripCrOf(line: seq<byte>)
    ensures StripCr(line + [CR]) == line
    ensures line == [] || line[|line| - 1] != CR ==> StripCr(line) == line
  {
  }

  // A header line is read by its name and value, with the whitespace around either
  // left out and the case of the name ignored.
  lemma FieldReads(name: seq<byte>, value: seq<byte>)
    requires COLON !in name
    ensures var line, key, v := name + ([COLON] + value), Trim(name), Trim(value);
            (IsField(line) <==>
             EqIgnoreCase(key, CONTENT_LENGTH) ==> v != [] && AllDigits(v) && DecimalValue(v) <= U64_MAX) &&
            (IsField(line) ==>
             UpdateOf(line) == HeaderUpdate(EqIgnoreCase(key, TRANSFER_ENCODING),
                                            if EqIgnoreCase(key, CONTENT_LENGTH) then Some(DecimalValue(v)) else None))
    ensures !IsField(name)
  {
    hide Trim, EqIgnoreCase, DecimalValue;
    var line := name + ([COLON] + value);
    UpToUnique(line, COLON, name);
    assert line[|name|] == COLON && line[|name| + 1..] == value;
  }

  function Eol(cr: bool): seq<byte> { if cr then [CR] else [] }

  // An ordinary head: a status line, a content length, a blank line.
  function OrdinaryHead(status: u16, reason: seq<byte>, name: seq<byte>, length: u64, cr: bool): seq<seq<byte>> {
    [HTTP11 + (Decimal(status) + ([SPACE] + reason)) + Eol(cr), name + ([COLON] + ([SPACE] + Decimal(length))) + Eol(cr), Eol(cr)]
  }

  // Such a head is accepted with its status and length, with either line end.
  lemma OrdinaryAccepted(status: u16, reason: seq<byte>, name: seq<byte>, length: u64, cr: bool)
    requires 200 <= status <= 299 || status == 404
    requires LF !in reason && CR !in reason && exists k :: 0 <= k < |reason| && reason[k] != SPACE
    requires EqIgnoreCase(name, CONTENT_LENGTH)
    requires |HeadText(OrdinaryHead(status, reason, name, length, cr))| <= 2048
    ensures var text := HeadText(OrdinaryHead(status, reason, name, length, cr));
            ScanHead(text) == Decided(Complete(ResponseHead(status, Some(length))), |text|)
  {
    var lines := OrdinaryHead(status, reason, name, length, cr);
    OrdinaryMeans(status, reason, name, length, cr);
    hide *;
    assert At(HeadText(lines), 0, HeadText(lines)) by { AtWhole(HeadText(lines)); }
    CompleteIff(HeadText(lines), ResponseHead(status, Some(length)), |HeadText(lines)|);
  }

  lemma AtWhole(s: seq<byte>)
    ensures At(s, 0, s)
  {
  }

  // A name that differs from `content-length` in case only.
  lemma NameIsPlain(name: seq<byte>)
    requires EqIgnoreCase(name, CONTENT_LENGTH)
    ensures COLON !in name && LF !in name && Trim(name) == name && !EqIgnoreCase(name, TRANSFER_ENCODING)
  {
    forall k | 0 <= k < |name| ensures name[k] != COLON && !IsAsciiWs(name[k]) {
      assert Lower(name[k]) == Lower(CONTENT_LENGTH[k]) >= 0x2D;
    }
    hide EqIgnoreCase, Lower, Trim;
    assert [] + name + [] == name;
    TrimPadded([], name, []);
    NamesAreLong();
    assert |name| == |CONTENT_LENGTH| != |TRANSFER_ENCODING| by { SameLength(name, CONTENT_LENGTH); }
    if EqIgnoreCase(name, TRANSFER_ENCODING) {
      SameLength(name, TRANSFER_ENCODING);
    }
  }

  lemma NamesAreLong()
    ensures |CONTENT_LENGTH| == 14 && |TRANSFER_ENCODING| == 17
  {
  }

  lemma SameLength(a: seq<byte>, b: seq<byte>)
    requires EqIgnoreCase(a, b)
    ensures |a| == |b|
  {
  }

  lemma LengthField(name: seq<byte>, length: u64)
    requires EqIgnoreCase(name, CONTENT_LENGTH)
    ensures var line := name + ([COLON] + ([SPACE] + Decimal(length)));
            IsField(line) && UpdateOf(line) == HeaderUpdate(false, Some(length)) && IsLine(line) && line[|line| - 1] != CR
  {
    hide Trim, EqIgnoreCase, DecimalValue, Decimal, IsField, UpdateOf;
    var digits := Decimal(length);
    NameIsPlain(name);
    DecimalValueOfDecimal(length);
    assert [SPACE] + digits + [] == [SPACE] + digits;
    TrimPadded([SPACE], digits, []);
    FieldReads(name, [SPACE] + digits);
  }

  lemma OrdinaryStatus(status: u16, reason: seq<byte>)
    requires LF !in reason && CR !in reason && exists k :: 0 <= k < |reason| && reason[k] != SPACE
    ensures var line := HTTP11 + (Decimal(status) + ([SPACE] + reason));
            IsStatusLine(line, status) && IsLine(line) && line[|line| - 1] != CR
  {
    hide Decimal, DecimalValue;
    var line := HTTP11 + (Decimal(status) + ([SPACE] + reason));
    DecimalValueOfDecimal(status);
    assert StatusLineOf(line, HTTP11, Decimal(status), reason);
    assert line[|line| - 1] == reason[|reason| - 1];
  }

  lemma WithEol(line: seq<byte>, cr: bool)
    requires IsLine(line) && (line == [] || line[|line| - 1] != CR)
    ensures StripCr(line + Eol(cr)) == line && IsLine(line + Eol(cr))
  {
    StripCrOf(line);
    assert line + [] == line;
  }

  lemma OrdinaryMeans(status: u16, reason: seq<byte>, name: seq<byte>, length: u64, cr: bool)
    requires 200 <= status <= 299 || status == 404
    requires LF !in reason && CR !in reason && exists k :: 0 <= k < |reason| && reason[k] != SPACE
    requires EqIgnoreCase(name, CONTENT_LENGTH)
    ensures Means(OrdinaryHead(status, reason, name, length, cr), ResponseHead(status, Some(length)))
  {
    hide StripCr, IsLine, IsStatusLine, IsField, UpdateOf, Decimal, EqIgnoreCase, Eol;
    var lines := OrdinaryHead(status, reason, name, length, cr);
    var first := HTTP11 + (Decimal(status) + ([SPACE] + reason));
    var field := name + ([COLON] + ([SPACE] + Decimal(length)));
    OrdinaryStatus(status, reason);
    WithEol(first, cr);
    LengthField(name, length);
    WithEol(field, cr);
    BlankLine();
    WithEol([], cr);
    assert [] + Eol(cr) == Eol(cr);
    assert field != [];
    var fields := lines[1..2];
    assert fields == [field + Eol(cr)] + [];
    OneLength(field + Eol(cr), length);
  }

  lemma BlankLine()
    ensures IsLine([])
  {
  }

  lemma OneLength(line: seq<byte>, length: u64)
    requires IsLine(line) && StripCr(line) != [] && IsField(StripCr(line))
    requires UpdateOf(StripCr(line)) == HeaderUpdate(false, Some(length))
    ensures IsFields([line]) && !HasEncoding([line]) && Lengths([line]) == [length]
  {
    assert [line] + [] == [line];
    FieldsCons(line, []);
  }
}
