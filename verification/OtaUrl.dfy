// The request URL: parsing `scheme://host[:port][/prefix...]` with a project, and
// the canonical form it has.

module OtaUrl {
  import opened Prelude
  import opened OtaText

  const PATH_BYTES: nat := 192

  // `://`, `http` and `https`
  const SCHEME_END: seq<byte> := [COLON, SLASH, SLASH]
  const HTTP: seq<byte> := [0x68, 0x74, 0x74, 0x70]
  const HTTPS: seq<byte> := [0x68, 0x74, 0x74, 0x70, 0x73]

  datatype UrlError = Scheme | Host | Port | Project | Path

  datatype Uri = Uri(tls: bool, host: seq<byte>, port: u16, path: seq<byte>)

  predicate IsHostByte(b: byte) {
    IsDigit(b) || IsLower(b) || IsUpper(b) || b == DOT || b == MINUS || b == 0x5F
  }

  predicate AllHostBytes(s: seq<byte>) { forall k :: 0 <= k < |s| ==> IsHostByte(s[k]) }

  predicate ValidSegment(s: seq<byte>) { s != [] && AllHostBytes(s) }

  // ----- Splitting -----

  lemma AtBehind(s: seq<byte>, i: nat, t: seq<byte>)
    requires s != [] && At(s[1..], i, t)
    ensures At(s, i + 1, t)
  {
    assert s[1..][i..i + |t|] == s[i + 1..i + 1 + |t|];
  }

  // Position of the first `t` in `s`.
  function Find(s: seq<byte>, t: seq<byte>): (i: Option<nat>)
    ensures i.Some? ==> At(s, i.value, t)
  {
    if t <= s then Some(0)
    else if s == [] then None
    else
      var i :- Find(s[1..], t);
      AtBehind(s, i, t);
      Some(i + 1)
  }

  // Position of the last `b` in `s`.
  function FindLast(s: seq<byte>, b: byte): (i: Option<nat>)
    ensures i.Some? ==> i.value < |s| && s[i.value] == b && b !in s[i.value + 1..]
    ensures i.None? ==> b !in s
  {
    if s == [] then None
    else if s[|s| - 1] == b then Some(|s| - 1)
    else
      var i := FindLast(s[..|s| - 1], b);
      assert s == s[..|s| - 1] + [s[|s| - 1]];
      assert i.Some? ==> s[i.value + 1..] == s[..|s| - 1][i.value + 1..] + [s[|s| - 1]];
      i
  }

  lemma FindLastUnique(s: seq<byte>, b: byte, i: nat)
    requires i < |s| && s[i] == b && b !in s[i + 1..]
    ensures FindLast(s, b) == Some(i)
  {
    forall k | i < k < |s| ensures s[k] != b {
      assert s[i + 1..][k - i - 1] == s[k];
    }
    var j := FindLast(s, b).value;
    forall k | j < k < |s| ensures s[k] != b {
      assert s[j + 1..][k - j - 1] == s[k];
    }
  }

  // ----- Authority -----

  // `str::parse::<u16>`: an optional plus sign and digits of a value up to 65535.
  function ParsePort(s: seq<byte>): Option<u16> {
    var digits := if s != [] && s[0] == PLUS then s[1..] else s;
    if digits != [] && AllDigits(digits) && DecimalValue(digits) <= U16_MAX then Some(DecimalValue(digits)) else None
  }

  function DefaultPort(tls: bool): u16 { if tls then 443 else 80 }

  function ParseAuthority(authority: seq<byte>, tls: bool): Result<(seq<byte>, u16), UrlError> {
    var colon := FindLast(authority, COLON);
    var port := if colon.Some? then ParsePort(authority[colon.value + 1..]) else Some(DefaultPort(tls));
    var host := if colon.Some? then authority[..colon.value] else authority;
    if port.None? || port.value == 0 then Err(Port)
    else if !ValidSegment(host) then Err(Host)
    else Ok((host, port.value))
  }

  // ----- The path -----

  // Each segment behind a slash.
  function Join(segments: seq<seq<byte>>): seq<byte> {
    if segments == [] then [] else Join(segments[..|segments| - 1]) + [SLASH] + segments[|segments| - 1]
  }

  predicate AllValid(segments: seq<seq<byte>>) {
    forall k :: 0 <= k < |segments| ==> ValidSegment(segments[k])
  }

  lemma {:induction false} JoinGrows(segments: seq<seq<byte>>, k: nat)
    requires k <= |segments|
    ensures |Join(segments[..k])| <= |Join(segments)|
  {
    if k < |segments| {
      var before := segments[..|segments| - 1];
      JoinGrows(before, k);
      assert before[..k] == segments[..k];
    } else {
      assert segments[..k] == segments;
    }
  }

  // The segment loop: writes each segment behind a slash while it is valid and fits.
  method BuildPath(segments: seq<seq<byte>>) returns (r: Result<seq<byte>, UrlError>)
    ensures r == if AllValid(segments) && |Join(segments)| <= PATH_BYTES then Ok(Join(segments)) else Err(Path)
  {
    var path := new byte[PATH_BYTES](_ => 0);
    var len := 0;
    for n := 0 to |segments|
      invariant len <= PATH_BYTES && path[..len] == Join(segments[..n]) && AllValid(segments[..n])
    {
      var segment := segments[n];
      assert segments[..n + 1][..n] == segments[..n];
      if len + 1 + |segment| > PATH_BYTES || !ValidSegment(segment) {
        JoinGrows(segments, n + 1);
        return Err(Path);
      }
      ghost var before := path[..len];
      path[len] := SLASH;
      len := len + 1;
      forall k | 0 <= k < |segment| {
        path[len + k] := segment[k];
      }
      len := len + |segment|;
      assert path[..len] == before + [SLASH] + segment;
    }
    assert segments[..|segments|] == segments;
    r := Ok(path[..len]);
  }

  // ----- The URL -----

  function Split(base: seq<byte>): Option<(seq<byte>, seq<byte>)> {
    var i :- Find(base, SCHEME_END);
    Some((base[..i], base[i + 3..]))
  }

  function Prefix(rest: seq<byte>): seq<byte> { rest[|UpTo(rest, SLASH)|..] }

  // What parsing decides.
  function UrlOf(base: seq<byte>, project: seq<byte>): Result<Uri, UrlError> {
    match Split(base)
    case None => Err(Scheme)
    case Some((scheme, rest)) =>
      if scheme != HTTPS && scheme != HTTP then Err(Scheme)
      else if !ValidSegment(project) then Err(Project)
      else
        match ParseAuthority(UpTo(rest, SLASH), scheme == HTTPS)
        case Err(error) => Err(error)
        case Ok((host, port)) =>
          var segments := Pieces(Prefix(rest), SLASH) + [project];
          if AllValid(segments) && |Join(segments)| <= PATH_BYTES then Ok(Uri(scheme == HTTPS, host, port, Join(segments)))
          else Err(Path)
  }

  method ParseUrl(base: seq<byte>, project: seq<byte>) returns (r: Result<Uri, UrlError>)
    ensures r == UrlOf(base, project)
  {
    var split := Split(base);
    if split.None? {
      return Err(Scheme);
    }
    var (scheme, rest) := split.value;
    var tls := scheme == HTTPS;
    if !tls && scheme != HTTP {
      return Err(Scheme);
    }
    if !ValidSegment(project) {
      return Err(Project);
    }
    var slash := Position(rest, SLASH);
    var authority := match slash case Some(i) => rest[..i] case None => rest;
    var prefix := match slash case Some(i) => rest[i..] case None => [];
    assert authority == UpTo(rest, SLASH) && prefix == Prefix(rest);
    var parsed := ParseAuthority(authority, tls);
    if parsed.Err? {
      return Err(parsed.error);
    }
    var (host, port) := parsed.value;
    var path := BuildPath(Pieces(prefix, SLASH) + [project]);
    r := match path case Ok(p) => Ok(Uri(tls, host, port, p)) case Err(error) => Err(error);
  }

  // ----- The canonical form -----

  // The URL printed with everything explicit; `prefix` is the path in front of the
  // project.
  function Canonical(uri: Uri, prefix: seq<byte>): seq<byte> {
    (if uri.tls then HTTPS else HTTP) + (SCHEME_END + (uri.host + [COLON] + Decimal(uri.port) + prefix))
  }

  // The pieces of joined valid segments are those segments.
  lemma {:induction false} PiecesOfJoin(segments: seq<seq<byte>>)
    requires AllValid(segments)
    ensures Pieces(Join(segments), SLASH) == segments
  {
    hide AllHostBytes;
    if segments == [] {
    } else {
      var before, last := segments[..|segments| - 1], segments[|segments| - 1];
      PiecesOfJoin(before);
      NoSlash(last);
      PiecesSnoc(Join(before), last);
      assert segments == before + [last];
    }
  }

  lemma NoSlash(s: seq<byte>)
    requires AllHostBytes(s)
    ensures SLASH !in s && COLON !in s
  {
  }

  lemma {:induction false} PiecesSnoc(s: seq<byte>, p: seq<byte>)
    requires p != [] && SLASH !in p
    ensures Pieces(s + [SLASH] + p, SLASH) == Pieces(s, SLASH) + [p]
    decreases |s|
  {
    hide Pieces;
    var t := s + [SLASH] + p;
    var q := UpTo(s, SLASH);
    PiecesStep(t, SLASH, q);
    if |q| < |s| {
      var rest := s[|q| + 1..];
      PiecesSnoc(rest, p);
      PiecesStep(s, SLASH, q);
      assert t[|q| + 1..] == rest + [SLASH] + p;
      assert (AsPiece(q) + Pieces(rest, SLASH)) + [p] == AsPiece(q) + (Pieces(rest, SLASH) + [p]);
    } else {
      assert t[|q| + 1..] == p && q == s;
      assert AsPiece(p) == [p];
      PiecesOfOne(p, SLASH);
      PiecesOfOne(s, SLASH);
    }
  }

  lemma SchemeFound(scheme: seq<byte>, rest: seq<byte>)
    requires scheme == HTTP || scheme == HTTPS
    ensures Split(scheme + (SCHEME_END + rest)) == Some((scheme, rest))
  {
    var s := scheme + (SCHEME_END + rest);
    FindAfter(scheme, rest);
    assert s[|scheme| + 3..] == rest;
  }

  lemma {:induction false} FindAfter(scheme: seq<byte>, rest: seq<byte>)
    requires COLON !in scheme
    ensures Find(scheme + (SCHEME_END + rest), SCHEME_END) == Some(|scheme|)
  {
    var s := scheme + (SCHEME_END + rest);
    if scheme == [] {
      assert s == SCHEME_END + rest;
    } else {
      assert s[0] != COLON;
      assert s[1..] == scheme[1..] + (SCHEME_END + rest);
      FindAfter(scheme[1..], rest);
    }
  }

  // Printing an accepted URL with everything explicit and reading it again gives
  // the same target; its path is the valid prefix segments and then the project.
  lemma CanonicalRoundTrip(base: seq<byte>, project: seq<byte>)
    requires UrlOf(base, project).Ok?
    ensures var uri := UrlOf(base, project).value;
            var prefix := uri.path[..|uri.path| - |project| - 1];
            |project| < |uri.path| <= PATH_BYTES && uri.path == prefix + [SLASH] + project &&
            AllValid(Pieces(prefix, SLASH)) && prefix == Join(Pieces(prefix, SLASH)) &&
            UrlOf(Canonical(uri, prefix), project) == Ok(uri)
  {
    hide UrlOf, Pieces, Canonical;
    var uri := UrlOf(base, project).value;
    var pieces := PathOf(base, project);
    var segments := pieces + [project];
    assert segments[..|segments| - 1] == pieces && segments[|segments| - 1] == project;
    assert uri.path == Join(pieces) + [SLASH] + project;
    assert uri.path[..|uri.path| - |project| - 1] == Join(pieces);
    PiecesOfJoin(pieces);
    CanonicalReads(uri, pieces, project);
  }

  // What an accepted URL is made of.
  lemma PathOf(base: seq<byte>, project: seq<byte>) returns (pieces: seq<seq<byte>>)
    requires UrlOf(base, project).Ok?
    ensures var uri := UrlOf(base, project).value;
            ValidSegment(uri.host) && uri.port > 0 && AllValid(pieces) && ValidSegment(project) &&
            uri.path == Join(pieces + [project]) && |uri.path| <= PATH_BYTES
  {
    hide Pieces, ParseAuthority, Find, Join, UpTo;
    AuthorityIsValid(base, project);
    pieces := Pieces(Prefix(Split(base).value.1), SLASH);
    assert forall k :: 0 <= k < |pieces| ==> pieces[k] == (pieces + [project])[k];
  }

  lemma AuthorityIsValid(base: seq<byte>, project: seq<byte>)
    requires UrlOf(base, project).Ok?
    ensures ValidSegment(UrlOf(base, project).value.host) && UrlOf(base, project).value.port > 0
  {
  }

  lemma CanonicalReads(uri: Uri, pieces: seq<seq<byte>>, project: seq<byte>)
    requires ValidSegment(uri.host) && uri.port > 0 && AllValid(pieces) && ValidSegment(project)
    requires uri.path == Join(pieces + [project]) && |uri.path| <= PATH_BYTES
    ensures UrlOf(Canonical(uri, Join(pieces)), project) == Ok(uri)
  {
    hide Join, Pieces, ParseAuthority, Find, Decimal, UpTo, Prefix;
    var prefix := Join(pieces);
    var authority := uri.host + [COLON] + Decimal(uri.port);
    SchemeFound(if uri.tls then HTTPS else HTTP, authority + prefix);
    assert HTTP != HTTPS;
    RestSplits(uri.host, Decimal(uri.port), pieces);
    PiecesOfJoin(pieces);
    AuthorityReads(uri.host, uri.port, uri.tls);
    AllValidSnoc(pieces, project);
  }

  lemma AllValidSnoc(segments: seq<seq<byte>>, segment: seq<byte>)
    requires AllValid(segments) && ValidSegment(segment)
    ensures AllValid(segments + [segment])
  {
  }

  lemma RestSplits(host: seq<byte>, digits: seq<byte>, pieces: seq<seq<byte>>)
    requires AllHostBytes(host) && AllDigits(digits)
    ensures var authority := host + [COLON] + digits;
            UpTo(authority + Join(pieces), SLASH) == authority && Prefix(authority + Join(pieces)) == Join(pieces)
  {
    hide Join;
    var authority := host + [COLON] + digits;
    NoSlash(host);
    JoinStarts(pieces);
    UpToUnique(authority + Join(pieces), SLASH, authority);
  }

  lemma PortReads(port: u16)
    ensures ParsePort(Decimal(port)) == Some(port)
  {
    hide DecimalValue, Decimal;
    DecimalValueOfDecimal(port);
  }

  lemma AuthorityReads(host: seq<byte>, port: u16, tls: bool)
    requires ValidSegment(host) && port > 0
    ensures ParseAuthority(host + [COLON] + Decimal(port), tls) == Ok((host, port))
  {
    hide FindLast, Decimal, ParsePort, DecimalValue;
    var authority := host + [COLON] + Decimal(port);
    assert COLON !in Decimal(port);
    assert authority[|host| + 1..] == Decimal(port) && authority[..|host|] == host;
    FindLastUnique(authority, COLON, |host|);
    PortReads(port);
  }

  lemma {:induction false} JoinStarts(segments: seq<seq<byte>>)
    ensures Join(segments) != [] ==> Join(segments)[0] == SLASH
  {
    if segments == [] {
    } else {
      JoinStarts(segments[..|segments| - 1]);
    }
  }

  // ----- Which URLs are accepted -----

  // A port as written: digits, perhaps behind a plus sign.
  datatype PortText = PortText(plus: bool, digits: seq<byte>)

  // The parts of a URL text; the prefix is everything from the first slash behind
  // the authority on.
  datatype UrlParts = UrlParts(tls: bool, host: seq<byte>, port: Option<PortText>, prefix: seq<byte>)

  predicate WfPort(p: PortText) {
    p.digits != [] && AllDigits(p.digits) && 1 <= DecimalValue(p.digits) <= U16_MAX
  }

  predicate WfParts(p: UrlParts) {
    && ValidSegment(p.host)
    && (p.port.Some? ==> WfPort(p.port.value))
    && (p.prefix != [] ==> p.prefix[0] == SLASH)
    && AllValid(Pieces(p.prefix, SLASH))
  }

  function Digits(p: PortText): seq<byte> { (if p.plus then [PLUS] else []) + p.digits }

  function Authority(p: UrlParts): seq<byte> {
    if p.port.Some? then p.host + ([COLON] + Digits(p.port.value)) else p.host
  }

  function UrlText(p: UrlParts): seq<byte> {
    (if p.tls then HTTPS else HTTP) + (SCHEME_END + (Authority(p) + p.prefix))
  }

  function PortOf(p: UrlParts): nat
    requires WfParts(p)
  {
    if p.port.Some? then DecimalValue(p.port.value.digits) else if p.tls then 443 else 80
  }

  // The parts `p` and the project denote the target.
  predicate Denotes(p: UrlParts, project: seq<byte>, uri: Uri) {
    && WfParts(p) && ValidSegment(project)
    && uri.tls == p.tls && uri.host == p.host && uri.port == PortOf(p)
    && uri.path == Join(Pieces(p.prefix, SLASH) + [project]) && |uri.path| <= 192
  }

  lemma PortReadsText(p: PortText)
    requires WfPort(p)
    ensures ParsePort(Digits(p)) == Some(DecimalValue(p.digits))
  {
    hide DecimalValue;
    var text := Digits(p);
    if p.plus {
      assert text[1..] == p.digits;
    } else {
      assert text == p.digits && IsDigit(text[0]);
    }
  }

  lemma PortParts(text: seq<byte>) returns (p: PortText)
    requires ParsePort(text).Some? && ParsePort(text).value > 0
    ensures WfPort(p) && Digits(p) == text && DecimalValue(p.digits) == ParsePort(text).value
  {
    hide DecimalValue;
    p := if text != [] && text[0] == PLUS then PortText(true, text[1..]) else PortText(false, text);
    assert Digits(p) == text;
  }

  // An authority is accepted exactly as a host and perhaps a port.
  predicate AuthorityIs(authority: seq<byte>, p: UrlParts) {
    ValidSegment(p.host) && (p.port.Some? ==> WfPort(p.port.value)) && Authority(p) == authority
  }

  lemma AuthorityParts(authority: seq<byte>, tls: bool, prefix: seq<byte>) returns (p: UrlParts)
    requires ParseAuthority(authority, tls).Ok?
    ensures AuthorityIs(authority, p) && p.tls == tls && p.prefix == prefix
    ensures ParseAuthority(authority, tls).value ==
            (p.host, if p.port.Some? then DecimalValue(p.port.value.digits) else DefaultPort(tls))
  {
    hide ParsePort, ValidSegment, FindLast, Digits, DecimalValue;
    var (host, port) := ParseAuthority(authority, tls).value;
    var colon := FindLast(authority, COLON);
    if colon.Some? {
      var text := authority[colon.value + 1..];
      var t := PortParts(text);
      p := UrlParts(tls, host, Some(t), prefix);
      assert authority == authority[..colon.value] + ([COLON] + text);
    } else {
      p := UrlParts(tls, host, None, prefix);
    }
  }

  lemma PartsAuthority(p: UrlParts)
    requires WfParts(p)
    ensures ParseAuthority(Authority(p), p.tls) == Ok((p.host, PortOf(p)))
  {
    hide ParsePort, FindLast, Digits, Pieces;
    var authority := Authority(p);
    NoSlash(p.host);
    if p.port.Some? {
      var text := Digits(p.port.value);
      PortReadsText(p.port.value);
      DigitsPlain(p.port.value);
      assert authority[|p.host| + 1..] == text && authority[..|p.host|] == p.host;
      FindLastUnique(authority, COLON, |p.host|);
    } else {
      NoLast(authority, COLON);
    }
  }

  lemma DigitsPlain(p: PortText)
    requires AllDigits(p.digits)
    ensures COLON !in Digits(p) && SLASH !in Digits(p)
  {
  }

  lemma NoLast(s: seq<byte>, b: byte)
    requires b !in s
    ensures FindLast(s, b) == None
  {
  }

  // Exactly these texts are accepted: a scheme, a host, perhaps a port, and a prefix
  // of valid segments; and they are taken for the target they denote.
  lemma UrlIff(base: seq<byte>, project: seq<byte>, uri: Uri)
    ensures UrlOf(base, project) == Ok(uri) <==> exists p :: UrlText(p) == base && Denotes(p, project, uri)
  {
    if UrlOf(base, project) == Ok(uri) {
      var p := PartsOf(base, project);
    }
    forall p | UrlText(p) == base && Denotes(p, project, uri) ensures UrlOf(base, project) == Ok(uri) {
      PartsRead(p, project, uri);
    }
  }

  lemma PartsOf(base: seq<byte>, project: seq<byte>) returns (p: UrlParts)
    requires UrlOf(base, project).Ok?
    ensures UrlText(p) == base && Denotes(p, project, UrlOf(base, project).value)
  {
    hide ParseAuthority, Find, Join, UpTo, Pieces, Authority, ValidSegment, Prefix, WfPort, DecimalValue;
    var (scheme, rest) := Split(base).value;
    var authority := UpTo(rest, SLASH);
    var pieces := Pieces(Prefix(rest), SLASH);
    p := AuthorityParts(authority, scheme == HTTPS, Prefix(rest));
    assert forall k :: 0 <= k < |pieces| ==> pieces[k] == (pieces + [project])[k];
    SplitParts(base);
    PrefixParts(rest);
  }

  lemma PrefixParts(rest: seq<byte>)
    ensures rest == UpTo(rest, SLASH) + Prefix(rest) && (Prefix(rest) != [] ==> Prefix(rest)[0] == SLASH)
  {
  }

  lemma SplitParts(base: seq<byte>)
    requires Split(base).Some?
    ensures var (scheme, rest) := Split(base).value; base == scheme + (SCHEME_END + rest)
  {
    var i := Find(base, SCHEME_END).value;
    assert base == base[..i] + (base[i..i + 3] + base[i + 3..]);
  }

  lemma PartsRead(p: UrlParts, project: seq<byte>, uri: Uri)
    requires Denotes(p, project, uri)
    ensures UrlOf(UrlText(p), project) == Ok(uri)
  {
    hide ParseAuthority, Find, Join, UpTo, Pieces, Prefix, Authority;
    SchemeFound(if p.tls then HTTPS else HTTP, Authority(p) + p.prefix);
    assert HTTP != HTTPS;
    AuthorityEnds(p);
    PartsAuthority(p);
    AllValidSnoc(Pieces(p.prefix, SLASH), project);
  }

  lemma AuthorityEnds(p: UrlParts)
    requires WfParts(p)
    ensures UpTo(Authority(p) + p.prefix, SLASH) == Authority(p) && Prefix(Authority(p) + p.prefix) == p.prefix
  {
    hide Pieces, Digits, UpTo;
    NoSlash(p.host);
    if p.port.Some? {
      DigitsPlain(p.port.value);
    }
    UpToUnique(Authority(p) + p.prefix, SLASH, Authority(p));
  }

  // ----- Why a URL is refused -----

  predicate HasScheme(base: seq<byte>, tls: bool, rest: seq<byte>) {
    base == (if tls then HTTPS else HTTP) + (SCHEME_END + rest)
  }

  predicate HostAndPort(authority: seq<byte>, host: seq<byte>, p: PortText) {
    WfPort(p) && authority == host + ([COLON] + Digits(p))
  }

  lemma PortBehindLastColon(authority: seq<byte>, host: seq<byte>, p: PortText)
    requires HostAndPort(authority, host, p)
    ensures FindLast(authority, COLON) == Some(|host|) && authority[|host| + 1..] == Digits(p) && authority[..|host|] == host
  {
    hide Digits, DecimalValue;
    DigitsPlain(p);
    assert authority[|host| + 1..] == Digits(p);
    FindLastUnique(authority, COLON, |host|);
  }

  lemma AuthorityErrors(authority: seq<byte>, tls: bool)
    ensures ParseAuthority(authority, tls) == Err(Port) <==>
            COLON in authority && !exists host, p :: HostAndPort(authority, host, p)
    ensures ParseAuthority(authority, tls) == Err(Host) <==>
            (COLON !in authority && !ValidSegment(authority)) ||
            exists host, p :: HostAndPort(authority, host, p) && !ValidSegment(host)
  {
    hide ParsePort, FindLast, Digits, ValidSegment, WfPort, DecimalValue;
    var colon := FindLast(authority, COLON);
    forall host, p | HostAndPort(authority, host, p)
      ensures colon == Some(|host|) && authority[..|host|] == host && COLON in authority
      ensures ParsePort(authority[|host| + 1..]).Some? && ParsePort(authority[|host| + 1..]).value > 0
    {
      PortBehindLastColon(authority, host, p);
      PortReadsText(p);
      PositivePort(p);
    }
    if colon.Some? {
      var host, text := authority[..colon.value], authority[colon.value + 1..];
      if ParsePort(text).Some? && ParsePort(text).value > 0 {
        var p := PortParts(text);
        assert authority == host + ([COLON] + text);
        assert HostAndPort(authority, host, p);
      }
    }
  }

  lemma PositivePort(p: PortText)
    requires WfPort(p)
    ensures DecimalValue(p.digits) > 0
  {
  }

  // Each error is told by the texts: no such scheme; no such project; and behind a
  // scheme, a text behind the last colon that is no port; a host that is none; a
  // segment that is none, or too long a path.
  lemma UrlErrors(base: seq<byte>, project: seq<byte>)
    ensures UrlOf(base, project) == Err(Scheme) <==> !exists tls, rest :: HasScheme(base, tls, rest)
    ensures UrlOf(base, project) == Err(Project) <==>
            (exists tls, rest :: HasScheme(base, tls, rest)) && !ValidSegment(project)
  {
    hide ParseAuthority, Find, UpTo, Pieces, Prefix, Join, ValidSegment;
    forall tls: bool, rest | HasScheme(base, tls, rest)
      ensures Split(base) == Some((if tls then HTTPS else HTTP, rest))
    {
      SchemeFound(if tls then HTTPS else HTTP, rest);
    }
    if Split(base).Some? {
      SplitParts(base);
      var (scheme, rest) := Split(base).value;
      assert scheme == HTTPS ==> HasScheme(base, true, rest);
      assert scheme == HTTP ==> HasScheme(base, false, rest);
    }
    AuthorityErrorKinds();
  }

  lemma AuthorityErrorKinds()
    ensures forall a, tls :: ParseAuthority(a, tls) != Err(Scheme) && ParseAuthority(a, tls) != Err(Project) &&
                             ParseAuthority(a, tls) != Err(Path)
  {
    hide ParsePort, FindLast, ValidSegment;
  }

  lemma RestErrors(base: seq<byte>, project: seq<byte>, tls: bool, rest: seq<byte>)
    requires HasScheme(base, tls, rest) && ValidSegment(project)
    ensures var authority := UpTo(rest, SLASH);
            (UrlOf(base, project) == Err(Port) <==>
             COLON in authority && !exists host, p :: HostAndPort(authority, host, p)) &&
            (UrlOf(base, project) == Err(Host) <==>
             (COLON !in authority && !ValidSegment(authority)) ||
             exists host, p :: HostAndPort(authority, host, p) && !ValidSegment(host)) &&
            (UrlOf(base, project) == Err(Path) <==>
             ParseAuthority(authority, tls).Ok? &&
             var segments := Pieces(rest[|authority|..], SLASH) + [project];
             !(AllValid(segments) && |Join(segments)| <= 192))
  {
    hide ParseAuthority, Find, UpTo, Pieces, Join, ValidSegment, HostAndPort;
    SchemeFound(if tls then HTTPS else HTTP, rest);
    assert HTTP != HTTPS;
    AuthorityErrors(UpTo(rest, SLASH), tls);
    AuthorityErrorKinds();
  }

  lemma Spelling(b: byte)
    ensures Spells(SCHEME_END, "://") && Spells(HTTP, "http") && Spells(HTTPS, "https")
    ensures IsHostByte(b) <==> IsDigit(b) || IsLower(b) || IsUpper(b) || OneOf(b, "._-")
  {
    var t := "._-";
    assert t[0] == '.' && t[1] == '_' && t[2] == '-';
  }
}
