// What `parse_status_request` decides, stated with the grammar alone.

module StatusTheorems {
  import opened Prelude
  import opened JsonGrammar
  import opened ScanSpec
  import opened ScanTheorems

  ghost predicate IsDocument(s: seq<byte>, d: Document) { WfDocument(d) && DocumentText(d) == s }

  function ParseDocument(s: seq<byte>): Option<Document> {
    var i := SkipWs(s, 0);
    if i == |s| || s[i] != LBRACE then None
    else
      var (root, e) :- ParseValue(s, i);
      if SkipWs(s, e) == |s| then Some(Document(s[..i], root, s[e..])) else None
  }

  // A payload has at most one document tree, and `ParseDocument` finds it.
  lemma DocumentIff(s: seq<byte>, d: Document)
    ensures ParseDocument(s) == Some(d) <==> IsDocument(s, d)
  {
    if ParseDocument(s) == Some(d) {
      DocumentSound(s, d);
    }
    if IsDocument(s, d) {
      DocumentComplete(s, d);
    }
  }

  lemma DocumentSound(s: seq<byte>, d: Document)
    requires ParseDocument(s) == Some(d)
    ensures IsDocument(s, d)
  {
    hide ParseValue, SkipWs, Text, ValueAt, Length;
    var i := SkipWs(s, 0);
    SoundValue(s, i);
    ValueSpells(s, i, d.root);
    var e := ParseValue(s, i).value.1;
    assert s[0..i] == s[..i];
    assert s[e..|s|] == s[e..];
    RootIsObject(s, i);
    assert s == s[..i] + (s[i..e] + s[e..]);
  }

  lemma RootIsObject(s: seq<byte>, i: nat)
    requires i < |s| && s[i] == LBRACE && ParseValue(s, i).Some?
    ensures var v := ParseValue(s, i).value.0; v.Obj? || v.EmptyObj?
  {
  }

  lemma DocumentComplete(s: seq<byte>, d: Document)
    requires IsDocument(s, d)
    ensures ParseDocument(s) == Some(d)
  {
    hide ParseValue, SkipWs, Text, Length;
    var i := |d.before|;
    var e := i + |Text(d.root)|;
    AtConcat(s, 0, d.before, Text(d.root) + d.after);
    AtConcat(s, i, Text(d.root), d.after);
    ValueSpells(s, i, d.root);
    CompleteValue(s, i, d.root);
    SkipWsFinds(s, 0, d.before);
    SkipWsFinds(s, e, d.after);
  }

  // The answer a document deserves: the first top-level `uuid` member decides.
  function Verdict(root: Json): Result<seq<byte>, StatusRequestError> {
    match FirstIn(root, UUID)
    case None => Err(MissingUuid)
    case Some(v) =>
      if !v.Str? then Err(UuidNotString)
      else if v.body == [] then Err(EmptyUuid)
      else Ok(v.body)
  }

  // The string found behind members `ms`, when `found` was found before them.
  function Found(ms: Members, found: Option<seq<byte>>): Option<seq<byte>> {
    if found.Some? then found
    else
      match First(ms, UUID)
      case Some(v) => if v.Str? then Some(v.body) else None
      case None => None
  }

  predicate FirstUuidIsBad(ms: Members) {
    var v := First(ms, UUID);
    v.Some? && !v.value.Str?
  }

  lemma {:induction false} TopMembersReads(s: seq<byte>, i: nat, found: Option<seq<byte>>)
    requires i <= |s|
    ensures match ParseMembers(s, i)
            case Some((ms, e)) =>
              TopMembers(s, i, found) ==
              if found.None? && FirstUuidIsBad(ms) then Err(UuidNotString) else Ok((Found(ms, found), e))
            case None => TopMembers(s, i, found) in {Err(Malformed), Err(UuidNotString)}
    decreases |s| - i
  {
    hide ParseMember, SkipWs;
    match ParseMember(s, i)
    case None =>
    case Some((m, e)) =>
      if e < |s| && s[e] == COMMA {
        var isUuid := m.key == UUID && found.None?;
        if !isUuid || m.value.Str? {
          TopMembersReads(s, SkipWs(s, e + 1), if isUuid then Some(m.value.body) else found);
        }
      }
  }

  lemma StatusRequestReads(s: seq<byte>)
    ensures match ParseDocument(s)
            case Some(d) => StatusRequest(s) == Verdict(d.root)
            case None => StatusRequest(s) in {Err(NotObject), Err(Malformed), Err(UuidNotString)}
  {
    hide SkipWs, ParseMembers, TopMembers;
    var i := SkipWs(s, 0);
    if i < |s| && s[i] == LBRACE {
      var j := SkipWs(s, i + 1);
      TopMembersReads(s, j, None);
    }
  }

  // Accepted exactly when the payload is one object document whose first
  // top-level `uuid` member is a non-empty string, and then with its raw body.
  lemma AcceptedIff(s: seq<byte>, u: seq<byte>)
    ensures StatusRequest(s) == Ok(u) <==>
            u != [] && exists d :: IsDocument(s, d) && FirstIn(d.root, UUID) == Some(Str(u))
  {
    hide StatusRequest, ParseDocument, FirstIn, IsDocument;
    StatusRequestReads(s);
    forall d ensures ParseDocument(s) == Some(d) <==> IsDocument(s, d) {
      DocumentIff(s, d);
    }
  }

  lemma EmptyUuidIff(s: seq<byte>)
    ensures StatusRequest(s) == Err(EmptyUuid) <==>
            exists d :: IsDocument(s, d) && FirstIn(d.root, UUID) == Some(Str([]))
  {
    hide StatusRequest, ParseDocument, FirstIn, IsDocument;
    StatusRequestReads(s);
    forall d ensures ParseDocument(s) == Some(d) <==> IsDocument(s, d) {
      DocumentIff(s, d);
    }
  }

  lemma MissingUuidIff(s: seq<byte>)
    ensures StatusRequest(s) == Err(MissingUuid) <==>
            exists d :: IsDocument(s, d) && FirstIn(d.root, UUID) == None
  {
    hide StatusRequest, ParseDocument, FirstIn, IsDocument;
    StatusRequestReads(s);
    forall d ensures ParseDocument(s) == Some(d) <==> IsDocument(s, d) {
      DocumentIff(s, d);
    }
  }

  // Not an object exactly when the first byte that is not whitespace is no `{`.
  lemma NotObjectIff(s: seq<byte>)
    ensures StatusRequest(s) == Err(NotObject) <==>
            !exists k :: 0 <= k < |s| && s[k] == LBRACE && Ws(s[..k])
  {
    hide TopMembers, ParseMembers, SkipWs, Ws;
    var i := SkipWs(s, 0);
    assert s[0..i] == s[..i];
    forall k | 0 <= k < |s| && s[k] == LBRACE && Ws(s[..k]) ensures k == i {
      BraceFound(s, k);
    }
    if i < |s| && s[i] == LBRACE {
      TopMembersReads(s, SkipWs(s, i + 1), None);
    }
  }

  lemma BraceFound(s: seq<byte>, k: nat)
    requires k < |s| && s[k] == LBRACE && Ws(s[..k])
    ensures SkipWs(s, 0) == k
  {
    assert s[0..k] == s[..k];
    SkipWsFinds(s, 0, s[..k]);
  }

  // ----- When the scan stops early at a `uuid` that is not a string -----

  // The members up to and including the one that stops the scan; that last one
  // ends with its value.
  function OpenText(ms: Members): seq<byte> {
    match ms
    case LastMember(m) => MemberText(m)
    case MoreMembers(m, gap, rest) => MemberText(m) + ([COMMA] + (gap + OpenText(rest)))
  }

  function LastOf(ms: Members): Member { if ms.MoreMembers? then LastOf(ms.rest) else ms.m }

  // Only the last member is a `uuid`, and its value is no string.
  predicate StopsScan(ms: Members) {
    match ms
    case LastMember(m) => m.key == UUID && !m.value.Str? && m.w2 == []
    case MoreMembers(m, _, rest) => m.key != UUID && StopsScan(rest)
  }

  ghost predicate OpenAt(s: seq<byte>, i: nat, ms: Members) {
    WfMembers(ms) && StopsScan(ms) && At(s, i, OpenText(ms)) &&
    Stops(s, i + |OpenText(ms)|, LastOf(ms).value)
  }

  // A member whose value ends at `e` is read with the whitespace behind it.
  lemma ReadToValueEnd(s: seq<byte>, i: nat, m: Member)
    requires WfMember(m) && MemberAt(s, i, m) && m.w2 == [] && Stops(s, i + MemberLength(m), m.value)
    ensures i < |s| && s[i] == QUOTE
    ensures var e := i + MemberLength(m);
            e <= |s| && ParseMember(s, i) == Some((m.(w2 := s[e..SkipWs(s, e)]), SkipWs(s, e)))
  {
    hide ParseMember, SkipWs, ValueAt, Length, StringAt, Wf, Stops;
    var e := i + MemberLength(m);
    var j := SkipWs(s, e);
    CompleteMember(s, i, m.(w2 := s[e..j]));
  }

  lemma {:induction false} OpenStopsTop(s: seq<byte>, i: nat, ms: Members)
    requires OpenAt(s, i, ms)
    ensures i < |s| && s[i] == QUOTE && TopMembers(s, i, None) == Err(UuidNotString)
    decreases ms
  {
    hide ParseMember, SkipWs, MemberText, MemberAt, At, MemberLength, Stops, ByteAt;
    var m := ms.m;
    MemberSpells(s, i, m);
    match ms
    case LastMember(_) => ReadToValueEnd(s, i, m);
    case MoreMembers(_, gap, rest) =>
      var e := i + |MemberText(m)|;
      AtConcat(s, i, MemberText(m), [COMMA] + (gap + OpenText(rest)));
      AtGap(s, e, COMMA, gap, OpenText(rest));
      CompleteListed(s, i, m);
      OpenStopsTop(s, e + 1 + |gap|, rest);
      CommaThenMember(s, e, gap);
  }

  lemma CommaThenMember(s: seq<byte>, e: nat, gap: seq<byte>)
    requires ByteAt(s, e, COMMA) && At(s, e + 1, gap) && Ws(gap) && ByteAt(s, e + 1 + |gap|, QUOTE)
    ensures e < |s| && s[e] == COMMA && SkipWs(s, e + 1) == e + 1 + |gap|
  {
    SkipWsFinds(s, e + 1, gap);
  }

  // The scanner reads a number as far as it goes.
  lemma NumberIsGreedy(s: seq<byte>, i: nat)
    requires i <= |s| && ParseNumber(s, i).Some?
    ensures var (n, e) := ParseNumber(s, i).value; NumberStops(s, e, n)
  {
    hide SkipDigits;
  }

  lemma ValueIsGreedy(s: seq<byte>, i: nat)
    requires i <= |s| && ParseValue(s, i).Some?
    ensures var (v, e) := ParseValue(s, i).value; Stops(s, e, v)
  {
    hide ParseNumber, ParseMembers, ParseItems, ParseString, ParseLiteral, SkipWs, NumberStops;
    var (v, e) := ParseValue(s, i).value;
    if v.Num? {
      NumberIsGreedy(s, i);
    }
  }

  // Once a string was found, later `uuid` members are not looked at.
  lemma {:induction false} FoundStays(s: seq<byte>, i: nat, found: Option<seq<byte>>)
    requires i <= |s| && found.Some?
    ensures TopMembers(s, i, found) != Err(UuidNotString)
    decreases |s| - i
  {
    hide ParseMember, SkipWs;
    match ParseMember(s, i)
    case None =>
    case Some((m, e)) =>
      if e < |s| && s[e] == COMMA {
        FoundStays(s, SkipWs(s, e + 1), found);
      }
  }

  lemma SliceAt(s: seq<byte>, i: nat, j: nat)
    requires i <= j <= |s|
    ensures At(s, i, s[i..j])
  {
  }

  lemma StoppedMember(s: seq<byte>, i: nat) returns (m: Member)
    requires i <= |s| && ParseMember(s, i).Some?
    ensures var (m', e) := ParseMember(s, i).value;
            m == m'.(w2 := []) && WfMember(m) && MemberAt(s, i, m) && Stops(s, i + MemberLength(m), m.value)
  {
    hide ParseValue, SkipWs, ParseString, ValueAt, Length, StringAt, Wf, Stops, StringBody, At;
    var (m', e) := ParseMember(s, i).value;
    m := m'.(w2 := []);
    SoundMember(s, i);
    var e0 := ParseString(s, i).value.1;
    var j1 := SkipWs(s, SkipWs(s, e0) + 1);
    ValueIsGreedy(s, j1);
    SoundValue(s, j1);
    SliceAt(s, ParseValue(s, j1).value.1, ParseValue(s, j1).value.1);
    assert Ws(s[e..e]);
  }

  lemma {:induction false} TopStopsOpen(s: seq<byte>, i: nat) returns (ms: Members)
    requires i <= |s| && TopMembers(s, i, None) == Err(UuidNotString)
    ensures OpenAt(s, i, ms)
    decreases |s| - i
  {
    hide ParseMember, SkipWs, MemberText, MemberAt, MemberLength, Stops, WfMember, At;
    var (m, e) := ParseMember(s, i).value;
    if m.key == UUID {
      if m.value.Str? && e < |s| && s[e] == COMMA {
        FoundStays(s, SkipWs(s, e + 1), Some(m.value.body));
      }
      var m' := StoppedMember(s, i);
      MemberSpells(s, i, m');
      ms := LastMember(m');
    } else {
      var j := SkipWs(s, e + 1);
      var gap := s[e + 1..j];
      var rest := TopStopsOpen(s, j);
      ms := MoreMembers(m, gap, rest);
      SoundMember(s, i);
      MemberSpells(s, i, m);
      SliceAt(s, e + 1, j);
      AtGap(s, e, COMMA, gap, OpenText(rest));
      AtConcat(s, i, MemberText(m), [COMMA] + (gap + OpenText(rest)));
    }
  }

  // An object opens at `k` with whitespace `pad` and then members `ms`.
  ghost predicate OpensWith(s: seq<byte>, k: nat, pad: seq<byte>, ms: Members) {
    k < |s| && s[k] == LBRACE && Ws(s[..k]) && At(s, k + 1, pad) && Ws(pad) && OpenAt(s, k + 1 + |pad|, ms)
  }

  // `UuidNotString` is answered exactly when, behind the opening brace, some
  // members of which only the last is a `uuid`, and that one no string, stand in
  // the payload; whatever follows does not matter.
  lemma NotStringIff(s: seq<byte>)
    ensures StatusRequest(s) == Err(UuidNotString) <==> exists k: nat, pad, ms :: OpensWith(s, k, pad, ms)
  {
    hide TopMembers, OpenAt, ParseMember, SkipWs;
    var i := SkipWs(s, 0);
    assert s[0..i] == s[..i];
    forall k: nat, pad, ms | OpensWith(s, k, pad, ms)
      ensures StatusRequest(s) == Err(UuidNotString)
    {
      SkipWsFinds(s, 0, s[..k]);
      OpenStopsTop(s, k + 1 + |pad|, ms);
      SkipWsFinds(s, k + 1, pad);
    }
    if StatusRequest(s) == Err(UuidNotString) {
      var j := SkipWs(s, i + 1);
      var pad := s[i + 1..j];
      var ms := TopStopsOpen(s, j);
      assert OpensWith(s, i, pad, ms);
    }
  }
}
