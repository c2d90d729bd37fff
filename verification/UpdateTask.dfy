// One check for an update, from the published version to the mark: three answers
// are fetched one after the other, and flash is touched only behind the first two.

module UpdateTask {
  import opened Prelude
  import opened FlashLayout
  import opened HttpHead
  import opened OtaCodecs
  import opened Session
  import opened Transport
  import opened UpdateLoop

  const VERSION_MAX_BYTES: nat := 64
  const SHA_MAX_BYTES: nat := 128

  datatype TaskError = Transport(fetch: FetchError) | BadHead | BadVersion | BadSha

  // ----- A small text -----

  // What the answer `s` to a request for a text of at most `cap` bytes deserves:
  // nothing when it is not there, and else the body up to its declared length.
  function TextOf(s: seq<byte>, cap: nat): Result<Option<seq<byte>>, TaskError> {
    match ScanHead(s)
    case Unfinished(_, _) => Err(Transport(Closed))
    case Decided(Reject(error), _) => Err(Transport(Head(error)))
    case Decided(Complete(head), h) =>
      if head.status != 200 then Ok(None)
      else if head.contentLength.None? || head.contentLength.value > cap then Err(BadHead)
      else
        var body, length := s[h..], head.contentLength.value;
        Ok(Some(if length <= |body| then body[..length] else body))
  }

  // The text stands at the start of the declared body of the answer `s`.
  ghost predicate TextFrom(s: seq<byte>, t: seq<byte>, cap: nat) {
    exists head, h: nat ::
      ScanHead(s) == Decided(Complete(head), h) && head.status == 200 && head.contentLength.Some? &&
      |t| <= head.contentLength.value <= cap && t <= s[h..]
  }

  // A request that finds no text is told apart from one that fails.
  method FetchText(link: Link, cap: nat) returns (r: Result<Option<seq<byte>>, TaskError>)
    requires link.Valid() && link.honest
    modifies link
    ensures r.Ok? && r.value.Some? ==> TextFrom(old(link.Rest()), r.value.value, cap)
    ensures link.clean ==> r == TextOf(old(link.Rest()), cap)
  {
    hide ScanFrom, ScanHead, HeadThen, TextFrom;
    ghost var s := link.Rest();
    var leftover := new byte[READ_CHUNK];
    var got := Get(link, leftover);
    if got.Err? {
      return Err(Transport(got.error));
    }
    var (head, extra) := got.value;
    ghost var h := HeadEnds(s, head, leftover[..extra] + link.Rest());
    if head.status != 200 {
      return Ok(None);
    }
    if head.contentLength.None? {
      return Err(BadHead);
    }
    var length := head.contentLength.value;
    if length > cap {
      return Err(BadHead);
    }
    var body := new byte[cap];
    var n := ReadSmall(link, leftover[..extra], length, body);
    if n.Err? {
      return Err(Transport(n.error));
    }
    var text := body[..n.value];
    TextTaken(s, head, h, text, cap);
    r := Ok(Some(text));
  }

  lemma TextTaken(s: seq<byte>, head: ResponseHead, h: nat, text: seq<byte>, cap: nat)
    requires ScanHead(s) == Decided(Complete(head), h) && head.status == 200 && head.contentLength.Some?
    requires |text| <= head.contentLength.value <= cap && text <= s[h..]
    ensures TextFrom(s, text, cap)
    ensures |text| == (if head.contentLength.value <= |s[h..]| then head.contentLength.value else |s[h..]|) ==>
              TextOf(s, cap) == Ok(Some(text))
  {
    hide ScanHead;
    var body := s[h..];
    assert text == body[..|text|] && body[..|body|] == body;
  }

  // What a text answer deserves, told by its head.
  lemma TextIff(s: seq<byte>, cap: nat)
    ensures TextOf(s, cap) == Ok(None) <==>
            exists head, h :: ScanHead(s) == Decided(Complete(head), h) && head.status != 200
    ensures TextOf(s, cap) == Err(BadHead) <==> exists h: nat, length: nat :: Declares(s, h, length) && length > cap
    ensures TextOf(s, cap) == Err(Transport(Closed)) <==> ScanHead(s).Unfinished?
    ensures forall error :: TextOf(s, cap) == Err(Transport(Head(error))) <==>
                            exists h :: ScanHead(s) == Decided(Reject(error), h)
    ensures forall text :: TextOf(s, cap) == Ok(Some(text)) <==>
                           exists h: nat, length: nat ::
                             Declares(s, h, length) && length <= cap && h <= |s| &&
                             text == if h + length <= |s| then s[h..h + length] else s[h..]
  {
    hide ScanFrom, ScanHead, Means;
    forall h: nat, length: nat | h + length <= |s| ensures s[h..][..length] == s[h..h + length] {
    }
    match ScanHead(s)
    case Decided(Complete(head), h) =>
      CompleteIff(s, head, h);
      LengthOr404(head);
      if head.status == 200 && head.contentLength.Some? {
        assert Declares(s, h, head.contentLength.value);
      }
    case Decided(Reject(error), h) => assert ScanHead(s) == Decided(Reject(error), h);
    case _ =>
  }

  // The text taken is the whole declared body exactly when that many bytes stand
  // behind the head.
  lemma TextWholeIff(s: seq<byte>, head: ResponseHead, h: nat, cap: nat)
    requires ScanHead(s) == Decided(Complete(head), h) && head.status == 200
    requires head.contentLength.Some? && head.contentLength.value <= cap
    ensures TextOf(s, cap).Ok? && TextOf(s, cap).value.Some?
    ensures var text, length := TextOf(s, cap).value.value, head.contentLength.value;
            (|text| == length <==> h + length <= |s|) &&
            text == if h + length <= |s| then s[h..h + length] else s[h..]
  {
    hide ScanHead;
    assert forall k :: h <= k <= |s| ==> s[h..][..k - h] == s[h..k];
  }

  // An answer cut off inside its body is taken for its shorter text.
  lemma CutTextTaken(s: seq<byte>, head: ResponseHead, h: nat, n: nat, cap: nat)
    requires ScanHead(s) == Decided(Complete(head), h) && head.status == 200
    requires head.contentLength.Some? && n <= head.contentLength.value <= cap && h + n <= |s|
    ensures TextOf(s[..h + n], cap) == Ok(Some(s[h..h + n]))
  {
    hide ScanHead, Means;
    var cut := s[..h + n];
    CompleteIff(s, head, h);
    var lines :| Means(lines, head) && At(s, 0, HeadText(lines)) && h == |HeadText(lines)|;
    assert cut[0..h] == s[0..h];
    CompleteIff(cut, head, h);
    TextWholeIff(cut, head, h, cap);
    assert cut[h..] == s[h..h + n] && cut[h..h + n] == s[h..h + n];
  }

  // So a published version that loses its last digit this way is taken for another
  // version.
  lemma CutVersion(v: u32)
    requires v >= 10
    ensures var digits := Decimal(v); VersionOf(digits[..|digits| - 1]) == Some(v / 10) && v / 10 != v
  {
    assert Decimal(v)[..|Decimal(v)| - 1] == Decimal(v / 10);
    PrintedVersion(v / 10, [], []);
    assert [] + Decimal(v / 10) + [] == Decimal(v / 10);
  }

  // ----- The check -----

  datatype CheckResult =
    | NotPublished                 // a text or its directory is missing: not an error
    | UpToDate                     // the running version is the published one
    | Failed(error: TaskError)
    | Image(image: ImageResult)    // the image was asked for

  // What the three answers deserve.
  ghost predicate Deserves(local: u32, version: seq<byte>, digest: seq<byte>, image: seq<byte>,
                           sha: seq<byte> -> seq<byte>, r: CheckResult) {
    match TextOf(version, VERSION_MAX_BYTES)
    case Err(error) => r == Failed(error)
    case Ok(None) => r == NotPublished
    case Ok(Some(text)) =>
      match VersionOf(text)
      case None => r == Failed(BadVersion)
      case Some(remote) =>
        if remote == local then r == UpToDate else DigestDeserves(digest, image, sha, r)
  }

  ghost predicate DigestDeserves(digest: seq<byte>, image: seq<byte>, sha: seq<byte> -> seq<byte>, r: CheckResult) {
    match TextOf(digest, SHA_MAX_BYTES)
    case Err(error) => r == Failed(error)
    case Ok(None) => r == NotPublished
    case Ok(Some(text)) =>
      if exists d :: IsDigestText(text, d) then
        exists d :: IsDigestText(text, d) && r == Image(ImageDeserved(image, d, sha))
      else r == Failed(BadSha)
  }

  // The version text published by the answer, and the digest.
  ghost predicate Publishes(s: seq<byte>, v: u32) {
    exists text :: TextOf(s, VERSION_MAX_BYTES) == Ok(Some(text)) && VersionOf(text) == Some(v)
  }

  ghost predicate PublishesDigest(s: seq<byte>, d: seq<byte>) {
    exists text :: TextOf(s, SHA_MAX_BYTES) == Ok(Some(text)) && IsDigestText(text, d)
  }

  // Another version, older or newer, is published, its digest reads, and the image
  // is good.
  ghost predicate IsDue(local: u32, version: seq<byte>, digest: seq<byte>, image: seq<byte>, sha: seq<byte> -> seq<byte>) {
    exists v: u32, d :: Publishes(version, v) && v != local && PublishesDigest(digest, d) && IsGood(image, d, sha)
  }

  lemma OneDigest(s: seq<byte>, d: seq<byte>, e: seq<byte>)
    requires PublishesDigest(s, d) && PublishesDigest(s, e)
    ensures d == e
  {
    hide TextOf;
    HexInjective(d, e);
  }

  // A new image is staged and marked exactly when it is due.
  lemma UpdatedIff(local: u32, version: seq<byte>, digest: seq<byte>, image: seq<byte>, sha: seq<byte> -> seq<byte>)
    ensures Deserves(local, version, digest, image, sha, Image(Marked)) <==> IsDue(local, version, digest, image, sha)
  {
    hide TextOf, VersionOf, IsDigestText, ImageDeserved, IsGood;
    forall d ensures ImageDeserved(image, d, sha) == Marked <==> IsGood(image, d, sha) {
      MarkedIff(image, d, sha);
    }
    if Deserves(local, version, digest, image, sha, Image(Marked)) {
      var v, text := VersionOf(TextOf(version, VERSION_MAX_BYTES).value.value).value, TextOf(digest, SHA_MAX_BYTES).value.value;
      var d :| IsDigestText(text, d) && ImageDeserved(image, d, sha) == Marked;
      assert Publishes(version, v) && PublishesDigest(digest, d) && IsGood(image, d, sha);
    }
    if v: u32, d :| Publishes(version, v) && v != local && PublishesDigest(digest, d) && IsGood(image, d, sha) {
      var text := TextOf(digest, SHA_MAX_BYTES).value.value;
      assert IsDigestText(text, d) && ImageDeserved(image, d, sha) == Marked;
    }
  }

  // The other results, each told by the answers; and there is exactly one.
  lemma NotUpdatedIff(local: u32, version: seq<byte>, digest: seq<byte>, image: seq<byte>, sha: seq<byte> -> seq<byte>)
    ensures Deserves(local, version, digest, image, sha, UpToDate) <==> Publishes(version, local)
    ensures var another := exists v: u32 :: Publishes(version, v) && v != local;
            (Deserves(local, version, digest, image, sha, NotPublished) <==>
             TextOf(version, VERSION_MAX_BYTES) == Ok(None) || (another && TextOf(digest, SHA_MAX_BYTES) == Ok(None))) &&
            (Deserves(local, version, digest, image, sha, Failed(BadVersion)) <==>
             exists text :: TextOf(version, VERSION_MAX_BYTES) == Ok(Some(text)) && VersionOf(text) == None) &&
            (Deserves(local, version, digest, image, sha, Failed(BadSha)) <==>
             another && exists text :: TextOf(digest, SHA_MAX_BYTES) == Ok(Some(text)) && !exists d :: IsDigestText(text, d))
  {
    hide TextOf, VersionOf, IsDigestText, ImageDeserved;
    NoSuchText(version, VERSION_MAX_BYTES);
    NoSuchText(digest, SHA_MAX_BYTES);
    if TextOf(version, VERSION_MAX_BYTES).Ok? && TextOf(version, VERSION_MAX_BYTES).value.Some? {
      var text := TextOf(version, VERSION_MAX_BYTES).value.value;
      if VersionOf(text).Some? {
        assert Publishes(version, VersionOf(text).value);
      }
    }
  }

  lemma NoSuchText(s: seq<byte>, cap: nat)
    ensures TextOf(s, cap) != Err(BadVersion) && TextOf(s, cap) != Err(BadSha)
  {
    hide ScanHead;
  }

  lemma OneResult(local: u32, version: seq<byte>, digest: seq<byte>, image: seq<byte>, sha: seq<byte> -> seq<byte>,
                  r: CheckResult, r': CheckResult)
    requires Deserves(local, version, digest, image, sha, r) && Deserves(local, version, digest, image, sha, r')
    ensures r == r'
  {
    hide TextOf, VersionOf, IsDigestText, ImageDeserved;
    forall d, e | PublishesDigest(digest, d) && PublishesDigest(digest, e) ensures d == e {
      OneDigest(digest, d, e);
    }
    if r.Image? && r'.Image? {
      var text := TextOf(digest, SHA_MAX_BYTES).value.value;
      var d :| IsDigestText(text, d) && r == Image(ImageDeserved(image, d, sha));
      var e :| IsDigestText(text, e) && r' == Image(ImageDeserved(image, e, sha));
      assert PublishesDigest(digest, d) && PublishesDigest(digest, e);
    }
  }

  lemma UpdatedExactly(local: u32, version: seq<byte>, digest: seq<byte>, image: seq<byte>, sha: seq<byte> -> seq<byte>,
                       r: CheckResult)
    requires Deserves(local, version, digest, image, sha, r)
    ensures r == Image(Marked) <==> IsDue(local, version, digest, image, sha)
  {
    hide Deserves, IsDue;
    UpdatedIff(local, version, digest, image, sha);
    if IsDue(local, version, digest, image, sha) {
      OneResult(local, version, digest, image, sha, r, Image(Marked));
    }
  }

  // The first two answers allow an image with digest `d` to be staged: the version
  // published is another one, and `d` is the digest published.
  ghost predicate Approves(local: u32, version: seq<byte>, digest: seq<byte>, d: seq<byte>) {
    (exists t :: TextFrom(version, t, VERSION_MAX_BYTES) && VersionOf(t).Some? && VersionOf(t).value != local) &&
    (exists t :: TextFrom(digest, t, SHA_MAX_BYTES) && IsDigestText(t, d))
  }

  // One check. Flash is written only behind a version that differs from the running
  // one and a readable digest; what is written is the declared body of the third
  // answer; and the mark is made only when all of that body is in the slot and has
  // the published digest. Without failures the three answers decide the result,
  // however the network cuts them into reads.
  method CheckAndUpdate(local: u32, version: Link, digest: Link, image: Link, flasher: Flasher, sha: seq<byte> -> seq<byte>)
    returns (r: CheckResult, ghost chunks: seq<Chunk>)
    requires version.Valid() && digest.Valid() && image.Valid() && |flasher.memory| == DFU_BYTES
    requires version.honest && digest.honest && image.honest
    requires version != digest && version != image && digest != image
    modifies version, digest, image, flasher
    ensures flasher.log == old(flasher.log) + chunks && WritesBody(old(image.Rest()), chunks)
    ensures SlotStartsWith(old(flasher.memory), flasher.memory, chunks, flasher.reliable)
    ensures !r.Image? ==> unchanged(flasher) && unchanged(image)
    ensures r.Image? ==> exists d ::
              Approves(local, old(version.Rest()), old(digest.Rest()), d) &&
              (flasher.attempts > old(flasher.attempts) ==>
                 HoldsBody(old(image.Rest()), old(flasher.memory), flasher.memory, chunks, d, sha))
    ensures flasher.attempts <= old(flasher.attempts) + 1
    ensures flasher.marks == old(flasher.marks) + if r == Image(Marked) then 1 else 0
    ensures r == Image(Marked) ==> flasher.attempts > old(flasher.attempts)
    ensures version.clean && digest.clean && image.clean && flasher.reliable ==>
              Deserves(local, old(version.Rest()), old(digest.Rest()), old(image.Rest()), sha, r)
  {
    hide TextOf, TextFrom, VersionOf, IsDigestText, ImageDeserved, HoldsBody, SlotStartsWith, WritesBody, ScanHead;
    chunks := [];
    NoWrites(image.Rest());
    SlotUntouched(flasher.memory, flasher.reliable);
    var published := FetchText(version, VERSION_MAX_BYTES);
    if published.Err? {
      return Failed(published.error), chunks;
    }
    if published.value.None? {
      return NotPublished, chunks;
    }
    var remote := ParseVersion(published.value.value);
    if remote.None? {
      return Failed(BadVersion), chunks;
    }
    if Decide(local, remote.value) == Skip {
      return UpToDate, chunks;
    }
    var text := FetchText(digest, SHA_MAX_BYTES);
    if text.Err? {
      return Failed(text.error), chunks;
    }
    if text.value.None? {
      return NotPublished, chunks;
    }
    var expected := ParseSha256Hex(text.value.value);
    if expected.None? {
      return Failed(BadSha), chunks;
    }
    assert Approves(local, old(version.Rest()), old(digest.Rest()), expected.value);
    var fetched;
    fetched, chunks := FetchImage(image, flasher, expected.value, sha);
    r := Image(fetched);
  }

  // One check as the task makes it: without failures the new image is marked exactly
  // when it is due, and otherwise nothing is.
  method RunCheck(local: u32, version: Link, digest: Link, image: Link, flasher: Flasher, sha: seq<byte> -> seq<byte>)
    returns (r: CheckResult)
    requires version.Valid() && digest.Valid() && image.Valid() && |flasher.memory| == DFU_BYTES
    requires version.honest && digest.honest && image.honest
    requires version != digest && version != image && digest != image
    modifies version, digest, image, flasher
    ensures version.clean && digest.clean && image.clean && flasher.reliable ==>
              var due := IsDue(local, old(version.Rest()), old(digest.Rest()), old(image.Rest()), sha);
              (r == Image(Marked) <==> due) && flasher.marks == old(flasher.marks) + if due then 1 else 0
  {
    hide Deserves, IsDue, Approves, HoldsBody, SlotStartsWith, WritesBody;
    ghost var v, d, i := version.Rest(), digest.Rest(), image.Rest();
    ghost var chunks;
    r, chunks := CheckAndUpdate(local, version, digest, image, flasher, sha);
    if version.clean && digest.clean && image.clean && flasher.reliable {
      UpdatedExactly(local, v, d, i, sha, r);
    }
  }
}
