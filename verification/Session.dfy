// The streaming verified update: an image body flows from the connection into the
// staging slot while it is hashed, and is marked only when its digest matches.

module Session {
  import opened Prelude
  import opened FlashLayout
  import opened HttpHead
  import opened Transport

  // ----- The body source -----

  // The bytes already read past the head, then the connection.
  class HttpBody {
    const link: Link
    var leftover: seq<byte>
    // The bytes handed out so far, and for each read how many were handed out
    // before it and how many it asked for.
    ghost var delivered: seq<byte>
    ghost var requests: seq<(nat, nat)>

    ghost predicate Valid()
      reads this, link
    {
      link.Valid()
    }

    // Everything still to be handed out.
    function Upcoming(): seq<byte>
      requires Valid()
      reads this, link
    {
      leftover + link.Rest()
    }

    constructor (source: Link, readPastHead: seq<byte>)
      requires source.Valid()
      ensures Valid() && link == source && leftover == readPastHead && delivered == [] && requests == []
    {
      link, leftover, delivered, requests := source, readPastHead, [], [];
    }

    // Reads into `buf[..len]`; a count of 0 is the end.
    method Read(buf: array<byte>, len: nat) returns (r: Result<nat, FetchError>)
      requires Valid() && len <= buf.Length
      modifies this, link, buf
      ensures Valid() && requests == old(requests) + [(|old(delivered)|, len)]
      ensures link.clean ==> old(link.clean)
      ensures if r.Ok? && r.value <= len then delivered == old(delivered) + buf[..r.value] else delivered == old(delivered)
      ensures link.honest && r.Ok? ==> r.value <= len && buf[..r.value] + Upcoming() == old(Upcoming())
      ensures link.honest && r.Err? ==> Upcoming() == old(Upcoming())
      ensures link.honest && link.clean ==> r.Ok? && (r.value == 0 && len > 0 ==> Upcoming() == [])
    {
      requests := requests + [(|delivered|, len)];
      if leftover != [] {
        var n := if len < |leftover| then len else |leftover|;
        forall k | 0 <= k < n {
          buf[k] := leftover[k];
        }
        assert buf[..n] == leftover[..n];
        assert leftover[..n] + (leftover[n..] + link.Rest()) == leftover + link.Rest();
        leftover := leftover[n..];
        delivered := delivered + buf[..n];
        return Ok(n);
      }
      ghost var before := link.Rest();
      r := link.ReadSome(buf, 0, len);
      assert link.honest && r.Ok? ==> buf[..r.value] + link.Rest() == before;
      if r.Ok? && r.value <= len {
        delivered := delivered + buf[..r.value];
      }
    }
  }

  // Reads a bounded text body: its first `len` bytes, or all there are.
  method ReadSmall(link: Link, leftover: seq<byte>, len: u64, out: array<byte>) returns (r: Result<nat, FetchError>)
    requires link.Valid() && link.honest
    modifies link, out
    ensures link.Valid() && (link.clean ==> old(link.clean))
    ensures len > out.Length ==> r == Err(BodyTooLarge)
    ensures r.Ok? ==> r.value <= len <= out.Length && out[..r.value] <= leftover + old(link.Rest())
    ensures len <= out.Length && link.clean ==>
              r == Ok(if len <= |leftover + old(link.Rest())| then len else |leftover + old(link.Rest())|)
  {
    if len > out.Length {
      return Err(BodyTooLarge);
    }
    var n := if |leftover| < len then |leftover| else len;
    ghost var all := leftover + link.Rest();
    forall k | 0 <= k < n {
      out[k] := leftover[k];
    }
    assert out[..n] == leftover[..n];
    while n < len
      invariant link.Valid() && n <= len && (link.clean ==> old(link.clean))
      invariant out[..n] <= all && (n < len ==> out[..n] + link.Rest() == all)
      decreases len - n
    {
      ghost var before, held := link.Rest(), out[..n];
      var read := link.ReadSome(out, n, len);
      if read.Err? {
        return Err(read.error);
      }
      if read.value == 0 {
        break;
      }
      ghost var more := out[n..n + read.value];
      assert before == more + link.Rest();
      n := n + read.value;
      assert out[..n] == held + more;
      assert held + (more + link.Rest()) == (held + more) + link.Rest();
    }
    r := Ok(n);
  }

  // ----- The flash sink -----

  datatype Chunk = Chunk(offset: nat, data: seq<byte>)

  datatype FlashError = FlashError

  // The staging slot and its mark. Any write or mark may fail.
  class Flasher {
    var memory: seq<byte>
    // The writes that succeeded, and the marks attempted and made.
    var log: seq<Chunk>
    var attempts: nat
    var marks: nat
    // Nothing has failed so far.
    ghost var reliable: bool

    constructor ()
      ensures |memory| == DFU_BYTES && log == [] && attempts == 0 && marks == 0 && reliable
    {
      memory := seq(DFU_BYTES, _ => 0xFF);
      log, attempts, marks, reliable := [], 0, 0, true;
    }

    method Write(offset: nat, data: seq<byte>) returns (r: Result<(), FlashError>)
      modifies this`memory, this`log, this`reliable
      ensures |memory| == old(|memory|) && (reliable ==> old(reliable))
      ensures r.Ok? ==> offset + |data| <= |memory| && log == old(log) + [Chunk(offset, data)]
      ensures r.Ok? ==> memory == old(memory)[..offset] + data + old(memory)[offset + |data|..]
      ensures r.Err? ==> log == old(log) && !reliable
      ensures r.Err? && offset <= |memory| ==> memory[..offset] == old(memory)[..offset]
    {
      if offset + |data| > |memory| {
        reliable := false;
        return Err(FlashError);
      }
      var fails: bool := *;
      if fails {
        var damaged: seq<byte> :| |damaged| == |memory| && damaged[..offset] == memory[..offset];
        memory, reliable := damaged, false;
        return Err(FlashError);
      }
      memory := memory[..offset] + data + memory[offset + |data|..];
      log := log + [Chunk(offset, data)];
      r := Ok(());
    }

    method MarkUpdated() returns (r: Result<(), FlashError>)
      modifies this`attempts, this`marks, this`reliable
      ensures attempts == old(attempts) + 1 && (reliable ==> old(reliable))
      ensures if r.Ok? then marks == old(marks) + 1 && reliable == old(reliable)
              else marks == old(marks) && !reliable
    {
      attempts := attempts + 1;
      var fails: bool := *;
      if fails {
        reliable := false;
        return Err(FlashError);
      }
      marks := marks + 1;
      r := Ok(());
    }
  }

  // The data of a run of writes.
  function Data(chunks: seq<Chunk>): seq<byte> {
    if chunks == [] then [] else Data(chunks[..|chunks| - 1]) + chunks[|chunks| - 1].data
  }

  // Every write starts where the one before it ended, the first at offset 0:
  // no gap, no overlap, no repeat.
  predicate Contiguous(chunks: seq<Chunk>) {
    forall k :: 0 <= k < |chunks| ==> chunks[k].offset == |Data(chunks[..k])|
  }

  lemma DataSnoc(chunks: seq<Chunk>, chunk: Chunk)
    requires Contiguous(chunks) && chunk.offset == |Data(chunks)|
    ensures Data(chunks + [chunk]) == Data(chunks) + chunk.data && Contiguous(chunks + [chunk])
  {
    var all := chunks + [chunk];
    assert all[..|all| - 1] == chunks;
    forall k | 0 <= k < |all| ensures all[k].offset == |Data(all[..k])| {
      assert all[..k] == chunks[..k] && (k == |chunks| ==> chunks[..k] == chunks);
    }
  }

  // The streaming digest: what was absorbed decides it. The hash is a parameter.
  class Hasher {
    const digest: seq<byte> -> seq<byte>
    var absorbed: seq<byte>

    constructor (sha: seq<byte> -> seq<byte>)
      ensures digest == sha && absorbed == []
    {
      digest, absorbed := sha, [];
    }

    method Update(data: seq<byte>)
      modifies this
      ensures absorbed == old(absorbed) + data
    {
      absorbed := absorbed + data;
    }

    function Finalize(): seq<byte>
      reads this
    {
      digest(absorbed)
    }
  }

  // ----- The session -----

  datatype UpdateError =
    | Oversize(length: u64, capacity: nat) | TooShort | TooLong | HashMismatch
    | Flash(failure: FlashError) | ReadFailed(error: FetchError)

  // The writes `chunks` carry `data` into the slot from its first byte on.
  ghost predicate Streamed(before: seq<byte>, memory: seq<byte>, chunks: seq<Chunk>, data: seq<byte>) {
    Contiguous(chunks) && Data(chunks) == data && |data| <= |before| && memory == data + before[|data|..]
  }

  lemma StreamedNext(before: seq<byte>, memory: seq<byte>, chunks: seq<Chunk>, data: seq<byte>, more: seq<byte>)
    requires Streamed(before, memory, chunks, data) && |data| + |more| <= |memory|
    ensures Streamed(before, Spliced(memory, |data|, more), chunks + [Chunk(|data|, more)], data + more)
  {
    DataSnoc(chunks, Chunk(|data|, more));
    var after := Spliced(memory, |data|, more);
    assert memory[..|data|] == data;
    assert after == (data + more) + before[|data + more|..];
  }

  // No read asks past the `length` bytes after `start`, and none asks for nothing.
  ghost predicate ReadsWithin(requests: seq<(nat, nat)>, start: nat, length: nat) {
    forall k :: 0 <= k < |requests| ==>
      0 < requests[k].1 <= CHUNK_BYTES && start <= requests[k].0 && requests[k].0 + requests[k].1 <= start + length
  }

  // The state of the sink and the source at one moment.
  datatype Snapshot = Snapshot(
    memory: seq<byte>, log: seq<Chunk>, attempts: nat, marks: nat, reliable: bool,
    delivered: seq<byte>, requests: seq<(nat, nat)>, upcoming: seq<byte>, honest: bool, clean: bool)

  ghost function Snap(flasher: Flasher, body: HttpBody): Snapshot
    requires body.Valid()
    reads flasher, body, body.link
  {
    Snapshot(flasher.memory, flasher.log, flasher.attempts, flasher.marks, flasher.reliable,
             body.delivered, body.requests, body.Upcoming(), body.link.honest, body.link.clean)
  }

  // From `a` to `b` the body handed out `d`, within the declared length and with
  // nothing lost, and the writes `chunks` went on from offset 0 with what was
  // handed out; they carry all of `d` unless a write failed.
  ghost predicate Ran(a: Snapshot, b: Snapshot, chunks: seq<Chunk>, d: seq<byte>, length: nat) {
    && b.delivered == a.delivered + d && |d| <= length
    && a.requests <= b.requests && ReadsWithin(b.requests[|a.requests|..], |a.delivered|, length)
    && b.log == a.log + chunks && Contiguous(chunks) && Data(chunks) <= d
    && |b.memory| == |a.memory| && Data(chunks) <= b.memory
    && (b.reliable || Data(chunks) == d ==> Streamed(a.memory, b.memory, chunks, d))
    && (b.clean ==> a.clean) && (b.reliable ==> a.reliable) && b.honest == a.honest
    && (a.honest ==> d + b.upcoming == a.upcoming)
  }

  // One read of at most `ask` bytes that handed out `got`, written at `offset`
  // unless `failed`.
  ghost predicate Turn(a: Snapshot, b: Snapshot, got: seq<byte>, offset: nat, ask: nat, failed: bool) {
    && b.delivered == a.delivered + got && |got| <= ask
    && b.requests == a.requests + [(|a.delivered|, ask)]
    && b.attempts == a.attempts && b.marks == a.marks
    && |b.memory| == |a.memory| && offset + ask <= |a.memory| && b.memory[..offset] == a.memory[..offset]
    && (got == [] || failed ==> b.log == a.log) && (got == [] ==> b.memory == a.memory)
    && (got != [] && !failed ==> b.log == a.log + [Chunk(offset, got)] && b.memory == Spliced(a.memory, offset, got))
    && (got != [] && failed ==> !b.reliable)
    && (b.clean ==> a.clean) && (b.reliable ==> a.reliable) && b.honest == a.honest
    && (a.honest ==> got + b.upcoming == a.upcoming)
  }

  lemma RanStart(a: Snapshot, length: nat)
    ensures Ran(a, a, [], [], length)
  {
    assert a.memory == [] + a.memory[0..];
  }

  lemma RanNext(a: Snapshot, b: Snapshot, c: Snapshot, chunks: seq<Chunk>, d: seq<byte>, length: nat,
                got: seq<byte>, ask: nat, failed: bool)
    requires Ran(a, b, chunks, d, length) && Data(chunks) == d && Turn(b, c, got, |d|, ask, failed)
    requires 0 < ask <= CHUNK_BYTES && |d| + ask <= length
    ensures Ran(a, c, if failed || got == [] then chunks else chunks + [Chunk(|d|, got)], d + got, length)
    ensures !failed ==> Data(if got == [] then chunks else chunks + [Chunk(|d|, got)]) == d + got
  {
    hide Data, Contiguous;
    assert d + [] == d && a.delivered + d + got == a.delivered + (d + got);
    assert d + (got + c.upcoming) == (d + got) + c.upcoming;
    assert c.requests[|a.requests|..] == b.requests[|a.requests|..] + [(|a.delivered| + |d|, ask)];
    if got != [] && !failed {
      StreamedNext(a.memory, b.memory, chunks, d, got);
      DataSnoc(chunks, Chunk(|d|, got));
    }
  }

  // All of the declared body arrived, was written, and has the expected digest.
  predicate Committable(length: nat, written: seq<byte>, d: seq<byte>, expected: seq<byte>, sha: seq<byte> -> seq<byte>) {
    length <= ACTIVE_BYTES && written == d && |d| == length && sha(d) == expected
  }

  // What a body that is going to deliver `upcoming` deserves.
  function Deserved(upcoming: seq<byte>, length: u64, expected: seq<byte>, sha: seq<byte> -> seq<byte>)
    : Result<(), UpdateError>
  {
    if !CanFitInActive(length) then Err(Oversize(length, ACTIVE_BYTES))
    else if |upcoming| < length then Err(TooShort)
    else if sha(upcoming[..length]) != expected then Err(HashMismatch)
    else Ok(())
  }

  // One turn of the loop: reads up to `ask` bytes, hashes and writes them. `got`
  // are the bytes the body handed out; a count of 0 is its end.
  method StreamChunk(flasher: Flasher, body: HttpBody, buf: array<byte>, hasher: Hasher, offset: nat, ask: nat)
    returns (r: Result<nat, UpdateError>, ghost got: seq<byte>)
    requires body.Valid() && 0 < ask <= buf.Length && offset + ask <= |flasher.memory|
    modifies flasher, body, body.link, buf, hasher
    ensures body.Valid() && Turn(old(Snap(flasher, body)), Snap(flasher, body), got, offset, ask, r.Err?)
    ensures r.Ok? ==> |got| == r.value && hasher.absorbed == old(hasher.absorbed) + got
    ensures r.Err? ==> r.error.Flash? || r.error.ReadFailed? || (r.error.TooLong? && !body.link.honest)
    ensures body.link.honest && body.link.clean && flasher.reliable ==> r.Ok? && (r.value == 0 ==> body.Upcoming() == [])
  {
    got := [];
    assert forall u: seq<byte> :: [] + u == u;
    var n := body.Read(buf, ask);
    if n.Err? {
      r := Err(ReadFailed(n.error));
      return;
    }
    if n.value > ask {
      r := Err(TooLong);
      return;
    }
    got := buf[..n.value];
    if n.value == 0 {
      r := Ok(0);
      return;
    }
    var data := buf[..n.value];
    hasher.Update(data);
    var wrote := flasher.Write(offset, data);
    r := if wrote.Ok? then Ok(n.value) else Err(Flash(wrote.error));
  }

  // The loop: streams until `length` bytes arrived, the body ended, or a turn
  // failed. Returns how many bytes arrived.
  method StreamBody(flasher: Flasher, body: HttpBody, hasher: Hasher, length: nat)
    returns (r: Result<nat, UpdateError>, ghost chunks: seq<Chunk>, ghost d: seq<byte>)
    requires body.Valid() && length <= |flasher.memory| && hasher.absorbed == []
    modifies flasher, body, body.link, hasher
    ensures body.Valid() && Ran(old(Snap(flasher, body)), Snap(flasher, body), chunks, d, length)
    ensures flasher.attempts == old(flasher.attempts) && flasher.marks == old(flasher.marks)
    ensures r.Ok? ==> r.value == |d| && Data(chunks) == d && hasher.absorbed == d
    ensures r.Err? ==> Data(chunks) != d || |d| < length
    ensures r.Err? ==> r.error.Flash? || r.error.ReadFailed? || (r.error.TooLong? && !body.link.honest)
    ensures body.link.honest && body.link.clean && flasher.reliable ==> r.Ok? && (r.value < length ==> body.Upcoming() == [])
  {
    hide Ran, Turn, Data;
    chunks, d := [], [];
    ghost var start := Snap(flasher, body);
    RanStart(start, length);
    assert Data([]) == [] by { NoData(); }
    var buf := new byte[CHUNK_BYTES];
    var total := 0;
    while total < length
      invariant body.Valid() && fresh(buf) && total == |d| <= length <= |flasher.memory|
      invariant Ran(start, Snap(flasher, body), chunks, d, length) && Data(chunks) == d && hasher.absorbed == d
      invariant flasher.attempts == old(flasher.attempts) && flasher.marks == old(flasher.marks)
      decreases length - total
    {
      var remaining := if length - total < buf.Length then length - total else buf.Length;
      ghost var before, had, wrote := Snap(flasher, body), d, chunks;
      ghost var got;
      var n;
      n, got := StreamChunk(flasher, body, buf, hasher, total, remaining);
      RanNext(start, before, Snap(flasher, body), chunks, had, length, got, remaining, n.Err?);
      TurnFacts(before, Snap(flasher, body), got, total, remaining, n.Err?);
      d := had + got;
      if n.Err? {
        RanFacts(start, before, chunks, had, length);
        return Err(n.error), chunks, d;
      }
      if n.value == 0 {
        break;
      }
      chunks := chunks + [Chunk(total, got)];
      total := total + n.value;
    }
    r := Ok(total);
  }

  lemma NoData()
    ensures Data([]) == []
  {
  }

  lemma TurnFacts(a: Snapshot, b: Snapshot, got: seq<byte>, offset: nat, ask: nat, failed: bool)
    requires Turn(a, b, got, offset, ask, failed)
    ensures |got| <= ask && |b.memory| == |a.memory| && b.attempts == a.attempts && b.marks == a.marks
  {
  }

  lemma RanFacts(a: Snapshot, b: Snapshot, chunks: seq<Chunk>, d: seq<byte>, length: nat)
    requires Ran(a, b, chunks, d, length)
    ensures |d| <= length && |b.memory| == |a.memory| && (a.honest ==> d + b.upcoming == a.upcoming)
  {
  }

  // Streams `length` bytes of the body into the slot. `chunks` are the writes made
  // and `d` the bytes the body handed out.
  method ApplyUpdate(flasher: Flasher, body: HttpBody, length: u64, expected: seq<byte>, sha: seq<byte> -> seq<byte>)
    returns (r: Result<(), UpdateError>, ghost chunks: seq<Chunk>, ghost d: seq<byte>)
    requires body.Valid() && |flasher.memory| == DFU_BYTES
    modifies flasher, body, body.link
    ensures body.Valid() && Ran(old(Snap(flasher, body)), Snap(flasher, body), chunks, d, length)
    // An image too large for the active slot touches nothing.
    ensures !CanFitInActive(length) <==> r == Err(Oversize(length, ACTIVE_BYTES))
    ensures !CanFitInActive(length) ==> unchanged(flasher) && unchanged(body) && unchanged(body.link)
    // The mark: tried once, exactly when everything was written and verified.
    ensures flasher.attempts == old(flasher.attempts) + if Committable(length, Data(chunks), d, expected, sha) then 1 else 0
    ensures flasher.marks == old(flasher.marks) + if r.Ok? then 1 else 0
    ensures r.Ok? ==> Committable(length, Data(chunks), d, expected, sha)
    ensures r == Err(TooShort) ==> |d| < length
    ensures r == Err(HashMismatch) ==> |d| == length && sha(d) != expected
    // Without failures the outcome is the one the stream deserves.
    ensures body.link.honest ==> r != Err(TooLong)
    ensures body.link.honest && body.link.clean && flasher.reliable ==> r == Deserved(old(body.Upcoming()), length, expected, sha)
  {
    hide Ran, Data;
    chunks, d := [], [];
    ghost var start := Snap(flasher, body);
    RanStart(start, length);
    NoData();
    if length > ACTIVE_BYTES {
      return Err(Oversize(length, ACTIVE_BYTES)), chunks, d;
    }
    var hasher := new Hasher(sha);
    var total;
    total, chunks, d := StreamBody(flasher, body, hasher, length);
    UpcomingIs(flasher, body, start, chunks, d, length);
    assert |d| == length ==> (d + body.Upcoming())[..length] == d;
    assert d + [] == d;
    if total.Err? {
      return Err(total.error), chunks, d;
    }
    if total.value != length {
      return Err(TooShort), chunks, d;
    }
    if hasher.Finalize() != expected {
      return Err(HashMismatch), chunks, d;
    }
    ghost var streamed := Snap(flasher, body);
    var marked := flasher.MarkUpdated();
    RanMarked(start, streamed, Snap(flasher, body), chunks, d, length);
    if marked.Err? {
      return Err(Flash(marked.error)), chunks, d;
    }
    r := Ok(());
  }

  lemma UpcomingIs(flasher: Flasher, body: HttpBody, start: Snapshot, chunks: seq<Chunk>, d: seq<byte>, length: nat)
    requires body.Valid() && Ran(start, Snap(flasher, body), chunks, d, length)
    ensures body.link.honest ==> start.upcoming == d + body.Upcoming()
    ensures |d| <= length
  {
  }

  // Marking changes nothing that streaming did.
  lemma RanMarked(a: Snapshot, b: Snapshot, c: Snapshot, chunks: seq<Chunk>, d: seq<byte>, length: nat)
    requires Ran(a, b, chunks, d, length) && Data(chunks) == d
    requires c == b.(attempts := c.attempts, marks := c.marks, reliable := c.reliable) && (c.reliable ==> b.reliable)
    ensures Ran(a, c, chunks, d, length)
  {
  }

  // ----- From the request to the mark -----

  datatype ImageResult =
    | Marked | Missing(status: u16) | NoLength | NotFetched(fetch: FetchError) | NotApplied(update: UpdateError)

  // What the answer `s` to the image request deserves, however it is cut into reads.
  function ImageDeserved(s: seq<byte>, expected: seq<byte>, sha: seq<byte> -> seq<byte>): ImageResult {
    match ScanHead(s)
    case Unfinished(_, _) => NotFetched(Closed)
    case Decided(Reject(error), _) => NotFetched(Head(error))
    case Decided(Complete(head), h) =>
      if head.status != 200 then Missing(head.status)
      else if head.contentLength.None? then NoLength
      else
        match Deserved(s[h..], head.contentLength.value, expected, sha)
        case Ok(_) => Marked
        case Err(error) => NotApplied(error)
  }

  // The answer `s` is a good head of `h` bytes that declares a body of `length`.
  ghost predicate Declares(s: seq<byte>, h: nat, length: nat) {
    exists head :: ScanHead(s) == Decided(Complete(head), h) && head.status == 200 && head.contentLength == Some(length)
  }

  // The whole declared body is there, fits the active slot and has the digest.
  ghost predicate IsGood(s: seq<byte>, expected: seq<byte>, sha: seq<byte> -> seq<byte>) {
    exists h: nat, length: nat ::
      Declares(s, h, length) && length <= ACTIVE_BYTES && h + length <= |s| && sha(s[h..h + length]) == expected
  }

  // A good image, and no other, is marked.
  lemma MarkedIff(s: seq<byte>, expected: seq<byte>, sha: seq<byte> -> seq<byte>)
    ensures ImageDeserved(s, expected, sha) == Marked <==> IsGood(s, expected, sha)
  {
    hide ScanFrom, ScanHead;
    forall head, h: nat, length: nat | ScanHead(s) == Decided(Complete(head), h) && h + length <= |s|
      ensures s[h..][..length] == s[h..h + length]
    {
    }
    match ScanHead(s)
    case Decided(Complete(head), h) =>
      if head.status == 200 && head.contentLength.Some? {
        assert Declares(s, h, head.contentLength.value);
      }
    case _ =>
  }

  // Why an image is not applied, told by the body its head declares.
  lemma NotAppliedIff(s: seq<byte>, expected: seq<byte>, sha: seq<byte> -> seq<byte>)
    ensures forall length: u64 ::
              ImageDeserved(s, expected, sha) == NotApplied(Oversize(length, ACTIVE_BYTES)) <==>
              length > ACTIVE_BYTES && exists h: nat :: Declares(s, h, length)
    ensures ImageDeserved(s, expected, sha) == NotApplied(TooShort) <==>
            exists h: nat, length: nat :: Declares(s, h, length) && length <= ACTIVE_BYTES && h + length > |s|
    ensures ImageDeserved(s, expected, sha) == NotApplied(HashMismatch) <==>
            exists h: nat, length: nat ::
              Declares(s, h, length) && length <= ACTIVE_BYTES && h + length <= |s| && sha(s[h..h + length]) != expected
  {
    hide ScanFrom, ScanHead;
    forall head, h: nat, length: nat | ScanHead(s) == Decided(Complete(head), h) && h + length <= |s|
      ensures s[h..][..length] == s[h..h + length]
    {
    }
    match ScanHead(s)
    case Decided(Complete(head), h) =>
      if head.status == 200 && head.contentLength.Some? {
        assert Declares(s, h, head.contentLength.value);
      }
    case _ =>
  }

  // Why there is no body to apply. A head without a length is never a 200.
  lemma NoImageIff(s: seq<byte>, expected: seq<byte>, sha: seq<byte> -> seq<byte>)
    ensures forall status ::
              ImageDeserved(s, expected, sha) == Missing(status) <==>
              status != 200 && exists head, h :: ScanHead(s) == Decided(Complete(head), h) && head.status == status
    ensures ImageDeserved(s, expected, sha) == NotFetched(Closed) <==> ScanHead(s).Unfinished?
    ensures forall error ::
              ImageDeserved(s, expected, sha) == NotFetched(Head(error)) <==>
              exists h :: ScanHead(s) == Decided(Reject(error), h)
    ensures ImageDeserved(s, expected, sha) != NoLength
  {
    hide ScanFrom, ScanHead, Deserved, Means;
    match ScanHead(s)
    case Decided(Complete(head), h) =>
      CompleteIff(s, head, h);
      LengthOr404(head);
    case Decided(Reject(error), h) => assert ScanHead(s) == Decided(Reject(error), h);
    case _ =>
  }

  lemma LengthOr404(head: ResponseHead)
    ensures (exists lines :: Means(lines, head)) ==> head.contentLength.Some? || head.status == 404
  {
    hide IsLine, IsStatusLine, IsFields, HasEncoding, Lengths;
  }

  // The writes are a prefix of the declared body of the answer `s`.
  ghost predicate WritesBody(s: seq<byte>, chunks: seq<Chunk>) {
    Contiguous(chunks) &&
    (chunks == [] ||
     exists head, h: nat ::
       ScanHead(s) == Decided(Complete(head), h) && head.status == 200 && head.contentLength.Some? &&
       Data(chunks) <= s[h..] && |Data(chunks)| <= head.contentLength.value)
  }

  // The slot starts with the data of the writes; and while no write failed,
  // everything behind it is as before.
  ghost predicate SlotStartsWith(before: seq<byte>, memory: seq<byte>, chunks: seq<Chunk>, reliable: bool) {
    |memory| == |before| && Data(chunks) <= memory &&
    (reliable ==> Streamed(before, memory, chunks, Data(chunks)))
  }

  // The whole declared body of the answer `s` is in the slot, and has the digest.
  ghost predicate HoldsBody(s: seq<byte>, before: seq<byte>, memory: seq<byte>, chunks: seq<Chunk>,
                            expected: seq<byte>, sha: seq<byte> -> seq<byte>) {
    exists head, h: nat, length: nat ::
      ScanHead(s) == Decided(Complete(head), h) && head.status == 200 && head.contentLength == Some(length) &&
      h + length <= |s| && length <= ACTIVE_BYTES && sha(s[h..h + length]) == expected &&
      Streamed(before, memory, chunks, s[h..h + length])
  }

  // Fetches an image and stages it. For every way the network cuts the answer into
  // reads, the slot receives the declared body from offset 0 on and nothing else;
  // the mark is made only when all of it is there and has the expected digest; and
  // when nothing fails the result depends on the answer alone.
  method FetchImage(link: Link, flasher: Flasher, expected: seq<byte>, sha: seq<byte> -> seq<byte>)
    returns (r: ImageResult, ghost chunks: seq<Chunk>)
    requires link.Valid() && link.honest && |flasher.memory| == DFU_BYTES
    modifies link, flasher
    ensures flasher.log == old(flasher.log) + chunks && WritesBody(old(link.Rest()), chunks)
    ensures SlotStartsWith(old(flasher.memory), flasher.memory, chunks, flasher.reliable)
    ensures flasher.attempts <= old(flasher.attempts) + 1
    ensures flasher.attempts > old(flasher.attempts) ==>
              HoldsBody(old(link.Rest()), old(flasher.memory), flasher.memory, chunks, expected, sha)
    ensures flasher.marks == old(flasher.marks) + if r.Marked? then 1 else 0
    ensures r.Marked? ==> flasher.attempts > old(flasher.attempts)
    ensures link.clean && flasher.reliable ==> r == ImageDeserved(old(link.Rest()), expected, sha)
  {
    hide ScanFrom, ScanHead, Ran, Committable, WritesBody, HoldsBody, SlotStartsWith, Deserved, Data, HeadThen;
    chunks := [];
    NoWrites(link.Rest());
    SlotUntouched(flasher.memory, flasher.reliable);
    ghost var s := link.Rest();
    var leftover := new byte[READ_CHUNK];
    var got := Get(link, leftover);
    if got.Err? {
      return NotFetched(got.error), chunks;
    }
    var (head, extra) := got.value;
    ghost var h := HeadEnds(s, head, leftover[..extra] + link.Rest());
    if head.status != 200 {
      return Missing(head.status), chunks;
    }
    if head.contentLength.None? {
      return NoLength, chunks;
    }
    var length := head.contentLength.value;
    var body := new HttpBody(link, leftover[..extra]);
    ghost var before := Snap(flasher, body);
    ghost var d;
    var applied;
    applied, chunks, d := ApplyUpdate(flasher, body, length, expected, sha);
    ImageStaged(s, head, h, before, Snap(flasher, body), chunks, d, expected, sha);
    if applied.Err? {
      return NotApplied(applied.error), chunks;
    }
    r := Marked;
  }

  // What a session did, told in terms of the answer `s` whose body it streamed.
  lemma ImageStaged(s: seq<byte>, head: ResponseHead, h: nat, a: Snapshot, b: Snapshot, chunks: seq<Chunk>,
                    d: seq<byte>, expected: seq<byte>, sha: seq<byte> -> seq<byte>)
    requires ScanHead(s) == Decided(Complete(head), h) && head.status == 200 && head.contentLength.Some?
    requires a.honest && a.upcoming == s[h..] && Ran(a, b, chunks, d, head.contentLength.value)
    ensures b.log == a.log + chunks && WritesBody(s, chunks)
    ensures SlotStartsWith(a.memory, b.memory, chunks, b.reliable)
    ensures Committable(head.contentLength.value, Data(chunks), d, expected, sha) ==>
              HoldsBody(s, a.memory, b.memory, chunks, expected, sha)
  {
    hide ScanHead, Data, Contiguous;
    var length := head.contentLength.value;
    BodyReached(s, h, d, b.upcoming, length);
    if Committable(length, Data(chunks), d, expected, sha) {
      assert Streamed(a.memory, b.memory, chunks, s[h..h + length]);
    }
  }

  lemma SlotUntouched(memory: seq<byte>, reliable: bool)
    ensures SlotStartsWith(memory, memory, [], reliable)
  {
    assert memory == [] + memory[0..];
  }

  lemma HeadEnds(s: seq<byte>, head: ResponseHead, body: seq<byte>) returns (h: nat)
    requires HeadThen(s, head, body)
    ensures ScanHead(s) == Decided(Complete(head), h) && s[h..] == body
  {
    h :| ScanHead(s) == Decided(Complete(head), h) && s[h..] == body;
  }

  lemma NoWrites(s: seq<byte>)
    ensures WritesBody(s, [])
  {
  }

  lemma BodyReached(s: seq<byte>, h: nat, d: seq<byte>, rest: seq<byte>, length: nat)
    requires h <= |s| && s[h..] == d + rest && |d| <= length
    ensures d <= s[h..] && (|d| == length ==> h + length <= |s| && s[h..h + length] == d)
  {
    assert s[h..h + |d|] == s[h..][..|d|];
  }
}
