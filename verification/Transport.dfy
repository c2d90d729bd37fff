// One HTTP connection: the head is parsed out of reads of any size, and what was
// read past it is handed to the body.

module Transport {
  import opened Prelude
  import opened HttpHead

  datatype FetchError =
    | Timeout | Write | Flush | Read | Closed | Head(error: HeadError) | Leftover | BodyTooLarge

  // Bytes read at a time while the head is parsed.
  const READ_CHUNK: nat := 256

  // A connection whose peer sends `stream` and then closes. Every read delivers
  // some of it, as the network pleases, or fails. A reader that is not `honest`
  // may return anything and report any count.
  class Link {
    const stream: seq<byte>
    const honest: bool
    var pos: nat
    // Nothing failed so far, and end of stream was only reported at its end.
    ghost var clean: bool

    ghost predicate Valid()
      reads this
    {
      pos <= |stream|
    }

    // What is still to come.
    function Rest(): seq<byte>
      requires Valid()
      reads this
    {
      stream[pos..]
    }

    constructor (sent: seq<byte>, keepsContract: bool)
      ensures Valid() && stream == sent && honest == keepsContract && pos == 0 && clean
    {
      stream, honest, pos, clean := sent, keepsContract, 0, true;
    }

    // Sends the request; the peer's answer does not depend on it here.
    method Send() returns (r: Result<(), FetchError>)
      modifies this`clean
      ensures r.Ok? ==> clean == old(clean)
      ensures r.Err? ==> !clean && r.error in {Timeout, Write, Flush}
    {
      if * {
        clean := false;
        var error: FetchError :| error in {Timeout, Write, Flush};
        return Err(error);
      }
      r := Ok(());
    }

    // Reads into `buf[lo..hi]` and reports a count.
    method ReadSome(buf: array<byte>, lo: nat, hi: nat) returns (r: Result<nat, FetchError>)
      requires Valid() && lo <= hi <= buf.Length
      modifies this, buf
      ensures Valid() && buf[..lo] == old(buf[..lo]) && buf[hi..] == old(buf[hi..])
      ensures clean ==> old(clean)
      ensures r.Err? ==> !clean && pos == old(pos) && r.error in {Timeout, Read}
      ensures r.Ok? && honest ==> r.value <= hi - lo && pos == old(pos) + r.value
      ensures r.Ok? && honest ==> buf[lo..lo + r.value] == stream[old(pos)..pos]
      ensures r == Ok(0) && honest && clean && lo < hi ==> pos == |stream|
    {
      if * {
        clean := false;
        var late: bool := *;
        return Err(if late then Timeout else Read);
      }
      if !honest {
        assert |seq(hi - lo, _ => 0)| == hi - lo;
        var junk: seq<byte> :| |junk| == hi - lo;
        forall k | 0 <= k < |junk| {
          buf[lo + k] := junk[k];
        }
        var count: nat := *;
        clean := false;
        return Ok(count);
      }
      var n: nat :| n <= hi - lo && n <= |stream| - pos;
      forall k | 0 <= k < n {
        buf[lo + k] := stream[pos + k];
      }
      pos := pos + n;
      clean := clean && (n > 0 || pos == |stream|);
      r := Ok(n);
    }
  }

  // What a head read from `s` amounts to.
  predicate HeadResult(s: seq<byte>, r: Result<(ResponseHead, nat), FetchError>) {
    match ScanHead(s)
    case Unfinished(_, _) => r == Err(Closed)
    case Decided(Complete(head), _) => r.Ok? && r.value.0 == head
    case Decided(Reject(error), _) => r == Err(Head(error))
    case Decided(NeedMore, _) => false
  }

  // `s` is an accepted head and then `body`.
  ghost predicate HeadThen(s: seq<byte>, head: ResponseHead, body: seq<byte>) {
    exists h: nat :: ScanHead(s) == Decided(Complete(head), h) && s[h..] == body
  }

  // A head decided by its last byte stays decided whatever follows.
  lemma DecidedThen(fed: seq<byte>, tail: seq<byte>)
    requires ScanHead(fed).Decided? && ScanHead(fed).consumed == |fed|
    ensures match ScanHead(fed).event
            case Complete(head) =>
              HeadThen(fed + tail, head, tail) && forall extra: nat :: HeadResult(fed + tail, Ok((head, extra)))
            case Reject(error) => HeadResult(fed + tail, Err(Head(error)))
            case NeedMore => false
  {
    hide ScanFrom, ReadLine;
    Sticky(fed, tail);
    assert (fed + tail)[|fed|..] == tail;
  }

  lemma CompleteThen(fed: seq<byte>, tail: seq<byte>, head: ResponseHead, extra: nat)
    requires EventOf(ScanHead(fed)) == Complete(head)
    requires ScanHead(fed).Decided? ==> ScanHead(fed).consumed == |fed|
    ensures HeadThen(fed + tail, head, tail) && HeadResult(fed + tail, Ok((head, extra)))
  {
    hide ScanHead, HeadThen, HeadResult;
    DecidedThen(fed, tail);
  }

  lemma RejectThen(fed: seq<byte>, tail: seq<byte>, error: HeadError)
    requires EventOf(ScanHead(fed)) == Reject(error)
    requires ScanHead(fed).Decided? ==> ScanHead(fed).consumed == |fed|
    ensures HeadResult(fed + tail, Err(Head(error)))
  {
    hide ScanHead, HeadThen, HeadResult;
    DecidedThen(fed, tail);
  }

  lemma ClosedEarly(s: seq<byte>)
    requires ScanHead(s).Unfinished?
    ensures HeadResult(s, Err(Closed))
  {
  }

  // Pushes the bytes of one read until the head ends or is rejected: the inner
  // loop of `Get`. `used` counts the bytes pushed.
  method Feed(parser: HeadParser, buf: array<byte>, n: nat) returns (event: HeadEvent, used: nat)
    requires parser.Valid() && parser.line != buf && n <= buf.Length
    requires ScanHead(parser.fed).Unfinished?
    modifies parser, parser.line
    ensures parser.Valid() && used <= n && parser.fed == old(parser.fed) + buf[..used]
    ensures event == EventOf(ScanHead(parser.fed))
    ensures event.NeedMore? ==> used == n
    ensures event.NeedMore? <==> ScanHead(parser.fed).Unfinished?
    ensures ScanHead(parser.fed).Decided? ==> ScanHead(parser.fed).consumed == |parser.fed|
  {
    hide ScanFrom, ReadLine;
    event, used := NeedMore, 0;
    while used < n
      invariant parser.Valid() && used <= n
      invariant parser.fed == old(parser.fed) + buf[..used]
      invariant event == NeedMore && ScanHead(parser.fed).Unfinished?
    {
      assert buf[..used] + [buf[used]] == buf[..used + 1];
      event := parser.Push(buf[used]);
      used := used + 1;
      if !event.NeedMore? {
        return;
      }
    }
  }

  lemma NothingDecidedYet()
    ensures ScanHead([]).Unfinished?
  {
  }

  // Bytes read move from the read buffer to the parser and to what is left over.
  lemma Resplit(before: seq<byte>, read: seq<byte>, used: nat, rest: seq<byte>)
    requires used <= |read|
    ensures before + (read + rest) == (before + read[..used]) + (read[used..] + rest)
  {
  }

  // `dst[..to - from].copy_from_slice(&src[from..to])`
  method CopyInto(dst: array<byte>, src: array<byte>, from: nat, to: nat)
    requires dst != src && from <= to <= src.Length && to - from <= dst.Length
    modifies dst
    ensures dst[..to - from] == src[from..to] && dst[to - from..] == old(dst[to - from..])
  {
    forall k | 0 <= k < to - from {
      dst[k] := src[from + k];
    }
  }

  // One read and the parser's answer to it. Nothing is lost on the way: what is
  // fed, then what is left in the buffer, then what the link still holds.
  method Pump(link: Link, parser: HeadParser, buf: array<byte>)
    returns (r: Result<HeadEvent, FetchError>, used: nat, n: nat)
    requires link.Valid() && link.honest && parser.Valid() && parser.line != buf
    requires ScanHead(parser.fed).Unfinished?
    modifies link, parser, parser.line, buf
    ensures link.Valid() && parser.Valid() && old(link.pos) <= link.pos && used <= n <= buf.Length
    ensures link.clean ==> old(link.clean)
    ensures parser.fed + (buf[used..n] + link.Rest()) == old(parser.fed + link.Rest())
    ensures r.Ok? ==> n > 0 && link.pos == old(link.pos) + n && r.value == EventOf(ScanHead(parser.fed))
    ensures r.Ok? && r.value.NeedMore? ==> used == n && ScanHead(parser.fed).Unfinished?
    ensures ScanHead(parser.fed).Decided? ==> ScanHead(parser.fed).consumed == |parser.fed|
    ensures r.Err? ==> !r.error.Head? && (link.clean && buf.Length > 0 ==> r == Err(Closed) && old(link.Rest()) == [])
    ensures r.Err? ==> parser.fed == old(parser.fed)
  {
    hide ScanFrom, ReadLine, ScanHead, EventOf;
    used, n := 0, 0;
    ghost var before, at := parser.fed, link.pos;
    var got := link.ReadSome(buf, 0, buf.Length);
    if got.Err? {
      r := Err(got.error);
      return;
    }
    n := got.value;
    ghost var read := buf[..n];
    assert link.stream[at..] == read + link.Rest();
    if n == 0 {
      r := Err(Closed);
      return;
    }
    var event;
    event, used := Feed(parser, buf, n);
    assert buf[..used] == read[..used] && buf[used..n] == read[used..];
    Resplit(before, read, used, link.Rest());
    r := Ok(event);
  }

  // Sends the request and feeds every byte read to the head parser. On success
  // the bytes read past the head are in `leftover`, and with what the link still
  // delivers they are exactly the bytes behind the head.
  method Get(link: Link, leftover: array<byte>) returns (r: Result<(ResponseHead, nat), FetchError>)
    requires link.Valid() && link.honest
    modifies link, leftover
    ensures link.Valid() && old(link.pos) <= link.pos
    ensures link.clean ==> old(link.clean)
    ensures r.Ok? ==> r.value.1 <= leftover.Length
    ensures r.Ok? ==> HeadThen(old(link.Rest()), r.value.0, leftover[..r.value.1] + link.Rest())
    ensures r.Err? && r.error.Head? ==> HeadResult(old(link.Rest()), r)
    ensures link.clean && leftover.Length >= READ_CHUNK ==> HeadResult(old(link.Rest()), r)
  {
    hide ScanFrom, ReadLine, ScanHead, HeadThen, HeadResult, EventOf, HeadParser.Valid, Link.Rest;
    var sent := link.Send();
    if sent.Err? {
      return Err(sent.error);
    }
    NothingDecidedYet();
    ghost var s := link.Rest();
    var parser := new HeadParser();
    var buf := new byte[READ_CHUNK];
    while true
      invariant link.Valid() && old(link.pos) <= link.pos && fresh(parser) && fresh(parser.line) && parser.Valid()
      invariant parser.line != buf
      invariant parser.fed + link.Rest() == s && ScanHead(parser.fed).Unfinished?
      invariant link.clean ==> old(link.clean)
      decreases |link.stream| - link.pos
    {
      ghost var held := link.Rest();
      var event, used, n := Pump(link, parser, buf);
      if event.Err? {
        assert held == [] ==> parser.fed + held == parser.fed;
        ClosedEarly(parser.fed);
        return Err(event.error);
      }
      ghost var tail := buf[used..n] + link.Rest();
      match event.value {
        case NeedMore => assert tail == link.Rest();
        case Complete(head) =>
          var extra := n - used;
          if extra > leftover.Length {
            return Err(Leftover);
          }
          CompleteThen(parser.fed, tail, head, extra);
          CopyInto(leftover, buf, used, n);
          assert leftover[..extra] + link.Rest() == tail;
          return Ok((head, extra));
        case Reject(error) =>
          RejectThen(parser.fed, tail, error);
          return Err(Head(error));
      }
    }
  }
}
