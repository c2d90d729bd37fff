// Text helpers of the OTA policy: ASCII trimming, splitting and checked decimals.

module OtaText {
  import opened Prelude

  // `u8::is_ascii_whitespace`: space, tab, line feed, form feed, carriage return.
  predicate IsAsciiWs(b: byte) { b == SPACE || b == TAB || b == LF || b == 0x0C || b == CR }

  lemma Spelling(b: byte)
    ensures IsAsciiWs(b) <==> OneOf(b, " \t\n\r") || b == 0x0C
  {
    var t := " \t\n\r";
    assert t[0] == ' ' && t[1] == '\t' && t[2] == '\n' && t[3] == '\r';
  }

  predicate AllAsciiWs(s: seq<byte>) { forall k :: 0 <= k < |s| ==> IsAsciiWs(s[k]) }

  // Neither end is whitespace.
  predicate IsTrimmed(s: seq<byte>) { s == [] || (!IsAsciiWs(s[0]) && !IsAsciiWs(s[|s| - 1])) }

  function TrimLeft(s: seq<byte>): seq<byte> {
    if s != [] && IsAsciiWs(s[0]) then TrimLeft(s[1..]) else s
  }

  function TrimRight(s: seq<byte>): seq<byte> {
    if s != [] && IsAsciiWs(s[|s| - 1]) then TrimRight(s[..|s| - 1]) else s
  }

  function Trim(s: seq<byte>): seq<byte> { TrimRight(TrimLeft(s)) }

  method TrimAscii(input: seq<byte>) returns (r: seq<byte>)
    ensures r == Trim(input)
  {
    hide TrimLeft, TrimRight;
    var start, end := 0, |input|;
    while start < end && IsAsciiWs(input[start])
      invariant 0 <= start <= end == |input|
      invariant TrimLeft(input[start..]) == TrimLeft(input)
    {
      TrimSteps(input[start..]);
      assert input[start..][1..] == input[start + 1..];
      start := start + 1;
    }
    TrimSteps(input[start..]);
    ghost var left := input[start..];
    assert input[start..end] == left;
    while end > start && IsAsciiWs(input[end - 1])
      invariant start <= end <= |input|
      invariant TrimRight(input[start..end]) == TrimRight(left)
    {
      TrimSteps(input[start..end]);
      assert input[start..end][..end - start - 1] == input[start..end - 1];
      end := end - 1;
    }
    TrimSteps(input[start..end]);
    r := input[start..end];
  }

  lemma TrimSteps(s: seq<byte>)
    ensures TrimLeft(s) == if s != [] && IsAsciiWs(s[0]) then TrimLeft(s[1..]) else s
    ensures TrimRight(s) == if s != [] && IsAsciiWs(s[|s| - 1]) then TrimRight(s[..|s| - 1]) else s
  {
  }

  lemma {:induction false} TrimLeftOf(a: seq<byte>, t: seq<byte>)
    requires AllAsciiWs(a) && (t != [] ==> !IsAsciiWs(t[0]))
    ensures TrimLeft(a + t) == t
  {
    if a == [] {
      assert a + t == t;
    } else {
      assert (a + t)[1..] == a[1..] + t;
      TrimLeftOf(a[1..], t);
    }
  }

  lemma {:induction false} TrimRightOf(t: seq<byte>, b: seq<byte>)
    requires AllAsciiWs(b) && (t != [] ==> !IsAsciiWs(t[|t| - 1]))
    ensures TrimRight(t + b) == t
  {
    if b == [] {
      assert t + b == t;
    } else {
      assert (t + b)[..|t + b| - 1] == t + b[..|b| - 1];
      TrimRightOf(t, b[..|b| - 1]);
    }
  }

  // Trimming undoes any whitespace put around a trimmed text.
  lemma TrimPadded(a: seq<byte>, t: seq<byte>, b: seq<byte>)
    requires AllAsciiWs(a) && IsTrimmed(t) && AllAsciiWs(b)
    ensures Trim(a + t + b) == t
  {
    assert a + t + b == a + (t + b);
    if t == [] {
      assert a + (t + b) == (a + b) + [];
      TrimLeftOf(a + b, []);
    } else {
      TrimLeftOf(a, t + b);
      TrimRightOf(t, b);
    }
  }

  lemma {:induction false} TrimLeftSplits(s: seq<byte>) returns (a: seq<byte>)
    ensures s == a + TrimLeft(s) && AllAsciiWs(a)
    ensures TrimLeft(s) != [] ==> !IsAsciiWs(TrimLeft(s)[0])
  {
    a := [];
    if s == [] || !IsAsciiWs(s[0]) {
    } else {
      a := TrimLeftSplits(s[1..]);
      a := [s[0]] + a;
    }
  }

  lemma {:induction false} TrimRightSplits(s: seq<byte>) returns (b: seq<byte>)
    ensures s == TrimRight(s) + b && AllAsciiWs(b)
    ensures TrimRight(s) != [] ==> !IsAsciiWs(TrimRight(s)[|TrimRight(s)| - 1])
  {
    b := [];
    if s == [] || !IsAsciiWs(s[|s| - 1]) {
    } else {
      b := TrimRightSplits(s[..|s| - 1]);
      b := b + [s[|s| - 1]];
    }
  }

  // The trimmed text is the one trimmed part of `s` with only whitespace around it.
  lemma TrimIff(s: seq<byte>, t: seq<byte>)
    ensures Trim(s) == t <==>
            IsTrimmed(t) && exists a, b :: s == a + t + b && AllAsciiWs(a) && AllAsciiWs(b)
  {
    if Trim(s) == t {
      var a := TrimLeftSplits(s);
      var b := TrimRightSplits(TrimLeft(s));
      assert s == a + t + b;
      if t != [] {
        assert t[0] == TrimLeft(s)[0];
      }
    }
    if IsTrimmed(t) {
      if a, b :| s == a + t + b && AllAsciiWs(a) && AllAsciiWs(b) {
        TrimPadded(a, t, b);
      }
    }
  }

  // The part of `s` before the first `sep`; all of it when there is none.
  function UpTo(s: seq<byte>, sep: byte): (p: seq<byte>)
    ensures p <= s && sep !in p && (|p| < |s| ==> s[|p|] == sep)
  {
    if s == [] || s[0] == sep then [] else [s[0]] + UpTo(s[1..], sep)
  }

  // `UpTo` is the only prefix without `sep` that `sep` or the end follows.
  lemma UpToUnique(s: seq<byte>, sep: byte, p: seq<byte>)
    requires p <= s && sep !in p && (|p| < |s| ==> s[|p|] == sep)
    ensures UpTo(s, sep) == p
  {
  }

  // `iter().position(|b| b == sep)`
  method Position(s: seq<byte>, sep: byte) returns (i: Option<nat>)
    ensures i == if |UpTo(s, sep)| < |s| then Some(|UpTo(s, sep)|) else None
  {
    for n := 0 to |s|
      invariant sep !in s[..n]
    {
      if s[n] == sep {
        UpToUnique(s, sep, s[..n]);
        return Some(n);
      }
    }
    assert s[..|s|] == s;
    UpToUnique(s, sep, s);
    i := None;
  }

  // `split(sep).filter(|p| !p.is_empty())`
  function Pieces(s: seq<byte>, sep: byte): (ps: seq<seq<byte>>)
    ensures forall k :: 0 <= k < |ps| ==> ps[k] != [] && sep !in ps[k]
    decreases |s|
  {
    if s == [] then []
    else
      var p := UpTo(s, sep);
      var rest := if |p| < |s| then Pieces(s[|p| + 1..], sep) else [];
      if p == [] then rest else [p] + rest
  }

  function AsPiece(p: seq<byte>): seq<seq<byte>> { if p == [] then [] else [p] }

  // `s` starts with the piece `q`, which a separator ends.
  lemma PiecesStep(s: seq<byte>, sep: byte, q: seq<byte>)
    requires q < s && s[|q|] == sep && sep !in q
    ensures Pieces(s, sep) == AsPiece(q) + Pieces(s[|q| + 1..], sep)
  {
    UpToUnique(s, sep, q);
    var rest := Pieces(s[|q| + 1..], sep);
    assert [] + rest == rest;
  }

  lemma PiecesOfOne(p: seq<byte>, sep: byte)
    requires sep !in p
    ensures Pieces(p, sep) == AsPiece(p)
  {
    UpToUnique(p, sep, p);
  }

  // There are no pieces exactly in a text of separators.
  lemma {:induction false} NoPiecesIff(s: seq<byte>, sep: byte)
    ensures Pieces(s, sep) == [] <==> forall k :: 0 <= k < |s| ==> s[k] == sep
  {
    if s == [] {
    } else if s[0] == sep {
      NoPiecesIff(s[1..], sep);
    } else {
      assert UpTo(s, sep) != [];
    }
  }

  // The decimal value of a digit string, unless it has another byte or exceeds `max`.
  method CheckedDecimal(s: seq<byte>, max: nat) returns (r: Option<nat>)
    ensures r == if AllDigits(s) && DecimalValue(s) <= max then Some(DecimalValue(s)) else None
  {
    var value := 0;
    for n := 0 to |s|
      invariant AllDigits(s[..n]) && value == DecimalValue(s[..n]) <= max
    {
      if !IsDigit(s[n]) {
        return None;
      }
      assert s[..n + 1][..n] == s[..n];
      assert AllDigits(s[..n + 1]);
      value := value * 10 + (s[n] - 0x30);
      if value > max {
        if AllDigits(s) {
          DecimalValueMonotone(s, n + 1);
        }
        return None;
      }
    }
    assert s[..|s|] == s;
    r := Some(value);
  }
}
