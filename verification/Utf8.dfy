// UTF-8 validity, as `core::str::from_utf8` decides it: the byte syntax of
// section 4 of RFC 3629.

module Utf8 {
  import opened Prelude

  predicate IsTail(b: byte) { 0x80 <= b <= 0xBF }

  // Length in bytes of the character that starts `s`, or 0 if none does.
  function CharLength(s: seq<byte>): (n: nat)
    ensures n <= 4 && n <= |s|
  {
    if |s| >= 1 && s[0] <= 0x7F then 1
    else if |s| >= 2 && 0xC2 <= s[0] <= 0xDF && IsTail(s[1]) then 2
    else if |s| >= 3 && IsTail(s[2]) &&
            ((s[0] == 0xE0 && 0xA0 <= s[1] <= 0xBF) ||
             (0xE1 <= s[0] <= 0xEC && IsTail(s[1])) ||
             (s[0] == 0xED && 0x80 <= s[1] <= 0x9F) ||
             (0xEE <= s[0] <= 0xEF && IsTail(s[1]))) then 3
    else if |s| >= 4 && IsTail(s[2]) && IsTail(s[3]) &&
            ((s[0] == 0xF0 && 0x90 <= s[1] <= 0xBF) ||
             (0xF1 <= s[0] <= 0xF3 && IsTail(s[1])) ||
             (s[0] == 0xF4 && 0x80 <= s[1] <= 0x8F)) then 4
    else 0
  }

  predicate Valid(s: seq<byte>)
    decreases |s|
  {
    s == [] || (var n := CharLength(s); n > 0 && Valid(s[n..]))
  }

  // Unicode scalar values: code points outside the surrogate range.
  type Scalar = c: int | 0 <= c < 0xD800 || 0xE000 <= c <= 0x10FFFF

  // The bit layout table of section 3 of RFC 3629.
  function EncodeChar(c: Scalar): (s: seq<byte>)
    ensures 1 <= |s| <= 4
  {
    if c < 0x80 then [c]
    else if c < 0x800 then [0xC0 + c / 64, 0x80 + c % 64]
    else if c < 0x10000 then [0xE0 + c / 4096, 0x80 + c / 64 % 64, 0x80 + c % 64]
    else [0xF0 + c / 262144, 0x80 + c / 4096 % 64, 0x80 + c / 64 % 64, 0x80 + c % 64]
  }

  function Encode(cs: seq<Scalar>): seq<byte> {
    if cs == [] then [] else EncodeChar(cs[0]) + Encode(cs[1..])
  }

  // Appends the six payload bits of a continuation byte.
  function Join(high: int, tail: int): (r: int)
    ensures 0x80 <= tail <= 0xBF ==> r / 64 == high && r % 64 == tail - 0x80
  {
    high * 64 + (tail - 0x80)
  }

  function DecodeChar(s: seq<byte>): Scalar
    requires CharLength(s) > 0
  {
    var lead: int := s[0];
    match CharLength(s)
    case 1 => lead
    case 2 => Join(lead - 0xC0, s[1])
    case 3 => Join(Join(lead - 0xE0, s[1]), s[2])
    case _ => Join(Join(Join(lead - 0xF0, s[1]), s[2]), s[3])
  }

  function Decode(s: seq<byte>): seq<Scalar>
    requires Valid(s)
    decreases |s|
  {
    if s == [] then [] else [DecodeChar(s)] + Decode(s[CharLength(s)..])
  }

  lemma Shifts(c: int)
    requires c >= 0
    ensures c / 4096 == c / 64 / 64
    ensures c / 262144 == c / 64 / 64 / 64
  {
  }

  // A character accepted by the byte syntax is the encoding of one scalar value.
  lemma CharIsEncoded(s: seq<byte>)
    requires CharLength(s) > 0
    ensures EncodeChar(DecodeChar(s)) == s[..CharLength(s)]
  {
    var c, n := DecodeChar(s), CharLength(s);
    Shifts(c);
    var e := EncodeChar(c);
    assert |e| == n;
    assert e[0] == s[0];
    assert n > 1 ==> e[1] == s[1];
    assert n > 2 ==> e[2] == s[2];
    assert n > 3 ==> e[3] == s[3];
  }

  // The encoding of a scalar value is accepted, and decoded, whatever follows it.
  lemma EncodedIsChar(c: Scalar, rest: seq<byte>)
    ensures CharLength(EncodeChar(c) + rest) == |EncodeChar(c)|
    ensures DecodeChar(EncodeChar(c) + rest) == c
  {
    Shifts(c);
  }

  lemma EncodeCons(c: Scalar, cs: seq<Scalar>)
    ensures Encode([c] + cs) == EncodeChar(c) + Encode(cs)
  {
    assert ([c] + cs)[1..] == cs;
  }

  // Every valid byte string is the encoding of its decoded scalar values.
  lemma {:induction false} EncodeDecode(s: seq<byte>)
    requires Valid(s)
    ensures Encode(Decode(s)) == s
    decreases |s|
  {
    hide CharLength, DecodeChar, EncodeChar;
    if s == [] {
    } else {
      var n := CharLength(s);
      var head, tail := s[..n], s[n..];
      EncodeDecode(tail);
      EncodeCons(DecodeChar(s), Decode(tail));
      assert Encode(Decode(s)) == head + tail by { CharIsEncoded(s); }
      assert head + tail == s;
    }
  }

  // The encoding of any scalar values is valid and decodes to them.
  lemma {:induction false} DecodeEncode(cs: seq<Scalar>)
    ensures Valid(Encode(cs)) && Decode(Encode(cs)) == cs
  {
    if cs == [] {
    } else {
      var head, tail := EncodeChar(cs[0]), Encode(cs[1..]);
      DecodeEncode(cs[1..]);
      EncodedIsChar(cs[0], tail);
      assert (head + tail)[|head|..] == tail;
    }
  }

  // Validity means exactly: these bytes encode some scalar values.
  lemma ValidIffEncoding(s: seq<byte>)
    ensures Valid(s) <==> exists cs: seq<Scalar> :: Encode(cs) == s
  {
    if Valid(s) {
      EncodeDecode(s);
    }
    if cs: seq<Scalar> :| Encode(cs) == s {
      DecodeEncode(cs);
    }
  }

  // Behind a valid prefix, validity of the whole is validity of the rest.
  lemma {:induction false} ValidConcat(a: seq<byte>, b: seq<byte>)
    requires Valid(a)
    ensures Valid(a + b) <==> Valid(b)
    decreases |a|
  {
    if a == [] {
      assert a + b == b;
    } else {
      var n := CharLength(a);
      assert CharLength(a + b) == n;
      assert (a + b)[n..] == a[n..] + b;
      ValidConcat(a[n..], b);
    }
  }

  lemma {:induction false} AsciiIsValid(s: seq<byte>)
    requires forall k :: 0 <= k < |s| ==> s[k] < 0x80
    ensures Valid(s)
  {
    if s == [] {
    } else {
      AsciiIsValid(s[1..]);
    }
  }
}
