// Base64 and the basic-authorization header, against the decoder of section 4 of
// RFC 4648.

module Base64 {
  import opened Prelude
  import OtaText

  const PAD: byte := 0x3D

  // The symbol of a six-bit value: the table runs A-Z, a-z, 0-9, `+`, `/`.
  function Symbol(v: nat): byte
    requires v < 64
  {
    if v < 26 then 0x41 + v
    else if v < 52 then 0x61 + (v - 26)
    else if v < 62 then 0x30 + (v - 52)
    else if v == 62 then PLUS
    else SLASH
  }

  // The table of the standard alphabet, letter by letter.
  lemma Spelling(v: nat)
    ensures v < 26 ==> Symbol(v) == "ABCDEFGHIJKLMNOPQRSTUVWXYZ"[v] as int
    ensures 26 <= v < 52 ==> Symbol(v) == "abcdefghijklmnopqrstuvwxyz"[v - 26] as int
    ensures 52 <= v < 64 ==> Symbol(v) == "0123456789+/"[v - 52] as int
    ensures Spells([PAD], "=") && Spells(PREFIX, "Basic ")
  {
  }

  // The value of a base64 symbol.
  function SymbolValue(b: byte): (v: Option<nat>)
    ensures v.Some? ==> v.value < 64
  {
    if IsUpper(b) then Some(b - 0x41)
    else if IsLower(b) then Some(b - 0x61 + 26)
    else if IsDigit(b) then Some(b - 0x30 + 52)
    else if b == PLUS then Some(62)
    else if b == SLASH then Some(63)
    else None
  }

  lemma SymbolInverts(v: nat)
    requires v < 64
    ensures SymbolValue(Symbol(v)) == Some(v) && Symbol(v) != PAD
  {
  }

  // ----- Encoding -----

  // The four symbols of up to three bytes; `count` of them are there.
  function Quad(b0: byte, b1: byte, b2: byte, count: nat): (q: seq<byte>)
    ensures |q| == 4
  {
    [Symbol(b0 / 4), Symbol(b0 % 4 * 16 + b1 / 16),
     if count < 2 then PAD else Symbol(b1 % 16 * 4 + b2 / 64),
     if count < 3 then PAD else Symbol(b2 % 64)]
  }

  function Encode(s: seq<byte>): seq<byte> {
    if s == [] then []
    else if |s| == 1 then Quad(s[0], 0, 0, 1)
    else if |s| == 2 then Quad(s[0], s[1], 0, 2)
    else Quad(s[0], s[1], s[2], 3) + Encode(s[3..])
  }

  function EncodedLength(n: nat): nat { (n + 2) / 3 * 4 }

  lemma {:induction false} EncodeLength(s: seq<byte>)
    ensures |Encode(s)| == EncodedLength(|s|)
  {
    hide Quad;
    if |s| <= 2 {
    } else {
      EncodeLength(s[3..]);
      assert (|s| + 2) / 3 == (|s| - 3 + 2) / 3 + 1;
    }
  }

  // ----- Decoding -----

  // Strict decoding: padding only at the end, and no stray bits under it.
  function Decode(t: seq<byte>): Option<seq<byte>> {
    if t == [] then Some([])
    else if |t| < 4 then None
    else
      var v0 :- SymbolValue(t[0]);
      var v1 :- SymbolValue(t[1]);
      if t[2] == PAD then
        if t[3] == PAD && |t| == 4 && v1 % 16 == 0 then Some([v0 * 4 + v1 / 16]) else None
      else
        var v2 :- SymbolValue(t[2]);
        if t[3] == PAD then
          if |t| == 4 && v2 % 4 == 0 then Some([v0 * 4 + v1 / 16, v1 % 16 * 16 + v2 / 4]) else None
        else
          var v3 :- SymbolValue(t[3]);
          var rest :- Decode(t[4..]);
          Some([v0 * 4 + v1 / 16, v1 % 16 * 16 + v2 / 4, v2 % 4 * 64 + v3] + rest)
  }

  lemma DecodeQuad(b0: byte, b1: byte, b2: byte, rest: seq<byte>)
    ensures Decode(Quad(b0, 0, 0, 1)) == Some([b0])
    ensures Decode(Quad(b0, b1, 0, 2)) == Some([b0, b1])
    ensures Decode(rest).Some? ==>
              Decode(Quad(b0, b1, b2, 3) + rest) == Some([b0, b1, b2] + Decode(rest).value)
  {
    hide Decode, Quad;
    DecodeOne(b0);
    DecodeTwo(b0, b1);
    DecodeThree(b0, b1, b2, rest);
  }

  lemma DecodeOne(b0: byte)
    ensures Decode(Quad(b0, 0, 0, 1)) == Some([b0])
  {
    hide Symbol, SymbolValue;
    SymbolInverts(b0 / 4);
    SymbolInverts(b0 % 4 * 16);
  }

  lemma DecodeTwo(b0: byte, b1: byte)
    ensures Decode(Quad(b0, b1, 0, 2)) == Some([b0, b1])
  {
    hide Symbol, SymbolValue;
    SymbolInverts(b0 / 4);
    SymbolInverts(b0 % 4 * 16 + b1 / 16);
    SymbolInverts(b1 % 16 * 4);
  }

  lemma DecodeThree(b0: byte, b1: byte, b2: byte, rest: seq<byte>)
    ensures Decode(rest).Some? ==>
              Decode(Quad(b0, b1, b2, 3) + rest) == Some([b0, b1, b2] + Decode(rest).value)
  {
    hide Symbol, SymbolValue;
    SymbolInverts(b0 / 4);
    SymbolInverts(b0 % 4 * 16 + b1 / 16);
    SymbolInverts(b1 % 16 * 4 + b2 / 64);
    SymbolInverts(b2 % 64);
    assert (Quad(b0, b1, b2, 3) + rest)[4..] == rest;
  }

  // Decoding returns the input, whatever its length.
  lemma {:induction false} DecodeEncode(s: seq<byte>)
    ensures Decode(Encode(s)) == Some(s)
  {
    hide Decode, Quad;
    if s == [] {
      DecodeNothing();
    } else if |s| == 1 {
      DecodeQuad(s[0], 0, 0, []);
      assert s == [s[0]];
    } else if |s| == 2 {
      DecodeQuad(s[0], s[1], 0, []);
      assert s == [s[0], s[1]];
    } else {
      DecodeEncode(s[3..]);
      DecodeQuad(s[0], s[1], s[2], Encode(s[3..]));
      assert s == [s[0], s[1], s[2]] + s[3..];
    }
  }

  lemma DecodeNothing()
    ensures Decode([]) == Some([])
  {
  }

  // ----- The encoder -----

  // The six-bit groups of a 24-bit number.
  lemma Sextets(b0: byte, b1: byte, b2: byte)
    ensures var n := b0 * 0x1_0000 + b1 * 0x100 + b2;
            n / 0x4_0000 % 64 == b0 / 4 && n / 0x1000 % 64 == b0 % 4 * 16 + b1 / 16 &&
            n / 64 % 64 == b1 % 16 * 4 + b2 / 64 && n % 64 == b2 % 64
  {
    var n := b0 * 0x1_0000 + b1 * 0x100 + b2;
    var x0, x1, x2, x3 := b0 / 4, b0 % 4 * 16 + b1 / 16, b1 % 16 * 4 + b2 / 64, b2 % 64;
    assert n == ((x0 * 64 + x1) * 64 + x2) * 64 + x3;
    Shift(n, (x0 * 64 + x1) * 64 + x2, x3);
    Shift(n / 64, x0 * 64 + x1, x2);
    Shift(n / 64 / 64, x0, x1);
    Nested(n);
  }

  lemma Shift(n: int, high: int, low: int)
    requires n == high * 64 + low && 0 <= low < 64
    ensures n / 64 == high && n % 64 == low
  {
  }

  lemma Nested(n: nat)
    ensures n / 0x1000 == n / 64 / 64 && n / 0x4_0000 == n / 64 / 64 / 64
  {
  }

  function OrZero(b: Option<byte>): byte { if b.Some? then b.value else 0 }

  function Count(b1: Option<byte>, b2: Option<byte>): nat { if b1.None? then 1 else if b2.None? then 2 else 3 }

  function ByteAt(s: seq<byte>, i: nat): Option<byte> { if i < |s| then Some(s[i]) else None }

  // What was written so far and what is written behind it are one piece.
  lemma SplicedTwice(s: seq<byte>, i: nat, t: seq<byte>, u: seq<byte>)
    requires i + |t| + |u| <= |s|
    ensures Spliced(Spliced(s, i, t), i + |t|, u) == Spliced(s, i, t + u)
  {
  }

  lemma SplicedParts(s: seq<byte>, i: nat, t: seq<byte>)
    requires i + |t| <= |s|
    ensures var r := Spliced(s, i, t);
            |r| == |s| && r[..i] == s[..i] && r[i..i + |t|] == t && r[i + |t|..] == s[i + |t|..] &&
            (t == [] ==> r == s)
  {
  }

  // The four writes of one group.
  method WriteGroup(b0: byte, b1: Option<byte>, b2: Option<byte>, out: array<byte>, o: nat)
    requires o + 4 <= out.Length && (b1.None? ==> b2.None?)
    modifies out
    ensures out[..] == Spliced(old(out[..]), o, Quad(b0, OrZero(b1), OrZero(b2), Count(b1, b2)))
  {
    var n := b0 * 0x1_0000 + OrZero(b1) * 0x100 + OrZero(b2);
    Sextets(b0, OrZero(b1), OrZero(b2));
    hide Symbol;
    out[o] := Symbol(n / 0x4_0000 % 64);
    out[o + 1] := Symbol(n / 0x1000 % 64);
    out[o + 2] := if b1.Some? then Symbol(n / 64 % 64) else PAD;
    out[o + 3] := if b2.Some? then Symbol(n % 64) else PAD;
  }

  lemma GroupEncodes(s: seq<byte>, i: nat)
    requires i < |s|
    ensures var b1, b2 := ByteAt(s, i + 1), ByteAt(s, i + 2);
            Encode(s[i..]) == Quad(s[i], OrZero(b1), OrZero(b2), Count(b1, b2)) + Encode(s[if b2.None? then |s| else i + 3..])
  {
    hide Quad;
    if i + 3 <= |s| {
      assert s[i..][3..] == s[i + 3..];
    }
  }

  // Encodes `input` into `out[lo..]`, reading it three bytes at a time. Fails
  // exactly when the encoding does not fit, and never writes before `lo`.
  method Fill(input: seq<byte>, out: array<byte>, lo: nat) returns (r: Option<nat>)
    requires lo <= out.Length
    modifies out
    ensures r == if lo + EncodedLength(|input|) <= out.Length then Some(EncodedLength(|input|)) else None
    ensures out[..lo] == old(out[..lo])
    ensures r.Some? ==> out[lo..lo + r.value] == Encode(input) && out[lo + r.value..] == old(out[lo + r.value..])
  {
    hide Quad, Encode, EncodedLength, Spliced;
    var o, i := 0, 0;
    ghost var groups, done, start := 0, [], out[..];
    EncodeLength(input);
    EncodeNothing();
    SplicedParts(start, lo, done);
    assert input[0..] == input && [] + Encode(input) == Encode(input);
    while i < |input|
      invariant i <= |input| && i == 3 * groups && o == |done| == 4 * groups && lo + o <= out.Length
      invariant out[..] == Spliced(start, lo, done) && done + Encode(input[i..]) == Encode(input)
    {
      var b0, b1, b2 := input[i], ByteAt(input, i + 1), ByteAt(input, i + 2);
      GroupFits(|input|, groups);
      if out.Length < lo + o + 4 {
        SplicedParts(start, lo, done);
        return None;
      }
      ghost var quad := Quad(b0, OrZero(b1), OrZero(b2), Count(b1, b2));
      WriteGroup(b0, b1, b2, out, lo + o);
      SplicedTwice(start, lo, done, quad);
      GroupEncodes(input, i);
      assert done + (quad + Encode(input[if b2.None? then |input| else i + 3..])) ==
             (done + quad) + Encode(input[if b2.None? then |input| else i + 3..]);
      o, done, groups := o + 4, done + quad, groups + 1;
      if b2.None? {
        assert input[|input|..] == [] && done + [] == done;
        SplicedParts(start, lo, done);
        return Some(o);
      }
      i := i + 3;
    }
    assert input[i..] == [] && done + [] == done;
    SplicedParts(start, lo, done);
    r := Some(o);
  }

  // Another group of a text of `n` bytes still counts in its encoded length.
  lemma GroupFits(n: nat, groups: nat)
    requires 3 * groups < n
    ensures 4 * groups + 4 <= EncodedLength(n)
  {
  }

  lemma EncodeNothing()
    ensures Encode([]) == []
  {
  }

  // ----- Basic authorization -----

  // `Basic `
  const PREFIX: seq<byte> := [0x42, 0x61, 0x73, 0x69, 0x63, SPACE]

  function Credentials(user: seq<byte>, pass: seq<byte>): seq<byte> { user + [COLON] + pass }

  // Fails exactly when both credentials are empty or the header does not fit.
  method BasicAuthorization(user: seq<byte>, pass: seq<byte>, out: array<byte>) returns (r: Option<nat>)
    modifies out
    ensures var n := |PREFIX| + EncodedLength(|user| + 1 + |pass|);
            r == if (user == [] && pass == []) || out.Length < n then None else Some(n)
    ensures r.Some? ==> out[..r.value] == PREFIX + Encode(Credentials(user, pass)) && out[r.value..] == old(out[r.value..])
  {
    if user == [] && pass == [] {
      return None;
    }
    if out.Length < |PREFIX| {
      return None;
    }
    forall k | 0 <= k < |PREFIX| {
      out[k] := PREFIX[k];
    }
    assert out[..|PREFIX|] == PREFIX;
    ghost var before := out[..];
    var n := Fill(Credentials(user, pass), out, |PREFIX|);
    if n.None? {
      return None;
    }
    r := Some(|PREFIX| + n.value);
    assert out[..r.value] == out[..|PREFIX|] + out[|PREFIX|..r.value];
  }

  // A server decodes the header to `user:pass`, and, when the user has no colon,
  // the header says who it is.
  lemma HeaderDecodes(user: seq<byte>, pass: seq<byte>)
    ensures Decode(Encode(Credentials(user, pass))) == Some(user + [COLON] + pass)
    ensures COLON !in user ==> OtaText.UpTo(Credentials(user, pass), COLON) == user
  {
    DecodeEncode(Credentials(user, pass));
    if COLON !in user {
      OtaText.UpToUnique(Credentials(user, pass), COLON, user);
    }
  }

  lemma HeaderInjective(user: seq<byte>, pass: seq<byte>, user': seq<byte>, pass': seq<byte>)
    requires COLON !in user && COLON !in user'
    requires PREFIX + Encode(Credentials(user, pass)) == PREFIX + Encode(Credentials(user', pass'))
    ensures user == user' && pass == pass'
  {
    var e, e' := Encode(Credentials(user, pass)), Encode(Credentials(user', pass'));
    assert (PREFIX + e)[|PREFIX|..] == e && (PREFIX + e')[|PREFIX|..] == e';
    HeaderDecodes(user, pass);
    HeaderDecodes(user', pass');
    assert Credentials(user, pass)[|user| + 1..] == pass && Credentials(user', pass')[|user'| + 1..] == pass';
  }
}
