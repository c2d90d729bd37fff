// The published version and digest, and the request URL.

module OtaCodecs {
  import opened Prelude
  import opened OtaText

  // ----- The version -----

  // The version a published text denotes.
  function VersionOf(body: seq<byte>): Option<u32> {
    var t := Trim(body);
    if t != [] && AllDigits(t) && DecimalValue(t) <= U32_MAX then Some(DecimalValue(t)) else None
  }

  method ParseVersion(body: seq<byte>) returns (r: Option<u32>)
    ensures r == VersionOf(body)
  {
    var s := TrimAscii(body);
    if s == [] || !AllDigits(s) {
      return None;
    }
    var value := CheckedDecimal(s, U32_MAX);
    r := value;
  }

  // Printing inverts it: under any whitespace the printed form of every version
  // denotes that version. And a text denotes `v` exactly when it is digits of that
  // value with only whitespace around them.
  lemma PrintedVersion(v: u32, a: seq<byte>, b: seq<byte>)
    requires AllAsciiWs(a) && AllAsciiWs(b)
    ensures VersionOf(a + Decimal(v) + b) == Some(v)
  {
    DecimalValueOfDecimal(v);
    TrimPadded(a, Decimal(v), b);
  }

  lemma VersionIff(body: seq<byte>, v: u32)
    ensures VersionOf(body) == Some(v) <==>
            exists a, t, b :: body == a + t + b && AllAsciiWs(a) && AllAsciiWs(b) &&
                              t != [] && AllDigits(t) && DecimalValue(t) == v
  {
    if VersionOf(body) == Some(v) {
      TrimIff(body, Trim(body));
    }
    if a, t, b :| body == a + t + b && AllAsciiWs(a) && AllAsciiWs(b) && t != [] && AllDigits(t) && DecimalValue(t) == v {
      TrimPadded(a, t, b);
    }
  }

  // ----- The digest -----

  // Lowercase hexadecimal, two digits a byte.
  function HexText(d: seq<byte>): (s: seq<byte>)
    ensures |s| == 2 * |d|
  {
    if d == [] then [] else HexText(d[..|d| - 1]) + [HexDigit(d[|d| - 1] / 16), HexDigit(d[|d| - 1] % 16)]
  }

  function HexNibble(b: byte): Option<nat> {
    if IsDigit(b) then Some(b - 0x30) else if 0x61 <= b <= 0x66 then Some(b - 0x61 + 10) else None
  }

  lemma {:induction false} HexTextAt(d: seq<byte>, k: nat)
    requires k < |d|
    ensures HexText(d)[2 * k] == HexDigit(d[k] / 16) && HexText(d)[2 * k + 1] == HexDigit(d[k] % 16)
  {
    if k == |d| - 1 {
    } else {
      HexTextAt(d[..|d| - 1], k);
    }
  }

  lemma HexTextSnoc(d: seq<byte>, b: byte)
    ensures HexText(d + [b]) == HexText(d) + [HexDigit(b / 16), HexDigit(b % 16)]
  {
    assert (d + [b])[..|d|] == d;
  }

  lemma NibbleInverts(b: byte)
    ensures var n := HexNibble(b);
            (n.Some? ==> n.value < 16 && HexDigit(n.value) == b) &&
            (n.None? ==> forall k: nat :: k < 16 ==> HexDigit(k) != b)
  {
  }

  // The trimmed text is the lowercase printed form of the digest.
  predicate IsDigestText(body: seq<byte>, d: seq<byte>) { |d| == 32 && Trim(body) == HexText(d) }

  // Returns a digest exactly when the body is its text.
  method ParseSha256Hex(body: seq<byte>) returns (r: Option<seq<byte>>)
    ensures forall d: seq<byte> :: r == Some(d) <==> IsDigestText(body, d)
  {
    hide Trim, HexText, HexDigit, HexNibble;
    var s := TrimAscii(body);
    if |s| != 64 {
      return None;
    }
    var out := new byte[32];
    for i := 0 to 32
      invariant s[..2 * i] == HexText(out[..i])
    {
      var hi, lo := HexNibble(s[2 * i]), HexNibble(s[2 * i + 1]);
      NibbleInverts(s[2 * i]);
      NibbleInverts(s[2 * i + 1]);
      if hi.None? || lo.None? {
        forall d: seq<byte> | |d| == 32 ensures s != HexText(d) {
          HexTextAt(d, i);
        }
        return None;
      }
      ghost var before := out[..i];
      out[i] := hi.value * 16 + lo.value;
      HexTextSnoc(before, out[i]);
      assert out[..i + 1] == before + [out[i]];
      assert s[..2 * (i + 1)] == s[..2 * i] + [s[2 * i], s[2 * i + 1]];
    }
    assert s[..64] == s && out[..32] == out[..];
    r := Some(out[..]);
    forall d: seq<byte> | |d| == 32 && s == HexText(d) ensures d == out[..] {
      HexInjective(d, out[..]);
    }
  }

  lemma HexInjective(d: seq<byte>, e: seq<byte>)
    requires HexText(d) == HexText(e)
    ensures d == e
  {
    forall k | 0 <= k < |d| ensures d[k] == e[k] {
      HexTextAt(d, k);
      HexTextAt(e, k);
    }
  }
}
