// Shared vocabulary: option and result types, bytes, ASCII classes and the
// positional predicate `At` used to talk about text inside a buffer.

module Prelude {
  datatype Option<+T> = None | Some(value: T) {
    predicate IsFailure() { None? }

    function PropagateFailure<U>(): Option<U>
      requires None?
    {
      None
    }

    function Extract(): T
      requires Some?
    {
      value
    }
  }

  datatype Result<+T, +E> = Ok(value: T) | Err(error: E)

  type byte = b: int | 0 <= b < 256

  const U16_MAX: int := 0xFFFF
  const U32_MAX: int := 0xFFFF_FFFF
  const U64_MAX: int := 0xFFFF_FFFF_FFFF_FFFF

  type u16 = n: int | 0 <= n <= 0xFFFF
  type u32 = n: int | 0 <= n <= 0xFFFF_FFFF
  type u64 = n: int | 0 <= n <= 0xFFFF_FFFF_FFFF_FFFF

  const TAB: byte := 0x09
  const LF: byte := 0x0A
  const CR: byte := 0x0D
  const SPACE: byte := 0x20
  const QUOTE: byte := 0x22
  const PLUS: byte := 0x2B
  const COMMA: byte := 0x2C
  const MINUS: byte := 0x2D
  const DOT: byte := 0x2E
  const SLASH: byte := 0x2F
  const COLON: byte := 0x3A
  const LBRACKET: byte := 0x5B
  const BACKSLASH: byte := 0x5C
  const RBRACKET: byte := 0x5D
  const LBRACE: byte := 0x7B
  const RBRACE: byte := 0x7D

  predicate IsDigit(b: byte) { 0x30 <= b <= 0x39 }

  predicate IsLower(b: byte) { 0x61 <= b <= 0x7A }

  predicate IsUpper(b: byte) { 0x41 <= b <= 0x5A }

  predicate IsHexDigit(b: byte) { IsDigit(b) || 0x41 <= b <= 0x46 || 0x61 <= b <= 0x66 }

  predicate AllDigits(s: seq<byte>) { forall k :: 0 <= k < |s| ==> IsDigit(s[k]) }

  // The bytes of an ASCII text.
  predicate Spells(s: seq<byte>, t: string) {
    |s| == |t| && forall k :: 0 <= k < |s| ==> s[k] == t[k] as int
  }

  // The byte is one of the characters.
  predicate OneOf(b: byte, t: string) { exists k :: 0 <= k < |t| && t[k] as int == b }

  lemma Characters(b: byte)
    ensures Spells([TAB, LF, CR, SPACE, QUOTE, PLUS, COMMA, MINUS], "\t\n\r \"+,-")
    ensures Spells([DOT, SLASH, COLON, LBRACKET, BACKSLASH, RBRACKET, LBRACE, RBRACE], "./:[\\]{}")
    ensures IsDigit(b) <==> OneOf(b, "0123456789")
    ensures IsLower(b) <==> 'a' as int <= b <= 'z' as int
    ensures IsUpper(b) <==> 'A' as int <= b <= 'Z' as int
    ensures IsHexDigit(b) <==> OneOf(b, "0123456789abcdefABCDEF")
    ensures forall n: nat :: n < 16 ==> HexDigit(n) == "0123456789abcdef"[n] as int
  {
    hide IsHexDigit;
    var digits := "0123456789";
    assert forall k :: 0 <= k < 10 ==> digits[k] as int == 0x30 + k;
    assert IsDigit(b) ==> digits[b - 0x30] as int == b;
    HexCharacters(b);
  }

  lemma HexCharacters(b: byte)
    ensures IsHexDigit(b) <==> OneOf(b, "0123456789abcdefABCDEF")
  {
    var t := "0123456789abcdefABCDEF";
    assert forall k :: 0 <= k < 10 ==> t[k] as int == 0x30 + k;
    assert forall k :: 10 <= k < 16 ==> t[k] as int == 0x61 + (k - 10);
    assert forall k :: 16 <= k < 22 ==> t[k] as int == 0x41 + (k - 16);
    if IsDigit(b) {
      assert t[b - 0x30] as int == b;
    } else if 0x61 <= b <= 0x66 {
      assert t[b - 0x61 + 10] as int == b;
    } else if 0x41 <= b <= 0x46 {
      assert t[b - 0x41 + 16] as int == b;
    }
  }

  // `t` occupies `s` from position `i`.
  predicate At(s: seq<byte>, i: nat, t: seq<byte>) {
    i + |t| <= |s| && s[i..i + |t|] == t
  }

  lemma AtConcat(s: seq<byte>, i: nat, a: seq<byte>, b: seq<byte>)
    ensures At(s, i, a + b) <==> At(s, i, a) && At(s, i + |a|, b)
  {
    if At(s, i, a + b) {
      assert s[i..i + |a|] == s[i..i + |a + b|][..|a|];
      assert s[i + |a|..i + |a| + |b|] == s[i..i + |a + b|][|a|..];
    }
    if At(s, i, a) && At(s, i + |a|, b) {
      assert s[i..i + |a + b|] == s[i..i + |a|] + s[i + |a|..i + |a| + |b|];
    }
  }

  lemma AtSplit(s: seq<byte>, i: nat, t: seq<byte>, n: nat)
    requires At(s, i, t) && n <= |t|
    ensures At(s, i, t[..n]) && At(s, i + n, t[n..])
    ensures forall k :: 0 <= k < |t| ==> s[i + k] == t[k]
  {
    assert t == t[..n] + t[n..];
    AtConcat(s, i, t[..n], t[n..]);
    assert forall k :: 0 <= k < |t| ==> s[i..i + |t|][k] == t[k];
  }

  // `s` with `t` written over it from position `i` on.
  function Spliced(s: seq<byte>, i: nat, t: seq<byte>): seq<byte>
    requires i + |t| <= |s|
  {
    s[..i] + t + s[i + |t|..]
  }

  // The lowercase hexadecimal digit of `n`.
  function HexDigit(n: nat): byte
    requires n < 16
  {
    if n < 10 then 0x30 + n else 0x61 + (n - 10)
  }

  // The number a digit string denotes, most significant digit first.
  function DecimalValue(s: seq<byte>): nat
    requires AllDigits(s)
  {
    if s == [] then 0 else 10 * DecimalValue(s[..|s| - 1]) + (s[|s| - 1] - 0x30)
  }

  // The canonical decimal digits of `n`: no sign, no padding.
  function Decimal(n: nat): (s: seq<byte>)
    ensures s != [] && AllDigits(s)
  {
    if n < 10 then [0x30 + n] else Decimal(n / 10) + [0x30 + n % 10]
  }

  lemma {:induction false} DecimalValueOfDecimal(n: nat)
    ensures DecimalValue(Decimal(n)) == n
  {
    if n < 10 {
      assert Decimal(n)[..0] == [];
    } else {
      DecimalValueOfDecimal(n / 10);
      assert Decimal(n)[..|Decimal(n)| - 1] == Decimal(n / 10);
    }
  }

  function Pow10(k: nat): (p: nat)
    ensures p >= 1
  {
    if k == 0 then 1 else 10 * Pow10(k - 1)
  }

  // `k` digits suffice exactly for the numbers below 10^k.
  lemma {:induction false} DecimalLength(n: nat, k: nat)
    requires k > 0
    ensures |Decimal(n)| <= k <==> n < Pow10(k)
  {
    if n >= 10 && k > 1 {
      DecimalLength(n / 10, k - 1);
    } else if n >= 10 {
      assert Pow10(1) == 10 * Pow10(0);
    } else {
      assert Pow10(k) >= 10 * Pow10(k - 1);
    }
  }

  // Reading one more digit never makes the value smaller.
  lemma {:induction false} DecimalValueMonotone(s: seq<byte>, k: nat)
    requires AllDigits(s) && k <= |s|
    ensures DecimalValue(s[..k]) <= DecimalValue(s)
  {
    if k < |s| {
      var t := s[..|s| - 1];
      DecimalValueMonotone(t, k);
      assert t[..k] == s[..k];
    } else {
      assert s[..k] == s;
    }
  }
}
