// The sums of size terms in the memory map: `24K - 0x100` and the like.

module MemoryTerms {
  import opened Prelude

  const I64_MAX: int := 0x7FFF_FFFF_FFFF_FFFF

  const TWO64: int := 0x1_0000_0000_0000_0000

  predicate InI64(n: int) { -I64_MAX - 1 <= n <= I64_MAX }

  // What 64-bit arithmetic makes of `n` in the release build: it wraps.
  function Wrap64(n: int): (r: int)
    ensures InI64(r) && (InI64(n) ==> r == n)
  {
    (n + I64_MAX + 1) % TWO64 - I64_MAX - 1
  }

  lemma WrapAdd(a: int, b: int)
    ensures Wrap64(Wrap64(a) + b) == Wrap64(a + b)
  {
    var x := a + I64_MAX + 1;
    SameResidue(x % TWO64 + b, x / TWO64, TWO64);
    assert x == x / TWO64 * TWO64 + x % TWO64;
  }

  // A cast to 32 bits does not see the wrapping.
  lemma WrapLow32(n: int)
    ensures Wrap64(n) % 0x1_0000_0000 == n % 0x1_0000_0000
  {
    var x := n + I64_MAX + 1;
    assert x == x / TWO64 * TWO64 + x % TWO64;
    SameResidue(Wrap64(n), x / TWO64 * 0x1_0000_0000, 0x1_0000_0000);
  }

  lemma SameResidue(y: int, k: int, m: int)
    requires m > 0
    ensures (y + k * m) % m == y % m
  {
    var q, r := y / m, y % m;
    assert y + k * m == (q + k) * m + r by { assert q * m + k * m == (q + k) * m; }
    ResidueUnique(y + k * m, q + k, r, m);
  }

  lemma ResidueUnique(x: int, q: int, r: int, m: int)
    requires m > 0 && 0 <= r < m && x == q * m + r
    ensures x % m == r
  {
    var d := q - x / m;
    assert d * m == x % m - r;
    Multiples(d, m);
  }

  lemma Multiples(d: int, m: int)
    requires m > 0
    ensures if d == 0 then d * m == 0 else if d > 0 then d * m >= m else d * m <= -m
  {
  }

  // ----- Trimming -----

  // The ASCII part of the Unicode white-space property.
  predicate IsBlank(b: byte) { 0x09 <= b <= 0x0D || b == SPACE }

  predicate AllBlank(s: seq<byte>) { forall k :: 0 <= k < |s| ==> IsBlank(s[k]) }

  function Trim(s: seq<byte>): seq<byte>
    decreases |s|
  {
    if s != [] && IsBlank(s[0]) then Trim(s[1..])
    else if s != [] && IsBlank(s[|s| - 1]) then Trim(s[..|s| - 1])
    else s
  }

  predicate IsTight(s: seq<byte>) { s != [] && !IsBlank(s[0]) && !IsBlank(s[|s| - 1]) }

  lemma {:induction false} TrimPadded(a: seq<byte>, t: seq<byte>, b: seq<byte>)
    requires AllBlank(a) && IsTight(t) && AllBlank(b)
    ensures Trim(a + t + b) == t
    decreases |a| + |b|
  {
    var s := a + t + b;
    if a != [] {
      assert s[1..] == a[1..] + t + b;
      TrimPadded(a[1..], t, b);
    } else if b != [] {
      assert s[0] == t[0];
      assert s[..|s| - 1] == a + t + b[..|b| - 1];
      TrimPadded(a, t, b[..|b| - 1]);
    } else {
      assert s == t;
    }
  }

  // ----- One term -----

  function Nibble(b: byte): Option<nat> {
    if IsDigit(b) then Some(b - 0x30)
    else if 0x61 <= b <= 0x66 then Some(b - 0x61 + 10)
    else if 0x41 <= b <= 0x46 then Some(b - 0x41 + 10)
    else None
  }

  // The value of hexadecimal digits, in either case.
  function HexValue(s: seq<byte>): Option<nat> {
    if s == [] then Some(0)
    else
      var high :- HexValue(s[..|s| - 1]);
      var low :- Nibble(s[|s| - 1]);
      Some(16 * high + low)
  }

  // `i64::from_str_radix` of unsigned digits, and what a panic becomes: nothing.
  function ParseHex(s: seq<byte>): Option<int> {
    var v :- HexValue(s);
    if s != [] && v <= I64_MAX then Some(v) else None
  }

  function ParseDecimal(s: seq<byte>): Option<int> {
    if s != [] && AllDigits(s) && DecimalValue(s) <= I64_MAX then Some(DecimalValue(s)) else None
  }

  datatype Scale = Unit | Kilo | Mega

  function Factor(scale: Scale): nat { match scale case Unit => 1 case Kilo => 1024 case Mega => 1024 * 1024 }

  function ScaleOf(b: byte): Scale {
    if b == 0x4B || b == 0x6B then Kilo else if b == 0x4D || b == 0x6D then Mega else Unit
  }

  predicate HasHexPrefix(s: seq<byte>) { |s| >= 2 && s[0] == 0x30 && (s[1] == 0x78 || s[1] == 0x58) }

  // The value of unscaled digits.
  function DigitsValue(digits: seq<byte>): Option<int> {
    if HasHexPrefix(digits) then ParseHex(Trim(digits[2..])) else ParseDecimal(Trim(digits))
  }

  // A trimmed term: digits in decimal or behind `0x`, scaled by a trailing K or M.
  function ParseTerm(term: seq<byte>): Option<int>
    requires term != []
  {
    var scale := ScaleOf(term[|term| - 1]);
    var digits := if scale == Unit then term else term[..|term| - 1];
    var value :- DigitsValue(digits);
    Some(Wrap64(value * Factor(scale)))
  }

  // ----- A sum -----

  // The scan of the rest `s` of an expression: `total` so far, and the sign and
  // text of the term being read.
  function EvalFrom(s: seq<byte>, total: int, sign: int, term: seq<byte>): Option<int> {
    if s == [] then Some(total)
    else if s[0] == PLUS || s[0] == MINUS then
      var sign' := if s[0] == MINUS then -1 else 1;
      if Trim(term) == [] then EvalFrom(s[1..], total, sign', term)
      else
        var value :- ParseTerm(Trim(term));
        EvalFrom(s[1..], Wrap64(total + sign * value), sign', [])
    else EvalFrom(s[1..], total, sign, term + [s[0]])
  }

  // The sum, as the 32 low bits of a 64-bit total.
  function Eval(expr: seq<byte>): Option<u32> {
    var total :- EvalFrom(expr + [PLUS], 0, 1, []);
    Some(total % 0x1_0000_0000)
  }

  method EvalExpr(expr: seq<byte>) returns (r: Option<u32>)
    ensures r == Eval(expr)
  {
    var total, sign := 0, 1;
    var term: seq<byte> := [];
    var chars := expr + [PLUS];
    assert chars[0..] == chars;
    for n := 0 to |chars|
      invariant EvalFrom(chars[n..], total, sign, term) == EvalFrom(chars, 0, 1, [])
    {
      var ch := chars[n];
      assert chars[n..][1..] == chars[n + 1..];
      if ch == PLUS || ch == MINUS {
        var trimmed := Trim(term);
        if trimmed != [] {
          var value := ParseTerm(trimmed);
          if value.None? {
            return None;
          }
          total := Wrap64(total + sign * value.value);
          term := [];
        }
        sign := if ch == MINUS then -1 else 1;
      } else {
        term := term + [ch];
      }
    }
    assert chars[|chars|..] == [];
    r := Some(total % 0x1_0000_0000);
  }

  // ----- Printed sums -----

  // A signed term with the blanks around it.
  datatype Term = Term(negative: bool, before: seq<byte>, text: seq<byte>, after: seq<byte>)

  predicate NoSign(s: seq<byte>) { PLUS !in s && MINUS !in s }

  predicate IsTerm(t: Term) {
    AllBlank(t.before) && AllBlank(t.after) && IsTight(t.text) && NoSign(t.text) && ParseTerm(t.text).Some?
  }

  function Value(t: Term): int
    requires IsTerm(t)
  {
    if t.negative then -ParseTerm(t.text).value else ParseTerm(t.text).value
  }

  function Padded(t: Term): seq<byte> { t.before + t.text + t.after }

  function SignOf(t: Term): byte { if t.negative then MINUS else PLUS }

  // Each term behind its sign.
  function ListText(terms: seq<Term>): seq<byte> {
    if terms == [] then [] else [SignOf(terms[0])] + (Padded(terms[0]) + ListText(terms[1..]))
  }

  predicate AllTerms(terms: seq<Term>) { forall k :: 0 <= k < |terms| ==> IsTerm(terms[k]) }

  function Sum(terms: seq<Term>): int
    requires AllTerms(terms)
  {
    if terms == [] then 0 else Value(terms[0]) + Sum(terms[1..])
  }

  // Text without a sign is collected.
  lemma {:induction false} Collects(t: seq<byte>, s: seq<byte>, total: int, sign: int, term: seq<byte>)
    requires NoSign(t)
    ensures EvalFrom(t + s, total, sign, term) == EvalFrom(s, total, sign, term + t)
    decreases |t|
  {
    if t == [] {
      assert t + s == s && term + t == term;
    } else {
      assert (t + s)[1..] == t[1..] + s;
      Collects(t[1..], s, total, sign, term + [t[0]]);
      assert term + [t[0]] + t[1..] == term + t;
    }
  }

  lemma PaddedHasNoSign(t: Term)
    requires IsTerm(t)
    ensures NoSign(Padded(t)) && Trim(Padded(t)) == t.text
  {
    hide ParseTerm;
    TrimPadded(t.before, t.text, t.after);
  }

  // One term, and then a sign: the term is added.
  lemma AddsTerm(t: Term, s: seq<byte>, total: int)
    requires IsTerm(t) && s != [] && (s[0] == PLUS || s[0] == MINUS)
    ensures EvalFrom(Padded(t) + s, total, if t.negative then -1 else 1, []) ==
            EvalFrom(s[1..], Wrap64(total + Value(t)), if s[0] == MINUS then -1 else 1, [])
  {
    hide ParseTerm, Trim, Padded;
    PaddedHasNoSign(t);
    Collects(Padded(t), s, total, if t.negative then -1 else 1, []);
    assert [] + Padded(t) == Padded(t);
  }

  lemma {:induction false} AddsTerms(t: Term, rest: seq<Term>, total: int)
    requires IsTerm(t) && AllTerms(rest)
    ensures EvalFrom(Padded(t) + (ListText(rest) + [PLUS]), total, if t.negative then -1 else 1, []) ==
            Some(Wrap64(total + Value(t) + Sum(rest)))
    decreases |rest|
  {
    hide IsTerm, Padded, Wrap64, EvalFrom;
    var s := ListText(rest) + [PLUS];
    if rest == [] {
      assert s == [PLUS] && s[1..] == [];
      AddsTerm(t, s, total);
      EvalNothing(Wrap64(total + Value(t)));
    } else {
      var next, more := rest[0], rest[1..];
      assert s == [SignOf(next)] + (Padded(next) + (ListText(more) + [PLUS]));
      AddsTerm(t, s, total);
      assert s[1..] == Padded(next) + (ListText(more) + [PLUS]);
      AddsTerms(next, more, Wrap64(total + Value(t)));
      WrapAdd(total + Value(t), Value(next) + Sum(more));
    }
  }

  lemma EvalNothing(total: int)
    ensures forall sign :: EvalFrom([], total, sign, []) == Some(total)
  {
  }

  // A printed list of terms, the first with or without a plus sign, evaluates to
  // its sum, taken to 32 bits, whatever overflows on the way.
  lemma EvalPrinted(first: Term, rest: seq<Term>)
    requires IsTerm(first) && AllTerms(rest)
    ensures var sum := (Value(first) + Sum(rest)) % 0x1_0000_0000;
            Eval(ListText([first] + rest)) == Some(sum) &&
            (!first.negative ==> Eval(Padded(first) + ListText(rest)) == Some(sum))
  {
    hide IsTerm, Padded, Wrap64;
    WrapLow32(Value(first) + Sum(rest));
    assert ([first] + rest)[1..] == rest;
    AddsTerms(first, rest, 0);
    var body := Padded(first) + (ListText(rest) + [PLUS]);
    assert ListText([first] + rest) + [PLUS] == [SignOf(first)] + body;
    LeadingSign(SignOf(first), body);
    assert (Padded(first) + ListText(rest)) + [PLUS] == body;
  }

  // Good terms are added up to the sign that follows them.
  lemma {:induction false} PassesTerms(terms: seq<Term>, tail: seq<byte>, total: int, sign: int) returns (total': int)
    requires AllTerms(terms) && tail != [] && (tail[0] == PLUS || tail[0] == MINUS)
    ensures EvalFrom(ListText(terms) + tail, total, sign, []) ==
            EvalFrom(tail[1..], total', if tail[0] == MINUS then -1 else 1, [])
    decreases |terms|
  {
    hide IsTerm, Padded, Wrap64;
    if terms == [] {
      total' := total;
      assert ListText(terms) + tail == tail;
    } else {
      var t, rest := terms[0], terms[1..];
      var s := ListText(rest) + tail;
      assert ListText(terms) + tail == [SignOf(t)] + (Padded(t) + s);
      assert ([SignOf(t)] + (Padded(t) + s))[1..] == Padded(t) + s;
      AddsTerm(t, s, total);
      total' := PassesTerms(rest, tail, Wrap64(total + Value(t)), 1);
      StartsAnew(s, Wrap64(total + Value(t)), 1);
    }
  }

  // At a sign with no term begun, the sign before it does not matter.
  lemma StartsAnew(s: seq<byte>, total: int, sign: int)
    requires s != [] && (s[0] == PLUS || s[0] == MINUS)
    ensures EvalFrom(s, total, sign, []) == EvalFrom(s[1..], total, if s[0] == MINUS then -1 else 1, [])
  {
  }

  // An expression with a term that does not read has no value, whatever stands
  // around it.
  lemma BadTermFails(before: seq<Term>, negative: bool, bad: seq<byte>, rest: seq<byte>)
    requires AllTerms(before) && NoSign(bad) && Trim(bad) != [] && ParseTerm(Trim(bad)) == None
    requires rest == [] || rest[0] == PLUS || rest[0] == MINUS
    ensures Eval(ListText(before) + ([if negative then MINUS else PLUS] + (bad + rest))) == None
  {
    hide IsTerm, Padded, Wrap64, ParseTerm, Trim, NoSign;
    var tail, s := [if negative then MINUS else PLUS] + (bad + (rest + [PLUS])), rest + [PLUS];
    assert (ListText(before) + ([if negative then MINUS else PLUS] + (bad + rest))) + [PLUS] == ListText(before) + tail;
    var total := PassesTerms(before, tail, 0, 1);
    assert tail[1..] == bad + s;
    Collects(bad, s, total, if tail[0] == MINUS then -1 else 1, []);
    assert [] + bad == bad;
  }

  // Hexadecimal digits, and nothing else, have a value.
  lemma {:induction false} HexValueIff(s: seq<byte>)
    ensures HexValue(s).Some? <==> forall k :: 0 <= k < |s| ==> IsHexDigit(s[k])
  {
    if s == [] {
    } else {
      HexValueIff(s[..|s| - 1]);
      NibbleCase(s[|s| - 1]);
    }
  }

  lemma LeadingSign(sign: byte, s: seq<byte>)
    requires sign == PLUS || sign == MINUS
    ensures EvalFrom([sign] + s, 0, 1, []) == EvalFrom(s, 0, if sign == MINUS then -1 else 1, [])
  {
    assert ([sign] + s)[1..] == s;
  }

  // ----- Printed terms -----

  // Digits read as they are, or scaled by the letter behind them.
  lemma ScaledTerm(digits: seq<byte>, b: byte)
    requires IsTight(digits) && NoSign(digits) && ScaleOf(digits[|digits| - 1]) == Unit && DigitsValue(digits).Some?
    ensures var v := DigitsValue(digits).value;
            ParseTerm(digits) == Some(Wrap64(v)) && IsTight(digits + [b]) == !IsBlank(b) &&
            (OneOf(b, "Kk") ==> ParseTerm(digits + [b]) == Some(Wrap64(v * 1024)) && NoSign(digits + [b])) &&
            (OneOf(b, "Mm") ==> ParseTerm(digits + [b]) == Some(Wrap64(v * 1048576)) && NoSign(digits + [b]))
  {
    hide HexValue, ParseHex, ParseDecimal, Trim, Wrap64, DigitsValue;
    var text := digits + [b];
    assert text[..|text| - 1] == digits;
    Letters(b);
  }

  lemma Letters(b: byte)
    ensures OneOf(b, "Kk") <==> ScaleOf(b) == Kilo
    ensures OneOf(b, "Mm") <==> ScaleOf(b) == Mega
    ensures ScaleOf(b) != Unit ==> !IsBlank(b) && b != PLUS && b != MINUS
    ensures IsBlank(b) <==> b == SPACE || 9 <= b <= 13
  {
    var kilo, mega := "Kk", "Mm";
    assert kilo[0] == 'K' && kilo[1] == 'k' && mega[0] == 'M' && mega[1] == 'm';
  }

  // The text of the digits alone is a term of value `v`, and with a letter behind it
  // one of `v` times 1024 or 1048576.
  predicate ReadsScaled(digits: seq<byte>, v: nat) {
    && IsTight(digits) && NoSign(digits) && ParseTerm(digits) == Some(Wrap64(v))
    && (forall b: byte :: OneOf(b, "Kk") ==>
          IsTight(digits + [b]) && NoSign(digits + [b]) && ParseTerm(digits + [b]) == Some(Wrap64(v * 1024)))
    && (forall b: byte :: OneOf(b, "Mm") ==>
          IsTight(digits + [b]) && NoSign(digits + [b]) && ParseTerm(digits + [b]) == Some(Wrap64(v * 1048576)))
  }

  lemma DigitsReadScaled(digits: seq<byte>, v: nat)
    requires IsTight(digits) && NoSign(digits) && ScaleOf(digits[|digits| - 1]) == Unit && DigitsValue(digits) == Some(v)
    ensures ReadsScaled(digits, v)
  {
    hide IsTight, NoSign, ParseTerm, DigitsValue, OneOf, Wrap64;
    ScaledTerm(digits, 0);
    forall b: byte | OneOf(b, "Kk") || OneOf(b, "Mm") ensures !IsBlank(b) {
      Letters(b);
    }
    forall b: byte
      ensures OneOf(b, "Kk") ==> ParseTerm(digits + [b]) == Some(Wrap64(v * 1024)) && NoSign(digits + [b])
      ensures OneOf(b, "Mm") ==> ParseTerm(digits + [b]) == Some(Wrap64(v * 1048576)) && NoSign(digits + [b])
      ensures IsTight(digits + [b]) == !IsBlank(b)
    {
      ScaledTerm(digits, b);
    }
  }

  // A decimal number reads as itself, scaled by its letter.
  lemma DecimalTerm(n: nat)
    requires n <= I64_MAX
    ensures ReadsScaled(Decimal(n), n)
  {
    hide DecimalValue, Decimal, Trim, Wrap64, ParseTerm, ReadsScaled;
    var digits := Decimal(n);
    DecimalValueOfDecimal(n);
    TrimPadded([], digits, []);
    assert [] + digits + [] == digits;
    assert AllDigits(digits);
    DigitsReadScaled(digits, n);
  }

  function Hex(n: nat): (s: seq<byte>)
    ensures s != [] && forall k :: 0 <= k < |s| ==> IsDigit(s[k]) || 0x61 <= s[k] <= 0x66
  {
    if n < 16 then [HexDigit(n)] else Hex(n / 16) + [HexDigit(n % 16)]
  }

  lemma {:induction false} HexValueOfHex(n: nat)
    ensures HexValue(Hex(n)) == Some(n)
  {
    if n < 16 {
      assert Hex(n)[..0] == [];
    } else {
      HexValueOfHex(n / 16);
      assert Hex(n)[..|Hex(n)| - 1] == Hex(n / 16);
    }
  }

  lemma HexIsTight(n: nat)
    ensures var s := Hex(n); IsTight(s) && NoSign(s) && ScaleOf(s[|s| - 1]) == Unit
  {
    hide Hex;
    var s := Hex(n);
    assert IsDigit(s[0]) || 0x61 <= s[0] <= 0x66;
    assert IsDigit(s[|s| - 1]) || 0x61 <= s[|s| - 1] <= 0x66;
  }

  // So does a hexadecimal number behind `0x` or `0X`.
  lemma HexTerm(n: nat, x: byte)
    requires n <= I64_MAX && OneOf(x, "xX")
    ensures ReadsScaled([0x30, x] + Hex(n), n)
  {
    hide HexValue, Hex, Trim, Wrap64, ParseTerm, ParseDecimal, ReadsScaled, OneOf;
    HexMarks(x);
    var digits := [0x30, x] + Hex(n);
    HexValueOfHex(n);
    HexIsTight(n);
    TrimPadded([], Hex(n), []);
    assert [] + Hex(n) + [] == Hex(n);
    assert digits[2..] == Hex(n) && digits[|digits| - 1] == Hex(n)[|Hex(n)| - 1];
    DigitsReadScaled(digits, n);
  }

  lemma HexMarks(x: byte)
    ensures OneOf(x, "xX") <==> x == 0x78 || x == 0x58
  {
    var marks := "xX";
    assert marks[0] == 'x' && marks[1] == 'X';
  }

  // The case of hexadecimal digits does not matter.
  lemma NibbleCase(b: byte)
    ensures 'A' as int <= b <= 'F' as int ==> Nibble(b) == Nibble(b - 'A' as int + 'a' as int) && Nibble(b).Some?
    ensures Nibble(b).Some? <==> IsHexDigit(b)
  {
  }
}
