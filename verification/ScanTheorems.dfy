// The scanner's functions against the grammar: what they accept is derivable
// (soundness), and every derivation is found (completeness).

module ScanTheorems {
  import opened Prelude
  import opened JsonGrammar
  import opened ScanSpec

  // ----- Text at a position, production by production -----

  predicate ByteAt(s: seq<byte>, i: nat, x: byte) { i < |s| && s[i] == x }

  // The length of a tree's text, and that its text stands in `s` at `i`: the
  // same as `At(s, i, Text(v))`, but stated position by position.
  function OptLength(o: Option<seq<byte>>): nat { if o.Some? then 1 + |o.value| else 0 }

  function ExpLength(e: Option<Exponent>): nat {
    if e.Some? then 1 + |SignText(e.value.sign)| + |e.value.digits| else 0
  }

  function NumberLength(n: Number): nat {
    |MinusText(n.minus)| + |n.whole| + OptLength(n.frac) + ExpLength(n.exp)
  }

  function Length(v: Json): (n: nat)
  {
    match v
    case Str(body) => |body| + 2
    case Num(n) => NumberLength(n)
    case Lit(l) => |LiteralText(l)|
    case EmptyObj(pad) => |pad| + 2
    case Obj(pad, ms) => 1 + |pad| + MembersLength(ms)
    case EmptyArr(pad) => |pad| + 2
    case Arr(pad, xs) => 1 + |pad| + ItemsLength(xs)
  }

  function MemberLength(m: Member): nat {
    |m.key| + 2 + |m.w0| + 1 + |m.w1| + Length(m.value) + |m.w2|
  }

  function MembersLength(ms: Members): nat {
    match ms
    case LastMember(m) => MemberLength(m) + 1
    case MoreMembers(m, gap, rest) => MemberLength(m) + 1 + |gap| + MembersLength(rest)
  }

  function ItemsLength(xs: Items): nat {
    match xs
    case LastItem(v, w) => Length(v) + |w| + 1
    case MoreItems(v, w, gap, rest) => Length(v) + |w| + 1 + |gap| + ItemsLength(rest)
  }

  predicate StringAt(s: seq<byte>, i: nat, body: seq<byte>) {
    ByteAt(s, i, QUOTE) && At(s, i + 1, body) && ByteAt(s, i + 1 + |body|, QUOTE)
  }

  predicate FracAt(s: seq<byte>, i: nat, f: Option<seq<byte>>) {
    i <= |s| && (f.Some? ==> ByteAt(s, i, DOT) && At(s, i + 1, f.value))
  }

  predicate ExpAt(s: seq<byte>, i: nat, e: Option<Exponent>) {
    i <= |s| &&
    (e.Some? ==> ByteAt(s, i, e.value.mark) && At(s, i + 1, SignText(e.value.sign)) &&
                 At(s, i + 1 + |SignText(e.value.sign)|, e.value.digits))
  }

  predicate NumberAt(s: seq<byte>, i: nat, n: Number) {
    var i0 := i + |MinusText(n.minus)|;
    var i1 := i0 + |n.whole|;
    At(s, i, MinusText(n.minus)) && At(s, i0, n.whole) && FracAt(s, i1, n.frac) &&
    ExpAt(s, i1 + OptLength(n.frac), n.exp)
  }

  predicate ValueAt(s: seq<byte>, i: nat, v: Json)
    decreases v
  {
    match v
    case Str(body) => StringAt(s, i, body)
    case Num(n) => NumberAt(s, i, n)
    case Lit(l) => At(s, i, LiteralText(l))
    case EmptyObj(pad) => ByteAt(s, i, LBRACE) && At(s, i + 1, pad) && ByteAt(s, i + 1 + |pad|, RBRACE)
    case Obj(pad, ms) => ByteAt(s, i, LBRACE) && At(s, i + 1, pad) && MembersAt(s, i + 1 + |pad|, ms)
    case EmptyArr(pad) => ByteAt(s, i, LBRACKET) && At(s, i + 1, pad) && ByteAt(s, i + 1 + |pad|, RBRACKET)
    case Arr(pad, xs) => ByteAt(s, i, LBRACKET) && At(s, i + 1, pad) && ItemsAt(s, i + 1 + |pad|, xs)
  }

  predicate MemberAt(s: seq<byte>, i: nat, m: Member)
    decreases m
  {
    var j := i + |m.key| + 2;
    var k := j + |m.w0| + 1 + |m.w1|;
    StringAt(s, i, m.key) && At(s, j, m.w0) && ByteAt(s, j + |m.w0|, COLON) &&
    At(s, j + |m.w0| + 1, m.w1) && ValueAt(s, k, m.value) && At(s, k + Length(m.value), m.w2)
  }

  predicate MembersAt(s: seq<byte>, i: nat, ms: Members)
    decreases ms
  {
    var e := i + MemberLength(ms.m);
    MemberAt(s, i, ms.m) &&
    match ms
    case LastMember(_) => ByteAt(s, e, RBRACE)
    case MoreMembers(_, gap, rest) =>
      ByteAt(s, e, COMMA) && At(s, e + 1, gap) && MembersAt(s, e + 1 + |gap|, rest)
  }

  predicate ItemsAt(s: seq<byte>, i: nat, xs: Items)
    decreases xs
  {
    var e := i + Length(xs.value);
    var j := e + |xs.w|;
    ValueAt(s, i, xs.value) && At(s, e, xs.w) &&
    match xs
    case LastItem(_, _) => ByteAt(s, j, RBRACKET)
    case MoreItems(_, _, gap, rest) =>
      ByteAt(s, j, COMMA) && At(s, j + 1, gap) && ItemsAt(s, j + 1 + |gap|, rest)
  }

  lemma AtCons(s: seq<byte>, i: nat, x: byte, t: seq<byte>)
    ensures At(s, i, [x] + t) <==> ByteAt(s, i, x) && At(s, i + 1, t)
  {
    AtConcat(s, i, [x], t);
  }

  lemma AtSnoc(s: seq<byte>, i: nat, t: seq<byte>, x: byte)
    ensures At(s, i, t + [x]) <==> At(s, i, t) && ByteAt(s, i + |t|, x)
  {
    AtConcat(s, i, t, [x]);
  }

  lemma AtGap(s: seq<byte>, i: nat, x: byte, gap: seq<byte>, t: seq<byte>)
    ensures At(s, i, [x] + (gap + t)) <==>
            ByteAt(s, i, x) && At(s, i + 1, gap) && At(s, i + 1 + |gap|, t)
  {
    AtCons(s, i, x, gap + t);
    AtConcat(s, i + 1, gap, t);
  }

  lemma StringSpells(s: seq<byte>, i: nat, body: seq<byte>)
    ensures StringAt(s, i, body) <==> At(s, i, StringText(body))
  {
    AtCons(s, i, QUOTE, body + [QUOTE]);
    AtSnoc(s, i + 1, body, QUOTE);
  }

  lemma FracSpells(s: seq<byte>, i: nat, f: Option<seq<byte>>)
    ensures FracAt(s, i, f) <==> At(s, i, FracText(f))
    ensures OptLength(f) == |FracText(f)|
  {
    if f.Some? {
      AtCons(s, i, DOT, f.value);
    }
  }

  lemma ExpSpells(s: seq<byte>, i: nat, e: Option<Exponent>)
    ensures ExpAt(s, i, e) <==> At(s, i, ExpText(e))
    ensures ExpLength(e) == |ExpText(e)|
  {
    if e.Some? {
      AtGap(s, i, e.value.mark, SignText(e.value.sign), e.value.digits);
    }
  }

  lemma NumberSpells(s: seq<byte>, i: nat, n: Number)
    ensures NumberAt(s, i, n) <==> At(s, i, NumberText(n))
    ensures NumberLength(n) == |NumberText(n)|
  {
    hide At, FracAt, ExpAt, FracText, ExpText, OptLength, ExpLength;
    var i0 := i + |MinusText(n.minus)|;
    var i1 := i0 + |n.whole|;
    FracSpells(s, i1, n.frac);
    ExpSpells(s, i1 + OptLength(n.frac), n.exp);
    AtConcat(s, i, MinusText(n.minus), n.whole + (FracText(n.frac) + ExpText(n.exp)));
    AtConcat(s, i0, n.whole, FracText(n.frac) + ExpText(n.exp));
    AtConcat(s, i1, FracText(n.frac), ExpText(n.exp));
  }

  lemma {:induction false} ValueSpells(s: seq<byte>, i: nat, v: Json)
    ensures ValueAt(s, i, v) <==> At(s, i, Text(v))
    ensures Length(v) == |Text(v)|
    decreases v
  {
    hide At, ByteAt, StringAt, NumberAt, LiteralText, NumberText, NumberLength;
    match v
    case Str(body) => StringSpells(s, i, body);
    case Num(n) => NumberSpells(s, i, n);
    case Lit(l) =>
    case EmptyObj(pad) => AtCons(s, i, LBRACE, pad + [RBRACE]); AtSnoc(s, i + 1, pad, RBRACE);
    case EmptyArr(pad) => AtCons(s, i, LBRACKET, pad + [RBRACKET]); AtSnoc(s, i + 1, pad, RBRACKET);
    case Obj(pad, ms) =>
      MembersSpell(s, i + 1 + |pad|, ms);
      AtGap(s, i, LBRACE, pad, MembersText(ms));
    case Arr(pad, xs) =>
      ItemsSpell(s, i + 1 + |pad|, xs);
      AtGap(s, i, LBRACKET, pad, ItemsText(xs));
  }

  lemma {:induction false} MemberSpells(s: seq<byte>, i: nat, m: Member)
    ensures MemberAt(s, i, m) <==> At(s, i, MemberText(m))
    ensures MemberLength(m) == |MemberText(m)|
    decreases m
  {
    hide At, ByteAt, StringAt, ValueAt, Length, Text;
    var j := i + |m.key| + 2;
    var k := j + |m.w0| + 1 + |m.w1|;
    StringSpells(s, i, m.key);
    ValueSpells(s, k, m.value);
    AtConcat(s, i, StringText(m.key), m.w0 + ([COLON] + (m.w1 + (Text(m.value) + m.w2))));
    AtConcat(s, j, m.w0, [COLON] + (m.w1 + (Text(m.value) + m.w2)));
    AtGap(s, j + |m.w0|, COLON, m.w1, Text(m.value) + m.w2);
    AtConcat(s, k, Text(m.value), m.w2);
  }

  lemma {:induction false} MembersSpell(s: seq<byte>, i: nat, ms: Members)
    ensures MembersAt(s, i, ms) <==> At(s, i, MembersText(ms))
    ensures MembersLength(ms) == |MembersText(ms)|
    decreases ms
  {
    hide At, ByteAt, MemberAt, MemberLength, MemberText;
    var e := i + MemberLength(ms.m);
    MemberSpells(s, i, ms.m);
    match ms
    case LastMember(m) => AtSnoc(s, i, MemberText(m), RBRACE);
    case MoreMembers(m, gap, rest) =>
      MembersSpell(s, e + 1 + |gap|, rest);
      AtConcat(s, i, MemberText(m), [COMMA] + (gap + MembersText(rest)));
      AtGap(s, e, COMMA, gap, MembersText(rest));
  }

  lemma {:induction false} ItemsSpell(s: seq<byte>, i: nat, xs: Items)
    ensures ItemsAt(s, i, xs) <==> At(s, i, ItemsText(xs))
    ensures ItemsLength(xs) == |ItemsText(xs)|
    decreases xs
  {
    hide At, ByteAt, ValueAt, Length, Text;
    var e := i + Length(xs.value);
    var j := e + |xs.w|;
    ValueSpells(s, i, xs.value);
    match xs
    case LastItem(v, w) =>
      AtConcat(s, i, Text(v), w + [RBRACKET]);
      AtSnoc(s, e, w, RBRACKET);
    case MoreItems(v, w, gap, rest) =>
      ItemsSpell(s, j + 1 + |gap|, rest);
      AtConcat(s, i, Text(v), w + ([COMMA] + (gap + ItemsText(rest))));
      AtConcat(s, e, w, [COMMA] + (gap + ItemsText(rest)));
      AtGap(s, j, COMMA, gap, ItemsText(rest));
  }

  // ----- Soundness -----

  lemma {:induction false} SoundBody(s: seq<byte>, i: nat)
    requires i <= |s| && BodyEnd(s, i).Some?
    ensures Chars(s[i..BodyEnd(s, i).value])
    decreases |s| - i
  {
    var e := BodyEnd(s, i).value;
    var t := s[i..e];
    if s[i] == QUOTE {
    } else if s[i] == BACKSLASH && IsSimpleEscape(s[i + 1]) {
      SoundBody(s, i + 2);
      assert t[2..] == s[i + 2..e];
    } else if s[i] == BACKSLASH {
      SoundBody(s, i + 6);
      assert t[6..] == s[i + 6..e];
    } else {
      SoundBody(s, i + 1);
      assert t[1..] == s[i + 1..e];
    }
  }

  lemma SoundString(s: seq<byte>, i: nat)
    requires i < |s| && s[i] == QUOTE && ParseString(s, i).Some?
    ensures var (body, e) := ParseString(s, i).value;
            StringBody(body) && StringAt(s, i, body) && e == i + |body| + 2
  {
    SoundBody(s, i + 1);
  }

  lemma SoundLiteral(s: seq<byte>, i: nat)
    requires i <= |s| && ParseLiteral(s, i).Some?
    ensures var (l, e) := ParseLiteral(s, i).value;
            At(s, i, LiteralText(l)) && e == i + |LiteralText(l)|
  {
  }

  lemma SoundFrac(s: seq<byte>, i: nat)
    requires i <= |s| && ParseFrac(s, i).Some?
    ensures var (f, e) := ParseFrac(s, i).value;
            (f.Some? ==> Digits(f.value)) && FracAt(s, i, f) && e == i + OptLength(f)
  {
  }

  lemma SoundExp(s: seq<byte>, i: nat)
    requires i <= |s| && ParseExp(s, i).Some?
    ensures var (x, e) := ParseExp(s, i).value;
            WfExp(x) && ExpAt(s, i, x) && e == i + ExpLength(x)
  {
  }

  lemma SoundNumber(s: seq<byte>, i: nat)
    requires i <= |s| && ParseNumber(s, i).Some?
    ensures var (n, e) := ParseNumber(s, i).value;
            WfNumber(n) && NumberAt(s, i, n) && e == i + NumberLength(n)
  {
    hide ParseFrac, ParseExp, FracAt, ExpAt, WfExp, OptLength, ExpLength, SkipDigits;
    var (n, e) := ParseNumber(s, i).value;
    var i1 := i + |MinusText(n.minus)| + |n.whole|;
    SoundFrac(s, i1);
    SoundExp(s, ParseFrac(s, i1).value.1);
  }

  lemma {:induction false} SoundValue(s: seq<byte>, i: nat)
    requires i <= |s| && ParseValue(s, i).Some?
    ensures var (v, e) := ParseValue(s, i).value;
            Wf(v) && ValueAt(s, i, v) && e == i + Length(v)
    decreases |s| - i, 0
  {
    hide ParseMembers, ParseItems, ParseString, ParseNumber, ParseLiteral, SkipWs, StringAt, NumberAt,
      NumberLength, MembersAt, ItemsAt, MembersLength, ItemsLength, LiteralText, StringBody, WfNumber, WfMembers, WfItems, Ws;
    match ParseValue(s, i).value.0
    case Str(_) => SoundString(s, i);
    case Num(_) => SoundNumber(s, i);
    case Lit(_) => SoundLiteral(s, i);
    case EmptyObj(pad) =>
    case EmptyArr(pad) =>
    case Obj(pad, ms) => SoundMembers(s, SkipWs(s, i + 1));
    case Arr(pad, xs) => SoundItems(s, SkipWs(s, i + 1));
  }

  lemma {:induction false} SoundMember(s: seq<byte>, i: nat)
    requires i <= |s| && ParseMember(s, i).Some?
    ensures var (m, e) := ParseMember(s, i).value;
            WfMember(m) && MemberAt(s, i, m) && e == i + MemberLength(m)
    decreases |s| - i, 0
  {
    hide ParseValue, ParseString, SkipWs, ValueAt, StringAt, Length, Wf, StringBody, Ws;
    var e0 := ParseString(s, i).value.1;
    SoundString(s, i);
    SoundValue(s, SkipWs(s, SkipWs(s, e0) + 1));
  }

  lemma {:induction false} SoundMembers(s: seq<byte>, i: nat)
    requires i <= |s| && ParseMembers(s, i).Some?
    ensures var (ms, e) := ParseMembers(s, i).value;
            WfMembers(ms) && MembersAt(s, i, ms) && e == i + MembersLength(ms)
    decreases |s| - i, 1
  {
    hide ParseMember, SkipWs, MemberAt, MemberLength, WfMember, Ws;
    var (m, e) := ParseMember(s, i).value;
    SoundMember(s, i);
    if s[e] == RBRACE {
    } else {
      SoundMembers(s, SkipWs(s, e + 1));
    }
  }

  lemma {:induction false} SoundItems(s: seq<byte>, i: nat)
    requires i <= |s| && ParseItems(s, i).Some?
    ensures var (xs, e) := ParseItems(s, i).value;
            WfItems(xs) && ItemsAt(s, i, xs) && e == i + ItemsLength(xs)
    decreases |s| - i, 1
  {
    hide ParseValue, SkipWs, ValueAt, Length, Wf, Ws;
    var (v, e) := ParseValue(s, i).value;
    var j := SkipWs(s, e);
    SoundValue(s, i);
    if s[j] == RBRACKET {
    } else {
      SoundItems(s, SkipWs(s, j + 1));
    }
  }

  // ----- Completeness -----

  lemma {:induction false} SkipWsFinds(s: seq<byte>, i: nat, w: seq<byte>)
    requires At(s, i, w) && Ws(w)
    requires i + |w| < |s| ==> !IsWs(s[i + |w|])
    ensures SkipWs(s, i) == i + |w| <= |s| && s[i..i + |w|] == w
    decreases |w|
  {
    if w == [] {
    } else {
      AtSplit(s, i, w, 1);
      SkipWsFinds(s, i + 1, w[1..]);
    }
  }

  lemma {:induction false} SkipDigitsFinds(s: seq<byte>, i: nat, d: seq<byte>)
    requires At(s, i, d) && AllDigits(d)
    requires i + |d| < |s| ==> !IsDigit(s[i + |d|])
    ensures SkipDigits(s, i) == i + |d|
    decreases |d|
  {
    if d == [] {
    } else {
      AtSplit(s, i, d, 1);
      SkipDigitsFinds(s, i + 1, d[1..]);
    }
  }

  lemma {:induction false} BodyEndFinds(s: seq<byte>, i: nat, t: seq<byte>)
    requires At(s, i, t) && Chars(t) && ByteAt(s, i + |t|, QUOTE)
    ensures BodyEnd(s, i) == Some(i + |t|)
    decreases |t|
  {
    if t == [] {
    } else {
      var n := if t[0] != BACKSLASH then 1 else if IsSimpleEscape(t[1]) then 2 else 6;
      AtSplit(s, i, t, n);
      BodyEndFinds(s, i + n, t[n..]);
      if n == 6 {
        assert forall k :: i + 2 <= k < i + 6 ==> s[k] == t[k - i];
      }
    }
  }

  lemma CompleteString(s: seq<byte>, i: nat, body: seq<byte>)
    requires StringBody(body) && StringAt(s, i, body)
    ensures i < |s| && s[i] == QUOTE && ParseString(s, i) == Some((body, i + |body| + 2))
  {
    BodyEndFinds(s, i + 1, body);
  }

  // The byte behind a number does not continue it.
  predicate NumberStops(s: seq<byte>, e: nat, n: Number) {
    e < |s| ==>
      && !IsDigit(s[e])
      && (n.exp.None? ==> !IsExponentMark(s[e]))
      && (n.exp.None? && n.frac.None? ==> s[e] != DOT)
  }

  // Nothing behind the value's text would be read as part of it.
  predicate Stops(s: seq<byte>, e: nat, v: Json) { v.Num? ==> NumberStops(s, e, v.number) }

  lemma CompleteDigits(s: seq<byte>, i: nat, d: seq<byte>)
    requires At(s, i, d) && Digits(d) && (i + |d| < |s| ==> !IsDigit(s[i + |d|]))
    ensures ParseDigits(s, i) == Some((d, i + |d|)) && s[i] == d[0]
  {
    SkipDigitsFinds(s, i, d);
    AtSplit(s, i, d, 1);
  }

  lemma CompleteExp(s: seq<byte>, i: nat, n: Number)
    requires WfNumber(n) && ExpAt(s, i, n.exp) && NumberStops(s, i + ExpLength(n.exp), n)
    ensures ParseExp(s, i) == Some((n.exp, i + ExpLength(n.exp)))
  {
    hide ParseDigits, At;
    if n.exp.Some? {
      var x := n.exp.value;
      CompleteDigits(s, i + 1 + |SignText(x.sign)|, x.digits);
      AtSplit(s, i + 1, SignText(x.sign), 0);
      assert x.sign.Some? ==> s[i + 1 + 0] == SignText(x.sign)[0];
    }
  }

  lemma CompleteFrac(s: seq<byte>, i: nat, n: Number)
    requires WfNumber(n) && FracAt(s, i, n.frac) && ExpAt(s, i + OptLength(n.frac), n.exp)
    requires NumberStops(s, i + OptLength(n.frac) + ExpLength(n.exp), n)
    ensures ParseFrac(s, i) == Some((n.frac, i + OptLength(n.frac)))
  {
    hide ParseDigits;
    if n.frac.Some? {
      CompleteDigits(s, i + 1, n.frac.value);
    }
  }

  // No digit follows the integer part.
  lemma WholeEnds(s: seq<byte>, i: nat, n: Number)
    requires WfNumber(n) && FracAt(s, i, n.frac) && ExpAt(s, i + OptLength(n.frac), n.exp)
    requires NumberStops(s, i + OptLength(n.frac) + ExpLength(n.exp), n)
    ensures i < |s| ==> !IsDigit(s[i])
  {
  }

  lemma CompleteNumber(s: seq<byte>, i: nat, n: Number)
    requires WfNumber(n) && NumberAt(s, i, n) && NumberStops(s, i + NumberLength(n), n)
    ensures i < |s| && (s[i] == MINUS || IsDigit(s[i]))
    ensures ParseNumber(s, i) == Some((n, i + NumberLength(n)))
  {
    hide ParseFrac, ParseExp, ParseDigits, FracAt, ExpAt, OptLength, ExpLength, NumberStops;
    var i0 := i + |MinusText(n.minus)|;
    var i1 := i0 + |n.whole|;
    CompleteExp(s, i1 + OptLength(n.frac), n);
    CompleteFrac(s, i1, n);
    WholeEnds(s, i1, n);
    CompleteDigits(s, i0, n.whole);
    if n.minus {
      AtSplit(s, i, MinusText(true), 1);
    }
  }

  lemma CompleteLiteral(s: seq<byte>, i: nat, l: Literal)
    requires At(s, i, LiteralText(l))
    ensures s[i] == 0x74 || s[i] == 0x66 || s[i] == 0x6E
    ensures ParseLiteral(s, i) == Some((l, i + |LiteralText(l)|))
  {
    AtSplit(s, i, LiteralText(l), 1);
    forall m: Literal | At(s, i, LiteralText(m)) ensures s[i] == LiteralText(m)[0] {
      AtSplit(s, i, LiteralText(m), 1);
    }
  }

  // A value's text starts with a byte that is neither whitespace nor punctuation.
  lemma ValueStarts(s: seq<byte>, i: nat, v: Json)
    requires Wf(v) && ValueAt(s, i, v)
    ensures i < |s| && !IsWs(s[i]) && s[i] != RBRACE && s[i] != RBRACKET && s[i] != COMMA
  {
    match v
    case Num(n) =>
      AtSplit(s, i + |MinusText(n.minus)|, n.whole, 1);
      AtSplit(s, i, MinusText(n.minus), 0);
    case Lit(l) => CompleteLiteral(s, i, l);
    case _ =>
  }

  // Whitespace and then a comma or closer end any value.
  lemma StopsAt(s: seq<byte>, e: nat, w: seq<byte>, v: Json)
    requires At(s, e, w) && Ws(w)
    requires e + |w| < |s| ==> s[e + |w|] == COMMA || s[e + |w|] == RBRACE || s[e + |w|] == RBRACKET
    ensures Stops(s, e, v)
  {
    AtSplit(s, e, w, 0);
  }

  lemma {:induction false} CompleteValue(s: seq<byte>, i: nat, v: Json)
    requires Wf(v) && ValueAt(s, i, v) && Stops(s, i + Length(v), v)
    ensures i < |s| && ParseValue(s, i) == Some((v, i + Length(v)))
    decreases v, 0
  {
    hide ParseMembers, ParseItems, ParseString, ParseNumber, ParseLiteral, SkipWs, StringAt, NumberAt,
      NumberLength, NumberStops, LiteralText, Ws, At, MembersAt, ItemsAt, MembersLength, ItemsLength, StringBody, WfNumber, WfMembers, WfItems;
    match v
    case Str(body) => CompleteString(s, i, body);
    case Num(n) => CompleteNumber(s, i, n);
    case Lit(l) => CompleteLiteral(s, i, l);
    case EmptyObj(pad) => SkipWsFinds(s, i + 1, pad);
    case EmptyArr(pad) => SkipWsFinds(s, i + 1, pad);
    case Obj(pad, ms) =>
      CompleteMembers(s, i + 1 + |pad|, ms);
      SkipWsFinds(s, i + 1, pad);
    case Arr(pad, xs) =>
      CompleteItems(s, i + 1 + |pad|, xs);
      SkipWsFinds(s, i + 1, pad);
  }

  // Reads one member, up to the byte that stops it.
  lemma {:induction false} CompleteMember(s: seq<byte>, i: nat, m: Member)
    requires WfMember(m) && MemberAt(s, i, m)
    requires var e := i + MemberLength(m);
             (e < |s| ==> !IsWs(s[e])) && Stops(s, e - |m.w2|, m.value)
    ensures i < |s| && s[i] == QUOTE && ParseMember(s, i) == Some((m, i + MemberLength(m)))
    decreases m, 0
  {
    hide ParseValue, ParseString, SkipWs, ValueAt, StringAt, Length, Wf, StringBody, Stops, Ws, At;
    var j := i + |m.key| + 2;
    var k := j + |m.w0| + 1 + |m.w1|;
    CompleteString(s, i, m.key);
    SkipWsFinds(s, j, m.w0);
    ValueStarts(s, k, m.value);
    SkipWsFinds(s, j + |m.w0| + 1, m.w1);
    CompleteValue(s, k, m.value);
    SkipWsFinds(s, k + Length(m.value), m.w2);
  }

  // A member in front of a comma or closer is read whole.
  lemma {:induction false} CompleteListed(s: seq<byte>, i: nat, m: Member)
    requires WfMember(m) && MemberAt(s, i, m)
    requires ByteAt(s, i + MemberLength(m), COMMA) || ByteAt(s, i + MemberLength(m), RBRACE)
    ensures i < |s| && s[i] == QUOTE && ParseMember(s, i) == Some((m, i + MemberLength(m)))
    decreases m, 1
  {
    hide ParseMember, ValueAt, StringAt, Length, Wf, StringBody, Stops;
    StopsAt(s, i + MemberLength(m) - |m.w2|, m.w2, m.value);
    CompleteMember(s, i, m);
  }

  lemma {:induction false} CompleteMembers(s: seq<byte>, i: nat, ms: Members)
    requires WfMembers(ms) && MembersAt(s, i, ms)
    ensures i < |s| && s[i] == QUOTE && ParseMembers(s, i) == Some((ms, i + MembersLength(ms)))
    decreases ms
  {
    hide ParseMember, SkipWs, MemberAt, MemberLength, WfMember, At, Ws;
    var e := i + MemberLength(ms.m);
    CompleteListed(s, i, ms.m);
    if ms.LastMember? {
    } else {
      CompleteMembers(s, e + 1 + |ms.gap|, ms.rest);
      SkipWsFinds(s, e + 1, ms.gap);
    }
  }

  lemma LastItemRead(s: seq<byte>, i: nat, v: Json, w: seq<byte>)
    requires var e := i + Length(v);
             i <= |s| && ParseValue(s, i) == Some((v, e)) && SkipWs(s, e) == e + |w| && s[e..e + |w|] == w &&
             ByteAt(s, e + |w|, RBRACKET)
    ensures ParseItems(s, i) == Some((LastItem(v, w), i + Length(v) + |w| + 1))
  {
    hide ParseValue, SkipWs, Length;
  }

  // One step of the item loop: value up to `e`, comma at `j`, the rest from `k` to `end`.
  lemma MoreItemsRead(s: seq<byte>, i: nat, v: Json, e: nat, j: nat, rest: Items, k: nat, end: nat)
    requires i < e <= j < k <= |s| && ParseValue(s, i) == Some((v, e)) && SkipWs(s, e) == j && s[j] == COMMA
    requires SkipWs(s, j + 1) == k && ParseItems(s, k) == Some((rest, end))
    ensures ParseItems(s, i) == Some((MoreItems(v, s[e..j], s[j + 1..k], rest), end))
  {
    hide ParseValue, SkipWs, Ws, IsWs;
  }

  // An item in front of a comma or closer is read whole.
  lemma {:induction false} CompleteItem(s: seq<byte>, i: nat, v: Json, w: seq<byte>)
    requires Wf(v) && ValueAt(s, i, v) && At(s, i + Length(v), w) && Ws(w)
    requires ByteAt(s, i + Length(v) + |w|, COMMA) || ByteAt(s, i + Length(v) + |w|, RBRACKET)
    ensures i < |s| && s[i] != RBRACKET && !IsWs(s[i])
    ensures var e := i + Length(v);
            ParseValue(s, i) == Some((v, e)) && e <= |s| && SkipWs(s, e) == e + |w| && s[e..e + |w|] == w
    decreases v, 1
  {
    hide ParseValue, SkipWs, ValueAt, Length, Wf, Stops;
    var e := i + Length(v);
    StopsAt(s, e, w, v);
    ValueStarts(s, i, v);
    CompleteValue(s, i, v);
    SkipWsFinds(s, e, w);
  }

  lemma {:induction false} CompleteItems(s: seq<byte>, i: nat, xs: Items)
    requires WfItems(xs) && ItemsAt(s, i, xs)
    ensures i < |s| && s[i] != RBRACKET && !IsWs(s[i])
    ensures ParseItems(s, i) == Some((xs, i + ItemsLength(xs)))
    decreases xs
  {
    hide ParseValue, SkipWs, ValueAt, Length, Wf, At, Ws, ParseItems;
    var j := i + Length(xs.value) + |xs.w|;
    CompleteItem(s, i, xs.value, xs.w);
    match xs
    case LastItem(v, w) => LastItemRead(s, i, v, w);
    case MoreItems(v, w, gap, rest) =>
      CompleteItems(s, j + 1 + |gap|, rest);
      SkipWsFinds(s, j + 1, gap);
      MoreItemsRead(s, i, v, i + Length(v), j, rest, j + 1 + |gap|, i + ItemsLength(xs));
  }
}
