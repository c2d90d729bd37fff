// The bootloader's build-time memory-map reader: comment stripping, the sums of
// size terms, and the partition-table checks.

module MemoryMap {
  import opened Prelude

  const STAR: byte := 0x2A

  // ----- Comments -----

  datatype Mode = Code | Block | Line

  // What is left of `s` when the scan is in the given mode.
  function Strip(mode: Mode, s: seq<byte>): seq<byte>
    decreases |s|
  {
    if s == [] then []
    else
      match mode
      case Code =>
        if |s| >= 2 && s[0] == SLASH && s[1] == STAR then Strip(Block, s[2..])
        else if |s| >= 2 && s[0] == SLASH && s[1] == SLASH then Strip(Line, s[1..])
        else [s[0]] + Strip(Code, s[1..])
      case Block =>
        if |s| >= 2 && s[0] == STAR && s[1] == SLASH then Strip(Code, s[2..]) else Strip(Block, s[1..])
      case Line =>
        if s[0] == LF then [LF] + Strip(Code, s[1..]) else Strip(Line, s[1..])
  }

  // One step of the scan outside comments.
  lemma CodeStep(s: seq<byte>)
    requires s != []
    ensures Strip(Code, s) ==
            if |s| >= 2 && s[0] == SLASH && s[1] == STAR then Strip(Block, s[2..])
            else if |s| >= 2 && s[0] == SLASH && s[1] == SLASH then Strip(Line, s[1..])
            else [s[0]] + Strip(Code, s[1..])
  {
  }

  lemma StripNothing()
    ensures Strip(Code, []) == []
  {
  }

  method StripComments(text: seq<byte>) returns (out: seq<byte>)
    ensures out == Strip(Code, text)
  {
    hide Strip;
    out := [];
    var i := 0;
    StripNothing();
    assert text[0..] == text && [] + Strip(Code, text) == Strip(Code, text);
    while i < |text|
      invariant i <= |text| && out + Strip(Code, text[i..]) == Strip(Code, text)
    {
      var ch := text[i];
      ghost var rest := text[i..];
      CodeStep(rest);
      i := i + 1;
      if ch == SLASH && i < |text| && text[i] == STAR {
        i := i + 1;
        assert rest[2..] == text[i..];
        i := SkipBlock(text, i);
      } else if ch == SLASH && i < |text| && text[i] == SLASH {
        assert rest[1..] == text[i..];
        var newline;
        i, newline := SkipLine(text, i);
        if newline {
          out := out + [LF];
        }
      } else {
        assert rest[1..] == text[i..];
        out := out + [ch];
      }
    }
    assert text[i..] == [];
  }

  // Behind the end of the block comment that continues at `from`.
  method SkipBlock(text: seq<byte>, from: nat) returns (i: nat)
    requires from <= |text|
    ensures from <= i <= |text| && Strip(Code, text[i..]) == Strip(Block, text[from..])
  {
    i := from;
    while i < |text|
      invariant from <= i <= |text| && Strip(Block, text[i..]) == Strip(Block, text[from..])
    {
      var c := text[i];
      ghost var rest := text[i..];
      i := i + 1;
      if c == STAR && i < |text| && text[i] == SLASH {
        i := i + 1;
        assert rest[2..] == text[i..];
        return;
      }
      assert rest[1..] == text[i..];
    }
  }

  // Behind the line that continues at `from`, and whether a line feed ends it.
  method SkipLine(text: seq<byte>, from: nat) returns (i: nat, newline: bool)
    requires from <= |text|
    ensures from <= i <= |text|
    ensures (if newline then [LF] else []) + Strip(Code, text[i..]) == Strip(Line, text[from..])
  {
    i, newline := from, false;
    while i < |text|
      invariant from <= i <= |text| && Strip(Line, text[i..]) == Strip(Line, text[from..])
    {
      var c := text[i];
      ghost var rest := text[i..];
      i := i + 1;
      assert rest[1..] == text[i..];
      if c == LF {
        newline := true;
        return;
      }
    }
  }

  // No comment starts anywhere.
  predicate NoComment(s: seq<byte>) {
    forall k :: 0 <= k < |s| - 1 ==> s[k] == SLASH ==> s[k + 1] != SLASH && s[k + 1] != STAR
  }

  // Stripping leaves no comment; a slash it keeps at the start is the input's.
  lemma {:induction false} StrippedHasNoComment(mode: Mode, s: seq<byte>)
    ensures NoComment(Strip(mode, s))
    decreases |s|
  {
    if s == [] {
    } else {
      match mode
      case Code =>
        if |s| >= 2 && s[0] == SLASH && s[1] == STAR {
          StrippedHasNoComment(Block, s[2..]);
        } else if |s| >= 2 && s[0] == SLASH && s[1] == SLASH {
          StrippedHasNoComment(Line, s[1..]);
        } else {
          StrippedHasNoComment(Code, s[1..]);
          if s[0] == SLASH && |s| >= 2 {
            assert Strip(Code, s[1..]) == [s[1]] + Strip(Code, s[1..][1..]);
          }
        }
      case Block =>
        if |s| >= 2 && s[0] == STAR && s[1] == SLASH {
          StrippedHasNoComment(Code, s[2..]);
        } else {
          StrippedHasNoComment(Block, s[1..]);
        }
      case Line =>
        if s[0] == LF {
          StrippedHasNoComment(Code, s[1..]);
        } else {
          StrippedHasNoComment(Line, s[1..]);
        }
    }
  }

  lemma {:induction false} CodeIsKept(s: seq<byte>)
    requires NoComment(s)
    ensures Strip(Code, s) == s
  {
    if s == [] {
    } else {
      var rest := s[1..];
      forall k | 0 <= k < |rest| - 1 && rest[k] == SLASH ensures rest[k + 1] != SLASH && rest[k + 1] != STAR {
        assert s[k + 1] == SLASH;
      }
      CodeIsKept(rest);
    }
  }

  // A text is left alone exactly when it has no comment; so stripping twice is
  // stripping once.
  lemma StripIdempotent(s: seq<byte>)
    ensures Strip(Code, s) == s <==> NoComment(s)
    ensures Strip(Code, Strip(Code, s)) == Strip(Code, s)
  {
    StrippedHasNoComment(Code, s);
    CodeIsKept(Strip(Code, s));
    if NoComment(s) {
      CodeIsKept(s);
    }
  }

  const OPENER: seq<byte> := [SLASH, STAR]
  const CLOSER: seq<byte> := [STAR, SLASH]

  // No comment end stands in `c`: the one that follows it, if any, is the first.
  predicate ClosedBehind(c: seq<byte>) {
    forall k :: 0 <= k < |c| - 1 ==> c[k] == STAR ==> c[k + 1] != SLASH
  }

  lemma {:induction false} BlockEnds(c: seq<byte>, b: seq<byte>)
    requires ClosedBehind(c)
    ensures Strip(Block, c + (CLOSER + b)) == Strip(Code, b)
  {
    var s := c + (CLOSER + b);
    if c == [] {
      assert s == CLOSER + b && s[2..] == b;
    } else {
      assert s[1..] == c[1..] + (CLOSER + b);
      assert s[0] == STAR ==> s[1] != SLASH;
      assert ClosedBehind(c[1..]) by {
        assert forall k :: 0 <= k < |c[1..]| ==> c[1..][k] == c[k + 1];
      }
      BlockEnds(c[1..], b);
    }
  }

  lemma {:induction false} BlockNeverEnds(c: seq<byte>)
    requires ClosedBehind(c)
    ensures Strip(Block, c) == []
  {
    if c == [] {
    } else {
      assert ClosedBehind(c[1..]) by {
        assert forall k :: 0 <= k < |c[1..]| ==> c[1..][k] == c[k + 1];
      }
      BlockNeverEnds(c[1..]);
    }
  }

  lemma {:induction false} LineEnds(c: seq<byte>, b: seq<byte>)
    requires LF !in c
    ensures Strip(Line, c + ([LF] + b)) == [LF] + Strip(Code, b)
    ensures Strip(Line, c) == []
  {
    var s := c + ([LF] + b);
    if c == [] {
      assert s == [LF] + b && s[1..] == b;
    } else {
      assert s[1..] == c[1..] + ([LF] + b);
      LineEnds(c[1..], b);
    }
  }

  // Code in front of a comment is kept.
  lemma {:induction false} CodeBefore(a: seq<byte>, s: seq<byte>)
    requires NoComment(a) && (a == [] || a[|a| - 1] != SLASH)
    ensures Strip(Code, a + s) == a + Strip(Code, s)
  {
    hide Strip;
    if a == [] {
      assert a + s == s;
    } else {
      var rest := a[1..];
      assert (a + s)[1..] == rest + s;
      assert forall k :: 0 <= k < |rest| ==> rest[k] == a[k + 1];
      if |a| > 1 {
        assert a[0] == SLASH ==> a[1] != SLASH && a[1] != STAR;
      }
      CodeBefore(rest, s);
      CodeStep(a + s);
      assert [a[0]] + (rest + Strip(Code, s)) == a + Strip(Code, s);
    }
  }

  // A block comment goes, and the text around it stays.
  lemma BlockCommentGoes(a: seq<byte>, c: seq<byte>, b: seq<byte>)
    requires NoComment(a) && (a == [] || a[|a| - 1] != SLASH) && ClosedBehind(c)
    ensures Strip(Code, a + (OPENER + (c + (CLOSER + b)))) == a + Strip(Code, b)
  {
    hide Strip, NoComment, ClosedBehind;
    var s := OPENER + (c + (CLOSER + b));
    CodeBefore(a, s);
    CodeStep(s);
    assert s[2..] == c + (CLOSER + b);
    BlockEnds(c, b);
  }

  // A line comment goes, but for its line feed.
  lemma LineCommentGoes(a: seq<byte>, c: seq<byte>, b: seq<byte>)
    requires NoComment(a) && (a == [] || a[|a| - 1] != SLASH) && LF !in c
    ensures Strip(Code, a + ([SLASH, SLASH] + (c + ([LF] + b)))) == a + ([LF] + Strip(Code, b))
  {
    hide Strip, NoComment;
    var s := [SLASH, SLASH] + (c + ([LF] + b));
    CodeBefore(a, s);
    CodeStep(s);
    assert s[1..] == ([SLASH] + c) + ([LF] + b);
    LineEnds([SLASH] + c, b);
  }

  // A comment that does not end takes the rest of the text with it.
  lemma OpenCommentGoes(a: seq<byte>, c: seq<byte>)
    requires NoComment(a) && (a == [] || a[|a| - 1] != SLASH)
    ensures ClosedBehind(c) ==> Strip(Code, a + (OPENER + c)) == a
    ensures LF !in c ==> Strip(Code, a + ([SLASH, SLASH] + c)) == a
  {
    hide Strip, NoComment, ClosedBehind;
    CodeBefore(a, OPENER + c);
    CodeBefore(a, [SLASH, SLASH] + c);
    CodeStep(OPENER + c);
    CodeStep([SLASH, SLASH] + c);
    assert a + [] == a;
    assert (OPENER + c)[2..] == c;
    assert ([SLASH, SLASH] + c)[1..] == [SLASH] + c;
    if ClosedBehind(c) {
      BlockNeverEnds(c);
    }
    if LF !in c {
      LineEnds([SLASH] + c, []);
    }
  }

  // ----- Partition checks -----

  const FLASH_BASE: u32 := 0x1000_0000
  const FLASH_END: u32 := 0x1020_0000
  const PAGE_BYTES: u32 := 4096

  datatype Name = BOOT2 | FLASH | ACTIVE | DFU | STATE

  const PARTITIONS: seq<Name> := [BOOT2, FLASH, ACTIVE, DFU, STATE]

  datatype Region = Region(name: Name, origin: u32, length: u32) {
    // The end, as a number.
    function End(): nat { origin + length }

    // The end as the release build computes it: 32-bit addition wraps.
    function WrappedEnd(): u32 { End() % 0x1_0000_0000 }
  }

  datatype Extent = Extent(origin: u32, length: u32)

  // The five partitions read from the map, all of them present.
  datatype Regions = Regions(boot2: Extent, flash: Extent, active: Extent, dfu: Extent, state: Extent) {
    function Get(n: Name): Region {
      var e := match n case BOOT2 => boot2 case FLASH => flash case ACTIVE => active case DFU => dfu case STATE => state;
      Region(n, e.origin, e.length)
    }

    function Table(): seq<Region> { [Get(BOOT2), Get(FLASH), Get(ACTIVE), Get(DFU), Get(STATE)] }
  }

  predicate Aligned(r: Region) { r.origin % PAGE_BYTES == 0 && r.length % PAGE_BYTES == 0 }

  method ValidateWithinFlash(regions: Regions) returns (ok: bool)
    ensures ok <==> forall n :: regions.Get(n).WrappedEnd() <= FLASH_END
  {
    for k := 0 to |PARTITIONS|
      invariant forall j :: 0 <= j < k ==> regions.Get(PARTITIONS[j]).WrappedEnd() <= FLASH_END
    {
      if regions.Get(PARTITIONS[k]).WrappedEnd() > FLASH_END {
        return false;
      }
    }
    forall n ensures regions.Get(n).WrappedEnd() <= FLASH_END {
      assert n == PARTITIONS[Index(n)];
    }
    ok := true;
  }

  function Index(n: Name): (i: nat)
    ensures i < |PARTITIONS| && PARTITIONS[i] == n
  {
    match n case BOOT2 => 0 case FLASH => 1 case ACTIVE => 2 case DFU => 3 case STATE => 4
  }

  predicate ValidatePageAlignment(regions: Regions) {
    Aligned(regions.Get(ACTIVE)) && Aligned(regions.Get(DFU)) && Aligned(regions.Get(STATE))
  }

  predicate ValidateDfuLayout(regions: Regions) {
    regions.dfu.origin == regions.Get(ACTIVE).WrappedEnd() &&
    regions.dfu.length == (regions.active.length + PAGE_BYTES) % 0x1_0000_0000
  }

  // ----- The overlap check -----

  predicate SortedByOrigin(rs: seq<Region>) {
    forall i, j :: 0 <= i < j < |rs| ==> rs[i].origin <= rs[j].origin
  }

  predicate DistinctNames(rs: seq<Region>) {
    forall i, j :: 0 <= i < j < |rs| ==> rs[i].name != rs[j].name
  }

  // Stable insertion: behind every region with the same or a smaller origin.
  function Insert(rs: seq<Region>, r: Region): (t: seq<Region>)
    requires SortedByOrigin(rs)
    ensures SortedByOrigin(t) && |t| == |rs| + 1
    ensures forall x :: x in t <==> x == r || x in rs
  {
    if rs == [] || rs[|rs| - 1].origin <= r.origin then rs + [r]
    else
      var before := rs[..|rs| - 1];
      assert rs == before + [rs[|rs| - 1]];
      var t := Insert(before, r);
      assert forall k :: 0 <= k < |t| ==> t[k] in t;
      t + [rs[|rs| - 1]]
  }

  // `sort_by_key`: stable, by origin.
  function SortByOrigin(rs: seq<Region>): (t: seq<Region>)
    ensures SortedByOrigin(t) && |t| == |rs|
    ensures forall x :: x in t <==> x in rs
  {
    if rs == [] then []
    else
      assert rs == rs[..|rs| - 1] + [rs[|rs| - 1]];
      Insert(SortByOrigin(rs[..|rs| - 1]), rs[|rs| - 1])
  }

  lemma {:induction false} InsertDistinct(rs: seq<Region>, r: Region)
    requires SortedByOrigin(rs) && DistinctNames(rs) && forall x :: x in rs ==> x.name != r.name
    ensures DistinctNames(Insert(rs, r))
  {
    if rs == [] || rs[|rs| - 1].origin <= r.origin {
    } else {
      var before, last := rs[..|rs| - 1], rs[|rs| - 1];
      InsertDistinct(before, r);
      var t := Insert(before, r);
      forall i | 0 <= i < |t| ensures t[i].name != last.name {
        assert t[i] in t;
      }
    }
  }

  lemma {:induction false} SortDistinct(rs: seq<Region>)
    requires DistinctNames(rs)
    ensures DistinctNames(SortByOrigin(rs))
  {
    if rs == [] {
    } else {
      SortDistinct(rs[..|rs| - 1]);
      InsertDistinct(SortByOrigin(rs[..|rs| - 1]), rs[|rs| - 1]);
    }
  }

  predicate AdjacentFit(rs: seq<Region>) {
    forall k :: 0 <= k < |rs| - 1 ==> rs[k].WrappedEnd() <= rs[k + 1].origin
  }

  method ValidateNoOverlap(regions: Regions) returns (ok: bool)
    ensures ok <==> AdjacentFit(SortByOrigin(regions.Table()))
  {
    hide SortByOrigin;
    var ordered := SortByOrigin(regions.Table());
    for k := 0 to |ordered| - 1
      invariant forall j :: 0 <= j < k ==> ordered[j].WrappedEnd() <= ordered[j + 1].origin
    {
      if ordered[k].WrappedEnd() > ordered[k + 1].origin {
        return false;
      }
    }
    ok := true;
  }

  predicate Disjoint(a: Region, b: Region) { a.End() <= b.origin || b.End() <= a.origin }

  // No end overflows 32 bits.
  ghost predicate NoWrap(regions: Regions) { forall n :: regions.Get(n).End() < 0x1_0000_0000 }

  ghost predicate NoneEmpty(regions: Regions) { forall n :: regions.Get(n).length > 0 }

  ghost predicate PairwiseDisjoint(regions: Regions) {
    forall m, n :: m != n ==> Disjoint(regions.Get(m), regions.Get(n))
  }

  // Every region stands somewhere in the sorted order, and there are no others.
  lemma Position(regions: Regions, n: Name) returns (i: nat)
    ensures i < |SortByOrigin(regions.Table())| && SortByOrigin(regions.Table())[i] == regions.Get(n)
  {
    hide SortByOrigin;
    assert regions.Table()[Index(n)] == regions.Get(n);
    assert regions.Get(n) in SortByOrigin(regions.Table());
    i :| 0 <= i < |SortByOrigin(regions.Table())| && SortByOrigin(regions.Table())[i] == regions.Get(n);
  }

  lemma SortedIs(regions: Regions, k: nat)
    requires k < |SortByOrigin(regions.Table())|
    ensures var r := SortByOrigin(regions.Table())[k]; r == regions.Get(r.name)
  {
    hide SortByOrigin;
    assert SortByOrigin(regions.Table())[k] in regions.Table();
  }

  // Sorted regions that fit next to each other fit at any distance.
  lemma AdjacentIsEnough(rs: seq<Region>, i: nat, j: nat)
    requires SortedByOrigin(rs) && AdjacentFit(rs) && i < j < |rs|
    requires rs[i].End() < 0x1_0000_0000
    ensures rs[i].End() <= rs[j].origin
  {
    assert rs[i].WrappedEnd() <= rs[i + 1].origin;
  }

  lemma FitIsDisjoint(regions: Regions)
    requires NoWrap(regions) && AdjacentFit(SortByOrigin(regions.Table()))
    ensures PairwiseDisjoint(regions)
  {
    hide SortByOrigin, AdjacentFit;
    forall m, n | m != n ensures Disjoint(regions.Get(m), regions.Get(n)) {
      var i := Position(regions, m);
      var j := Position(regions, n);
      if i < j {
        AdjacentIsEnough(SortByOrigin(regions.Table()), i, j);
      } else {
        AdjacentIsEnough(SortByOrigin(regions.Table()), j, i);
      }
    }
  }

  lemma DisjointFits(regions: Regions)
    requires NoWrap(regions) && NoneEmpty(regions) && PairwiseDisjoint(regions)
    ensures AdjacentFit(SortByOrigin(regions.Table()))
  {
    TableDistinct(regions);
    hide SortByOrigin, Regions.Table;
    SortDistinct(regions.Table());
    var ordered := SortByOrigin(regions.Table());
    forall k | 0 <= k < |ordered| - 1 ensures ordered[k].WrappedEnd() <= ordered[k + 1].origin {
      SortedIs(regions, k);
      SortedIs(regions, k + 1);
      NeighboursFit(regions, ordered[k].name, ordered[k + 1].name);
    }
  }

  lemma TableDistinct(regions: Regions)
    ensures DistinctNames(regions.Table())
  {
  }

  lemma NeighboursFit(regions: Regions, m: Name, n: Name)
    requires NoWrap(regions) && NoneEmpty(regions) && PairwiseDisjoint(regions)
    requires m != n && regions.Get(m).origin <= regions.Get(n).origin
    ensures regions.Get(m).WrappedEnd() <= regions.Get(n).origin
  {
    hide Regions.Get;
    assert Disjoint(regions.Get(m), regions.Get(n));
    assert regions.Get(n).length > 0 && regions.Get(m).End() < 0x1_0000_0000;
  }

  // All the layout checks together.
  ghost predicate Passes(regions: Regions) {
    && (forall n :: regions.Get(n).WrappedEnd() <= FLASH_END)
    && ValidatePageAlignment(regions) && ValidateDfuLayout(regions)
    && AdjacentFit(SortByOrigin(regions.Table()))
  }

  // A layout the swap can work with: disjoint partitions inside the flash, page by
  // page, with the staging slot right behind the active slot and one page longer.
  ghost predicate GoodLayout(regions: Regions) {
    && (forall n :: FLASH_BASE <= regions.Get(n).origin && regions.Get(n).End() <= FLASH_END)
    && PairwiseDisjoint(regions)
    && (forall n :: n in {ACTIVE, DFU, STATE} ==>
          regions.Get(n).origin % PAGE_BYTES == 0 && regions.Get(n).length % PAGE_BYTES == 0)
    && regions.dfu.origin == regions.Get(ACTIVE).End()
    && regions.dfu.length == regions.active.length + PAGE_BYTES
  }

  lemma NoWrapEnds(regions: Regions, n: Name)
    requires NoWrap(regions)
    ensures regions.Get(n).WrappedEnd() == regions.Get(n).End()
  {
  }

  lemma DfuLength(regions: Regions)
    requires regions.Get(ACTIVE).End() <= FLASH_END
    ensures (regions.active.length + PAGE_BYTES) % 0x1_0000_0000 == regions.active.length + PAGE_BYTES
  {
  }

  // The lowest origin of a layout.
  function Lowest(regions: Regions): u32 { SortByOrigin(regions.Table())[0].origin }

  lemma LowestBelow(regions: Regions)
    ensures FLASH_BASE <= Lowest(regions) <==> forall n :: FLASH_BASE <= regions.Get(n).origin
  {
    var ordered := SortByOrigin(regions.Table());
    hide SortByOrigin;
    SortedIs(regions, 0);
    forall n ensures ordered[0].origin <= regions.Get(n).origin {
      var i := Position(regions, n);
    }
  }

  lemma AlignmentIff(regions: Regions)
    ensures ValidatePageAlignment(regions) <==>
            forall n :: n in {ACTIVE, DFU, STATE} ==>
              regions.Get(n).origin % PAGE_BYTES == 0 && regions.Get(n).length % PAGE_BYTES == 0
  {
    assert ACTIVE in {ACTIVE, DFU, STATE} && DFU in {ACTIVE, DFU, STATE} && STATE in {ACTIVE, DFU, STATE};
  }

  // What passes validation is a good layout exactly when no region end overflows
  // 32 bits and the lowest region does not start below the flash; and, no region
  // being empty, every good layout passes.
  lemma ValidateIff(regions: Regions)
    ensures Passes(regions) ==> (GoodLayout(regions) <==> NoWrap(regions) && FLASH_BASE <= Lowest(regions))
    ensures NoneEmpty(regions) && GoodLayout(regions) ==> Passes(regions)
  {
    hide SortByOrigin, AdjacentFit, PairwiseDisjoint, NoneEmpty, Region.WrappedEnd, ValidatePageAlignment, Lowest;
    LowestBelow(regions);
    AlignmentIff(regions);
    if NoWrap(regions) {
      forall n ensures regions.Get(n).WrappedEnd() == regions.Get(n).End() {
        NoWrapEnds(regions, n);
      }
      if regions.Get(ACTIVE).End() <= FLASH_END {
        DfuLength(regions);
      }
      if Passes(regions) {
        FitIsDisjoint(regions);
      }
      if NoneEmpty(regions) && GoodLayout(regions) {
        DisjointFits(regions);
      }
    }
  }

  // The layout of the repository, but for the first partition.
  function WithBoot2(boot2: Extent): Regions {
    Regions(boot2, Extent(0x1000_0100, 0x5F00), Extent(0x1000_6000, 0xC_3000),
            Extent(0x100C_9000, 0xC_4000), Extent(0x1018_D000, 0x1000))
  }

  lemma Boot2Passes(boot2: Extent)
    requires boot2.origin <= 0x1000_0100 && (boot2.origin + boot2.length) % 0x1_0000_0000 <= 0x1000_0100
    ensures Passes(WithBoot2(boot2))
  {
    var r := WithBoot2(boot2);
    SortedStays(r.Table());
    hide SortByOrigin;
    assert r.Get(BOOT2).WrappedEnd() <= r.flash.origin;
    assert r.Get(FLASH).WrappedEnd() == r.active.origin && r.Get(ACTIVE).WrappedEnd() == r.dfu.origin;
    assert r.Get(DFU).WrappedEnd() == r.state.origin && r.Get(STATE).WrappedEnd() == 0x1018_E000;
  }

  // Both conditions can fail. A length that overflows 32 bits passes although
  // the region covers every other one; and a region below the flash passes too.
  lemma OverflowPasses()
    ensures var r := WithBoot2(Extent(0x100, 0xFFFF_FFF0)); Passes(r) && !PairwiseDisjoint(r)
  {
    var r := WithBoot2(Extent(0x100, 0xFFFF_FFF0));
    Boot2Passes(r.boot2);
    hide Passes;
    assert !Disjoint(r.Get(BOOT2), r.Get(FLASH));
  }

  lemma BelowFlashPasses()
    ensures var r := WithBoot2(Extent(0, 0x100)); Passes(r) && r.boot2.origin < FLASH_BASE && !GoodLayout(r)
  {
    Boot2Passes(Extent(0, 0x100));
    hide Passes;
  }

  lemma {:induction false} SortedStays(rs: seq<Region>)
    requires SortedByOrigin(rs)
    ensures SortByOrigin(rs) == rs
  {
    if rs == [] {
    } else {
      SortedStays(rs[..|rs| - 1]);
    }
  }
}
