// The UF2 packer: placements are laid over one zero-filled image, which is cut
// into numbered 512-byte blocks.

module Uf2 {
  import opened Prelude

  const MAGIC0: u32 := 0x0A32_4655
  const MAGIC1: u32 := 0x9E5D_5157
  const MAGICE: u32 := 0x0AB1_6F30
  const FLAG_FAMILY: u32 := 0x0000_2000
  const RP2040_FAMILY: u32 := 0xE48B_FF56
  const PAYLOAD: nat := 256
  const BLOCK: nat := 512

  // A file placed at an offset from the base.
  datatype Placement = Placement(offset: nat, data: seq<byte>) {
    function End(): nat { offset + |data| }

    predicate Covers(k: nat) { offset <= k < End() }
  }

  // ----- The image -----

  function HighestEnd(ps: seq<Placement>): (end: nat)
    ensures forall k :: 0 <= k < |ps| ==> ps[k].End() <= end
  {
    if ps == [] then 0
    else
      var before, last := HighestEnd(ps[..|ps| - 1]), ps[|ps| - 1].End();
      assert forall k :: 0 <= k < |ps| - 1 ==> ps[k] == ps[..|ps| - 1][k];
      if last > before then last else before
  }

  // The end rounded up to whole payloads.
  function Padded(end: nat): (n: nat)
    ensures end <= n < end + PAYLOAD && n % PAYLOAD == 0
  {
    (end + PAYLOAD - 1) / PAYLOAD * PAYLOAD
  }

  function ImageSize(ps: seq<Placement>): nat { Padded(HighestEnd(ps)) }

  // What stands at position `k`: the byte of the last placement that covers it, and
  // zero where none does.
  function ByteOf(ps: seq<Placement>, k: nat): byte {
    if ps == [] then 0
    else
      var last := ps[|ps| - 1];
      if last.Covers(k) then last.data[k - last.offset] else ByteOf(ps[..|ps| - 1], k)
  }

  function ImageOf(ps: seq<Placement>): (image: seq<byte>)
    ensures |image| == ImageSize(ps)
  {
    seq(ImageSize(ps), k requires 0 <= k => ByteOf(ps, k))
  }

  method BuildImage(ps: seq<Placement>) returns (image: array<byte>)
    ensures fresh(image) && image[..] == ImageOf(ps)
  {
    var end := 0;
    for n := 0 to |ps|
      invariant end == HighestEnd(ps[..n])
    {
      assert ps[..n + 1][..n] == ps[..n];
      end := if ps[n].End() > end then ps[n].End() else end;
    }
    assert ps[..|ps|] == ps;
    end := Padded(end);
    image := new byte[end](_ => 0);
    for n := 0 to |ps|
      invariant image.Length == end == ImageSize(ps) && fresh(image)
      invariant forall k :: 0 <= k < end ==> image[k] == ByteOf(ps[..n], k)
    {
      assert ps[..n + 1][..n] == ps[..n];
      var p := ps[n];
      forall k | 0 <= k < |p.data| {
        image[p.offset + k] := p.data[k];
      }
      assert forall k :: p.offset <= k < p.End() ==> image[k] == p.data[k - p.offset];
    }
    assert ps[..|ps|] == ps;
  }

  // A placement nothing after it overlaps is found whole at its offset.
  lemma {:induction false} PlacementFound(ps: seq<Placement>, i: nat, k: nat)
    requires i < |ps| && ps[i].Covers(k)
    requires forall j :: i < j < |ps| ==> !ps[j].Covers(k)
    ensures ByteOf(ps, k) == ps[i].data[k - ps[i].offset]
  {
    if i == |ps| - 1 {
    } else {
      PlacementFound(ps[..|ps| - 1], i, k);
    }
  }

  lemma {:induction false} GapIsZero(ps: seq<Placement>, k: nat)
    requires forall j :: 0 <= j < |ps| ==> !ps[j].Covers(k)
    ensures ByteOf(ps, k) == 0
  {
    if ps == [] {
    } else {
      GapIsZero(ps[..|ps| - 1], k);
    }
  }

  // A file that no later one overlaps stands verbatim in the image.
  lemma FileVerbatim(ps: seq<Placement>, i: nat)
    requires i < |ps|
    requires forall j, k: nat :: i < j < |ps| && ps[i].Covers(k) ==> !ps[j].Covers(k)
    ensures ps[i].End() <= |ImageOf(ps)|
    ensures ImageOf(ps)[ps[i].offset..ps[i].End()] == ps[i].data
  {
    var p, image := ps[i], ImageOf(ps);
    assert p.End() <= HighestEnd(ps);
    forall k | 0 <= k < |p.data| ensures image[p.offset + k] == p.data[k] {
      assert p.Covers(p.offset + k);
      PlacementFound(ps, i, p.offset + k);
    }
  }

  // ----- Little-endian words -----

  function Word(n: u32): (s: seq<byte>)
    ensures |s| == 4
  {
    [n % 256, n / 256 % 256, n / 65536 % 256, n / 16777216]
  }

  function WordValue(s: seq<byte>): nat
    requires |s| == 4
  {
    var a: int, b: int, c: int, d: int := s[0], s[1], s[2], s[3];
    a + 256 * (b + 256 * (c + 256 * d))
  }

  lemma WordInverts(n: u32)
    ensures WordValue(Word(n)) == n
  {
    var a, b := n / 256, n / 256 / 256;
    assert n / 65536 == b && n / 16777216 == b / 256;
    assert n == n % 256 + 256 * a && a == a % 256 + 256 * b && b == b % 256 + 256 * (b / 256);
  }

  // ----- Blocks -----

  datatype Header = Header(
    magic0: u32, magic1: u32, flags: u32, addr: u32, size: u32, number: u32, total: u32, family: u32)

  function HeaderText(h: Header): (s: seq<byte>)
    ensures |s| == 32
  {
    Word(h.magic0) + Word(h.magic1) + Word(h.flags) + Word(h.addr) +
    Word(h.size) + Word(h.number) + Word(h.total) + Word(h.family)
  }

  function BlockText(h: Header, payload: seq<byte>): (s: seq<byte>)
    requires |payload| == PAYLOAD
    ensures |s| == BLOCK
  {
    HeaderText(h) + payload + seq(BLOCK - 32 - PAYLOAD - 4, _ => 0) + Word(MAGICE)
  }

  function HeaderOf(base: int, number: nat, total: nat): Option<Header> {
    var addr := base + number * PAYLOAD;
    if 0 <= addr <= U32_MAX && total <= U32_MAX && number <= U32_MAX then
      Some(Header(MAGIC0, MAGIC1, FLAG_FAMILY, addr, PAYLOAD, number, total, RP2040_FAMILY))
    else None
  }

  // The blocks of an image from block `n` on are the rest `s`.
  ghost predicate IsPacked(s: seq<byte>, image: seq<byte>, base: int) {
    var total := |image| / PAYLOAD;
    |image| % PAYLOAD == 0 && |s| == total * BLOCK &&
    forall n :: 0 <= n < total ==>
      var h := HeaderOf(base, n, total);
      h.Some? && s[n * BLOCK..(n + 1) * BLOCK] == BlockText(h.value, image[n * PAYLOAD..(n + 1) * PAYLOAD])
  }

  // ----- Reading the blocks back -----

  function WordAt(block: seq<byte>, i: nat): nat
    requires i + 4 <= |block|
  {
    WordValue(block[i..i + 4])
  }

  // A block is accepted as number `n` of `total`: the magic numbers, the flag that a
  // family is named, the family, and where and which it is.
  predicate BlockOk(block: seq<byte>, base: int, total: nat, n: nat)
    requires |block| == BLOCK
  {
    WordAt(block, 0) == 0x0A32_4655 && WordAt(block, 4) == 0x9E5D_5157 && WordAt(block, 508) == 0x0AB1_6F30 &&
    WordAt(block, 8) == 0x2000 && WordAt(block, 28) == 0xE48B_FF56 &&
    WordAt(block, 12) == base + n * PAYLOAD && WordAt(block, 16) == PAYLOAD &&
    WordAt(block, 20) == n && WordAt(block, 24) == total
  }

  // The payloads of the first `n` blocks, while every one of them is accepted.
  function Unpack(s: seq<byte>, base: int, total: nat, n: nat): (r: Option<seq<byte>>)
    requires n <= total && |s| == total * BLOCK
  {
    if n == 0 then Some([])
    else
      var before, block := Unpack(s, base, total, n - 1), s[(n - 1) * BLOCK..n * BLOCK];
      if before.Some? && BlockOk(block, base, total, n - 1) then Some(before.value + block[32..32 + PAYLOAD])
      else None
  }

  lemma HeaderReads(h: Header)
    ensures var s := HeaderText(h);
      WordAt(s, 0) == h.magic0 && WordAt(s, 4) == h.magic1 && WordAt(s, 8) == h.flags && WordAt(s, 12) == h.addr &&
      WordAt(s, 16) == h.size && WordAt(s, 20) == h.number && WordAt(s, 24) == h.total && WordAt(s, 28) == h.family
  {
    hide Word, WordValue;
    WordInverts(h.magic0); WordInverts(h.magic1); WordInverts(h.flags); WordInverts(h.addr);
    WordInverts(h.size); WordInverts(h.number); WordInverts(h.total); WordInverts(h.family);
    var s := HeaderText(h);
    assert s[0..4] == Word(h.magic0);
    assert s[4..8] == Word(h.magic1);
    assert s[8..12] == Word(h.flags);
    assert s[12..16] == Word(h.addr);
    assert s[16..20] == Word(h.size);
    assert s[20..24] == Word(h.number);
    assert s[24..28] == Word(h.total);
    assert s[28..32] == Word(h.family);
  }

  lemma BlockReads(h: Header, payload: seq<byte>)
    requires |payload| == PAYLOAD
    ensures var s := BlockText(h, payload);
      (forall i :: 0 <= i <= 28 ==> WordAt(s, i) == WordAt(HeaderText(h), i)) &&
      s[32..32 + PAYLOAD] == payload && WordAt(s, 508) == MAGICE
  {
    hide Word, WordValue, HeaderText;
    var s := BlockText(h, payload);
    forall i | 0 <= i <= 28 ensures WordAt(s, i) == WordAt(HeaderText(h), i) {
      assert s[i..i + 4] == HeaderText(h)[i..i + 4];
    }
    assert s[508..512] == Word(MAGICE);
    WordInverts(MAGICE);
  }

  // Packing loses nothing: the blocks are accepted in turn and their payloads
  // concatenate to the image.
  lemma {:induction false} UnpackInverts(s: seq<byte>, image: seq<byte>, base: int, n: nat)
    requires IsPacked(s, image, base) && n <= |image| / PAYLOAD
    ensures Unpack(s, base, |image| / PAYLOAD, n) == Some(image[..n * PAYLOAD])
  {
    hide Word, WordValue, HeaderText, BlockText, WordAt;
    if n == 0 {
    } else {
      var total := |image| / PAYLOAD;
      var h, payload := HeaderOf(base, n - 1, total).value, image[(n - 1) * PAYLOAD..n * PAYLOAD];
      UnpackInverts(s, image, base, n - 1);
      HeaderReads(h);
      BlockReads(h, payload);
      assert s[(n - 1) * BLOCK..n * BLOCK] == BlockText(h, payload);
      assert image[..n * PAYLOAD] == image[..(n - 1) * PAYLOAD] + payload;
    }
  }

  // Packs the placements; fails where a header field does not fit its word.
  method Build(base: int, ps: seq<Placement>) returns (r: Option<seq<byte>>, total: nat, end: nat)
    ensures end == ImageSize(ps) && total == end / PAYLOAD
    ensures r.Some? ==> IsPacked(r.value, ImageOf(ps), base)
    ensures r.Some? ==> Unpack(r.value, base, total, total) == Some(ImageOf(ps))
    ensures r.None? <==> exists n: nat :: n < total && HeaderOf(base, n, total).None?
  {
    hide Word, HeaderText, BlockText, Unpack, ByteOf, HighestEnd;
    var image := BuildImage(ps);
    end := image.Length;
    total := end / PAYLOAD;
    var out: seq<byte> := [];
    for n := 0 to total
      invariant |out| == n * BLOCK
      invariant forall m :: 0 <= m < n ==>
        HeaderOf(base, m, total).Some? &&
        out[m * BLOCK..(m + 1) * BLOCK] == BlockText(HeaderOf(base, m, total).value, image[m * PAYLOAD..(m + 1) * PAYLOAD])
    {
      var header := HeaderOf(base, n, total);
      if header.None? {
        return None, total, end;
      }
      var block := BlockText(header.value, image[n * PAYLOAD..(n + 1) * PAYLOAD]);
      ghost var before := out;
      out := out + block;
      forall m | 0 <= m < n ensures out[m * BLOCK..(m + 1) * BLOCK] == before[m * BLOCK..(m + 1) * BLOCK] {
      }
    }
    assert IsPacked(out, image[..], base);
    UnpackInverts(out, image[..], base, total);
    assert image[..][..total * PAYLOAD] == image[..];
    r := Some(out);
  }
}
