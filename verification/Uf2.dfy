/** The UF2 side of uf2conv.py: the block layout, the writer and the reader. */
module Uf2 {
  import opened Bytes
  import opened Options

  /** The exceptions the converter can end in. A block with a wrong magic number is one of them: the
      message the reader would print adds a string to an integer. */
  datatype Error = BadMagic | DataTooLong | OutOfOrder | GapTooBig | OddGap | PackError | BadRecord

  datatype Result<T> = Ok(value: T) | Err(error: Error)

  const MAGIC_START0 := 0x0A324655
  const MAGIC_START1 := 0x9E5D5157
  const MAGIC_END := 0x0AB16F30
  const FLAG_FAMILY := 0x2000
  const MAX_DATA := 476
  const MAX_GAP := 10485760

  // ---------- blocks ----------

  /** The eight words that start a block. */
  datatype Header = Header(magic0: uint32, magic1: uint32, flags: uint32, addr: uint32, len: uint32,
                           blockNo: uint32, numBlocks: uint32, family: uint32)
  {
    predicate NoFlash() { flags % 2 == 1 }
    predicate Flagged() { flags / FLAG_FAMILY % 2 == 1 }
    predicate Magic() { magic0 == MAGIC_START0 && magic1 == MAGIC_START1 }
  }

  function HeaderOf(block: seq<byte>): Header
    requires |block| == 512
  {
    Header(Le32(block, 0), Le32(block, 4), Le32(block, 8), Le32(block, 12),
           Le32(block, 16), Le32(block, 20), Le32(block, 24), Le32(block, 28))
  }

  function HeaderBytes(h: Header): (r: seq<byte>)
    ensures |r| == 32
  {
    Le32Bytes(h.magic0) + Le32Bytes(h.magic1) + Le32Bytes(h.flags) + Le32Bytes(h.addr) +
    Le32Bytes(h.len) + Le32Bytes(h.blockNo) + Le32Bytes(h.numBlocks) + Le32Bytes(h.family)
  }

  function Zeros(n: nat): (r: seq<byte>)
    ensures |r| == n && forall i :: 0 <= i < n ==> r[i] == 0
  {
    Repeat(0, n)
  }

  /** 256 bytes bound for one address. */
  datatype Page = Page(addr: int, data: seq<byte>)

  predicate PageOk(p: Page) { |p.data| == 256 }

  function Flags(family: uint32): uint32 { if family != 0 then FLAG_FAMILY else 0 }

  /** The 512 bytes both writers make of a page. */
  function Encode(p: Page, no: uint32, total: uint32, family: uint32): (r: seq<byte>)
    requires PageOk(p) && 0 <= p.addr < 0x1_0000_0000
    ensures |r| == 512
  {
    HeaderBytes(Header(MAGIC_START0, MAGIC_START1, Flags(family), p.addr, 256, no, total, family))
    + p.data + Zeros(220) + Le32Bytes(MAGIC_END)
  }

  /** A header can be read back from the front of any block. */
  lemma HeaderRoundTrip(h: Header, rest: seq<byte>)
    requires |rest| == 480
    ensures HeaderOf(HeaderBytes(h) + rest) == h
  {
    hide Le32, Le32Bytes;
    var w := [h.magic0, h.magic1, h.flags, h.addr, h.len, h.blockNo, h.numBlocks, h.family];
    var s := HeaderBytes(h) + rest;
    forall i | 0 <= i < 8 ensures Le32(s, 4 * i) == w[i] {
      assert s[4 * i..4 * i + 4] == Le32Bytes(w[i]);
      Le32Slice(s, 4 * i);
      Le32OfBytes(w[i]);
    }
    assert Le32(s, 4 * 0) == w[0] && Le32(s, 4 * 1) == w[1] && Le32(s, 4 * 2) == w[2] && Le32(s, 4 * 3) == w[3];
    assert Le32(s, 4 * 4) == w[4] && Le32(s, 4 * 5) == w[5] && Le32(s, 4 * 6) == w[6] && Le32(s, 4 * 7) == w[7];
  }

  lemma EncodeFields(p: Page, no: uint32, total: uint32, family: uint32)
    requires PageOk(p) && 0 <= p.addr < 0x1_0000_0000
    ensures var h, b := HeaderOf(Encode(p, no, total, family)), Encode(p, no, total, family);
            && h == Header(MAGIC_START0, MAGIC_START1, Flags(family), p.addr, 256, no, total, family)
            && b[32..288] == p.data
  {
    hide HeaderBytes, HeaderOf, Le32Bytes;
    var h := Header(MAGIC_START0, MAGIC_START1, Flags(family), p.addr, 256, no, total, family);
    var rest := p.data + Zeros(220) + Le32Bytes(MAGIC_END);
    assert Encode(p, no, total, family) == HeaderBytes(h) + rest;
    HeaderRoundTrip(h, rest);
  }

  // ---------- the reader ----------

  /** The variables of convert_from_uf2: where the next byte goes, the family being read, the start
      address, the image so far, and the families met. */
  datatype Reader = Reader(curr: Option<int>, currFamily: Option<uint32>, base: Option<int>, image: seq<byte>,
                           families: set<uint32>)

  /** Whether a block's payload is taken: no family was asked for, or it is the block's. */
  predicate Takes(wanted: uint32, h: Header) { wanted == 0 || (h.Flagged() && wanted == h.family) }

  /** A block that starts a new run of addresses: the first one, or one of another family. */
  predicate Restarts(r: Reader, h: Header) {
    var f := if h.Flagged() && r.currFamily.None? then Some(h.family) else r.currFamily;
    r.curr.None? || (h.Flagged() && Some(h.family) != f)
  }

  /** One block, not yet knowing whether it is the last. */
  function ReadBlock(wanted: uint32, r: Reader, block: seq<byte>): Result<Reader>
    requires |block| == 512
  {
    var h := HeaderOf(block);
    if !h.Magic() then Err(BadMagic)
    else if h.NoFlash() then Ok(r)
    else if h.len > MAX_DATA then Err(DataTooLong)
    else
      var restart := Restarts(r, h);
      var curr := if restart then h.addr else r.curr.value;
      var gap := h.addr - curr;
      if gap < 0 then Err(OutOfOrder)
      else if gap > MAX_GAP then Err(GapTooBig)
      else if gap % 4 != 0 then Err(OddGap)
      else Ok(Reader(
        Some(h.addr + h.len),
        if restart || (h.Flagged() && r.currFamily.None?) then Some(h.family) else r.currFamily,
        if restart && (wanted == 0 || wanted == h.family) then Some(h.addr) else r.base,
        r.image + Zeros(gap) + (if Takes(wanted, h) then block[32..32 + h.len] else []),
        if h.Flagged() then r.families + {h.family} else r.families))
  }

  /** After the last block, unless it is a no-flash block: several families without a choice between
      them give no image at all. */
  function Finish(wanted: uint32, r: Reader, last: seq<byte>): Reader
    requires |last| == 512
  {
    if !HeaderOf(last).NoFlash() && |r.families| > 1 && wanted == 0 then r.(image := [], base := Some(0)) else r
  }

  function BlockAt(buf: seq<byte>, i: nat): (r: seq<byte>)
    requires 512 * i + 512 <= |buf|
    ensures |r| == 512
  {
    buf[512 * i..512 * i + 512]
  }

  /** The first n blocks. */
  function ReadUpTo(wanted: uint32, base: Option<int>, buf: seq<byte>, n: nat): Result<Reader>
    requires 512 * n <= |buf|
  {
    if n == 0 then Ok(Reader(None, None, base, [], {})) else
    match ReadUpTo(wanted, base, buf, n - 1)
    case Err(e) => Err(e)
    case Ok(r) => ReadBlock(wanted, r, BlockAt(buf, n - 1))
  }

  /** convert_from_uf2: the image and the start address. Bytes behind the last whole block are
      ignored. */
  function Read(wanted: uint32, base: Option<int>, buf: seq<byte>): Result<Reader> {
    var n := |buf| / 512;
    match ReadUpTo(wanted, base, buf, n)
    case Err(e) => Err(e)
    case Ok(r) => Ok(if n > 0 then Finish(wanted, r, BlockAt(buf, n - 1)) else r)
  }

  // ---------- placement ----------

  /** The payload of a block that is not skipped. len is the header's claim. */
  datatype Chunk = Chunk(addr: nat, len: nat, data: seq<byte>, flagged: bool, family: uint32)

  function ChunkOf(block: seq<byte>): Chunk
    requires |block| == 512
  {
    var h := HeaderOf(block);
    Chunk(h.addr, h.len, if h.len <= MAX_DATA then block[32..32 + h.len] else [], h.Flagged(), h.family)
  }

  /** The chunks of the first n blocks, no-flash blocks left out. */
  function Chunks(buf: seq<byte>, n: nat): seq<Chunk>
    requires 512 * n <= |buf|
  {
    if n == 0 then [] else
    var b := BlockAt(buf, n - 1);
    if HeaderOf(b).NoFlash() then Chunks(buf, n - 1) else Chunks(buf, n - 1) + [ChunkOf(b)]
  }

  /** Bytes between chunk i-1 and chunk i. */
  function Gap(cs: seq<Chunk>, i: nat): int
    requires 0 < i < |cs|
  {
    cs[i].addr - (cs[i - 1].addr + cs[i - 1].len)
  }

  /** A gap the reader fills. */
  predicate GapOk(gap: int) { 0 <= gap <= MAX_GAP && gap % 4 == 0 }

  /** Payloads of at most 476 bytes, at ascending addresses without overlap, with gaps of whole
      words and at most ten megabytes. */
  ghost predicate Placeable(cs: seq<Chunk>) {
    && (forall i :: 0 <= i < |cs| ==> cs[i].len <= MAX_DATA && |cs[i].data| == cs[i].len)
    && forall i :: 0 < i < |cs| ==> GapOk(Gap(cs, i))
  }

  /** Every flagged chunk names the family of the first chunk, so the reader never restarts. */
  ghost predicate SingleFamily(cs: seq<Chunk>) {
    forall i :: 0 <= i < |cs| && cs[i].flagged ==> cs[i].family == cs[0].family
  }

  /** The reader takes the payload. */
  predicate Wants(wanted: uint32, c: Chunk) { wanted == 0 || (c.flagged && c.family == wanted) }

  /** The reader takes every payload. */
  ghost predicate AllTaken(wanted: uint32, cs: seq<Chunk>) {
    forall i :: 0 <= i < |cs| ==> Wants(wanted, cs[i])
  }

  ghost predicate MagicUpTo(buf: seq<byte>, n: nat)
    requires 512 * n <= |buf|
  {
    forall i :: 0 <= i < n ==> HeaderOf(BlockAt(buf, i)).Magic()
  }

  function End(c: Chunk): nat { c.addr + c.len }

  /** The payloads one after the other with zeros in the gaps. */
  ghost function Image(cs: seq<Chunk>): seq<byte>
    requires Placeable(cs)
  {
    if cs == [] then [] else
    var n := |cs| - 1;
    if n == 0 then cs[0].data else
    PlaceablePrefix(cs, n);
    Image(cs[..n]) + Zeros(Gap(cs, n)) + cs[n].data
  }

  lemma PlaceablePrefix(cs: seq<Chunk>, n: nat)
    requires Placeable(cs) && n <= |cs|
    ensures Placeable(cs[..n])
  {
    forall i | 0 < i < n ensures Gap(cs[..n], i) == Gap(cs, i) {
    }
  }

  lemma {:induction false} ImageLength(cs: seq<Chunk>)
    requires Placeable(cs) && cs != []
    ensures |Image(cs)| == End(cs[|cs| - 1]) - cs[0].addr
  {
    var n := |cs| - 1;
    if n > 0 {
      PlaceablePrefix(cs, n);
      ImageLength(cs[..n]);
    }
  }

  lemma PrefixSlice(a: seq<byte>, b: seq<byte>, at: nat, n: nat)
    requires at + n <= |a|
    ensures (a + b)[at..at + n] == a[at..at + n]
  {
  }

  lemma SuffixSlice(a: seq<byte>, b: seq<byte>)
    ensures (a + b)[|a|..|a| + |b|] == b
  {
  }

  /** The image in front of the last gap, the gap, and the last payload. */
  lemma ImageSplit(cs: seq<Chunk>)
    requires Placeable(cs) && |cs| > 1
    ensures var n := |cs| - 1;
            && Placeable(cs[..n]) && Gap(cs, n) >= 0
            && Image(cs) == Image(cs[..n]) + Zeros(Gap(cs, n)) + cs[n].data
            && |Image(cs[..n]) + Zeros(Gap(cs, n))| == cs[n].addr - cs[0].addr && |cs[n].data| == cs[n].len
            && |Image(cs[..n])| == End(cs[n - 1]) - cs[0].addr
  {
    var n := |cs| - 1;
    PlaceablePrefix(cs, n);
    ImageLength(cs[..n]);
  }

  lemma ImageOne(cs: seq<Chunk>)
    requires Placeable(cs) && |cs| == 1
    ensures Image(cs) == cs[0].data && |cs[0].data| == cs[0].len && cs[0].data[0..cs[0].len] == cs[0].data
  {
  }

  /** Every payload lies at its own address, counted from the first. */
  lemma {:induction false} ImageHolds(cs: seq<Chunk>, i: nat)
    requires Placeable(cs) && i < |cs|
    ensures var at := cs[i].addr - cs[0].addr;
            0 <= at && at + cs[i].len <= |Image(cs)| && Image(cs)[at..at + cs[i].len] == cs[i].data
  {
    hide Placeable, Image, Zeros, Gap;
    if |cs| == 1 {
      ImageOne(cs);
    } else {
      var n := |cs| - 1;
      ImageSplit(cs);
      var front, gap := Image(cs[..n]), Zeros(Gap(cs, n));
      if i < n {
        ImageHolds(cs[..n], i);
        PrefixSlice(front, gap + cs[n].data, cs[i].addr - cs[0].addr, cs[i].len);
        assert Image(cs) == front + (gap + cs[n].data);
      } else {
        SuffixSlice(front + gap, cs[n].data);
      }
    }
  }

  /** Address k, counted from the first, is in the payload of chunk i. */
  predicate Covers(cs: seq<Chunk>, i: nat, k: nat) {
    i < |cs| && cs[i].addr <= cs[0].addr + k < cs[i].addr + cs[i].len
  }

  /** Every byte of the image is in some payload or zero. */
  lemma {:induction false} ImageCoveredOrZero(cs: seq<Chunk>, k: nat) returns (i: nat)
    requires Placeable(cs) && k < |Image(cs)|
    ensures Covers(cs, i, k) || Image(cs)[k] == 0
  {
    i := 0;
    if |cs| > 1 {
      var n := |cs| - 1;
      ImageSplit(cs);
      var front := Image(cs[..n]);
      if k < |front| {
        i := ImageCoveredOrZero(cs[..n], k);
        assert Image(cs)[k] == front[k];
      } else {
        i := n;
      }
    }
  }

  // ---------- reading, exactly ----------

  /** The payloads taken one after the other, with the zeros of every gap: a payload that is not wanted
      is left out and not replaced. */
  ghost function Kept(wanted: uint32, cs: seq<Chunk>): seq<byte>
    requires Placeable(cs)
  {
    if cs == [] then [] else
    var n := |cs| - 1;
    PlaceablePrefix(cs, n);
    Kept(wanted, cs[..n]) + (if n > 0 then Zeros(Gap(cs, n)) else [])
    + if Wants(wanted, cs[n]) then cs[n].data else []
  }

  /** If all are wanted, that is the image. */
  lemma {:induction false} KeptIsImage(wanted: uint32, cs: seq<Chunk>)
    requires Placeable(cs) && AllTaken(wanted, cs)
    ensures Kept(wanted, cs) == Image(cs)
  {
    hide Zeros, Gap;
    var n := |cs| - 1;
    if n > 0 {
      PlaceablePrefix(cs, n);
      KeptIsImage(wanted, cs[..n]);
    } else if n == 0 {
      assert cs[..0] == [] && Kept(wanted, cs[..0]) == [];
    }
  }

  /** The start address the reader reports. */
  function BaseOf(wanted: uint32, base: Option<int>, cs: seq<Chunk>): Option<int> {
    if cs != [] && (wanted == 0 || wanted == cs[0].family) then Some(cs[0].addr) else base
  }

  /** The reader's variables after it has placed cs. */
  ghost predicate Placed(wanted: uint32, base: Option<int>, cs: seq<Chunk>, r: Reader) {
    && Placeable(cs) && r.image == Kept(wanted, cs) && r.base == BaseOf(wanted, base, cs)
    && if cs == [] then r.curr == None && r.currFamily == None && r.families == {} else
         && r.curr == Some(End(cs[|cs| - 1])) && r.currFamily == Some(cs[0].family) && r.families <= {cs[0].family}
  }

  lemma KeptSplit(wanted: uint32, cs: seq<Chunk>)
    requires Placeable(cs) && cs != []
    ensures var n := |cs| - 1;
            && Placeable(cs[..n]) && (n > 0 ==> Gap(cs, n) >= 0)
            && Kept(wanted, cs) == Kept(wanted, cs[..n]) + (if n > 0 then Zeros(Gap(cs, n)) else [])
                                   + if Wants(wanted, cs[n]) then cs[n].data else []
  {
    PlaceablePrefix(cs, |cs| - 1);
  }

  lemma PlaceableNext(cs: seq<Chunk>, c: Chunk)
    requires Placeable(cs)
    ensures Placeable(cs + [c]) <==>
              && c.len <= MAX_DATA && |c.data| == c.len
              && (cs != [] ==> GapOk(c.addr - End(cs[|cs| - 1])))
  {
    var all := cs + [c];
    assert all[|cs|] == c;
    forall i | 0 < i < |cs| ensures Gap(all, i) == Gap(cs, i) {
    }
    if cs != [] {
      assert Gap(all, |cs|) == c.addr - End(cs[|cs| - 1]);
    }
    forall i | 0 <= i < |cs| ensures all[i] == cs[i] {
    }
  }

  /** The first block to be placed always starts the run. */
  lemma ReadFirstBlock(wanted: uint32, base: Option<int>, r: Reader, block: seq<byte>)
    requires |block| == 512 && HeaderOf(block).Magic() && !HeaderOf(block).NoFlash()
    requires Placed(wanted, base, [], r)
    ensures ReadBlock(wanted, r, block).Ok? <==> Placeable([ChunkOf(block)])
    ensures ReadBlock(wanted, r, block).Ok? ==>
              Placed(wanted, base, [ChunkOf(block)], ReadBlock(wanted, r, block).value)
  {
    hide HeaderOf, Header.Flagged, Header.NoFlash, Header.Magic, Zeros, Repeat, Placeable, Kept;
    var c := ChunkOf(block);
    PlaceableEmpty();
    PlaceableNext([], c);
    assert [] + [c] == [c] && [c][..0] == [];
    if Placeable([c]) {
      KeptSplit(wanted, [c]);
      KeptNothing(wanted);
      assert [] + Zeros(0) + c.data == c.data && [] + Zeros(0) + [] == [];
    }
  }

  lemma KeptNothing(wanted: uint32)
    ensures Placeable([]) && Kept(wanted, []) == []
  {
  }

  /** One more block: it is placed if it can be, and is an error otherwise. */
  lemma ReadNextBlock(wanted: uint32, base: Option<int>, cs: seq<Chunk>, r: Reader, block: seq<byte>)
    requires |block| == 512 && HeaderOf(block).Magic() && !HeaderOf(block).NoFlash()
    requires cs != [] && Placed(wanted, base, cs, r)
    requires SingleFamily(cs + [ChunkOf(block)])
    ensures ReadBlock(wanted, r, block).Ok? <==> Placeable(cs + [ChunkOf(block)])
    ensures ReadBlock(wanted, r, block).Ok? ==>
              Placed(wanted, base, cs + [ChunkOf(block)], ReadBlock(wanted, r, block).value)
  {
    hide HeaderOf, Header.Flagged, Header.NoFlash, Header.Magic, Zeros, Repeat, Kept, Placeable;
    var c := ChunkOf(block);
    var all := cs + [c];
    PlaceableNext(cs, c);
    assert all[|cs|] == c && all[..|cs|] == cs && all[0] == cs[0] && all[|cs| - 1] == cs[|cs| - 1];
    assert c.flagged ==> c.family == all[0].family;
    if Placeable(all) { KeptSplit(wanted, all); }
  }

  /** On a file of one family, whichever family is asked for, reading succeeds exactly when every block
      has the magic numbers and the payloads can be placed; what is read are the wanted payloads and the
      zeros of all gaps. */
  lemma {:induction false} ReadsExactly(wanted: uint32, base: Option<int>, buf: seq<byte>, n: nat)
    requires 512 * n <= |buf| && SingleFamily(Chunks(buf, n))
    ensures ReadUpTo(wanted, base, buf, n).Ok? <==> MagicUpTo(buf, n) && Placeable(Chunks(buf, n))
    ensures ReadUpTo(wanted, base, buf, n).Ok? ==>
              Placed(wanted, base, Chunks(buf, n), ReadUpTo(wanted, base, buf, n).value)
  {
    hide HeaderOf, ReadBlock, Kept, Header.Magic, Header.NoFlash, Placeable, ChunkOf;
    if n == 0 {
      KeptNothing(wanted);
    } else {
      var cs, b := Chunks(buf, n - 1), BlockAt(buf, n - 1);
      assert Chunks(buf, n)[..|cs|] == cs;
      SingleFamilyPrefix(Chunks(buf, n), |cs|);
      ReadsExactly(wanted, base, buf, n - 1);
      MagicNext(buf, n);
      SkippedBlock(wanted, base, buf, n);
      if Placeable(Chunks(buf, n)) { PlaceablePrefix(Chunks(buf, n), |cs|); }
      var prev := ReadUpTo(wanted, base, buf, n - 1);
      if prev.Ok? && HeaderOf(b).Magic() && !HeaderOf(b).NoFlash() {
        if cs == [] {
          assert [] + [ChunkOf(b)] == [ChunkOf(b)];
          ReadFirstBlock(wanted, base, prev.value, b);
        } else {
          ReadNextBlock(wanted, base, cs, prev.value, b);
        }
      }
    }
  }

  lemma PlaceableEmpty()
    ensures Placeable([]) && Image([]) == []
  {
  }

  lemma MagicNext(buf: seq<byte>, n: nat)
    requires 0 < n && 512 * n <= |buf|
    ensures MagicUpTo(buf, n) <==> MagicUpTo(buf, n - 1) && HeaderOf(BlockAt(buf, n - 1)).Magic()
  {
    hide HeaderOf, Header.Magic;
  }

  lemma SingleFamilyPrefix(cs: seq<Chunk>, n: nat)
    requires n <= |cs| && SingleFamily(cs)
    ensures SingleFamily(cs[..n])
  {
  }

  /** Blocks without the magic numbers end the reading; no-flash blocks change nothing. */
  lemma SkippedBlock(wanted: uint32, base: Option<int>, buf: seq<byte>, n: nat)
    requires 0 < n && 512 * n <= |buf|
    ensures var h, prev := HeaderOf(BlockAt(buf, n - 1)), ReadUpTo(wanted, base, buf, n - 1);
            && (!h.Magic() || prev.Err? ==> ReadUpTo(wanted, base, buf, n).Err?)
            && (h.Magic() && h.NoFlash() ==> ReadUpTo(wanted, base, buf, n) == prev)
            && (prev.Ok? ==> ReadUpTo(wanted, base, buf, n) == ReadBlock(wanted, prev.value, BlockAt(buf, n - 1)))
  {
    hide HeaderOf, Header.Magic, Header.NoFlash;
  }

  /** A concrete file: one block of zeros is not skipped, as its message says, but ends the reading. */
  lemma ZeroBlockIsNotSkipped(wanted: uint32, base: Option<int>)
    ensures Read(wanted, base, Zeros(512)) == Err(BadMagic)
  {
    hide Zeros;
    var buf := Zeros(512);
    assert BlockAt(buf, 0)[0] == 0 && ReadUpTo(wanted, base, buf, 0).Ok?;
    assert !HeaderOf(BlockAt(buf, 0)).Magic();
  }

  /** The whole of convert_from_uf2 on a file of one family: when it succeeds, what it reads, and, if
      all payloads are wanted, that this is the image at the address of the first. */
  lemma ReadPlaces(wanted: uint32, base: Option<int>, buf: seq<byte>)
    requires SingleFamily(Chunks(buf, |buf| / 512))
    ensures var n, r := |buf| / 512, Read(wanted, base, buf);
            var cs := Chunks(buf, n);
            && (r.Ok? <==> MagicUpTo(buf, n) && Placeable(cs))
            && (r.Ok? ==> r.value.image == Kept(wanted, cs) && r.value.base == BaseOf(wanted, base, cs))
            && (r.Ok? && AllTaken(wanted, cs) ==>
                  r.value.image == Image(cs) && r.value.base == if cs == [] then base else Some(cs[0].addr))
  {
    hide HeaderOf, ReadUpTo, Placeable, SingleFamily, Chunks, Kept, Image;
    var n := |buf| / 512;
    var cs := Chunks(buf, n);
    ReadsExactly(wanted, base, buf, n);
    var r := ReadUpTo(wanted, base, buf, n);
    if r.Ok? {
      FewFamilies(wanted, base, cs, r.value);
      if AllTaken(wanted, cs) { KeptIsImage(wanted, cs); }
    }
  }

  lemma FewFamilies(wanted: uint32, base: Option<int>, cs: seq<Chunk>, r: Reader)
    requires Placed(wanted, base, cs, r)
    ensures |r.families| <= 1
  {
    if cs != [] { SubsetSize(r.families, {cs[0].family}); }
  }

  lemma SubsetSize(a: set<uint32>, b: set<uint32>)
    requires a <= b
    ensures |a| <= |b|
  {
    assert b == a + (b - a);
  }

  // ---------- files made of pages ----------

  /** Blocks 0..n of the file the writers make of some pages. */
  function Encoded(pages: seq<Page>, family: uint32, n: nat): (r: seq<byte>)
    requires n <= |pages| < 0x1_0000_0000
    requires forall i :: 0 <= i < |pages| ==> PageOk(pages[i]) && 0 <= pages[i].addr < 0x1_0000_0000
    ensures |r| == 512 * n
  {
    if n == 0 then [] else Encoded(pages, family, n - 1) + Encode(pages[n - 1], n - 1, |pages|, family)
  }

  /** Pages that can be written: every header word fits 32 bits. */
  predicate Writable(pages: seq<Page>) {
    |pages| < 0x1_0000_0000 &&
    forall i :: 0 <= i < |pages| ==> PageOk(pages[i]) && 0 <= pages[i].addr < 0x1_0000_0000
  }

  function ChunkOfPage(p: Page, family: uint32): Chunk
    requires 0 <= p.addr
  {
    Chunk(p.addr, 256, p.data, family != 0, family)
  }

  function ChunksOf(pages: seq<Page>, family: uint32, n: nat): (r: seq<Chunk>)
    requires n <= |pages| && Writable(pages)
    ensures |r| == n && forall i :: 0 <= i < n ==> r[i] == ChunkOfPage(pages[i], family)
  {
    if n == 0 then [] else ChunksOf(pages, family, n - 1) + [ChunkOfPage(pages[n - 1], family)]
  }

  lemma EncodedBlock(p: Page, no: uint32, total: uint32, family: uint32)
    requires PageOk(p) && 0 <= p.addr < 0x1_0000_0000
    ensures var b := Encode(p, no, total, family);
            && HeaderOf(b).Magic() && !HeaderOf(b).NoFlash()
            && ChunkOf(b) == ChunkOfPage(p, family)
  {
    hide Encode, HeaderOf;
    EncodeFields(p, no, total, family);
    assert FLAG_FAMILY % 2 == 0 && FLAG_FAMILY / FLAG_FAMILY % 2 == 1;
  }

  /** The reader sees the writers' pages, in order, and nothing else. */
  lemma {:induction false} EncodedReadsBack(pages: seq<Page>, family: uint32, n: nat, rest: seq<byte>)
    requires Writable(pages) && n <= |pages|
    ensures var buf := Encoded(pages, family, n) + rest;
            MagicUpTo(buf, n) && Chunks(buf, n) == ChunksOf(pages, family, n)
  {
    hide HeaderOf, Encode, ChunkOf, Header.Magic, Header.NoFlash;
    if n > 0 {
      var last := Encode(pages[n - 1], n - 1, |pages|, family);
      var buf := Encoded(pages, family, n) + rest;
      assert buf == Encoded(pages, family, n - 1) + (last + rest);
      EncodedReadsBack(pages, family, n - 1, last + rest);
      EncodedBlock(pages[n - 1], n - 1, |pages|, family);
      assert BlockAt(buf, n - 1) == last;
      MagicNext(buf, n);
    }
  }

  /** Pages that follow one another with placeable gaps. */
  ghost predicate Ascending(pages: seq<Page>) {
    forall i :: 0 < i < |pages| ==> GapOk(pages[i].addr - (pages[i - 1].addr + 256))
  }

  lemma PageLength(pages: seq<Page>, i: nat)
    requires Writable(pages) && i < |pages|
    ensures |pages[i].data| == 256 && 0 <= pages[i].addr
  {
  }

  lemma AscendingIsPlaceable(pages: seq<Page>, family: uint32)
    requires Writable(pages)
    ensures Placeable(ChunksOf(pages, family, |pages|)) <==> Ascending(pages)
  {
    hide ChunksOf, PageOk, GapOk;
    var cs := ChunksOf(pages, family, |pages|);
    forall i | 0 <= i < |pages| ensures cs[i].len == 256 == |cs[i].data| {
      PageLength(pages, i);
    }
    forall i | 0 < i < |pages| ensures Gap(cs, i) == pages[i].addr - (pages[i - 1].addr + 256) {
    }
  }

  lemma PagesOfOneFamily(pages: seq<Page>, family: uint32, wanted: uint32)
    requires Writable(pages) && (wanted == family || wanted == 0)
    ensures var cs := ChunksOf(pages, family, |pages|); SingleFamily(cs) && AllTaken(wanted, cs)
    ensures pages != [] ==> ChunksOf(pages, family, |pages|)[0].addr == pages[0].addr
  {
    hide ChunksOf;
  }

  /** A written file, read back under its own family or under none: reading succeeds exactly when the
      pages ascend, and gives their image and the address of the first page. */
  lemma WrittenThenRead(pages: seq<Page>, family: uint32, wanted: uint32, base: Option<int>)
    requires Writable(pages) && (wanted == family || wanted == 0)
    ensures var r, cs := Read(wanted, base, Encoded(pages, family, |pages|)), ChunksOf(pages, family, |pages|);
            && (r.Ok? <==> Ascending(pages)) && (r.Ok? <==> Placeable(cs))
            && (r.Ok? ==> r.value.image == Image(cs))
            && (r.Ok? ==> r.value.base == if pages == [] then base else Some(pages[0].addr))
  {
    hide Encoded, Read, Chunks, ChunksOf, Image, Placeable, Ascending, SingleFamily, AllTaken;
    var n := |pages|;
    var buf := Encoded(pages, family, n);
    EncodedReadsBack(pages, family, n, []);
    PagesOfOneFamily(pages, family, wanted);
    assert buf + [] == buf;
    assert |buf| / 512 == n;
    AscendingIsPlaceable(pages, family);
    ReadPlaces(wanted, base, buf);
  }

  // ---------- the writer ----------

  /** Page i of a content: 256 bytes, zero-filled at the end. */
  function ContentPage(content: seq<byte>, base: int, i: nat): (r: Page)
    requires 256 * i <= |content|
    ensures PageOk(r)
  {
    var chunk := content[256 * i..if 256 * i + 256 <= |content| then 256 * i + 256 else |content|];
    Page(256 * i + base, chunk + Zeros(256 - |chunk|))
  }

  function PageCount(content: seq<byte>): nat { (|content| + 255) / 256 }

  function ContentPages(content: seq<byte>, base: int, n: nat): (r: seq<Page>)
    requires n <= PageCount(content)
    ensures |r| == n && forall i :: 0 <= i < n ==> r[i] == ContentPage(content, base, i)
  {
    if n == 0 then [] else ContentPages(content, base, n - 1) + [ContentPage(content, base, n - 1)]
  }

  /** convert_to_uf2: struct.pack refuses an address or a count beyond 32 bits. */
  function Write(content: seq<byte>, base: int, family: uint32): Result<seq<byte>> {
    var pages := ContentPages(content, base, PageCount(content));
    if Writable(pages) then Ok(Encoded(pages, family, |pages|)) else Err(PackError)
  }

  /** The content zero-filled to whole pages. */
  function Filled(content: seq<byte>): (r: seq<byte>)
    ensures |r| == 256 * PageCount(content)
  {
    content + Zeros(256 * PageCount(content) - |content|)
  }

  lemma {:induction false} ContentImage(content: seq<byte>, base: int, family: uint32, n: nat)
    requires n <= PageCount(content) && Writable(ContentPages(content, base, PageCount(content)))
    ensures var cs := ChunksOf(ContentPages(content, base, PageCount(content)), family, n);
            Placeable(cs) && Image(cs) == Filled(content)[..256 * n]
  {
    hide Placeable, Image, Gap, Filled, ContentPages, ChunksOf;
    var pages := ContentPages(content, base, PageCount(content));
    var cs := ChunksOf(pages, family, n);
    if n == 0 {
      PlaceableEmpty();
    } else {
      ContentImage(content, base, family, n - 1);
      assert cs[..n - 1] == ChunksOf(pages, family, n - 1);
      forall i | 0 <= i < n
        ensures base + 256 * i >= 0 && cs[i] == ChunkOfPage(ContentPage(content, base, i), family)
      {
        PageLength(pages, i);
      }
      ContentNext(content, base, family, n, cs);
      assert Filled(content)[..256 * n] == Filled(content)[..256 * (n - 1)] + Filled(content)[256 * (n - 1)..256 * n];
    }
  }

  /** Page n-1 follows the image of the pages before it without a gap. */
  lemma ContentNext(content: seq<byte>, base: int, family: uint32, n: nat, cs: seq<Chunk>)
    requires 0 < n <= PageCount(content) && |cs| == n && Placeable(cs[..n - 1])
    requires forall i :: 0 <= i < n ==>
               base + 256 * i >= 0 && cs[i] == ChunkOfPage(ContentPage(content, base, i), family)
    ensures Placeable(cs) && 256 * n <= |Filled(content)|
    ensures Image(cs) == Image(cs[..n - 1]) + Filled(content)[256 * (n - 1)..256 * n]
  {
    hide Placeable, Image, Zeros, Repeat, Filled, ContentPage, Gap;
    PageIsSlice(content, base, n - 1);
    assert cs == cs[..n - 1] + [cs[n - 1]];
    PagesFollow(content, base, family, n, cs);
    PlaceableNext(cs[..n - 1], cs[n - 1]);
    if n == 1 {
      ImageOne(cs);
      PlaceableEmpty();
    } else {
      ImageSplit(cs);
      assert Image(cs[..n - 1]) + Zeros(0) == Image(cs[..n - 1]);
    }
  }

  /** Page after page without a gap. */
  lemma PagesFollow(content: seq<byte>, base: int, family: uint32, n: nat, cs: seq<Chunk>)
    requires 0 < n <= PageCount(content) && |cs| == n
    requires forall i :: 0 <= i < n ==>
               base + 256 * i >= 0 && cs[i] == ChunkOfPage(ContentPage(content, base, i), family)
    ensures cs[n - 1].len == |cs[n - 1].data| == 256 && cs[n - 1].data == ContentPage(content, base, n - 1).data
    ensures n > 1 ==> cs[n - 1].addr == End(cs[n - 2]) && Gap(cs, n - 1) == 0
  {
    hide Zeros, Repeat;
  }

  lemma PageIsSlice(content: seq<byte>, base: int, i: nat)
    requires i < PageCount(content)
    ensures ContentPage(content, base, i).data == Filled(content)[256 * i..256 * i + 256]
  {
  }

  /** Round trip: what convert_to_uf2 wrote, read back under the same family or none, is the content
      zero-filled to a multiple of 256, at the base address. */
  lemma Uf2RoundTrip(content: seq<byte>, base: int, family: uint32, wanted: uint32, base': Option<int>)
    requires Write(content, base, family).Ok? && (wanted == family || wanted == 0)
    ensures var r := Read(wanted, base', Write(content, base, family).value);
            && r.Ok? && r.value.image == Filled(content)
            && r.value.base == if content == [] then base' else Some(base)
  {
    hide Encoded, Read, Image, Placeable;
    var n := PageCount(content);
    var pages := ContentPages(content, base, n);
    ContentImage(content, base, family, n);
    WrittenThenRead(pages, family, wanted, base');
    assert Filled(content)[..256 * n] == Filled(content);
  }

  /** Writing succeeds exactly for contents that lie within 32 bits of address. */
  lemma WritesExactly(content: seq<byte>, base: int, family: uint32)
    ensures Write(content, base, family).Ok? <==>
              content == [] || (0 <= base && base + 256 * (PageCount(content) - 1) < 0x1_0000_0000)
  {
    hide Encoded;
    var pages := ContentPages(content, base, PageCount(content));
    if content != [] {
      assert pages[0].addr == base && pages[|pages| - 1].addr == base + 256 * (|pages| - 1);
    }
  }
}
