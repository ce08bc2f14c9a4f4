/** UF2 files byte by byte, and reading files that mix blocks of several families. */
module Uf2Families {
  import opened Bytes
  import opened Options
  import opened Uf2

  // ---------- the bytes of a file ----------

  /** A written block: both start magics, the family flag, the address, 256, the block's number, the number of
      blocks, the family, the data, zeros, the end magic. */
  lemma BlockBytes(p: Page, no: uint32, total: uint32, family: uint32)
    requires PageOk(p) && 0 <= p.addr < 0x1_0000_0000
    ensures var b := Encode(p, no, total, family);
            && b[0..8] == [0x55, 0x46, 0x32, 0x0A, 0x57, 0x51, 0x5D, 0x9E]
            && b[8..12] == [0, if family != 0 then 0x20 else 0, 0, 0]
            && b[12..16] == Le32Bytes(p.addr) && b[16..20] == [0, 1, 0, 0]
            && b[20..24] == Le32Bytes(no) && b[24..28] == Le32Bytes(total) && b[28..32] == Le32Bytes(family)
            && b[32..288] == p.data && (forall i :: 288 <= i < 508 ==> b[i] == 0)
            && b[508..512] == [0x30, 0x6F, 0xB1, 0x0A]
  {
    hide Zeros, Repeat, Le32Bytes, Encode;
    MagicWords();
    BytesOfLe32([0, 1, 0, 0]);
    BytesOfLe32([0, if family != 0 then 0x20 else 0, 0, 0]);
    BlockParts(p, no, total, family);
  }

  lemma BlockParts(p: Page, no: uint32, total: uint32, family: uint32)
    requires PageOk(p) && 0 <= p.addr < 0x1_0000_0000
    ensures var b := Encode(p, no, total, family);
            && b[0..8] == Le32Bytes(MAGIC_START0) + Le32Bytes(MAGIC_START1) && b[8..12] == Le32Bytes(Flags(family))
            && b[12..16] == Le32Bytes(p.addr) && b[16..20] == Le32Bytes(256)
            && b[20..24] == Le32Bytes(no) && b[24..28] == Le32Bytes(total) && b[28..32] == Le32Bytes(family)
            && b[32..288] == p.data && (forall i :: 288 <= i < 508 ==> b[i] == 0)
            && b[508..512] == Le32Bytes(MAGIC_END)
  {
    hide Le32Bytes, Repeat, Flags;
  }

  /** Block i of a written file is page i, numbered i of as many as there are pages. */
  lemma {:induction false} FileBlock(pages: seq<Page>, family: uint32, n: nat, i: nat)
    requires Writable(pages) && i < n <= |pages|
    ensures Encoded(pages, family, n)[512 * i..512 * i + 512] == Encode(pages[i], i, |pages|, family)
  {
    hide Encode;
    if i < n - 1 {
      FileBlock(pages, family, n - 1, i);
      PrefixSlice(Encoded(pages, family, n - 1), Encode(pages[n - 1], n - 1, |pages|, family), 512 * i, 512);
    }
  }

  /** The pages of a content: page i starts at base + 256*i and has the content from there on, the last one
      filled up with zeros. */
  lemma ContentLaw(content: seq<byte>, base: int, i: nat)
    requires i < PageCount(content)
    ensures |content| <= 256 * PageCount(content) < |content| + 256
    ensures ContentPage(content, base, i).addr == base + 256 * i
    ensures forall j :: 0 <= j < 256 ==>
              ContentPage(content, base, i).data[j] == if 256 * i + j < |content| then content[256 * i + j] else 0
    ensures forall j :: 0 <= j < |Filled(content)| ==>
              Filled(content)[j] == if j < |content| then content[j] else 0
  {
  }

  /** What the reader makes of any block: the magic, the two flags, where the payload goes. */
  lemma BlockRead(block: seq<byte>)
    requires |block| == 512
    ensures HeaderOf(block).Magic() <==> block[0..8] == [0x55, 0x46, 0x32, 0x0A, 0x57, 0x51, 0x5D, 0x9E]
    ensures HeaderOf(block).NoFlash() <==> block[8] % 2 == 1
    ensures ChunkOf(block).flagged <==> block[9] / 32 % 2 == 1
    ensures var c := ChunkOf(block);
            && block[12..16] == Le32Bytes(c.addr) && block[16..20] == Le32Bytes(c.len)
            && block[28..32] == Le32Bytes(c.family) && (c.len <= 476 ==> c.data == block[32..32 + c.len])
  {
    hide Le32, Le32Bytes;
    MagicBytes(block);
    FlagBits(block);
    Le32Slice(block, 12);
    Le32Slice(block, 16);
    Le32Slice(block, 28);
    BytesOfLe32(block[12..16]);
    BytesOfLe32(block[16..20]);
    BytesOfLe32(block[28..32]);
  }

  lemma MagicBytes(block: seq<byte>)
    requires |block| == 512
    ensures HeaderOf(block).Magic() <==> block[0..8] == [0x55, 0x46, 0x32, 0x0A, 0x57, 0x51, 0x5D, 0x9E]
  {
    hide Le32, Le32Bytes;
    var m: seq<byte> := [0x55, 0x46, 0x32, 0x0A, 0x57, 0x51, 0x5D, 0x9E];
    MagicWords();
    WordBytes(block, 0, MAGIC_START0);
    WordBytes(block, 4, MAGIC_START1);
    EightBytes(block[0..8], m);
    assert block[0..8][0..4] == block[0..4] && block[0..8][4..8] == block[4..8];
    assert m[0..4] == [0x55, 0x46, 0x32, 0x0A] && m[4..8] == [0x57, 0x51, 0x5D, 0x9E];
  }

  lemma MagicWords()
    ensures Le32Bytes(MAGIC_START0) == [0x55, 0x46, 0x32, 0x0A] && Le32Bytes(MAGIC_START1) == [0x57, 0x51, 0x5D, 0x9E]
    ensures Le32Bytes(MAGIC_END) == [0x30, 0x6F, 0xB1, 0x0A]
  {
    hide Le32Bytes;
    BytesOfLe32([0x55, 0x46, 0x32, 0x0A]);
    BytesOfLe32([0x57, 0x51, 0x5D, 0x9E]);
    BytesOfLe32([0x30, 0x6F, 0xB1, 0x0A]);
  }

  lemma EightBytes(a: seq<byte>, b: seq<byte>)
    requires |a| == |b| == 8
    ensures a == b <==> a[0..4] == b[0..4] && a[4..8] == b[4..8]
  {
    assert a == a[0..4] + a[4..8] && b == b[0..4] + b[4..8];
  }

  lemma WordBytes(b: seq<byte>, off: nat, n: uint32)
    requires off + 4 <= |b|
    ensures Le32(b, off) == n <==> b[off..off + 4] == Le32Bytes(n)
  {
    hide Le32, Le32Bytes;
    Le32Slice(b, off);
    BytesOfLe32(b[off..off + 4]);
    Le32OfBytes(n);
  }

  lemma FlagBits(block: seq<byte>)
    requires |block| == 512
    ensures HeaderOf(block).NoFlash() <==> block[8] % 2 == 1
    ensures HeaderOf(block).Flagged() <==> block[9] / 32 % 2 == 1
  {
    WordBits(block[8], block[9], block[10], block[11]);
  }

  lemma WordBits(a: byte, b: byte, c: byte, d: byte)
    ensures var n := a + 0x100 * (b as int) + 0x1_0000 * (c as int) + 0x100_0000 * (d as int);
            n % 2 == a % 2 && n / 8192 % 2 == b / 32 % 2
  {
    var k := 4 * (c as int) + 1024 * (d as int);
    var q, r := b as int / 32, b as int % 32;
    Quotient(q + 2 * k, a + 256 * r);
    EvenAside(q, k);
    EvenAside(a, 128 * (b as int) + 0x8000 * (c as int) + 0x80_0000 * (d as int));
    assert b == 32 * q + r;
  }

  lemma Quotient(q: int, r: int)
    requires 0 <= r < 8192
    ensures (8192 * q + r) / 8192 == q
  {
  }

  lemma EvenAside(q: int, k: int)
    ensures (q + 2 * k) % 2 == q % 2
  {
  }

  // ---------- reading any mix of families ----------

  /** The family the reader is in behind the first n payloads: that of the last flagged one, or else the family
      word of the first. */
  function FamilyAfter(cs: seq<Chunk>, n: nat): uint32
    requires 0 < n <= |cs|
  {
    if n == 1 || cs[n - 1].flagged then cs[n - 1].family else FamilyAfter(cs, n - 1)
  }

  /** Payload i starts a new run of addresses: the first one, and any flagged with another family. */
  predicate Breaks(cs: seq<Chunk>, i: nat)
    requires i < |cs|
  {
    i == 0 || (cs[i].flagged && cs[i].family != FamilyAfter(cs, i))
  }

  /** The bytes left free before payload i: none where a run starts. */
  function Space(cs: seq<Chunk>, i: nat): int
    requires i < |cs|
  {
    if Breaks(cs, i) then 0 else cs[i].addr - (cs[i - 1].addr + cs[i - 1].len)
  }

  /** Payload i can be placed: at most 476 bytes, not before the end of the one before it in its run, whole
      words and at most ten megabytes behind it. */
  predicate Fits(cs: seq<Chunk>, i: nat)
    requires i < |cs|
  {
    cs[i].len <= 476 && |cs[i].data| == cs[i].len && 0 <= Space(cs, i) <= 10485760 && Space(cs, i) % 4 == 0
  }

  ghost predicate Laid(cs: seq<Chunk>) { forall i :: 0 <= i < |cs| ==> Fits(cs, i) }

  /** The payloads that are wanted, with the zeros of all spaces, those of other families included. */
  ghost function Taken(wanted: uint32, cs: seq<Chunk>, n: nat): seq<byte>
    requires Laid(cs) && n <= |cs|
  {
    if n == 0 then [] else
    assert Fits(cs, n - 1);
    Taken(wanted, cs, n - 1) + Zeros(Space(cs, n - 1)) + if Wants(wanted, cs[n - 1]) then cs[n - 1].data else []
  }

  /** Where the last run of the wanted family starts. */
  function BaseFrom(wanted: uint32, base: Option<int>, cs: seq<Chunk>, n: nat): Option<int>
    requires n <= |cs|
  {
    if n == 0 then base
    else if Breaks(cs, n - 1) && (wanted == 0 || wanted == cs[n - 1].family) then Some(cs[n - 1].addr)
    else BaseFrom(wanted, base, cs, n - 1)
  }

  function FamiliesOf(cs: seq<Chunk>, n: nat): set<uint32>
    requires n <= |cs|
  {
    if n == 0 then {} else FamiliesOf(cs, n - 1) + if cs[n - 1].flagged then {cs[n - 1].family} else {}
  }

  /** A longer list starts like the shorter one. */
  lemma {:induction false} PrefixAlike(cs: seq<Chunk>, c: Chunk, n: nat)
    requires n <= |cs|
    ensures n > 0 ==> FamilyAfter(cs + [c], n) == FamilyAfter(cs, n)
    ensures n < |cs| ==> Breaks(cs + [c], n) == Breaks(cs, n) && Fits(cs + [c], n) == Fits(cs, n)
    ensures n < |cs| ==> Space(cs + [c], n) == Space(cs, n)
  {
    if n > 0 { PrefixAlike(cs, c, n - 1); }
  }

  lemma {:induction false} PrefixTaken(wanted: uint32, base: Option<int>, cs: seq<Chunk>, c: Chunk, n: nat)
    requires n <= |cs| && Laid(cs) && Laid(cs + [c])
    ensures Taken(wanted, cs + [c], n) == Taken(wanted, cs, n)
    ensures BaseFrom(wanted, base, cs + [c], n) == BaseFrom(wanted, base, cs, n)
    ensures FamiliesOf(cs + [c], n) == FamiliesOf(cs, n)
  {
    hide Breaks, Space, Fits, Wants, Zeros;
    if n > 0 {
      PrefixAlike(cs, c, n - 1);
      PrefixTaken(wanted, base, cs, c, n - 1);
    }
  }

  lemma LaidNext(cs: seq<Chunk>, c: Chunk)
    ensures Laid(cs + [c]) <==> Laid(cs) && Fits(cs + [c], |cs|)
  {
    hide Fits;
    forall i | 0 <= i < |cs| ensures Fits(cs + [c], i) == Fits(cs, i) {
      PrefixAlike(cs, c, i);
    }
  }

  /** The reader's variables behind the payloads cs. */
  ghost predicate Stands(wanted: uint32, base: Option<int>, cs: seq<Chunk>, r: Reader) {
    && Laid(cs) && r.image == Taken(wanted, cs, |cs|) && r.base == BaseFrom(wanted, base, cs, |cs|)
    && r.families == FamiliesOf(cs, |cs|)
    && if cs == [] then r.curr == None && r.currFamily == None else
         r.curr == Some(End(cs[|cs| - 1])) && r.currFamily == Some(FamilyAfter(cs, |cs|))
  }

  /** The space in front of one more payload. */
  lemma NextSpace(wanted: uint32, base: Option<int>, cs: seq<Chunk>, c: Chunk, r: Reader)
    requires Stands(wanted, base, cs, r)
    ensures Breaks(cs + [c], |cs|) <==> r.curr.None? || (c.flagged && Some(c.family) != r.currFamily)
    ensures Space(cs + [c], |cs|) == if Breaks(cs + [c], |cs|) then 0 else c.addr - r.curr.value
    ensures FamilyAfter(cs + [c], |cs| + 1) ==
              if Breaks(cs + [c], |cs|) || c.flagged then c.family else r.currFamily.value
  {
    hide Taken, BaseFrom, FamiliesOf, Laid;
    PrefixAlike(cs, c, |cs|);
  }

  /** One more block. */
  lemma ReadOne(wanted: uint32, base: Option<int>, cs: seq<Chunk>, r: Reader, block: seq<byte>)
    requires |block| == 512 && HeaderOf(block).Magic() && !HeaderOf(block).NoFlash() && Stands(wanted, base, cs, r)
    ensures var all, read := cs + [ChunkOf(block)], ReadBlock(wanted, r, block);
            (read.Ok? <==> Laid(all)) && (read.Ok? ==> Stands(wanted, base, all, read.value))
  {
    hide HeaderOf, Header.Flagged, Header.NoFlash, Header.Magic, Zeros, FamilyAfter, Breaks, Laid;
    var c := ChunkOf(block);
    var all := cs + [c];
    NextSpace(wanted, base, cs, c, r);
    LaidNext(cs, c);
    if Laid(all) { PrefixTaken(wanted, base, cs, c, |cs|); }
  }

  /** Reading the first n blocks, of whatever families, succeeds exactly when all have the magic numbers and
      every payload fits its run. */
  lemma {:induction false} ReadsAny(wanted: uint32, base: Option<int>, buf: seq<byte>, n: nat)
    requires 512 * n <= |buf|
    ensures ReadUpTo(wanted, base, buf, n).Ok? <==> MagicUpTo(buf, n) && Laid(Chunks(buf, n))
    ensures ReadUpTo(wanted, base, buf, n).Ok? ==>
              Stands(wanted, base, Chunks(buf, n), ReadUpTo(wanted, base, buf, n).value)
  {
    hide HeaderOf, ReadBlock, Taken, Header.Magic, Header.NoFlash, Laid, ChunkOf, FamilyAfter, BaseFrom, FamiliesOf;
    if n == 0 {
      NothingRead(wanted, base);
    } else {
      var cs, b := Chunks(buf, n - 1), BlockAt(buf, n - 1);
      ReadsAny(wanted, base, buf, n - 1);
      MagicNext(buf, n);
      SkippedBlock(wanted, base, buf, n);
      LaidNext(cs, ChunkOf(b));
      var prev := ReadUpTo(wanted, base, buf, n - 1);
      if prev.Ok? && HeaderOf(b).Magic() && !HeaderOf(b).NoFlash() {
        ReadOne(wanted, base, cs, prev.value, b);
      }
    }
  }

  lemma NothingRead(wanted: uint32, base: Option<int>)
    ensures Laid([]) && Taken(wanted, [], 0) == [] && BaseFrom(wanted, base, [], 0) == base && FamiliesOf([], 0) == {}
  {
  }

  /** The whole of convert_from_uf2 on any file. Several families without a choice between them give an empty
      image at address 0, unless the last block is one of those that are skipped. */
  lemma ReadsAnyFile(wanted: uint32, base: Option<int>, buf: seq<byte>)
    ensures var n, r := |buf| / 512, Read(wanted, base, buf);
            var cs := Chunks(buf, n);
            && (r.Ok? <==> MagicUpTo(buf, n) && Laid(cs))
            && (r.Ok? ==>
                  if n > 0 && buf[512 * (n - 1) + 8] % 2 == 0 && |FamiliesOf(cs, |cs|)| > 1 && wanted == 0
                  then r.value.image == [] && r.value.base == Some(0)
                  else r.value.image == Taken(wanted, cs, |cs|) && r.value.base == BaseFrom(wanted, base, cs, |cs|))
  {
    hide ReadUpTo, Laid, Chunks, Taken, HeaderOf, Header.NoFlash, FamiliesOf, BaseFrom, MagicUpTo, Header.Magic;
    var n := |buf| / 512;
    ReadsAny(wanted, base, buf, n);
    if n > 0 {
      BlockRead(BlockAt(buf, n - 1));
    }
  }
}
