/** The loops of uf2conv.py, proved against the functions of Uf2 and HexImage. */
module Uf2Tool {
  import opened Bytes
  import opened Options
  import opened Uf2
  import opened HexImage

  /** b"".join(parts) */
  function Join(parts: seq<seq<byte>>): seq<byte> {
    if parts == [] then [] else Join(parts[..|parts| - 1]) + parts[|parts| - 1]
  }

  lemma JoinNext(parts: seq<seq<byte>>, p: seq<byte>)
    ensures Join(parts + [p]) == Join(parts) + p
  {
    assert (parts + [p])[..|parts|] == parts;
  }

  lemma ZerosJoin(m: nat, n: nat)
    ensures Zeros(m) + Zeros(n) == Zeros(m + n)
  {
  }

  /** class Block: a page under construction. */
  class Block {
    const addr: int
    const bytes: array<byte>

    constructor (a: int)
      ensures addr == a && bytes.Length == 256 && bytes[..] == Blank() && fresh(bytes)
    {
      addr := a;
      bytes := new byte[256](_ => 0xFF);
      new;
      assert bytes[..] == Blank();
    }

    /** Block.encode: None where struct.pack refuses a value. */
    method Encode(blockNo: nat, numBlocks: nat, family: uint32) returns (r: Option<seq<byte>>)
      requires bytes.Length == 256
      ensures r == if 0 <= addr < 0x1_0000_0000 && blockNo < 0x1_0000_0000 && numBlocks < 0x1_0000_0000
                   then Some(Uf2.Encode(Page(addr, bytes[..]), blockNo, numBlocks, family)) else None
    {
      var flags: uint32 := 0;
      if family != 0 { flags := FLAG_FAMILY; }
      if !(0 <= addr < 0x1_0000_0000 && blockNo < 0x1_0000_0000 && numBlocks < 0x1_0000_0000) { return None; }
      var hd := HeaderBytes(Header(MAGIC_START0, MAGIC_START1, flags, addr, 256, blockNo, numBlocks, family));
      ghost var head := hd + bytes[..];
      hd := hd + bytes[0..256];
      assert hd == head;
      var n := 0;
      while |hd| < 512 - 4
        invariant |hd| == 288 + n <= 508 && hd == head + Zeros(n)
      {
        hd := hd + [0];
        n := n + 1;
      }
      hd := hd + Le32Bytes(MAGIC_END);
      assert hd == head + Zeros(220) + Le32Bytes(MAGIC_END);
      return Some(hd);
    }
  }

  /** The globals of the script. */
  class Converter {
    var appstartaddr: Option<int>
    var familyid: uint32

    constructor (base: int, family: uint32)
      ensures appstartaddr == Some(base) && familyid == family
    {
      appstartaddr, familyid := Some(base), family;
    }

    /** The padding loop of the reader: four zero bytes a turn. */
    method PadTo(outp: seq<seq<byte>>, gap: nat) returns (r: seq<seq<byte>>)
      requires gap % 4 == 0
      ensures Join(r) == Join(outp) + Zeros(gap)
    {
      r := outp;
      var padding := gap;
      while padding > 0
        invariant 0 <= padding <= gap && padding % 4 == 0
        invariant Join(r) == Join(outp) + Zeros(gap - padding)
      {
        padding := padding - 4;
        JoinNext(r, Zeros(4));
        ZerosJoin(gap - padding - 4, 4);
        r := r + [[0, 0, 0, 0]];
        assert Zeros(4) == [0, 0, 0, 0];
      }
    }

    /** The families dictionary: lowest address seen of each family. */
    method NoteFamily(families: map<uint32, int>, h: Header) returns (r: map<uint32, int>)
      ensures r.Keys == if h.Flagged() then families.Keys + {h.family} else families.Keys
    {
      hide Header.Flagged;
      r := families;
      if h.Flagged() {
        if h.family in families {
          if families[h.family] > h.addr { r := families[h.family := h.addr]; }
        } else {
          r := families[h.family := h.addr];
        }
      }
    }

    /** The body of the reader's loop, up to the report on the last block. */
    method ReadOne(block: seq<byte>, curr: Option<int>, currFamily: Option<uint32>, outp: seq<seq<byte>>,
                   families: map<uint32, int>)
      returns (err: Option<Error>, curr': Option<int>, currFamily': Option<uint32>, outp': seq<seq<byte>>,
               families': map<uint32, int>)
      requires |block| == 512
      modifies this`appstartaddr
      ensures match ReadBlock(familyid, Reader(curr, currFamily, old(appstartaddr), Join(outp), families.Keys), block)
              case Err(e) => err == Some(e)
              case Ok(r) => err == None && r == Reader(curr', currFamily', appstartaddr, Join(outp'), families'.Keys)
    {
      hide HeaderOf, Header.Magic, Header.NoFlash, Header.Flagged, Join, Zeros;
      var hd := HeaderOf(block);
      err, curr', currFamily', outp', families' := None, curr, currFamily, outp, families;
      if !hd.Magic() { err := Some(BadMagic); return; }
      if hd.NoFlash() { return; }
      if hd.len > MAX_DATA { err := Some(DataTooLong); return; }
      if hd.Flagged() && currFamily' == None { currFamily' := Some(hd.family); }
      if curr' == None || (hd.Flagged() && Some(hd.family) != currFamily') {
        currFamily' := Some(hd.family);
        curr' := Some(hd.addr);
        if familyid == 0 || familyid == hd.family { appstartaddr := Some(hd.addr); }
      }
      var padding := hd.addr - curr'.value;
      if padding < 0 { err := Some(OutOfOrder); return; }
      if padding > MAX_GAP { err := Some(GapTooBig); return; }
      if padding % 4 != 0 { err := Some(OddGap); return; }
      outp' := PadTo(outp', padding);
      if familyid == 0 || (hd.Flagged() && familyid == hd.family) {
        JoinNext(outp', block[32..32 + hd.len]);
        outp' := outp' + [block[32..32 + hd.len]];
      } else {
        assert Join(outp') + [] == Join(outp');
      }
      curr' := Some(hd.addr + hd.len);
      families' := NoteFamily(families', hd);
    }

    /** convert_from_uf2: on success the image is returned and appstartaddr is the start address. */
    method ConvertFromUf2(buf: seq<byte>) returns (res: Result<seq<byte>>)
      modifies this`appstartaddr
      ensures match Read(familyid, old(appstartaddr), buf)
              case Err(e) => res == Err(e)
              case Ok(v) => res == Ok(v.image) && appstartaddr == v.base
    {
      hide HeaderOf, Header.NoFlash, ReadBlock;
      var numBlocks := |buf| / 512;
      var curr: Option<int>, currFamily: Option<uint32> := None, None;
      var families: map<uint32, int> := map[];
      var outp: seq<seq<byte>> := [];
      ghost var base := appstartaddr;
      assert families.Keys == {} && Join(outp) == [];
      var blockNo := 0;
      while blockNo < numBlocks
        invariant 0 <= blockNo <= numBlocks
        invariant blockNo < numBlocks ==>
          ReadUpTo(familyid, base, buf, blockNo)
            == Ok(Reader(curr, currFamily, appstartaddr, Join(outp), families.Keys))
        invariant blockNo == numBlocks ==>
          Read(familyid, base, buf) == Ok(Reader(curr, currFamily, appstartaddr, Join(outp), families.Keys))
      {
        var block, err := BlockAt(buf, blockNo), None;
        err, curr, currFamily, outp, families := ReadOne(block, curr, currFamily, outp, families);
        if err != None {
          ErrorStays(familyid, base, buf, blockNo + 1, numBlocks);
          return Err(err.value);
        }
        if blockNo == numBlocks - 1 && !HeaderOf(block).NoFlash() {
          KeyCount(families);
          if |families| > 1 && familyid == 0 {
            outp := [];
            appstartaddr := Some(0);
          }
        }
        blockNo := blockNo + 1;
      }
      return Ok(Join(outp));
    }

    /** The chunk loop of the writer: zero bytes up to 256. */
    method FillChunk(chunk0: seq<byte>) returns (chunk: seq<byte>)
      requires |chunk0| <= 256
      ensures chunk == chunk0 + Zeros(256 - |chunk0|)
    {
      chunk := chunk0;
      while |chunk| < 256
        invariant |chunk0| <= |chunk| <= 256 && chunk == chunk0 + Zeros(|chunk| - |chunk0|)
      {
        chunk := chunk + [0];
      }
    }

    /** The bytes behind the payload of a written block. */
    method DataPadding() returns (r: seq<byte>)
      ensures r == Zeros(220)
    {
      r := [];
      while |r| < 512 - 256 - 32 - 4
        invariant |r| % 4 == 0 && |r| <= 220 && r == Zeros(|r|)
      {
        ZerosJoin(|r|, 4);
        assert Zeros(4) == [0, 0, 0, 0];
        r := r + [0, 0, 0, 0];
      }
    }

    /** convert_to_uf2, at the base address appstartaddr. */
    method ConvertToUf2(content: seq<byte>) returns (res: Result<seq<byte>>)
      requires appstartaddr.Some?
      ensures res == Write(content, appstartaddr.value, familyid)
    {
      hide ContentPage, ContentPages, Uf2.Encode, Zeros, Repeat;
      var datapadding := DataPadding();
      var numBlocks := (|content| + 255) / 256;
      ghost var pages := ContentPages(content, appstartaddr.value, numBlocks);
      var outp: seq<seq<byte>> := [];
      var blockNo := 0;
      while blockNo < numBlocks
        invariant 0 <= blockNo <= numBlocks && (blockNo > 0 ==> numBlocks < 0x1_0000_0000)
        invariant forall i :: 0 <= i < blockNo ==> 0 <= pages[i].addr < 0x1_0000_0000
        invariant Writable(pages) ==> Join(outp) == Encoded(pages, familyid, blockNo)
      {
        var block := WriteOne(content, blockNo, numBlocks, datapadding);
        assert pages[blockNo] == ContentPage(content, appstartaddr.value, blockNo);
        if block == None { return Err(PackError); }
        JoinNext(outp, block.value);
        outp := outp + [block.value];
        blockNo := blockNo + 1;
      }
      return Ok(Join(outp));
    }

    /** One block of the writer; None where struct.pack refuses a value. */
    method WriteOne(content: seq<byte>, blockNo: nat, numBlocks: nat, datapadding: seq<byte>)
      returns (r: Option<seq<byte>>)
      requires appstartaddr.Some? && blockNo < numBlocks == PageCount(content) && datapadding == Zeros(220)
      ensures var p := ContentPage(content, appstartaddr.value, blockNo);
              r == if 0 <= p.addr < 0x1_0000_0000 && numBlocks < 0x1_0000_0000
                   then Some(Uf2.Encode(p, blockNo, numBlocks, familyid)) else None
    {
      var ptr := 256 * blockNo;
      var chunk := content[ptr..if ptr + 256 <= |content| then ptr + 256 else |content|];
      var flags: uint32 := 0;
      if familyid != 0 { flags := FLAG_FAMILY; }
      var addr := ptr + appstartaddr.value;
      if !(0 <= addr < 0x1_0000_0000 && numBlocks < 0x1_0000_0000) { return None; }
      var hd := HeaderBytes(Header(MAGIC_START0, MAGIC_START1, flags, addr, 256, blockNo, numBlocks, familyid));
      chunk := FillChunk(chunk);
      return Some(hd + chunk + datapadding + Le32Bytes(MAGIC_END));
    }

    /** The blocks hold the pages, each block in its own bytearray. */
    ghost predicate Hold(blocks: seq<Block>, pages: seq<Page>)
      reads set b | b in blocks :: b.bytes
    {
      && |blocks| == |pages|
      && (forall i :: 0 <= i < |blocks| ==>
            blocks[i].bytes.Length == 256 && blocks[i].addr == pages[i].addr && blocks[i].bytes[..] == pages[i].data)
      && (forall i, j :: 0 <= i < j < |blocks| ==> blocks[i].bytes != blocks[j].bytes)
    }

    /** One data byte of the HEX loop: into the current block, or into a new one that becomes current. */
    method PutByte(blocks: seq<Block>, ghost pages: seq<Page>, addr: nat, value: byte) returns (r: seq<Block>)
      requires Hold(blocks, pages)
      modifies set b | b in blocks :: b.bytes
      ensures Hold(r, Put(pages, ByteAt(addr, value)))
      ensures forall b :: b in r && b !in blocks ==> fresh(b.bytes)
      ensures blocks <= r
    {
      hide Blank, PageBase;
      forall i | 0 <= i < |pages| ensures PageOk(pages[i]) {
        assert |blocks[i].bytes[..]| == 256;
      }
      PageBaseFacts(addr);
      r := blocks;
      var page := PageBase(addr);
      var n := |blocks|;
      if n == 0 || blocks[n - 1].addr != page {
        var b := new Block(page);
        r := r + [b];
        b.bytes[addr % 256] := value;
      } else {
        blocks[n - 1].bytes[addr % 256] := value;
      }
      PutLast(pages, ByteAt(addr, value));
    }

    lemma PutAllSnoc(ws: seq<ByteAt>, w: ByteAt)
      ensures PutAll(ws + [w]) == Put(PutAll(ws), w)
    {
      hide Put;
      assert (ws + [w])[..|ws|] == ws;
    }

    lemma BytesFromNext(addr: nat, data: seq<byte>, k: nat)
      requires k < |data|
      ensures BytesFrom(addr, data[..k + 1]) == BytesFrom(addr, data[..k]) + [ByteAt(addr + k, data[k])]
    {
      assert data[..k + 1][..k] == data[..k];
    }

    /** The data loop over one record. */
    method PutRecord(blocks: seq<Block>, ghost ws: seq<ByteAt>, addr0: nat, rec: seq<byte>) returns (r: seq<Block>)
      requires Hold(blocks, PutAll(ws))
      modifies set b | b in blocks :: b.bytes
      ensures Hold(r, PutAll(ws + BytesFrom(addr0, DataOf(rec))))
      ensures forall b :: b in r && b !in blocks ==> fresh(b.bytes)
      ensures blocks <= r
    {
      hide Put, PutAll;
      ghost var data := DataOf(rec);
      r := blocks;
      var addr, i := addr0, 4;
      assert ws + BytesFrom(addr0, data[..0]) == ws;
      while i < |rec| - 1
        invariant 4 <= i && (i <= |rec| - 1 || (i == 4 && data == [])) && addr == addr0 + (i - 4) && i - 4 <= |data|
        invariant Hold(r, PutAll(ws + BytesFrom(addr0, data[..i - 4])))
        invariant forall b :: b in r && b !in blocks ==> fresh(b.bytes)
        invariant blocks <= r
      {
        ghost var before := ws + BytesFrom(addr0, data[..i - 4]);
        BytesFromNext(addr0, data, i - 4);
        PutAllSnoc(before, ByteAt(addr, rec[i]));
        assert before + [ByteAt(addr, rec[i])] == ws + BytesFrom(addr0, data[..i + 1 - 4]);
        r := PutByte(r, PutAll(before), addr, rec[i]);
        addr := addr + 1;
        i := i + 1;
      }
      assert data[..i - 4] == data;
    }

    /** The last loop: encode the blocks in order. */
    method EncodeAll(blocks: seq<Block>, ghost pages: seq<Page>) returns (res: Result<seq<byte>>)
      requires Hold(blocks, pages) && forall i :: 0 <= i < |pages| ==> PageOk(pages[i])
      ensures res == if Writable(pages) then Ok(Encoded(pages, familyid, |pages|)) else Err(PackError)
    {
      hide Uf2.Encode;
      var numBlocks := |blocks|;
      var resfile: seq<byte> := [];
      var i := 0;
      while i < numBlocks
        invariant 0 <= i <= numBlocks && (i > 0 ==> numBlocks < 0x1_0000_0000)
        invariant forall k :: 0 <= k < i ==> 0 <= pages[k].addr < 0x1_0000_0000
        invariant Writable(pages) ==> resfile == Encoded(pages, familyid, i)
      {
        var part := blocks[i].Encode(i, numBlocks, familyid);
        assert Page(blocks[i].addr, blocks[i].bytes[..]) == pages[i];
        if part == None { return Err(PackError); }
        resfile := resfile + part.value;
        i := i + 1;
      }
      return Ok(resfile);
    }

    /** convert_from_hex_to_uf2 on the decoded records. */
    method ConvertFromHex(recs: seq<seq<byte>>) returns (res: Result<seq<byte>>)
      modifies this`appstartaddr
      ensures res == HexToUf2(recs, familyid)
      ensures res.Ok? ==> appstartaddr == DecodeAll(recs).value.start
    {
      hide PutAll, Hold, Blank, BytesFrom, DataOf, Repeat, Zeros, Uf2.Encode, Encoded, Writable, Word16;
      appstartaddr := None;
      var upper: nat := 0;
      var blocks: seq<Block> := [];
      ghost var ws: seq<ByteAt> := [];
      NothingHeld();
      var k := 0;
      while k < |recs|
        invariant 0 <= k <= |recs| && DecodeAll(recs[..k]) == Ok(Decoded(upper, appstartaddr, ws, false))
        invariant Hold(blocks, PutAll(ws))
        invariant forall b :: b in blocks ==> fresh(b.bytes)
      {
        var rec := recs[k];
        DecodeNext(recs, k);
        if |rec| < 4 { HexErrorStays(recs, k + 1); return Err(BadRecord); }
        var tp := rec[3];
        if tp == 4 {
          if |rec| < 6 { HexErrorStays(recs, k + 1); return Err(BadRecord); }
          upper := Word16(rec, 4) * 0x1_0000;
        } else if tp == 2 {
          if |rec| < 6 { HexErrorStays(recs, k + 1); return Err(BadRecord); }
          upper := Word16(rec, 4) * 0x10;
        } else if tp == 1 {
          EndedStays(recs, k + 1);
          break;
        } else if tp == 0 {
          var addr := upper + Word16(rec, 1);
          if appstartaddr == None { appstartaddr := Some(addr); }
          blocks := PutRecord(blocks, ws, addr, rec);
          ws := ws + BytesFrom(addr, DataOf(rec));
        }
        k := k + 1;
      }
      assert recs[..|recs|] == recs;
      res := EncodeAll(blocks, PutAll(ws));
    }

    lemma NothingHeld()
      ensures Hold([], PutAll([]))
    {
    }

    lemma DecodeNext(recs: seq<seq<byte>>, k: nat)
      requires k < |recs| && DecodeAll(recs[..k]).Ok?
      ensures DecodeAll(recs[..k + 1]) == Decode(DecodeAll(recs[..k]).value, recs[k])
    {
      assert recs[..k + 1][..k] == recs[..k];
    }

    lemma {:induction false} HexErrorStays(recs: seq<seq<byte>>, k: nat)
      requires k <= |recs| && DecodeAll(recs[..k]).Err?
      ensures DecodeAll(recs) == DecodeAll(recs[..k])
    {
      if k < |recs| {
        assert recs[..|recs| - 1][..k] == recs[..k];
        HexErrorStays(recs[..|recs| - 1], k);
      } else {
        assert recs[..k] == recs;
      }
    }

    lemma {:induction false} EndedStays(recs: seq<seq<byte>>, k: nat)
      requires k <= |recs| && DecodeAll(recs[..k]).Ok? && DecodeAll(recs[..k]).value.ended
      ensures DecodeAll(recs) == DecodeAll(recs[..k])
    {
      if k < |recs| {
        assert recs[..|recs| - 1][..k] == recs[..k];
        EndedStays(recs[..|recs| - 1], k);
      } else {
        assert recs[..k] == recs;
      }
    }

    lemma KeyCount(m: map<uint32, int>)
      ensures |m| == |m.Keys|
    {
    }
  }

  /** Once a prefix of the blocks is refused, the file is. */
  lemma {:induction false} ErrorStays(wanted: uint32, base: Option<int>, buf: seq<byte>, n: nat, total: nat)
    requires n <= total == |buf| / 512 && ReadUpTo(wanted, base, buf, n).Err?
    ensures Read(wanted, base, buf) == Err(ReadUpTo(wanted, base, buf, n).error)
  {
    ErrorPrefix(wanted, base, buf, n, total);
  }

  lemma {:induction false} ErrorPrefix(wanted: uint32, base: Option<int>, buf: seq<byte>, n: nat, m: nat)
    requires n <= m && 512 * m <= |buf| && ReadUpTo(wanted, base, buf, n).Err?
    ensures ReadUpTo(wanted, base, buf, m) == ReadUpTo(wanted, base, buf, n)
  {
    if n < m { ErrorPrefix(wanted, base, buf, n, m - 1); }
  }
}
