/** The Intel HEX front end of uf2conv.py: decoded records to 256-byte pages, and what the pages
    become once written as UF2 and read back as a binary image. */
module HexImage {
  import opened Bytes
  import opened Options
  import opened Uf2

  /** One data byte and its address. */
  datatype ByteAt = ByteAt(addr: nat, value: byte)

  /** addr & ~0xff */
  function PageBase(addr: nat): nat { addr / 256 * 256 }

  function Blank(): (r: seq<byte>)
    ensures |r| == 256 && forall i :: 0 <= i < 256 ==> r[i] == 0xFF
  {
    Repeat(0xFF, 256)
  }

  /** One byte into the current page, or into a new blank page if it belongs elsewhere. Only the
      current page is looked at. */
  function Put(pages: seq<Page>, w: ByteAt): (r: seq<Page>)
    requires forall i :: 0 <= i < |pages| ==> PageOk(pages[i])
    ensures r != [] && forall i :: 0 <= i < |r| ==> PageOk(r[i])
  {
    var n := |pages|;
    if n == 0 || pages[n - 1].addr != PageBase(w.addr)
    then pages + [Page(PageBase(w.addr), Blank()[w.addr % 256 := w.value])]
    else
      assert PageOk(pages[n - 1]);
      pages[..n - 1] + [Page(pages[n - 1].addr, pages[n - 1].data[w.addr % 256 := w.value])]
  }

  /** All bytes, in order. */
  function PutAll(ws: seq<ByteAt>): (r: seq<Page>)
    ensures forall i :: 0 <= i < |r| ==> PageOk(r[i])
    ensures ws != [] ==> r != []
  {
    if ws == [] then [] else Put(PutAll(ws[..|ws| - 1]), ws[|ws| - 1])
  }

  // ---------- records ----------

  /** What the record loop keeps: the upper address bits, the start address, the bytes so far, and
      whether the end record has been met. */
  datatype Decoded = Decoded(upper: nat, start: Option<int>, bytes: seq<ByteAt>, ended: bool)

  /** The data bytes of a record, the checksum left out. */
  function DataOf(rec: seq<byte>): seq<byte> {
    if |rec| > 5 then rec[4..|rec| - 1] else []
  }

  function BytesFrom(addr: nat, data: seq<byte>): (r: seq<ByteAt>)
    ensures |r| == |data| && forall i :: 0 <= i < |r| ==> r[i] == ByteAt(addr + i, data[i])
  {
    if data == [] then [] else
    BytesFrom(addr, data[..|data| - 1]) + [ByteAt(addr + |data| - 1, data[|data| - 1])]
  }

  function Word16(rec: seq<byte>, i: nat): nat
    requires i + 1 < |rec|
  {
    0x100 * (rec[i] as int) + rec[i + 1]
  }

  /** One decoded record (count, address high and low, type, data, checksum); indexing past its end
      is an error. */
  function Decode(d: Decoded, rec: seq<byte>): Result<Decoded> {
    if d.ended then Ok(d)
    else if |rec| < 4 then Err(BadRecord)
    else if rec[3] == 4 then
      if |rec| < 6 then Err(BadRecord) else Ok(d.(upper := Word16(rec, 4) * 0x1_0000))
    else if rec[3] == 2 then
      if |rec| < 6 then Err(BadRecord) else Ok(d.(upper := Word16(rec, 4) * 0x10))
    else if rec[3] == 1 then Ok(d.(ended := true))
    else if rec[3] == 0 then
      var addr := d.upper + Word16(rec, 1);
      Ok(d.(start := if d.start == None then Some(addr) else d.start, bytes := d.bytes + BytesFrom(addr, DataOf(rec))))
    else Ok(d)
  }

  function DecodeAll(recs: seq<seq<byte>>): Result<Decoded> {
    if recs == [] then Ok(Decoded(0, None, [], false)) else
    match DecodeAll(recs[..|recs| - 1])
    case Err(e) => Err(e)
    case Ok(d) => Decode(d, recs[|recs| - 1])
  }

  /** convert_from_hex_to_uf2: the UF2 file. */
  function HexToUf2(recs: seq<seq<byte>>, family: uint32): Result<seq<byte>> {
    match DecodeAll(recs)
    case Err(e) => Err(e)
    case Ok(d) =>
      var pages := PutAll(d.bytes);
      if Writable(pages) then Ok(Encoded(pages, family, |pages|)) else Err(PackError)
  }

  // ---------- what the records mean ----------

  /** A line behind an address record: data for a 16-bit offset, with the checksum, or a record of a type
      the converter does not know. */
  datatype Line = Data(off: nat, data: seq<byte>, sum: byte) | Other(rec: seq<byte>)
  {
    predicate Sized() {
      match this
      case Data(o, d, _) => o < 65536 && |d| < 256
      case Other(rec) => |rec| >= 4 && (rec[3] == 3 || rec[3] > 4)
    }

    function Record(): (r: seq<byte>)
      requires Sized()
    {
      match this
      case Data(o, d, s) => [|d|, o / 256, o % 256, 0] + d + [s]
      case Other(rec) => rec
    }

    /** The bytes of the line, each at its own address, if offset 0 lies at origin. */
    function BytesAt(origin: nat): seq<ByteAt> {
      match this
      case Data(o, d, _) => BytesFrom(origin + o, d)
      case Other(_) => []
    }

    function StartAt(origin: nat): Option<int> {
      if Data? then Some(origin + off) else None
    }
  }

  /** An address record and the lines it holds for. Both forms carry a 16-bit word: the upper half of the
      address (extended linear) or a number of 16-byte paragraphs (extended segment). */
  datatype Segment = Segment(linear: bool, word: nat, lines: seq<Line>, sum: byte)
  {
    predicate Sized() { word < 65536 && AllSized(lines) }

    function Record(): (r: seq<byte>)
      requires Sized()
    {
      [2, 0, 0, if linear then 4 else 2, word / 256, word % 256, sum]
    }

    function Origin(): nat { if linear then 65536 * word else 16 * word }
  }

  predicate AllSized(ls: seq<Line>) { forall i :: 0 <= i < |ls| ==> ls[i].Sized() }

  function LineRecords(ls: seq<Line>): seq<seq<byte>>
    requires AllSized(ls)
  {
    if ls == [] then [] else LineRecords(ls[..|ls| - 1]) + [ls[|ls| - 1].Record()]
  }

  function LineBytes(ls: seq<Line>, origin: nat): seq<ByteAt> {
    if ls == [] then [] else LineBytes(ls[..|ls| - 1], origin) + ls[|ls| - 1].BytesAt(origin)
  }

  /** The first address that is there. */
  function Either(a: Option<int>, b: Option<int>): Option<int> { if a == None then b else a }

  function LineStart(ls: seq<Line>, origin: nat): Option<int> {
    if ls == [] then None else Either(LineStart(ls[..|ls| - 1], origin), ls[|ls| - 1].StartAt(origin))
  }

  ghost predicate SegmentsSized(xs: seq<Segment>) { forall i :: 0 <= i < |xs| ==> xs[i].Sized() }

  function AllRecords(xs: seq<Segment>): seq<seq<byte>>
    requires SegmentsSized(xs)
  {
    if xs == [] then [] else
    var x := xs[|xs| - 1];
    AllRecords(xs[..|xs| - 1]) + [x.Record()] + LineRecords(x.lines)
  }

  function AllBytes(xs: seq<Segment>): seq<ByteAt> {
    if xs == [] then [] else AllBytes(xs[..|xs| - 1]) + LineBytes(xs[|xs| - 1].lines, xs[|xs| - 1].Origin())
  }

  function AllStart(xs: seq<Segment>): Option<int> {
    if xs == [] then None else
    Either(AllStart(xs[..|xs| - 1]), LineStart(xs[|xs| - 1].lines, xs[|xs| - 1].Origin()))
  }

  /** What more bytes, the first of them at start, make of a decoder. */
  function Extended(d: Decoded, bytes: seq<ByteAt>, start: Option<int>): Decoded {
    d.(bytes := d.bytes + bytes, start := Either(d.start, start))
  }

  lemma DecodeNext(recs: seq<seq<byte>>, rec: seq<byte>)
    ensures DecodeAll(recs + [rec]) == match DecodeAll(recs) { case Ok(d) => Decode(d, rec) case Err(e) => Err(e) }
  {
    assert (recs + [rec])[..|recs|] == recs;
  }

  lemma LineDecoded(d: Decoded, l: Line)
    requires !d.ended && l.Sized()
    ensures Decode(d, l.Record()) == Ok(Extended(d, l.BytesAt(d.upper), l.StartAt(d.upper)))
  {
    hide BytesFrom;
    if l.Data? {
      var rec := l.Record();
      assert Word16(rec, 1) == l.off;
      assert DataOf(rec) == l.data;
      if l.data == [] { assert BytesFrom(d.upper + l.off, []) == []; }
    } else {
      assert d.bytes + [] == d.bytes;
    }
  }

  lemma {:induction false} LinesDecoded(recs: seq<seq<byte>>, ls: seq<Line>, d: Decoded)
    requires DecodeAll(recs) == Ok(d) && !d.ended && AllSized(ls)
    ensures DecodeAll(recs + LineRecords(ls)) == Ok(Extended(d, LineBytes(ls, d.upper), LineStart(ls, d.upper)))
  {
    hide Decode, Line.Record, Line.BytesAt, Line.StartAt, Line.Sized, DecodeAll;
    if ls == [] {
      assert recs + LineRecords(ls) == recs && d.bytes + LineBytes(ls, d.upper) == d.bytes;
    } else {
      var front, l := ls[..|ls| - 1], ls[|ls| - 1];
      var d' := Extended(d, LineBytes(front, d.upper), LineStart(front, d.upper));
      LinesDecoded(recs, front, d);
      DecodeNext(recs + LineRecords(front), l.Record());
      assert recs + LineRecords(front) + [l.Record()] == recs + LineRecords(ls);
      LineDecoded(d', l);
      assert d'.bytes + l.BytesAt(d.upper) == d.bytes + LineBytes(ls, d.upper);
    }
  }

  /** An address record and its lines add the lines' bytes at 65536 or 16 times the word plus the offset,
      whatever the upper address bits were before. */
  lemma SegmentDecoded(recs: seq<seq<byte>>, x: Segment, d: Decoded)
    requires DecodeAll(recs) == Ok(d) && !d.ended && x.Sized()
    ensures DecodeAll(recs + [x.Record()] + LineRecords(x.lines))
         == Ok(Extended(d, LineBytes(x.lines, x.Origin()), LineStart(x.lines, x.Origin())).(upper := x.Origin()))
  {
    hide LineRecords, LineBytes, LineStart, DecodeAll, AllSized;
    assert Word16(x.Record(), 4) == x.word;
    DecodeNext(recs, x.Record());
    LinesDecoded(recs + [x.Record()], x.lines, d.(upper := x.Origin()));
  }

  /** A file of lines for the first 64 kilobytes and then segments of either form is decoded to the bytes of
      those lines and segments at their addresses; the first data line gives the start address. */
  lemma {:induction false} SegmentsDecoded(first: seq<Line>, xs: seq<Segment>)
    requires AllSized(first) && SegmentsSized(xs)
    ensures var r := DecodeAll(LineRecords(first) + AllRecords(xs));
            && r.Ok? && !r.value.ended && r.value.bytes == LineBytes(first, 0) + AllBytes(xs)
            && r.value.start == Either(LineStart(first, 0), AllStart(xs))
  {
    hide LineRecords, LineBytes, LineStart, Decode, DecodeAll, Segment.Record, Segment.Origin, AllSized;
    if xs == [] {
      FirstLines(first);
      assert LineRecords(first) + AllRecords(xs) == LineRecords(first);
      assert LineBytes(first, 0) + AllBytes(xs) == LineBytes(first, 0);
    } else {
      var front, x := xs[..|xs| - 1], xs[|xs| - 1];
      SegmentsDecoded(first, front);
      var recs := LineRecords(first) + AllRecords(front);
      SegmentDecoded(recs, x, DecodeAll(recs).value);
      assert recs + [x.Record()] + LineRecords(x.lines) == LineRecords(first) + AllRecords(xs);
    }
  }

  lemma NoRecords()
    ensures DecodeAll([]) == Ok(Decoded(0, None, [], false))
  {
  }

  lemma FirstLines(first: seq<Line>)
    requires AllSized(first)
    ensures DecodeAll(LineRecords(first)) == Ok(Decoded(0, LineStart(first, 0), LineBytes(first, 0), false))
  {
    hide LineRecords, LineBytes, LineStart, AllSized, Decode, DecodeAll;
    var none: seq<seq<byte>> := [];
    NoRecords();
    LinesDecoded(none, first, Decoded(0, None, [], false));
    assert none + LineRecords(first) == LineRecords(first);
    assert [] + LineBytes(first, 0) == LineBytes(first, 0);
  }

  /** Nothing behind the end record counts. */
  lemma {:induction false} EndStops(recs: seq<seq<byte>>, end: seq<byte>, rest: seq<seq<byte>>, d: Decoded)
    requires DecodeAll(recs) == Ok(d) && !d.ended && |end| >= 4 && end[3] == 1
    ensures DecodeAll(recs + [end] + rest) == Ok(d.(ended := true))
  {
    hide DecodeAll;
    if rest == [] {
      DecodeNext(recs, end);
      assert recs + [end] + rest == recs + [end];
    } else {
      EndStops(recs, end, rest[..|rest| - 1], d);
      DecodeNext(recs + [end] + rest[..|rest| - 1], rest[|rest| - 1]);
      assert recs + [end] + rest[..|rest| - 1] + [rest[|rest| - 1]] == recs + [end] + rest;
    }
  }

  /** A HEX file written line by line is read back as its bytes at their addresses, in order, whatever the
      checksums and whatever follows the end record. */
  lemma HexRoundTrip(first: seq<Line>, xs: seq<Segment>, end: seq<byte>, rest: seq<seq<byte>>)
    requires AllSized(first) && SegmentsSized(xs) && |end| >= 4 && end[3] == 1
    ensures var r := DecodeAll(LineRecords(first) + AllRecords(xs) + [end] + rest);
            && r.Ok? && r.value.bytes == LineBytes(first, 0) + AllBytes(xs)
            && r.value.start == Either(LineStart(first, 0), AllStart(xs))
  {
    hide LineRecords, LineBytes, LineStart, AllRecords, AllBytes, AllStart, DecodeAll, AllSized;
    SegmentsDecoded(first, xs);
    var recs := LineRecords(first) + AllRecords(xs);
    EndStops(recs, end, rest, DecodeAll(recs).value);
  }

  // ---------- what the pages hold ----------

  /** Consecutive bytes stay on their page or move forward, over at most ten megabytes. */
  predicate Forward(a: ByteAt, b: ByteAt) {
    PageBase(a.addr) == PageBase(b.addr) || 0 <= PageBase(b.addr) - (PageBase(a.addr) + 256) <= MAX_GAP
  }

  ghost predicate AllForward(ws: seq<ByteAt>) {
    forall i :: 0 < i < |ws| ==> Forward(ws[i - 1], ws[i])
  }

  /** The last byte written to address a. */
  function LastAt(ws: seq<ByteAt>, a: nat): Option<byte> {
    if ws == [] then None
    else if ws[|ws| - 1].addr == a then Some(ws[|ws| - 1].value)
    else LastAt(ws[..|ws| - 1], a)
  }

  ghost predicate Touched(ws: seq<ByteAt>, page: nat) {
    exists i :: 0 <= i < |ws| && PageBase(ws[i].addr) == page
  }

  lemma PageBaseFacts(addr: nat)
    ensures PageBase(addr) % 256 == 0 && PageBase(addr) <= addr < PageBase(addr) + 256
    ensures addr == PageBase(addr) + addr % 256
  {
  }

  lemma PutKeepsAddresses(pages: seq<Page>, w: ByteAt)
    requires forall i :: 0 <= i < |pages| ==> PageOk(pages[i])
    ensures |pages| <= |Put(pages, w)| <= |pages| + 1
    ensures Put(pages, w)[|Put(pages, w)| - 1].addr == PageBase(w.addr)
    ensures forall i :: 0 <= i < |pages| ==> Put(pages, w)[i].addr == pages[i].addr
    ensures forall i :: 0 <= i < |Put(pages, w)| - 1 ==> Put(pages, w)[i] == pages[i]
  {
  }

  /** The pages are those touched, and the current page is the one of the last byte. */
  lemma {:induction false} PagesAreTouched(ws: seq<ByteAt>)
    ensures forall i :: 0 <= i < |PutAll(ws)| ==>
              PutAll(ws)[i].addr >= 0 && PutAll(ws)[i].addr % 256 == 0 && Touched(ws, PutAll(ws)[i].addr)
    ensures ws != [] ==> PutAll(ws)[|PutAll(ws)| - 1].addr == PageBase(ws[|ws| - 1].addr)
  {
    hide Put, Touched, PageBase;
    if ws != [] {
      var before, w := ws[..|ws| - 1], ws[|ws| - 1];
      assert before + [w] == ws;
      PagesAreTouched(before);
      PageBaseFacts(w.addr);
      PutKeepsAddresses(PutAll(before), w);
      TouchedGrows(before, w, PageBase(w.addr));
      var all := PutAll(ws);
      forall i | 0 <= i < |all|
        ensures all[i].addr >= 0 && all[i].addr % 256 == 0 && Touched(ws, all[i].addr)
      {
        if i < |PutAll(before)| { TouchedGrows(before, w, all[i].addr); }
      }
    }
  }

  lemma TouchedGrows(ws: seq<ByteAt>, w: ByteAt, page: nat)
    ensures Touched(ws + [w], page) <==> Touched(ws, page) || PageBase(w.addr) == page
  {
    var all := ws + [w];
    assert all[|ws|] == w;
    if Touched(ws, page) {
      var i :| 0 <= i < |ws| && PageBase(ws[i].addr) == page;
      assert all[i] == ws[i];
    }
    if Touched(all, page) {
      var i :| 0 <= i < |all| && PageBase(all[i].addr) == page;
      if i < |ws| { assert all[i] == ws[i]; }
    }
  }

  lemma PutAllNext(ws: seq<ByteAt>)
    requires ws != []
    ensures var before, w := ws[..|ws| - 1], ws[|ws| - 1];
            && before + [w] == ws && PutAll(ws) == Put(PutAll(before), w)
            && (AllForward(ws) <==> AllForward(before) && (before != [] ==> Forward(before[|before| - 1], w)))
            && (before != [] ==>
                  && PutAll(before) != []
                  && PutAll(before)[|PutAll(before)| - 1].addr == PageBase(before[|before| - 1].addr))
  {
    hide Put, Forward;
    var before, w := ws[..|ws| - 1], ws[|ws| - 1];
    PagesAreTouched(before);
    forall i | 0 < i < |before| ensures Forward(before[i - 1], before[i]) <==> Forward(ws[i - 1], ws[i]) {
    }
  }

  /** The pages can be placed by the UF2 reader exactly when the bytes never move back to an earlier
      page nor skip more than ten megabytes. */
  lemma {:induction false} PagesAscend(ws: seq<ByteAt>)
    ensures Ascending(PutAll(ws)) <==> AllForward(ws)
  {
    hide PutAll, AllForward, Ascending, Put, PageBase;
    if ws == [] {
      NoBytes(ws);
    } else {
      var before, w := ws[..|ws| - 1], ws[|ws| - 1];
      PutAllNext(ws);
      PutAscends(PutAll(before), w);
      if before == [] {
        NoBytes(before);
      } else {
        PagesAscend(before);
        PageGap(before[|before| - 1].addr, w.addr);
      }
    }
  }

  /** Distances between page bases are whole words. */
  lemma PageGap(a: nat, b: nat)
    ensures (PageBase(b) - (PageBase(a) + 256)) % 4 == 0
  {
    var qa, qb := a / 256, b / 256;
    FourTimes(64 * qb - 64 * qa - 64);
    assert PageBase(b) - (PageBase(a) + 256) == 4 * (64 * qb - 64 * qa - 64);
  }

  lemma FourTimes(k: int)
    ensures 4 * k % 4 == 0
  {
  }

  lemma NoBytes(ws: seq<ByteAt>)
    requires ws == []
    ensures PutAll(ws) == [] && AllForward(ws) && Ascending(PutAll(ws))
  {
  }

  lemma PutAscends(pages: seq<Page>, w: ByteAt)
    requires forall i :: 0 <= i < |pages| ==> PageOk(pages[i])
    ensures pages == [] ==> Ascending(Put(pages, w))
    ensures pages != [] ==>
              var last := pages[|pages| - 1].addr;
              var gap := PageBase(w.addr) - (last + 256);
              Ascending(Put(pages, w)) <==>
                Ascending(pages) && (last == PageBase(w.addr) || (0 <= gap <= MAX_GAP && gap % 4 == 0))
  {
    hide Put, PageBase, Blank;
    var all := Put(pages, w);
    PutKeepsAddresses(pages, w);
    PutLast(pages, w);
    if pages != [] && |all| > |pages| {
      assert all[|pages|].addr == PageBase(w.addr) && all[|pages| - 1].addr == pages[|pages| - 1].addr;
    }
  }

  lemma {:induction false} StrictlyAscending(pages: seq<Page>, i: nat, j: nat)
    requires Ascending(pages) && i < j < |pages|
    ensures pages[i].addr + 256 <= pages[j].addr
  {
    if i + 1 < j { StrictlyAscending(pages, i, j - 1); }
  }

  function OrBlank(b: Option<byte>): byte { if b.Some? then b.value else 0xFF }

  /** Cell o of the page holds the last byte written to its address, or 0xFF. */
  ghost predicate PageHolds(ws: seq<ByteAt>, p: Page) {
    PageOk(p) && p.addr >= 0 && forall o :: 0 <= o < 256 ==> p.data[o] == OrBlank(LastAt(ws, p.addr + o))
  }

  lemma {:induction false} NeverWritten(ws: seq<ByteAt>, a: nat)
    requires !Touched(ws, PageBase(a))
    ensures LastAt(ws, a) == None
  {
    if ws != [] {
      var before, w := ws[..|ws| - 1], ws[|ws| - 1];
      TouchedGrows(before, w, PageBase(a));
      assert before + [w] == ws;
      NeverWritten(before, a);
    }
  }

  /** Every touched page is among the pages. */
  lemma {:induction false} TouchedIsPage(ws: seq<ByteAt>, page: nat) returns (i: nat)
    requires Touched(ws, page)
    ensures i < |PutAll(ws)| && PutAll(ws)[i].addr == page
  {
    hide Put, PutAll;
    assert ws != [];
    var before, w := ws[..|ws| - 1], ws[|ws| - 1];
    PutAllNext(ws);
    TouchedGrows(before, w, page);
    PagesAreTouched(ws);
    if PageBase(w.addr) == page {
      i := |PutAll(ws)| - 1;
    } else {
      i := TouchedIsPage(before, page);
      PutKeepsAddresses(PutAll(before), w);
    }
  }

  /** The current page after a byte. */
  lemma PutLast(pages: seq<Page>, w: ByteAt)
    requires forall i :: 0 <= i < |pages| ==> PageOk(pages[i])
    ensures var r, n := Put(pages, w), |pages|;
            && n <= |r| <= n + 1 && |r| > 0 && r[|r| - 1].addr == PageBase(w.addr) && PageOk(r[|r| - 1])
            && if n == 0 || pages[n - 1].addr != PageBase(w.addr)
               then r[|r| - 1].data == Blank()[w.addr % 256 := w.value]
               else |r| == n && PageOk(pages[n - 1]) && r[|r| - 1].data == pages[n - 1].data[w.addr % 256 := w.value]
  {
    hide Blank, PageBase;
  }

  lemma PutLength(pages: seq<Page>, w: ByteAt)
    requires forall i :: 0 <= i < |pages| ==> PageOk(pages[i])
    ensures |pages| <= |Put(pages, w)| <= |pages| + 1
  {
  }

  lemma PrefixPages(ws: seq<ByteAt>)
    requires ws != [] && AllForward(ws)
    ensures AllForward(ws[..|ws| - 1]) && |PutAll(ws)| <= |PutAll(ws[..|ws| - 1])| + 1
  {
    hide PutAll, AllForward, Put, PageBase, Forward;
    PutAllNext(ws);
    PutLength(PutAll(ws[..|ws| - 1]), ws[|ws| - 1]);
  }

  /** Pages of a forward stream hold exactly its last bytes. */
  lemma {:induction false} PagesHold(ws: seq<ByteAt>, i: nat)
    requires AllForward(ws) && i < |PutAll(ws)|
    ensures PageHolds(ws, PutAll(ws)[i])
  {
    hide PutAll, AllForward, PageHolds, Put, PageBase, Forward, PageOk, Blank;
    if ws == [] {
      NoBytes(ws);
    } else {
      var before := ws[..|ws| - 1];
      PrefixPages(ws);
      if i < |PutAll(ws)| - 1 {
        PagesHold(before, i);
        EarlierPage(ws, i);
      } else {
        if PutAll(before) != [] { PagesHold(before, |PutAll(before)| - 1); }
        CurrentPage(ws);
      }
    }
  }

  /** A byte on a later page leaves what an earlier page should hold as it was. */
  lemma EarlierPage(ws: seq<ByteAt>, i: nat)
    requires ws != [] && AllForward(ws) && i < |PutAll(ws)| - 1
    requires i < |PutAll(ws[..|ws| - 1])| ==> PageHolds(ws[..|ws| - 1], PutAll(ws[..|ws| - 1])[i])
    ensures PageHolds(ws, PutAll(ws)[i])
  {
    hide PutAll, AllForward, Ascending, LastAt, Touched, OrBlank, Put;
    var before, w := ws[..|ws| - 1], ws[|ws| - 1];
    var pages, all := PutAll(before), PutAll(ws);
    PutAllNext(ws);
    PutKeepsAddresses(pages, w);
    PagesAscend(ws);
    PagesAreTouched(ws);
    StrictlyAscending(all, i, |all| - 1);
    PageBaseFacts(w.addr);
    assert i < |pages| && all[i] == pages[i];
    forall a: nat | a < pages[i].addr + 256 ensures LastAt(ws, a) == LastAt(before, a) {
      LastElsewhere(ws, a);
    }
  }

  lemma LastElsewhere(ws: seq<ByteAt>, a: nat)
    requires ws != [] && ws[|ws| - 1].addr != a
    ensures LastAt(ws, a) == LastAt(ws[..|ws| - 1], a)
  {
  }

  /** The current page takes the byte; if it is new, nothing was written on it before. */
  lemma CurrentPage(ws: seq<ByteAt>)
    requires ws != [] && AllForward(ws)
    requires var pages := PutAll(ws[..|ws| - 1]);
             pages != [] ==> PageHolds(ws[..|ws| - 1], pages[|pages| - 1])
    ensures PutAll(ws) != [] && PageHolds(ws, PutAll(ws)[|PutAll(ws)| - 1])
  {
    hide Put, PutAll, AllForward, Ascending, Touched, PageBase, Forward, LastAt, OrBlank, Blank;
    var before, w := ws[..|ws| - 1], ws[|ws| - 1];
    var pages, all := PutAll(before), PutAll(ws);
    PutAllNext(ws);
    PageBaseFacts(w.addr);
    PutLast(pages, w);
    var base := PageBase(w.addr);
    var n := |pages|;
    if n == 0 || pages[n - 1].addr != base {
      FreshPage(ws);
    }
    var current := all[|all| - 1].data;
    forall o | 0 <= o < 256 ensures current[o] == OrBlank(LastAt(ws, base + o)) {
      if n == 0 || pages[n - 1].addr != base {
        FreshCell(ws, base, o);
      } else {
        UpdatedCell(ws, pages[n - 1].data, base, o);
      }
    }
  }

  /** A cell of a page that has only the newest byte on it. */
  lemma FreshCell(ws: seq<ByteAt>, base: nat, o: nat)
    requires ws != [] && PageBase(ws[|ws| - 1].addr) == base && o < 256
    requires !Touched(ws[..|ws| - 1], base)
    ensures var w := ws[|ws| - 1]; Blank()[w.addr % 256 := w.value][o] == OrBlank(LastAt(ws, base + o))
  {
    var w := ws[|ws| - 1];
    PageBaseFacts(w.addr);
    SamePage(base, o);
    NeverWritten(ws[..|ws| - 1], base + o);
  }

  /** A cell of a page that takes one more byte. */
  lemma UpdatedCell(ws: seq<ByteAt>, data: seq<byte>, base: nat, o: nat)
    requires ws != [] && PageBase(ws[|ws| - 1].addr) == base && o < 256 == |data|
    requires data[o] == OrBlank(LastAt(ws[..|ws| - 1], base + o))
    ensures var w := ws[|ws| - 1]; data[w.addr % 256 := w.value][o] == OrBlank(LastAt(ws, base + o))
  {
    PageBaseFacts(ws[|ws| - 1].addr);
  }

  lemma SamePage(base: nat, o: nat)
    requires base % 256 == 0 && o < 256
    ensures PageBase(base + o) == base
  {
  }

  /** A new page of a forward stream has not been touched before. */
  lemma FreshPage(ws: seq<ByteAt>)
    requires ws != [] && AllForward(ws)
    requires var pages := PutAll(ws[..|ws| - 1]);
             pages == [] || pages[|pages| - 1].addr != PageBase(ws[|ws| - 1].addr)
    ensures !Touched(ws[..|ws| - 1], PageBase(ws[|ws| - 1].addr))
  {
    hide PutAll, AllForward, Ascending;
    var before, w := ws[..|ws| - 1], ws[|ws| - 1];
    var pages, all := PutAll(before), PutAll(ws);
    PutAllNext(ws);
    PagesAscend(ws);
    PutKeepsAddresses(pages, w);
    if Touched(before, PageBase(w.addr)) {
      var i := TouchedIsPage(before, PageBase(w.addr));
      StrictlyAscending(all, i, |all| - 1);
    }
  }

  // ---------- HEX to UF2 to BIN ----------

  /** What address a of the final image should hold. */
  ghost function Expected(ws: seq<ByteAt>, a: nat): byte {
    var last := LastAt(ws, a);
    if last.Some? then last.value else if Touched(ws, PageBase(a)) then 0xFF else 0
  }

  lemma {:induction false} FirstPage(ws: seq<ByteAt>)
    requires ws != []
    ensures PutAll(ws) != [] && PutAll(ws)[0].addr == PageBase(ws[0].addr)
  {
    hide PutAll, Put;
    PutAllNext(ws);
    PagesAreTouched(ws);
    var before := ws[..|ws| - 1];
    if before == [] {
      NoBytes(before);
      OnePut(ws[0]);
    } else {
      FirstPage(before);
      PutKeepsAddresses(PutAll(before), ws[|ws| - 1]);
    }
  }

  lemma OnePut(w: ByteAt)
    ensures |Put([], w)| == 1
  {
  }

  /** The byte of the image at an address of page i. */
  lemma PageInImage(ws: seq<ByteAt>, family: uint32, i: nat, k: nat)
    requires AllForward(ws) && Writable(PutAll(ws)) && i < |PutAll(ws)|
    requires var cs := ChunksOf(PutAll(ws), family, |PutAll(ws)|); Placeable(cs) && k < |Image(cs)|
    requires PutAll(ws)[i].addr == PageBase(PutAll(ws)[0].addr + k)
    ensures var cs := ChunksOf(PutAll(ws), family, |PutAll(ws)|);
            Image(cs)[k] == OrBlank(LastAt(ws, PutAll(ws)[0].addr + k))
  {
    hide Image, Placeable, PutAll, AllForward, LastAt;
    var pages := PutAll(ws);
    var cs := ChunksOf(pages, family, |pages|);
    var a := pages[0].addr + k;
    PageBaseFacts(a);
    PagesHold(ws, i);
    ImageHolds(cs, i);
    var at, o := cs[i].addr - cs[0].addr, a - pages[i].addr;
    assert cs[i].len == 256;
    assert Image(cs)[at..at + 256][o] == Image(cs)[k];
  }

  /** One byte of the image. */
  lemma ImageByte(ws: seq<ByteAt>, family: uint32, k: nat)
    requires ws != [] && AllForward(ws) && Writable(PutAll(ws))
    requires var cs := ChunksOf(PutAll(ws), family, |PutAll(ws)|); Placeable(cs) && k < |Image(cs)|
    ensures var cs := ChunksOf(PutAll(ws), family, |PutAll(ws)|);
            Image(cs)[k] == Expected(ws, PageBase(ws[0].addr) + k)
  {
    hide Image, Placeable, PutAll, AllForward, LastAt, Touched;
    var pages := PutAll(ws);
    var cs := ChunksOf(pages, family, |pages|);
    FirstPage(ws);
    var a := pages[0].addr + k;
    if Touched(ws, PageBase(a)) {
      var i := TouchedIsPage(ws, PageBase(a));
      PageInImage(ws, family, i, k);
    } else {
      NeverWritten(ws, a);
      var i := ImageCoveredOrZero(cs, k);
      PagesAreTouched(ws);
      if Covers(cs, i, k) {
        SamePage(pages[i].addr, a - pages[i].addr);
      }
    }
  }

  /** Extent and contents of the image of a forward stream. */
  lemma WholeImage(ws: seq<ByteAt>, family: uint32)
    requires ws != [] && AllForward(ws) && Writable(PutAll(ws))
    requires Placeable(ChunksOf(PutAll(ws), family, |PutAll(ws)|))
    ensures PutAll(ws) != [] && PutAll(ws)[0].addr == PageBase(ws[0].addr)
    ensures var image := Image(ChunksOf(PutAll(ws), family, |PutAll(ws)|));
            && |image| == PageBase(ws[|ws| - 1].addr) + 256 - PageBase(ws[0].addr)
            && forall k :: 0 <= k < |image| ==> image[k] == Expected(ws, PageBase(ws[0].addr) + k)
  {
    hide Image, Placeable, PutAll, AllForward, Expected, PageBase;
    var pages := PutAll(ws);
    var cs := ChunksOf(pages, family, |pages|);
    FirstPage(ws);
    PagesAreTouched(ws);
    ImageLength(cs);
    forall k | 0 <= k < |Image(cs)| ensures Image(cs)[k] == Expected(ws, PageBase(ws[0].addr) + k) {
      ImageByte(ws, family, k);
    }
  }

  // ---------- when writing succeeds ----------

  /** The record does not make the reader index past its end. */
  predicate RecordOk(rec: seq<byte>) {
    |rec| >= 4 && (rec[3] == 4 || rec[3] == 2 ==> |rec| >= 6)
  }

  predicate EndsAt(recs: seq<seq<byte>>, i: nat) {
    i < |recs| && |recs[i]| >= 4 && recs[i][3] == 1
  }

  /** No end record comes before record i. */
  ghost predicate Reached(recs: seq<seq<byte>>, i: nat) {
    forall j :: 0 <= j < i ==> !EndsAt(recs, j)
  }

  /** The records up to the first end record are all readable. */
  ghost predicate AllOk(recs: seq<seq<byte>>) {
    forall i :: 0 <= i < |recs| && Reached(recs, i) ==> RecordOk(recs[i])
  }

  lemma {:induction false} DecodesExactly(recs: seq<seq<byte>>)
    ensures DecodeAll(recs).Ok? <==> AllOk(recs)
    ensures DecodeAll(recs).Ok? ==> (DecodeAll(recs).value.ended <==> !Reached(recs, |recs|))
  {
    if recs == [] {
    } else {
      var front, n := recs[..|recs| - 1], |recs| - 1;
      DecodesExactly(front);
      assert forall i :: 0 <= i < n ==> front[i] == recs[i] && (EndsAt(front, i) <==> EndsAt(recs, i));
      assert forall i :: 0 <= i <= n ==> (Reached(front, i) <==> Reached(recs, i));
      assert AllOk(recs) <==> AllOk(front) && (Reached(recs, n) ==> RecordOk(recs[n]));
      assert !Reached(recs, n + 1) <==> !Reached(recs, n) || EndsAt(recs, n);
    }
  }

  /** Every byte's page is a page, and every page is some byte's. */
  lemma PagesInRange(ws: seq<ByteAt>)
    ensures Writable(PutAll(ws)) <==>
              |PutAll(ws)| < 0x1_0000_0000 && forall i :: 0 <= i < |ws| ==> ws[i].addr < 0x1_0000_0000
  {
    hide PutAll;
    var pages := PutAll(ws);
    PagesAreTouched(ws);
    forall i | 0 <= i < |ws| ensures exists k :: 0 <= k < |pages| && pages[k].addr == PageBase(ws[i].addr) {
      assert Touched(ws, PageBase(ws[i].addr));
      var k := TouchedIsPage(ws, PageBase(ws[i].addr));
    }
    forall i | 0 <= i < |ws| ensures PageBase(ws[i].addr) < 0x1_0000_0000 <==> ws[i].addr < 0x1_0000_0000 {
      PageBaseFacts(ws[i].addr);
    }
  }

  /** convert_from_hex_to_uf2 succeeds exactly when every record up to the first end record is long
      enough, and all addresses and the number of pages fit 32 bits. */
  lemma HexWritesExactly(recs: seq<seq<byte>>, family: uint32)
    ensures HexToUf2(recs, family).Ok? <==>
              && AllOk(recs) && DecodeAll(recs).Ok?
              && var ws := DecodeAll(recs).value.bytes;
                 |PutAll(ws)| < 0x1_0000_0000 && forall i :: 0 <= i < |ws| ==> ws[i].addr < 0x1_0000_0000
  {
    hide PutAll, DecodeAll, Encoded, Writable;
    DecodesExactly(recs);
    if DecodeAll(recs).Ok? { PagesInRange(DecodeAll(recs).value.bytes); }
  }

  /** HEX to UF2 to BIN: the written file can be read back exactly when the bytes never move back to
      an earlier page nor skip more than ten megabytes. The image then starts at the page of the
      first byte, ends with the page of the last one, and holds at every address the last byte
      written there, 0xFF elsewhere in touched pages, and 0 in untouched ones. */
  lemma HexToBin(recs: seq<seq<byte>>, family: uint32, wanted: uint32, base: Option<int>)
    requires HexToUf2(recs, family).Ok? && (wanted == family || wanted == 0)
    ensures var ws := DecodeAll(recs).value.bytes;
            var r := Read(wanted, base, HexToUf2(recs, family).value);
            && (r.Ok? <==> AllForward(ws))
            && (r.Ok? && ws == [] ==> r.value.image == [])
            && (r.Ok? && ws != [] ==>
                  && r.value.base == Some(PageBase(ws[0].addr))
                  && |r.value.image| == PageBase(ws[|ws| - 1].addr) + 256 - PageBase(ws[0].addr)
                  && forall k :: 0 <= k < |r.value.image| ==>
                       r.value.image[k] == Expected(ws, PageBase(ws[0].addr) + k))
  {
    hide Encoded, Read, Image, Placeable, PutAll, ChunksOf, AllForward, Expected, Ascending, PageBase;
    var ws := DecodeAll(recs).value.bytes;
    var pages := PutAll(ws);
    var cs := ChunksOf(pages, family, |pages|);
    WrittenThenRead(pages, family, wanted, base);
    PagesAscend(ws);
    if ws == [] {
      NoBytes(ws);
      PlaceableEmpty();
    } else if AllForward(ws) {
      WholeImage(ws, family);
    }
  }
}
