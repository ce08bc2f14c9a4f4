/** The packed records of tinymaix.h written field after field, as a C compiler lays them out, and read
    back by the offsets the model uses. */
module Records {
  import opened Bytes
  import opened ConvolutionSpec
  import opened Convolution
  import opened FloatWords
  import opened Layers
  import opened Model
  import opened ModelRuns

  function Le16Bytes(n: nat): (r: seq<byte>)
    requires n < 0x1_0000
    ensures |r| == 2
  {
    [n % 0x100, n / 0x100]
  }

  lemma Word16At(s: seq<byte>, off: nat, n: nat)
    requires n < 0x1_0000 && off + 2 <= |s| && s[off..off + 2] == Le16Bytes(n)
    ensures Le16(s, off) == n
  {
    assert s[off] == Le16Bytes(n)[0] && s[off + 1] == Le16Bytes(n)[1];
  }

  lemma Word32At(s: seq<byte>, off: nat, n: uint32)
    requires off + 4 <= |s| && s[off..off + 4] == Le32Bytes(n)
    ensures Le32(s, off) == n
  {
    hide Le32, Le32Bytes;
    Le32Slice(s, off);
    Le32OfBytes(n);
  }

  lemma Part(s: seq<byte>, o: nat, d: seq<byte>, i: nat, j: nat)
    requires o + |d| <= |s| && s[o..o + |d|] == d && i <= j <= |d|
    ensures s[o + i..o + j] == d[i..j]
  {
    forall k | i <= k < j ensures s[o + k] == d[k] {
      assert s[o..o + |d|][k] == s[o + k];
    }
  }

  /** uint16_t dims[4]: the number of dimensions, then height, width and channels. */
  function DimsBytes(dims: nat, m: Mat): (r: seq<byte>)
    requires dims < 0x1_0000 && m.h < 0x1_0000 && m.w < 0x1_0000 && m.c < 0x1_0000
    ensures |r| == 8
  {
    Le16Bytes(dims) + Le16Bytes(m.h) + Le16Bytes(m.w) + Le16Bytes(m.c)
  }

  lemma DimsRead(s: seq<byte>, off: nat, dims: nat, m: Mat)
    requires dims < 0x1_0000 && m.h < 0x1_0000 && m.w < 0x1_0000 && m.c < 0x1_0000
    requires off + 8 <= |s| && s[off..off + 8] == DimsBytes(dims, m)
    ensures DimsAt(s, off, m.data) == m
  {
    hide Le16, Le16Bytes;
    var d := DimsBytes(dims, m);
    assert d[2..4] == Le16Bytes(m.h) && d[4..6] == Le16Bytes(m.w) && d[6..8] == Le16Bytes(m.c);
    Part(s, off, d, 2, 4); Part(s, off, d, 4, 6); Part(s, off, d, 6, 8);
    Word16At(s, off + 2, m.h);
    Word16At(s, off + 4, m.w);
    Word16At(s, off + 6, m.c);
  }

  // ---------- the model header ----------

  /** The fields of a tm_mdlbin_t, in its order; reserve fills it up to 64 bytes. */
  datatype MdlBin = MdlBin(magic: uint32, kind: byte, outDeq: byte, inputCnt: nat, outputCnt: nat, layerCnt: nat,
                           bufSize: uint32, subSize: uint32, inDims: Mat, outDims: Mat, reserve: seq<byte>)
  {
    predicate Sized() {
      && inputCnt < 0x1_0000 && outputCnt < 0x1_0000 && layerCnt < 0x1_0000 && |reserve| == 28
      && inDims.h < 0x1_0000 && inDims.w < 0x1_0000 && inDims.c < 0x1_0000 && inDims.data == 0
      && outDims.h < 0x1_0000 && outDims.w < 0x1_0000 && outDims.c < 0x1_0000
    }
  }

  function CountBytes(m: MdlBin): (r: seq<byte>)
    requires m.Sized()
    ensures |r| == 20
  {
    Le32Bytes(m.magic) + [m.kind, m.outDeq] + Le16Bytes(m.inputCnt) + Le16Bytes(m.outputCnt) + Le16Bytes(m.layerCnt)
    + Le32Bytes(m.bufSize) + Le32Bytes(m.subSize)
  }

  function MdlBytes(m: MdlBin, inRank: nat, outRank: nat): (r: seq<byte>)
    requires m.Sized() && inRank < 0x1_0000 && outRank < 0x1_0000
    ensures |r| == 64
  {
    CountBytes(m) + DimsBytes(inRank, m.inDims) + DimsBytes(outRank, m.outDims) + m.reserve
  }

  lemma CountsRead(s: seq<byte>, m: MdlBin)
    requires m.Sized() && |s| >= 64 && s[0..20] == CountBytes(m)
    ensures MdlMagic(s) == m.magic && MdlType(s) == m.kind && OutDeq(s) == m.outDeq
    ensures LayerCnt(s) == m.layerCnt && SubSize(s) == m.subSize
  {
    hide Le16, Le16Bytes, Le32, Le32Bytes;
    var d := CountBytes(m);
    assert d[0..4] == Le32Bytes(m.magic) && d[10..12] == Le16Bytes(m.layerCnt) && d[16..20] == Le32Bytes(m.subSize);
    Part(s, 0, d, 0, 4); Part(s, 0, d, 10, 12); Part(s, 0, d, 16, 20);
    Word32At(s, 0, m.magic);
    Word16At(s, 10, m.layerCnt);
    Word32At(s, 16, m.subSize);
    assert s[4] == s[0..20][4] && s[5] == s[0..20][5];
  }

  /** A model header is read back field by field, and the layers start behind it. */
  lemma MdlRoundTrip(m: MdlBin, inRank: nat, outRank: nat, layers: seq<byte>)
    requires m.Sized() && inRank < 0x1_0000 && outRank < 0x1_0000
    ensures var s := MdlBytes(m, inRank, outRank) + layers;
            && MdlMagic(s) == m.magic && MdlType(s) == m.kind && OutDeq(s) == m.outDeq
            && LayerCnt(s) == m.layerCnt && SubSize(s) == m.subSize && InDims(s) == m.inDims && s[HEADER..] == layers
  {
    hide CountBytes, DimsBytes, DimsAt, LayerCnt, SubSize, MdlMagic;
    var s := MdlBytes(m, inRank, outRank) + layers;
    assert s[0..20] == CountBytes(m) && s[20..28] == DimsBytes(inRank, m.inDims);
    CountsRead(s, m);
    DimsRead(s, 20, inRank, m.inDims);
  }

  // ---------- the layer head ----------

  /** The field widths of a head, and the zero points as the words they are stored in. */
  predicate HeadSized(h: Head) {
    && h.kind < 0x1_0000 && h.isOut < 0x1_0000 && h.size < 0x1_0000_0000
    && h.inOft == h.inDims.data < 0x1_0000_0000 && h.outOft == h.outDims.data < 0x1_0000_0000
    && h.inDims.h < 0x1_0000 && h.inDims.w < 0x1_0000 && h.inDims.c < 0x1_0000
    && h.outDims.h < 0x1_0000 && h.outDims.w < 0x1_0000 && h.outDims.c < 0x1_0000
    && -0x8000_0000 <= h.inZp < 0x8000_0000 && -0x8000_0000 <= h.outZp < 0x8000_0000
  }

  /** The three groups of a tml_head_t: what and where, the shapes, the scales. */
  function PlaceBytes(h: Head): (r: seq<byte>)
    requires HeadSized(h)
    ensures |r| == 16
  {
    Le16Bytes(h.kind) + Le16Bytes(h.isOut) + Le32Bytes(h.size) + Le32Bytes(h.inOft) + Le32Bytes(h.outOft)
  }

  function ScaleBytes(h: Head): (r: seq<byte>)
    requires HeadSized(h)
    ensures |r| == 16
  {
    Le32Bytes(h.inS) + Le32Bytes(ToUint32(h.inZp)) + Le32Bytes(h.outS) + Le32Bytes(ToUint32(h.outZp))
  }

  function HeadBytes(h: Head, dims: nat): (r: seq<byte>)
    requires HeadSized(h) && dims < 0x1_0000
    ensures |r| == HEAD
  {
    PlaceBytes(h) + DimsBytes(dims, h.inDims) + DimsBytes(dims, h.outDims) + ScaleBytes(h)
  }

  lemma PlaceRead(s: seq<byte>, o: nat, h: Head)
    requires HeadSized(h) && o + 16 <= |s| && s[o..o + 16] == PlaceBytes(h)
    ensures Le16(s, o) == h.kind && Le16(s, o + 2) == h.isOut && Le32(s, o + 4) == h.size
    ensures Le32(s, o + 8) == h.inOft && Le32(s, o + 12) == h.outOft
  {
    hide Le16, Le16Bytes, Le32, Le32Bytes;
    var d := PlaceBytes(h);
    assert d[0..2] == Le16Bytes(h.kind) && d[2..4] == Le16Bytes(h.isOut) && d[4..8] == Le32Bytes(h.size);
    assert d[8..12] == Le32Bytes(h.inOft) && d[12..16] == Le32Bytes(h.outOft);
    Part(s, o, d, 0, 2); Part(s, o, d, 2, 4); Part(s, o, d, 4, 8); Part(s, o, d, 8, 12); Part(s, o, d, 12, 16);
    Word16At(s, o, h.kind);
    Word16At(s, o + 2, h.isOut);
    Word32At(s, o + 4, h.size);
    Word32At(s, o + 8, h.inOft);
    Word32At(s, o + 12, h.outOft);
  }

  lemma ScalesRead(s: seq<byte>, o: nat, h: Head)
    requires HeadSized(h) && o + 16 <= |s| && s[o..o + 16] == ScaleBytes(h)
    ensures Le32(s, o) == h.inS && ToInt32(Le32(s, o + 4)) == h.inZp
    ensures Le32(s, o + 8) == h.outS && ToInt32(Le32(s, o + 12)) == h.outZp
  {
    hide Le32, Le32Bytes;
    var d := ScaleBytes(h);
    assert d[0..4] == Le32Bytes(h.inS) && d[4..8] == Le32Bytes(ToUint32(h.inZp));
    assert d[8..12] == Le32Bytes(h.outS) && d[12..16] == Le32Bytes(ToUint32(h.outZp));
    Part(s, o, d, 0, 4); Part(s, o, d, 4, 8); Part(s, o, d, 8, 12); Part(s, o, d, 12, 16);
    Word32At(s, o, h.inS);
    Word32At(s, o + 4, ToUint32(h.inZp));
    Word32At(s, o + 8, h.outS);
    Word32At(s, o + 12, ToUint32(h.outZp));
  }

  /** A layer head at offset o is read back field by field. */
  lemma HeadRead(s: seq<byte>, o: nat, h: Head, dims: nat)
    requires HeadSized(h) && dims < 0x1_0000
    requires o + 48 <= |s| && s[o..o + 48] == HeadBytes(h, dims)
    ensures HeadAt(s, o) == h
  {
    hide PlaceBytes, DimsBytes, ScaleBytes, Le16, Le32, DimsAt, ToInt32;
    var b := HeadBytes(h, dims);
    assert b[0..16] == PlaceBytes(h) && b[16..24] == DimsBytes(dims, h.inDims);
    assert b[24..32] == DimsBytes(dims, h.outDims) && b[32..48] == ScaleBytes(h);
    Part(s, o, b, 0, 16); Part(s, o, b, 16, 24); Part(s, o, b, 24, 32); Part(s, o, b, 32, 48);
    PlaceRead(s, o, h);
    DimsRead(s, o + 16, dims, h.inDims);
    DimsRead(s, o + 24, dims, h.outDims);
    ScalesRead(s, o + 32, h);
  }

  /** So is one anywhere in a model. */
  lemma HeadRoundTrip(before: seq<byte>, h: Head, dims: nat, behind: seq<byte>)
    requires HeadSized(h) && dims < 0x1_0000
    ensures HeadAt(before + HeadBytes(h, dims) + behind, |before|) == h
  {
    hide HeadBytes, HeadAt;
    HeadRead(before + HeadBytes(h, dims) + behind, |before|, h, dims);
  }

  // ---------- the layers behind their heads ----------

  predicate ConvSized(l: Conv) {
    && l.kw < 0x100 && l.kh < 0x100 && l.sx < 0x100 && l.sy < 0x100 && l.dx < 0x100 && l.dy < 0x100
    && l.act < 0x1_0000 && l.padTop < 0x100 && l.padBottom < 0x100 && l.padLeft < 0x100 && l.padRight < 0x100
    && l.dmul < 0x1_0000_0000
  }

  /** Kernel, stride, dilation, activation and padding of a tml_conv2d_dw_t. */
  function GeometryBytes(l: Conv): (r: seq<byte>)
    requires ConvSized(l)
    ensures |r| == 12
  {
    [l.kw, l.kh, l.sx, l.sy, l.dx, l.dy] + Le16Bytes(l.act) + [l.padTop, l.padBottom, l.padLeft, l.padRight]
  }

  /** Its depth multiplier, a reserved word, and the offsets of weight scales, weights and biases. */
  function TableBytes(dmul: uint32, reserve: uint32, wsOft: uint32, wOft: uint32, bOft: uint32): (r: seq<byte>)
    ensures |r| == 20
  {
    Le32Bytes(dmul) + Le32Bytes(reserve) + Le32Bytes(wsOft) + Le32Bytes(wOft) + Le32Bytes(bOft)
  }

  lemma GeometryRead(s: seq<byte>, p: nat, l: Conv)
    requires ConvSized(l) && p + 12 <= |s| && s[p..p + 12] == GeometryBytes(l)
    ensures s[p] == l.kw && s[p + 1] == l.kh && s[p + 2] == l.sx && s[p + 3] == l.sy
    ensures s[p + 4] == l.dx && s[p + 5] == l.dy
    ensures Le16(s, p + 6) == l.act
    ensures s[p + 8] == l.padTop && s[p + 9] == l.padBottom && s[p + 10] == l.padLeft && s[p + 11] == l.padRight
  {
    hide Le16, Le16Bytes;
    var d := GeometryBytes(l);
    assert d[6..8] == Le16Bytes(l.act);
    Part(s, p, d, 6, 8);
    Word16At(s, p + 6, l.act);
    assert s[p] == d[0] && s[p + 1] == d[1] && s[p + 2] == d[2] && s[p + 3] == d[3];
    assert s[p + 4] == d[4] && s[p + 5] == d[5];
    assert s[p + 8] == d[8] && s[p + 9] == d[9] && s[p + 10] == d[10] && s[p + 11] == d[11];
  }

  lemma TablesRead(s: seq<byte>, p: nat, dmul: uint32, reserve: uint32, wsOft: uint32, wOft: uint32, bOft: uint32)
    requires p + 20 <= |s| && s[p..p + 20] == TableBytes(dmul, reserve, wsOft, wOft, bOft)
    ensures Le32(s, p) == dmul && Le32(s, p + 8) == wsOft && Le32(s, p + 12) == wOft && Le32(s, p + 16) == bOft
  {
    hide Le32, Le32Bytes;
    var d := TableBytes(dmul, reserve, wsOft, wOft, bOft);
    assert d[0..4] == Le32Bytes(dmul) && d[8..12] == Le32Bytes(wsOft);
    assert d[12..16] == Le32Bytes(wOft) && d[16..20] == Le32Bytes(bOft);
    Part(s, p, d, 0, 4); Part(s, p, d, 8, 12); Part(s, p, d, 12, 16); Part(s, p, d, 16, 20);
    Word32At(s, p, dmul);
    Word32At(s, p + 8, wsOft);
    Word32At(s, p + 12, wOft);
    Word32At(s, p + 16, bOft);
  }

  /** A convolution record behind its head gives back its geometry and the offsets of its tables. */
  lemma ConvRoundTrip(before: seq<byte>, h: Head, i: Mat, l: Conv, reserve: uint32, wsOft: uint32, wOft: uint32,
                      bOft: uint32, behind: seq<byte>)
    requires ConvSized(l) && |before| >= HEAD
    requires l.ih == i.h && l.iw == i.w && l.ic == i.c && l.inZp == h.inZp && l.outZp == h.outZp
    requires l.oh == h.outDims.h && l.ow == h.outDims.w && l.oc == h.outDims.c
    requires l.w == [] && l.b == [] && l.sumScale == [] && l.outScale == 0
    ensures var o := |before| - HEAD;
            var s := before + GeometryBytes(l) + TableBytes(l.dmul, reserve, wsOft, wOft, bOft) + behind;
            && ConvShape(s, o, h, i) == l
            && Le32(s, o + 68) == wsOft && Le32(s, o + 72) == wOft && Le32(s, o + 76) == bOft
  {
    hide Le16, Le32, GeometryBytes, TableBytes;
    var p, tables := |before|, TableBytes(l.dmul, reserve, wsOft, wOft, bOft);
    var s := before + GeometryBytes(l) + tables + behind;
    assert s[p..p + 12] == GeometryBytes(l) && s[p + 12..p + 32] == tables;
    GeometryRead(s, p, l);
    TablesRead(s, p + 12, l.dmul, reserve, wsOft, wOft, bOft);
  }

  /** Four words in a row. */
  function FourWords(a: uint32, b: uint32, c: uint32, d: uint32): (r: seq<byte>)
    ensures |r| == 16
  {
    Le32Bytes(a) + Le32Bytes(b) + Le32Bytes(c) + Le32Bytes(d)
  }

  lemma FourRead(s: seq<byte>, p: nat, a: uint32, b: uint32, c: uint32, d: uint32)
    requires p + 16 <= |s| && s[p..p + 16] == FourWords(a, b, c, d)
    ensures Le32(s, p) == a && Le32(s, p + 4) == b && Le32(s, p + 8) == c && Le32(s, p + 12) == d
  {
    hide Le32, Le32Bytes;
    var w := FourWords(a, b, c, d);
    assert w[0..4] == Le32Bytes(a) && w[4..8] == Le32Bytes(b) && w[8..12] == Le32Bytes(c) && w[12..16] == Le32Bytes(d);
    Part(s, p, w, 0, 4); Part(s, p, w, 4, 8); Part(s, p, w, 8, 12); Part(s, p, w, 12, 16);
    Word32At(s, p, a);
    Word32At(s, p + 4, b);
    Word32At(s, p + 8, c);
    Word32At(s, p + 12, d);
  }

  /** The record at o starts with the head h. */
  predicate HasHead(s: seq<byte>, o: nat, h: Head, dims: nat) {
    HeadSized(h) && dims < 0x1_0000 && o + 48 <= |s| && s[o..o + 48] == HeadBytes(h, dims)
  }

  /** A table of words, and one of signed bytes, from off on. */
  predicate HasWords(s: seq<byte>, off: nat, ws: seq<uint32>) {
    off + 4 * |ws| <= |s| && forall k :: 0 <= k < |ws| ==> s[off + 4 * k..off + 4 * k + 4] == Le32Bytes(ws[k])
  }

  predicate HasSigned(s: seq<byte>, off: nat, w: seq<int8>) {
    off + |w| <= |s| && forall k :: 0 <= k < |w| ==> (w[k] - s[off + k]) % 256 == 0
  }

  lemma SignedRead(s: seq<byte>, off: nat, w: seq<int8>)
    requires HasSigned(s, off, w)
    ensures off + |w| <= |s| && WeightsAt(s, off, |w|) == w
  {
    hide AsCell;
    forall k | 0 <= k < |w| ensures WeightsAt(s, off, |w|)[k] == w[k] {
      SameCell(s[off + k], w[k]);
    }
  }

  lemma SameCell(b: byte, c: int8)
    requires (c - b) % 256 == 0
    ensures AsCell(b) == c
  {
  }

  function Words(b: seq<int32>): (r: seq<uint32>)
    ensures |r| == |b|
  {
    seq(|b|, k requires 0 <= k < |b| => ToUint32(b[k]))
  }

  lemma BiasesRead(s: seq<byte>, off: nat, b: seq<int32>)
    requires HasWords(s, off, Words(b))
    ensures off + 4 * |b| <= |s| && BiasesAt(s, off, |b|) == b
  {
    hide Le32, Le32Bytes, ToInt32, ToUint32;
    forall k | 0 <= k < |b| ensures BiasesAt(s, off, |b|)[k] == b[k] {
      Word32At(s, off + 4 * k, Words(b)[k]);
    }
  }

  lemma WordsRead(s: seq<byte>, off: nat, ws: seq<uint32>, k: nat)
    requires HasWords(s, off, ws) && k < |ws|
    ensures off + 4 * |ws| <= |s| && Le32(s, off + 4 * k) == ws[k]
  {
    hide Le32, Le32Bytes;
    Word32At(s, off + 4 * k, ws[k]);
  }

  /** A convolution record and its tables, laid out one field after the other, give back the layer:
      the geometry, the weights, the biases, a scale for each output channel from its weight scale and the
      scale of the input, and the scale of the output. */
  lemma ConvLayerRead(ops: FloatOps, s: seq<byte>, o: nat, h: Head, dims: nat, i: Mat, l: Conv, reserve: uint32,
                      wsOft: uint32, wOft: uint32, bOft: uint32, ws: seq<uint32>, w: seq<int8>, b: seq<int32>)
    requires HasHead(s, o, h, dims) && (h.kind == 0 || h.kind == 5)
    requires ConvSized(l) && o + 80 <= |s|
    requires s[o + 48..o + 60] == GeometryBytes(l)
    requires s[o + 60..o + 80] == TableBytes(l.dmul, reserve, wsOft, wOft, bOft)
    requires l.ih == i.h && l.iw == i.w && l.ic == i.c && l.inZp == h.inZp && l.outZp == h.outZp
    requires l.oh == h.outDims.h && l.ow == h.outDims.w && l.oc == h.outDims.c
    requires l.w == [] && l.b == [] && l.sumScale == [] && l.outScale == 0
    requires |ws| == |b| == l.oc && |w| == l.oc * ((if l.dmul > 0 then 1 else l.ic) * (l.kh * l.kw))
    requires HasWords(s, o + wsOft, ws) && HasSigned(s, o + wOft, w) && HasWords(s, o + bOft, Words(b))
    ensures RecordInside(s, o, i)
    ensures Check(l) != OK ==> LayerAt(ops, s, o, i) == ConvLayer(l)
    ensures Check(l) == OK ==>
              LayerAt(ops, s, o, i) == ConvLayer(l.(w := w, b := b,
                sumScale := seq(l.oc, c requires 0 <= c < l.oc => (ops.sumScale)(ws[c], h.inS)),
                outScale := (ops.outScale)(h.outS)))
  {
    hide HeadAt, HeadBytes, GeometryBytes, TableBytes, Le32, Le32Bytes, Check, HasSigned, HasWords, ScalesAt, BiasesAt,
         WeightsAt, ToInt32, ToUint32, Le16, Le16Bytes;
    HeadRead(s, o, h, dims);
    GeometryRead(s, o + 48, l);
    TablesRead(s, o + 60, l.dmul, reserve, wsOft, wOft, bOft);
    assert ConvShape(s, o, h, i) == l;
    assert |w| == l.oc * (l.Chi() * l.MaxK());
    SignedRead(s, o + wOft, w);
    BiasesRead(s, o + bOft, b);
    ChannelScalesRead(ops, s, o + wsOft, ws, h.inS);
  }

  lemma ChannelScalesRead(ops: FloatOps, s: seq<byte>, off: nat, ws: seq<uint32>, inS: uint32)
    requires HasWords(s, off, ws)
    ensures off + 4 * |ws| <= |s|
    ensures ScalesAt(ops, s, off, |ws|, inS) == seq(|ws|, c requires 0 <= c < |ws| => (ops.sumScale)(ws[c], inS))
  {
    hide Le32, Le32Bytes;
    forall c | 0 <= c < |ws| ensures ScalesAt(ops, s, off, |ws|, inS)[c] == (ops.sumScale)(ws[c], inS) {
      WordsRead(s, off, ws, c);
    }
  }

  /** A full connection: one weight scale for all outputs. */
  lemma FcLayerRead(ops: FloatOps, s: seq<byte>, o: nat, h: Head, dims: nat, i: Mat, reserve: uint32,
                    wsOft: uint32, wOft: uint32, bOft: uint32, ws: uint32, w: seq<int8>, b: seq<int32>)
    requires HasHead(s, o, h, dims) && h.kind == 2
    requires o + 64 <= |s| && s[o + 48..o + 64] == FourWords(wsOft, wOft, bOft, reserve)
    requires |b| == h.outDims.c && |w| == h.outDims.c * i.c
    requires HasWords(s, o + wsOft, [ws]) && HasSigned(s, o + wOft, w) && HasWords(s, o + bOft, Words(b))
    ensures RecordInside(s, o, i)
    ensures LayerAt(ops, s, o, i) == FcLayer(Fc(i.c, h.outDims.c, w, b, ws, h.inS, h.outS, h.outZp))
  {
    hide HeadAt, HeadBytes, FourWords, Le32, Le32Bytes, HasSigned, HasWords, BiasesAt, WeightsAt,
         ToInt32, ToUint32;
    HeadRead(s, o, h, dims);
    FourRead(s, o + 48, wsOft, wOft, bOft, reserve);
    SignedRead(s, o + wOft, w);
    BiasesRead(s, o + bOft, b);
    WordsRead(s, o + wsOft, [ws], 0);
  }

  /** An addition: its second operand has the size of the first, and an offset, a scale and a zero point
      of its own. */
  lemma AddLayerRead(ops: FloatOps, s: seq<byte>, o: nat, h: Head, dims: nat, i: Mat, inOft1: uint32, s1: uint32,
                     zp1: int32, reserve: uint32)
    requires HasHead(s, o, h, dims) && h.kind == 6
    requires o + 64 <= |s| && s[o + 48..o + 64] == FourWords(inOft1, s1, ToUint32(zp1), reserve)
    ensures RecordInside(s, o, i)
    ensures LayerAt(ops, s, o, i) == AddLayer(Add(i.Size(), h.inS, h.inZp, s1, zp1, h.outS, h.outZp), inOft1)
    ensures i.Size() == i.h * i.w * i.c
  {
    hide HeadAt, HeadBytes, FourWords, Le32, ToInt32, ToUint32;
    HeadRead(s, o, h, dims);
    FourRead(s, o + 48, inOft1, s1, ToUint32(zp1), reserve);
  }

  /** The layers without fields of their own, and the types the run does not know. */
  lemma PlainLayerRead(ops: FloatOps, s: seq<byte>, o: nat, h: Head, dims: nat, i: Mat)
    requires HasHead(s, o, h, dims) && h.kind != 0 && h.kind != 2 && h.kind != 5 && h.kind != 6
    ensures RecordInside(s, o, i)
    ensures LayerAt(ops, s, o, i) ==
              if h.kind == 1 then GapLayer(Gap(i.h, i.w, i.c, h.inS, h.inZp, h.outS, h.outZp))
              else if h.kind == 3 then SoftmaxLayer(Softmax(i.c, h.inS, h.inZp, h.outS, h.outZp))
              else if h.kind == 4 then ReshapeLayer
              else UnknownLayer
    ensures LayerErr(LayerAt(ops, s, o, i)) == if h.kind == 1 || h.kind == 3 || h.kind == 4 then OK else ErrLayerType
  {
    hide HeadAt, HeadBytes;
    HeadRead(s, o, h, dims);
  }

  /** Where a layer works: the first reads the caller's matrix, every other what its head says; an output
      layer adds one entry to the outputs, its bytes or the floats behind them. */
  lemma StepRead(ops: FloatOps, base: nat, s: seq<byte>, k: nat, o: nat, in0: Mat, h: Head, dims: nat)
    requires HasHead(s, o, h, dims) && |s| >= 64 && RecordInside(s, o, if k == 0 then in0 else h.inDims)
    ensures InMat(s, k, o, in0) == if k == 0 then in0 else h.inDims
    ensures var p := Place(ops, s, k, o, in0);
            && p.layer == LayerAt(ops, s, o, if k == 0 then in0 else h.inDims)
            && p.inOff == (if k == 0 then in0.data else h.inOft) && p.outOff == h.outOft && p.outC == h.outDims.c
    ensures RecordSize(s, o) == h.size
    ensures StepOuts(base, s, o) ==
              if h.isOut == 0 then []
              else if OutDeq(s) == 0 then [OutMat(Mat(h.outDims.h, h.outDims.w, h.outDims.c, h.outOft), false)]
              else [OutMat(Mat(h.outDims.h, h.outDims.w, h.outDims.c, FloatOff(base, h)), true)]
  {
    hide HeadAt, HeadBytes, RecordInside, LayerAt, FloatOff;
    HeadRead(s, o, h, dims);
  }

  // ---------- a whole model ----------

  function Row(recs: seq<seq<byte>>): seq<byte> {
    if recs == [] then [] else Row(recs[..|recs| - 1]) + recs[|recs| - 1]
  }

  /** The record starts with the head h, which gives its size. */
  predicate IsRecord(rec: seq<byte>, h: Head, dims: nat) {
    HasHead(rec, 0, h, dims) && h.size == |rec|
  }

  lemma {:induction false} RowSplit(recs: seq<seq<byte>>, i: nat)
    requires i < |recs|
    ensures |Row(recs[..i])| + |recs[i]| <= |Row(recs)|
    ensures Row(recs)[|Row(recs[..i])|..|Row(recs[..i])| + |recs[i]|] == recs[i]
  {
    var front := recs[..|recs| - 1];
    if i < |front| {
      RowSplit(front, i);
      assert front[..i] == recs[..i];
    }
  }

  /** In a model made of a header and records one after the other, layer i is record i. */
  lemma {:induction false} RecordsInRow(header: seq<byte>, recs: seq<seq<byte>>, hs: seq<Head>, dims: nat, i: nat)
    requires |header| == 64 && i < |recs| == |hs|
    requires forall k :: 0 <= k < |recs| ==> IsRecord(recs[k], hs[k], dims)
    ensures var s, o := header + Row(recs), OffsetOf(header + Row(recs), i);
            && o == 64 + |Row(recs[..i])| && o + |recs[i]| <= |s| && s[o..o + |recs[i]|] == recs[i]
            && HasHead(s, o, hs[i], dims)
  {
    hide Row, HeadBytes, HeadSized, HeadAt;
    var s, o := header + Row(recs), 64 + |Row(recs[..i])|;
    RowSplit(recs, i);
    assert s[o..o + |recs[i]|] == recs[i];
    assert IsRecord(recs[i], hs[i], dims);
    Part(s, o, recs[i], 0, 48);
    if i == 0 {
      EmptyRow(recs);
    } else {
      RecordsInRow(header, recs, hs, dims, i - 1);
      HeadRead(s, OffsetOf(s, i - 1), hs[i - 1], dims);
      assert IsRecord(recs[i - 1], hs[i - 1], dims);
      NextRow(recs, i - 1);
    }
  }

  lemma EmptyRow(recs: seq<seq<byte>>)
    ensures |Row(recs[..0])| == 0
  {
  }

  lemma NextRow(recs: seq<seq<byte>>, i: nat)
    requires i < |recs|
    ensures |Row(recs[..i + 1])| == |Row(recs[..i])| + |recs[i]|
  {
    assert recs[..i + 1][..i] == recs[..i];
  }
}
