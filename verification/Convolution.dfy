/** tml_conv2d_dwconv2d of tm_layers.c: one routine, four ways of computing the same convolution. */
module Convolution {
  import opened Bytes
  import opened CArithmetic
  import opened DotProduct
  import opened Requantize
  import opened ConvolutionSpec

  const MAX_KSIZE := 9
  const MAX_KCSIZE := 144
  const MAX_CSIZE := 16
  const ACT_MAXCNT := 6

  datatype TmErr =
    OK | ErrMagic | ErrUnsupport | ErrOom | ErrLayerType | ErrTodo | ErrMdlType | ErrKsize

  /** The checks made before any work, in the order of the source. */
  function Check(l: Conv): TmErr {
    if l.dx != 1 || l.dy != 1 then ErrTodo
    else if l.act >= ACT_MAXCNT then ErrUnsupport
    else if l.MaxK() > MAX_KSIZE then ErrKsize
    else if l.MaxK() == 1 && (l.Padded() || l.dmul != 0) then ErrUnsupport
    else OK
  }

  /** Which layers are refused, and with which error: a dilation, an activation beyond the sixth, a kernel
      of more than nine cells, a pointwise layer that pads or is depthwise. */
  lemma CheckLaw(l: Conv)
    ensures Check(l) == ErrTodo <==> !(l.dx == 1 && l.dy == 1)
    ensures Check(l) == ErrUnsupport <==>
              l.dx == 1 && l.dy == 1 &&
              (l.act >= 6 || (l.kh * l.kw == 1 && !(l.padTop + l.padBottom + l.padLeft + l.padRight + l.dmul == 0)))
    ensures Check(l) == ErrKsize <==> l.dx == 1 && l.dy == 1 && l.act < 6 && l.kh * l.kw > 9
    ensures Check(l) == OK <==>
              l.dx == 1 && l.dy == 1 && l.act < 6 && l.kh * l.kw <= 9 &&
              (l.kh * l.kw == 1 ==> l.padTop + l.padBottom + l.padLeft + l.padRight + l.dmul == 0)
  {
    var k := l.MaxK();
    assert k == l.kh * l.kw;
  }

  /** inp lies in buf from offset off on. */
  ghost predicate Holds(buf: array<int8>, off: nat, inp: seq<int8>)
    reads buf
  {
    off + |inp| <= buf.Length && forall i :: 0 <= i < |inp| ==> buf[off + i] == inp[i]
  }

  lemma WindowIndex(y0: int, x0: int, ky: int, kx: int, w: int, c: int)
    ensures (y0 * w + x0) * c + (ky * w + kx) * c == ((y0 + ky) * w + (x0 + kx)) * c
  {
    assert (y0 + ky) * w == y0 * w + ky * w;
    assert (y0 * w + x0 + (ky * w + kx)) * c == (y0 * w + x0) * c + (ky * w + kx) * c;
  }

  /** The patches of a runnable layer fit the static buffer. */
  lemma PatchesFit(l: Conv, inp: seq<int8>)
    requires Check(l) == OK && Runnable(l, inp) && l.MaxK() != 1
    ensures PatchStart(l, l.Patches()) <= MAX_KCSIZE && l.MaxK() <= MAX_KSIZE
    ensures |inp| == l.InSize() && (l.dmul > 0 ==> l.oc <= l.ic * l.dmul)
  {
    if l.dmul > 0 && l.MaxK() > 0 {
      MulOrder(l.oc, 16, l.MaxK());
    }
  }

  /** A gathered channel is one the input has. */
  lemma ChannelBound(l: Conv, cc: nat)
    requires cc < l.Patches() && (l.dmul > 0 ==> l.oc <= l.ic * l.dmul)
    ensures l.Channel(cc) < l.ic
  {
    if l.dmul > 0 {
      assert cc == cc / l.dmul * l.dmul + cc % l.dmul;
      MulOrder(l.ic, cc / l.dmul, l.dmul);
    }
  }

  lemma NextRow(y: int, w: int, kw: int, c: int)
    ensures (y * w + kw) * c + (w - kw) * c == ((y + 1) * w) * c
  {
    assert (y + 1) * w == (y * w + kw) + (w - kw);
  }

  lemma FlatRows(y: nat, kh: nat, kw: nat)
    requires y <= kh
    ensures y * kw <= kh * kw
  {
    if kw > 0 { MulOrder(y, kh, kw); }
  }

  /** The static buffers of tm_layers.c and the passes over them. */
  class Engine {
    const kOft: array<int>
    const sbuf: array<int8>
    const sumscale: array<int>

    ghost predicate Valid() {
      kOft.Length == MAX_KSIZE && sbuf.Length == MAX_KCSIZE && sumscale.Length == MAX_CSIZE && kOft != sumscale
    }

    constructor ()
      ensures Valid() && fresh(kOft) && fresh(sbuf) && fresh(sumscale)
    {
      kOft := new int[MAX_KSIZE];
      sbuf := new int8[MAX_KCSIZE];
      sumscale := new int[MAX_CSIZE];
    }

    // ---------- the offset table ----------

    /** The first n entries of k_oft hold the distance of that kernel cell from the corner of the
        window. */
    ghost predicate Offsets(l: Conv, n: int)
      requires n <= kOft.Length
      reads kOft
    {
      forall k :: 0 <= k < n ==> l.kw > 0 && kOft[k] == (k / l.kw * l.iw + k % l.kw) * l.ic
    }

    method GenOffsets(l: Conv)
      requires Valid() && l.MaxK() <= MAX_KSIZE
      modifies kOft
      ensures Offsets(l, l.MaxK())
    {
      var oft, idx := 0, 0;
      var y := 0;
      while y < l.kh
        invariant 0 <= y <= l.kh && idx == y * l.kw <= MAX_KSIZE && oft == (y * l.iw) * l.ic
        invariant Offsets(l, idx)
      {
        oft, idx := GenOffsetRow(l, y, oft, idx);
        NextRow(y, l.iw, l.kw, l.ic);
        oft := oft + (l.iw - l.kw) * l.ic;
        y := y + 1;
        FlatRows(y, l.kh, l.kw);
      }
    }

    /** The inner loop: one kernel row, a step of in->c a column. */
    method GenOffsetRow(l: Conv, ghost y: nat, oft0: int, idx0: nat) returns (oft: int, idx: nat)
      requires Valid() && l.MaxK() <= MAX_KSIZE && y < l.kh
      requires idx0 == y * l.kw <= MAX_KSIZE && oft0 == (y * l.iw) * l.ic && Offsets(l, idx0)
      modifies kOft
      ensures idx == (y + 1) * l.kw <= MAX_KSIZE && oft == (y * l.iw + l.kw) * l.ic && Offsets(l, idx)
    {
      FlatRows(y + 1, l.kh, l.kw);
      assert (y + 1) * l.kw == y * l.kw + l.kw;
      oft, idx := oft0, idx0;
      var x := 0;
      while x < l.kw
        invariant 0 <= x <= l.kw && idx == y * l.kw + x && oft == (y * l.iw + x) * l.ic
        invariant idx <= MAX_KSIZE && Offsets(l, idx)
      {
        DivModUnique(y, l.kw, x);
        kOft[idx] := oft;
        idx := idx + 1;
        assert (y * l.iw + x + 1) * l.ic == (y * l.iw + x) * l.ic + l.ic;
        oft := oft + l.ic;
        x := x + 1;
      }
    }

    /** The pointer for kernel cell (ky, kx) of patch cc addresses a cell inside the input, and
        that cell is what belongs in the patch buffer. */
    lemma TapAddress(l: Conv, inp: seq<int8>, y0: int, x0: int, cc: nat, ky: nat, kx: nat)
      requires |inp| == l.InSize() && l.MaxK() <= kOft.Length && Offsets(l, l.MaxK())
      requires cc < l.Patches() && (l.dmul > 0 ==> l.oc <= l.ic * l.dmul) && ky < l.kh && kx < l.kw
      requires 0 <= y0 + ky < l.ih && 0 <= x0 + kx < l.iw
      ensures 0 <= ky * l.kw + kx < l.MaxK()
      ensures var i := Corner(l, y0, x0) + l.Channel(cc) + kOft[ky * l.kw + kx];
              0 <= i < |inp| && inp[i] == PatchAt(l, inp, y0, x0, PatchStart(l, cc) + (ky * l.kw + kx))
    {
      CellIndex(l, cc, ky, kx);
      DivModUnique(ky, l.kw, kx);
      ChannelBound(l, cc);
      WindowIndex(y0, x0, ky, kx, l.iw, l.ic);
      FlatBound(y0 + ky, x0 + kx, l.Channel(cc), l.ih, l.iw, l.ic);
    }

    // ---------- the gather inside the picture ----------

    /** The first n cells of the patch buffer are the patches of the window at (y0, x0). */
    ghost predicate Gathered(l: Conv, inp: seq<int8>, y0: int, x0: int, n: nat)
      requires |inp| == l.InSize() && n <= sbuf.Length
      reads sbuf
    {
      && (n > 0 ==> l.MaxK() > 0)
      && forall j :: 0 <= j < n ==> sbuf[j] == PatchAt(l, inp, y0, x0, j)
    }

    /** What both gathers need: the offset table, the input in place, room for the patches. */
    ghost predicate Ready(l: Conv, buf: array<int8>, inOff: nat, inp: seq<int8>)
      reads kOft, buf
    {
      && Valid() && buf != sbuf && |inp| == l.InSize() && Holds(buf, inOff, inp)
      && l.MaxK() <= MAX_KSIZE && Offsets(l, l.MaxK()) && PatchStart(l, l.Patches()) <= MAX_KCSIZE
      && (l.dmul > 0 ==> l.oc <= l.ic * l.dmul)
    }

    /** The inner loop: one patch, straight through k_oft. */
    method CopyPatch(l: Conv, buf: array<int8>, inOff: nat, ghost inp: seq<int8>, ghost y0: nat, ghost x0: nat,
                     ghost cc: nat, sptr: int, sidx: nat)
      requires Ready(l, buf, inOff, inp) && cc < l.Patches()
      requires y0 + l.kh <= l.ih && x0 + l.kw <= l.iw
      requires sptr == inOff + Corner(l, y0, x0) + l.Channel(cc)
      requires sidx == PatchStart(l, cc) && sidx + l.MaxK() <= MAX_KCSIZE
      requires Gathered(l, inp, y0, x0, sidx)
      modifies sbuf
      ensures Gathered(l, inp, y0, x0, sidx + l.MaxK())
    {
      var k := 0;
      while k < l.MaxK()
        invariant 0 <= k <= l.MaxK()
        invariant Gathered(l, inp, y0, x0, sidx + k)
      {
        SplitIndex(k, l.kh, l.kw);
        hide Conv.MaxK, Conv.InSize, PatchStart, Corner, PatchAt;
        TapAddress(l, inp, y0, x0, cc, k / l.kw, k % l.kw);
        sbuf[sidx + k] := buf[sptr + kOft[k]];
        k := k + 1;
      }
    }

    /** The gather used when the whole window lies in the picture. */
    method GatherInside(l: Conv, buf: array<int8>, inOff: nat, ghost inp: seq<int8>, y0: nat, x0: nat)
      requires Ready(l, buf, inOff, inp)
      requires y0 + l.kh <= l.ih && x0 + l.kw <= l.iw
      modifies sbuf
      ensures Gathered(l, inp, y0, x0, PatchStart(l, l.Patches()))
    {
      hide Conv.MaxK, Conv.InSize, PatchStart, Corner, PatchAt;
      PatchStartNext(l, 0);
      var base := inOff + Corner(l, y0, x0);
      var sptr, sidx := base, 0;
      var cc := 0;
      while cc < l.Patches()
        invariant 0 <= cc <= l.Patches() && sidx == PatchStart(l, cc) && sptr == base + l.Channel(cc)
        invariant sidx <= MAX_KCSIZE && Gathered(l, inp, y0, x0, sidx)
      {
        PatchStartNext(l, cc);
        PatchStartOrder(l, cc, l.Patches());
        CopyPatch(l, buf, inOff, inp, y0, x0, cc, sptr, sidx);
        sidx := sidx + l.MaxK();
        sptr := base + if l.dmul > 0 then (cc + 1) / l.dmul else cc + 1;
        cc := cc + 1;
      }
    }

    // ---------- the gather across the border ----------

    /** Cell j of the patch buffer has its tap in the picture. */
    ghost predicate InPicture(l: Conv, y0: int, x0: int, j: nat)
      requires l.MaxK() > 0
    {
      0 <= y0 + RowOf(l, j) < l.ih && 0 <= x0 + ColOf(l, j) < l.iw
    }

    lemma OutsideIsPadding(l: Conv, inp: seq<int8>, y0: int, x0: int, j: nat)
      requires |inp| == l.InSize() && l.MaxK() > 0 && !InPicture(l, y0, x0, j)
      ensures PatchAt(l, inp, y0, x0, j) == ToInt8(l.inZp)
    {
    }

    /** Cell j comes before (cc, ky, kx) in the order of the three loops. */
    ghost predicate Before(l: Conv, j: nat, cc: nat, ky: int, kx: int)
      requires l.MaxK() > 0
    {
      PatchOf(l, j) < cc ||
      (PatchOf(l, j) == cc && (RowOf(l, j) < ky || (RowOf(l, j) == ky && ColOf(l, j) < kx)))
    }

    /** While the padded gather runs every cell is either still the padding byte or already the
        patch, and the cells in the picture before (cc, ky, kx) are the patch. */
    ghost predicate Progress(l: Conv, inp: seq<int8>, y0: int, x0: int, n: nat, cc: nat, ky: int, kx: int)
      requires |inp| == l.InSize() && n <= sbuf.Length
      reads sbuf
    {
      && (n > 0 ==> l.MaxK() > 0)
      && forall j :: 0 <= j < n ==>
        && (sbuf[j] == ToInt8(l.inZp) || sbuf[j] == PatchAt(l, inp, y0, x0, j))
        && (Before(l, j, cc, ky, kx) && InPicture(l, y0, x0, j) ==> sbuf[j] == PatchAt(l, inp, y0, x0, j))
    }

    /** memset(sbuf, in_zp, n): the low byte of the zero point. */
    method Memset(n: nat, v: int)
      requires Valid() && n <= MAX_KCSIZE
      modifies sbuf
      ensures forall j :: 0 <= j < n ==> sbuf[j] == ToInt8(v)
    {
      var j := 0;
      while j < n
        invariant 0 <= j <= n
        invariant forall i :: 0 <= i < j ==> sbuf[i] == ToInt8(v)
      {
        sbuf[j] := ToInt8(v);
        j := j + 1;
      }
    }

    /** The innermost loop of the padded gather: the columns kx0..kx1 of one kernel row. */
    method CopyClippedRow(l: Conv, buf: array<int8>, inOff: nat, ghost inp: seq<int8>, ghost y0: int, ghost x0: int,
                          ghost n: nat, ghost cc: nat, sptr: int, sidx: nat, ky: nat, kx0: int, kx1: int)
      requires Ready(l, buf, inOff, inp) && cc < l.Patches() && n == PatchStart(l, l.Patches())
      requires sptr == inOff + Corner(l, y0, x0) + l.Channel(cc) && sidx == PatchStart(l, cc)
      requires ky < l.kh && 0 <= y0 + ky < l.ih
      requires kx0 == Max(0, -x0) && kx1 == Min(l.kw, l.iw - x0)
      requires Progress(l, inp, y0, x0, n, cc, ky, 0)
      modifies sbuf
      ensures Progress(l, inp, y0, x0, n, cc, ky + 1, 0)
    {
      hide Conv.InSize, Conv.MaxK, PatchStart, Corner, PatchAt, PatchOf, RowOf, ColOf;
      PatchStartOrder(l, cc, l.Patches());
      var kx := kx0;
      while kx < kx1
        invariant kx0 <= kx && (kx0 <= kx1 ==> kx <= kx1)
        invariant Progress(l, inp, y0, x0, n, cc, ky, kx)
      {
        CellIndex(l, cc, ky, kx);
        TapAddress(l, inp, y0, x0, cc, ky, kx);
        var k := ky * l.kw + kx;
        sbuf[sidx + k] := buf[sptr + kOft[k]];
        forall j | 0 <= j < n ensures j == PatchStart(l, PatchOf(l, j)) + (RowOf(l, j) * l.kw + ColOf(l, j)) {
          Recompose(l, j);
        }
        kx := kx + 1;
      }
      forall j | 0 <= j < n ensures ColOf(l, j) < l.kw {
        Recompose(l, j);
      }
    }

    /** The rows of one patch that lie in the picture. */
    method CopyClippedPatch(l: Conv, buf: array<int8>, inOff: nat, ghost inp: seq<int8>, ghost y0: int, ghost x0: int,
                            ghost n: nat, ghost cc: nat, sptr: int, sidx: nat, ky0: int, ky1: int, kx0: int, kx1: int)
      requires Ready(l, buf, inOff, inp) && cc < l.Patches() && n == PatchStart(l, l.Patches())
      requires sptr == inOff + Corner(l, y0, x0) + l.Channel(cc) && sidx == PatchStart(l, cc)
      requires ky0 == Max(0, -y0) && ky1 == Min(l.kh, l.ih - y0)
      requires kx0 == Max(0, -x0) && kx1 == Min(l.kw, l.iw - x0)
      requires Progress(l, inp, y0, x0, n, cc, 0, 0)
      modifies sbuf
      ensures Progress(l, inp, y0, x0, n, cc + 1, 0, 0)
    {
      hide Conv.InSize, Conv.MaxK, PatchStart, Corner, PatchAt, PatchOf, RowOf, ColOf;
      var ky := ky0;
      while ky < ky1
        invariant ky0 <= ky && (ky0 <= ky1 ==> ky <= ky1)
        invariant Progress(l, inp, y0, x0, n, cc, ky, 0)
      {
        CopyClippedRow(l, buf, inOff, inp, y0, x0, n, cc, sptr, sidx, ky, kx0, kx1);
        ky := ky + 1;
      }
      forall j | 0 <= j < n ensures RowOf(l, j) < l.kh {
        Recompose(l, j);
      }
    }

    /** The gather used when the window crosses the border: pad everything, then copy the part in
        the picture. */
    method GatherPadded(l: Conv, buf: array<int8>, inOff: nat, ghost inp: seq<int8>, y0: int, x0: int)
      requires Ready(l, buf, inOff, inp)
      modifies sbuf
      ensures Gathered(l, inp, y0, x0, PatchStart(l, l.Patches()))
    {
      hide Conv.InSize, Conv.MaxK, PatchStart, Corner, PatchAt, PatchOf, RowOf, ColOf;
      ghost var n := PatchStart(l, l.Patches());
      var ky0 := if y0 < 0 then -y0 else 0;
      var kx0 := if x0 < 0 then -x0 else 0;
      var ky1 := if l.ih - y0 > l.kh then l.kh else l.ih - y0;
      var kx1 := if l.iw - x0 > l.kw then l.kw else l.iw - x0;
      var base := inOff + Corner(l, y0, x0);
      var sptr, sidx := base, 0;
      PatchStartNext(l, 0);
      PatchesOfKernel(l);
      Memset(if l.dmul > 0 then PatchStart(l, l.oc) else PatchStart(l, l.ic), l.inZp);
      var cc := 0;
      while cc < l.Patches()
        invariant 0 <= cc <= l.Patches() && sidx == PatchStart(l, cc) && sptr == base + l.Channel(cc)
        invariant Progress(l, inp, y0, x0, n, cc, 0, 0)
      {
        PatchStartNext(l, cc);
        CopyClippedPatch(l, buf, inOff, inp, y0, x0, n, cc, sptr, sidx, ky0, ky1, kx0, kx1);
        sidx := sidx + l.MaxK();
        sptr := base + if l.dmul > 0 then (cc + 1) / l.dmul else cc + 1;
        cc := cc + 1;
      }
      forall j | 0 <= j < n ensures sbuf[j] == PatchAt(l, inp, y0, x0, j) {
        PatchOfCell(l, j, l.Patches());
        if !InPicture(l, y0, x0, j) {
          OutsideIsPadding(l, inp, y0, x0, j);
        }
      }
    }

    lemma PatchesOfKernel(l: Conv)
      ensures PatchStart(l, l.Patches()) > 0 ==> l.MaxK() > 0
    {
    }

    lemma PatchOfCell(l: Conv, j: nat, n: nat)
      requires j < PatchStart(l, n)
      ensures l.MaxK() > 0 && PatchOf(l, j) < n
    {
      SplitIndex(j, n, l.MaxK());
    }

    // ---------- one pixel ----------

    ghost predicate ScalesReady(l: Conv)
      reads sumscale
    {
      Valid() && l.oc <= MAX_CSIZE && |l.sumScale| == l.oc && forall c :: 0 <= c < l.oc ==> sumscale[c] == l.sumScale[c]
    }

    /** Only the cells from outp to outp + n changed. */
    twostate predicate Writes(buf: array<int8>, outp: nat, n: nat)
      reads buf
    {
      forall j :: 0 <= j < buf.Length && !(outp <= j < outp + n) ==> buf[j] == old(buf[j])
    }

    lemma RequantDefined(l: Conv, inp: seq<int8>, y: nat, x: nat, c: nat)
      requires Runnable(l, inp) && y < l.oh && x < l.ow && c < l.oc
      ensures l.sumScale[c] != 0 && |l.b| == l.oc
      ensures Defined(Accumulator(l, inp, y, x, c) + l.b[c], l.act, l.sumScale[c], l.outScale, l.outZp)
    {
      hide Defined;
    }

    /** Channels from..to of the pixel whose bytes start at pix are final. */
    ghost predicate Emitted(l: Conv, buf: array<int8>, inp: seq<int8>, y: nat, x: nat, pix: nat, from: nat, to: nat)
      requires Runnable(l, inp) && to <= l.oc && pix + to <= buf.Length
      reads buf
    {
      forall c :: from <= c < to ==> buf[pix + c] == OutByte(l, inp, y, x, c)
    }

    /** tm_postprocess_sum for the channels from c0 on, at outp == pix + c0. */
    method Emit(l: Conv, buf: array<int8>, ghost inp: seq<int8>, ghost y: nat, ghost x: nat, c0: nat,
                sums: seq<int>, ghost pix: nat, outp: nat)
      requires Runnable(l, inp) && y < l.oh && x < l.ow && c0 + |sums| <= l.oc && ScalesReady(l)
      requires forall i :: 0 <= i < |sums| ==> sums[i] == Accumulator(l, inp, y, x, c0 + i)
      requires outp == pix + c0 && outp + |sums| <= buf.Length && Emitted(l, buf, inp, y, x, pix, 0, c0)
      modifies buf
      ensures Emitted(l, buf, inp, y, x, pix, 0, c0 + |sums|)
      ensures Writes(buf, outp, |sums|)
    {
      hide Defined, DefinedAt, OutByte, ByteAt, Accumulator, Conv.InSize;
      assert |l.b| == l.oc;
      var scales := sumscale[..];
      forall c | c0 <= c < c0 + |sums|
        ensures DefinedAt(sums, c0, l.b, l.act, scales, l.outScale, l.outZp, c)
        ensures ByteAt(sums, c0, l.b, l.act, scales, l.outScale, l.outZp, c) == OutByte(l, inp, y, x, c)
      {
        EmitByte(l, inp, y, x, c0, sums, scales, c);
      }
      PostprocessSum(sums, c0, l.b, l.act, buf, outp, scales, l.outScale, l.outZp);
      assert forall c :: c0 <= c < c0 + |sums| ==> buf[pix + c] == OutByte(l, inp, y, x, c);
    }

    lemma EmitByte(l: Conv, inp: seq<int8>, y: nat, x: nat, c0: nat, sums: seq<int>, scales: seq<int>, c: nat)
      requires Runnable(l, inp) && y < l.oh && x < l.ow && c0 <= c < c0 + |sums| <= l.oc
      requires sums[c - c0] == Accumulator(l, inp, y, x, c)
      requires l.oc <= |scales| && scales[c] == l.sumScale[c]
      ensures DefinedAt(sums, c0, l.b, l.act, scales, l.outScale, l.outZp, c)
      ensures ByteAt(sums, c0, l.b, l.act, scales, l.outScale, l.outZp, c) == OutByte(l, inp, y, x, c)
    {
      RequantDefined(l, inp, y, x, c);
      hide Defined, RequantByte;
    }

    /** The operands of channel c: its part of the patch buffer and its row of weights. */
    lemma RowOperands(l: Conv, inp: seq<int8>, y: nat, x: nat, c: nat) returns (a: seq<int8>, b: seq<int8>)
      requires Valid() && Runnable(l, inp) && c < l.oc && PatchStart(l, l.Patches()) <= MAX_KCSIZE
      requires Gathered(l, inp, l.sy * y - l.padTop, l.sx * x - l.padLeft, PatchStart(l, l.Patches()))
      ensures |a| == |b| == l.Chi() * l.MaxK()
      ensures Operand(a, sbuf[..], PatchBase(l, c)) && Operand(b, l.w, RowStart(l, c))
      ensures Dot(a, b) == Accumulator(l, inp, y, x, c)
    {
      hide Conv.InSize, Conv.MaxK, Conv.Chi, PatchStart, PatchBase, PatchAt, RowStart, Accumulator, Dot;
      WeightRow(l, c);
      PatchesOfKernel(l);
      PatchBaseBound(l, c);
      assert |inp| == l.InSize();
      var n := l.Chi() * l.MaxK();
      a, b := sbuf[PatchBase(l, c)..PatchBase(l, c) + n], l.w[RowStart(l, c)..RowStart(l, c) + n];
      assert PatchAndRow(l, inp, y, x, c, a, b);
      DotIsAccumulator(l, inp, y, x, c, a, b);
    }

    lemma PatchBaseBound(l: Conv, c: nat)
      requires c < l.oc
      ensures PatchBase(l, c) + l.Chi() * l.MaxK() <= PatchStart(l, l.Patches())
    {
      if l.dmul > 0 { PatchStartOrder(l, c, l.oc); }
    }

    lemma WeightRow(l: Conv, c: nat)
      requires c < l.oc && |l.w| == l.oc * (l.Chi() * l.MaxK())
      ensures 0 <= RowStart(l, c) + l.Chi() * l.MaxK() <= |l.w|
    {
      var n := l.Chi() * l.MaxK();
      MulNonNegative(l.Chi(), l.MaxK());
      assert c * n + n == (c + 1) * n;
      if n > 0 { MulOrder(c + 1, l.oc, n); }
    }

    /** The window of pixel (y, x) is in the patch buffer, and there is room for its output. */
    ghost predicate PixelReady(l: Conv, buf: array<int8>, inp: seq<int8>, y: nat, x: nat, pix: nat)
      reads sbuf, sumscale
    {
      && Valid() && buf != sbuf && Runnable(l, inp) && y < l.oh && x < l.ow && ScalesReady(l)
      && pix + l.oc <= buf.Length && PatchStart(l, l.Patches()) <= MAX_KCSIZE
      && Gathered(l, inp, l.sy * y - l.padTop, l.sx * x - l.padLeft, PatchStart(l, l.Patches()))
    }

    /** One channel of the 3x3 depthwise shortcut. */
    method Channel3x3(l: Conv, buf: array<int8>, ghost inp: seq<int8>, ghost y: nat, ghost x: nat, ghost pix: nat,
                  c: nat, outp: nat, sptr: nat)
      requires PixelReady(l, buf, inp, y, x, pix) && c < l.oc && outp == pix + c && sptr == PatchBase(l, c)
      requires l.MaxK() * l.Chi() == 9 && l.dmul > 0
      requires Emitted(l, buf, inp, y, x, pix, 0, c)
      modifies buf
      ensures Emitted(l, buf, inp, y, x, pix, 0, c + 1)
      ensures Writes(buf, outp, 1)
    {
      hide Runnable, Conv.MaxK, Conv.InSize, Conv.Chi, PatchStart, PatchAt, PatchBase, RowStart, OutByte, Accumulator,
           Dot, Emitted, Gathered;
      ghost var a, b := RowOperands(l, inp, y, x, c);
      OperandSize(l, a);
      var sum := DotProd3x3x1(sbuf, sptr, l.w, RowStart(l, c), a, b);
      Emit(l, buf, inp, y, x, c, [sum], pix, outp);
    }

    /** One channel of the general branch. */
    method ChannelGeneral(l: Conv, buf: array<int8>, ghost inp: seq<int8>, ghost y: nat, ghost x: nat, ghost pix: nat,
                  c: nat, outp: nat, sptr: nat)
      requires PixelReady(l, buf, inp, y, x, pix) && c < l.oc && outp == pix + c && sptr == PatchBase(l, c)
      requires l.MaxK() <= MAX_KSIZE
      requires Emitted(l, buf, inp, y, x, pix, 0, c)
      modifies buf
      ensures Emitted(l, buf, inp, y, x, pix, 0, c + 1)
      ensures Writes(buf, outp, 1)
    {
      hide Runnable, Conv.MaxK, Conv.InSize, Conv.Chi, PatchStart, PatchAt, PatchBase, RowStart, OutByte, Accumulator,
           Dot, Emitted, Gathered;
      ghost var a, b := RowOperands(l, inp, y, x, c);
      OperandSize(l, a);
      var sum := DotProd(sbuf, sptr, l.w, RowStart(l, c), l.Chi() * l.MaxK(), a, b);
      Emit(l, buf, inp, y, x, c, [sum], pix, outp);
    }

    /** The output loop of the 3x3 depthwise shortcut. */
    method Pixel3x3(l: Conv, buf: array<int8>, ghost inp: seq<int8>, ghost y: nat, ghost x: nat, pix: nat)
      requires PixelReady(l, buf, inp, y, x, pix)
      requires l.MaxK() * l.Chi() == 9 && l.dmul > 0
      modifies buf
      ensures Emitted(l, buf, inp, y, x, pix, 0, l.oc)
      ensures Writes(buf, pix, l.oc)
    {
      hide Runnable, Conv.MaxK, Conv.InSize, Conv.Chi, PatchStart, PatchAt, OutByte;
      var outp, sptr := pix, 0;
      var c := 0;
      PatchStartNext(l, 0);
      while c < l.oc
        invariant 0 <= c <= l.oc && outp == pix + c && sptr == PatchBase(l, c)
        invariant Emitted(l, buf, inp, y, x, pix, 0, c)
        invariant Writes(buf, pix, l.oc)
      {
        PatchStartNext(l, c);
        Channel3x3(l, buf, inp, y, x, pix, c, outp, sptr);
        outp := outp + 1;
        sptr := sptr + l.MaxK();
        c := c + 1;
      }
    }

    /** The general output loop. */
    method PixelGeneral(l: Conv, buf: array<int8>, ghost inp: seq<int8>, ghost y: nat, ghost x: nat, pix: nat)
      requires PixelReady(l, buf, inp, y, x, pix)
      requires l.MaxK() <= MAX_KSIZE
      modifies buf
      ensures Emitted(l, buf, inp, y, x, pix, 0, l.oc)
      ensures Writes(buf, pix, l.oc)
    {
      hide Runnable, Conv.MaxK, Conv.InSize, Conv.Chi, PatchStart, PatchAt, OutByte;
      var outp, sptr := pix, 0;
      var c := 0;
      PatchStartNext(l, 0);
      while c < l.oc
        invariant 0 <= c <= l.oc && outp == pix + c && sptr == PatchBase(l, c)
        invariant Emitted(l, buf, inp, y, x, pix, 0, c)
        invariant Writes(buf, pix, l.oc)
      {
        PatchStartNext(l, c);
        ChannelGeneral(l, buf, inp, y, x, pix, c, outp, sptr);
        outp := outp + 1;
        if l.dmul > 0 { sptr := sptr + l.MaxK(); }
        c := c + 1;
      }
    }

    lemma OperandSize(l: Conv, a: seq<int8>)
      requires |a| == l.Chi() * l.MaxK() && PatchStart(l, l.Patches()) <= MAX_KCSIZE
      requires l.MaxK() <= MAX_KSIZE || l.MaxK() * l.Chi() == 9
      ensures |a| <= MAX_SIZE
    {
    }

    /** A pointwise layer reads one input pixel, in place, against one weight row a channel. */
    lemma PointwiseOperands(l: Conv, inp: seq<int8>, y: nat, x: nat, c: nat) returns (a: seq<int8>, b: seq<int8>)
      requires Runnable(l, inp) && Check(l) == OK && l.MaxK() == 1 && y < l.oh && x < l.ow && c < l.oc
      ensures 0 <= Corner(l, l.sy * y, l.sx * x) && Corner(l, l.sy * y, l.sx * x) + l.ic <= |inp|
      ensures a == inp[Corner(l, l.sy * y, l.sx * x)..Corner(l, l.sy * y, l.sx * x) + l.ic]
      ensures |a| == |b| == l.ic <= MAX_SIZE && Operand(b, l.w, RowStart(l, c))
      ensures Dot(a, b) == Accumulator(l, inp, y, x, c)
    {
      var y0, x0 := l.sy * y, l.sx * x;
      StrideBound(l.sy, y, l.oh, l.ih);
      StrideBound(l.sx, x, l.ow, l.iw);
      UnitKernel(l);
      CornerBound(l, y0, x0);
      WeightRow(l, c);
      a := inp[Corner(l, y0, x0)..Corner(l, y0, x0) + l.ic];
      b := l.w[RowStart(l, c)..RowStart(l, c) + l.ic];
      forall i | 0 <= i < l.ic ensures PatchAt(l, inp, y0, x0, i) == inp[Corner(l, y0, x0) + i] {
        CellIndex(l, i, 0, 0);
      }
      assert PatchAndRow(l, inp, y, x, c, a, b);
      DotIsAccumulator(l, inp, y, x, c, a, b);
    }

    lemma UnitKernel(l: Conv)
      requires l.MaxK() == 1
      ensures l.kh == 1 && l.kw == 1
    {
      if l.kh >= 2 && l.kw > 0 { MulOrder(2, l.kh, l.kw); }
      if l.kw >= 2 && l.kh > 0 { MulOrder(2, l.kw, l.kh); }
    }

    lemma StrideBound(s: nat, y: nat, oh: nat, ih: nat)
      requires y < oh && s * (oh - 1) < ih
      ensures 0 <= s * y < ih
    {
      MulNonNegative(s, y);
      if s > 0 { MulOrder(y, oh - 1, s); }
    }

    lemma CornerBound(l: Conv, y0: nat, x0: nat)
      requires y0 < l.ih && x0 < l.iw
      ensures 0 <= Corner(l, y0, x0) && Corner(l, y0, x0) + l.ic <= l.InSize()
    {
      if l.ic > 0 { FlatBound(y0, x0, l.ic - 1, l.ih, l.iw, l.ic); }
      MulNonNegative(y0, l.iw);
      MulNonNegative(y0 * l.iw + x0, l.ic);
    }

    /** The input of a pointwise pixel is in place, clear of the bytes being written. */
    ghost predicate PointwiseReady(l: Conv, buf: array<int8>, inOff: nat, inp: seq<int8>, y: nat, x: nat, pix: nat)
      reads buf, sumscale
    {
      && Valid() && Runnable(l, inp) && Check(l) == OK && l.MaxK() == 1 && y < l.oh && x < l.ow && ScalesReady(l)
      && Holds(buf, inOff, inp) && pix + l.oc <= buf.Length
      && (pix + l.oc <= inOff || inOff + |inp| <= pix)
    }

    /** Two channels through tm_dot_prod_pack2. */
    method PointwisePair(l: Conv, buf: array<int8>, inOff: nat, ghost inp: seq<int8>, ghost y: nat, ghost x: nat,
                         ghost pix: nat, c: nat, outp: nat, sptr: nat, kptr: nat, sums: array<int>)
      requires PointwiseReady(l, buf, inOff, inp, y, x, pix) && c + 1 < l.oc && sums.Length == 2 && sums != sumscale
      requires outp == pix + c && kptr == RowStart(l, c) && sptr == inOff + Corner(l, l.sy * y, l.sx * x)
      requires Emitted(l, buf, inp, y, x, pix, 0, c)
      modifies buf, sums
      ensures Emitted(l, buf, inp, y, x, pix, 0, c + 2)
      ensures Writes(buf, outp, 2)
    {
      hide Runnable, Conv.MaxK, Conv.InSize, RowStart, OutByte, Corner, Accumulator, Dot, Emitted;
      ghost var a, b0 := PointwiseOperands(l, inp, y, x, c);
      ghost var _, b1 := PointwiseOperands(l, inp, y, x, c + 1);
      NextWeightRow(l, c);
      DotProdPack2(buf, sptr, l.w, kptr, l.ic, sums, a, b0, b1);
      Emit(l, buf, inp, y, x, c, [sums[0], sums[1]], pix, outp);
    }

    /** One channel through tm_dot_prod. */
    method PointwiseOdd(l: Conv, buf: array<int8>, inOff: nat, ghost inp: seq<int8>, ghost y: nat, ghost x: nat,
                        ghost pix: nat, c: nat, outp: nat, sptr: nat, kptr: nat)
      requires PointwiseReady(l, buf, inOff, inp, y, x, pix) && c < l.oc
      requires outp == pix + c && kptr == RowStart(l, c) && sptr == inOff + Corner(l, l.sy * y, l.sx * x)
      requires Emitted(l, buf, inp, y, x, pix, 0, c)
      modifies buf
      ensures Emitted(l, buf, inp, y, x, pix, 0, c + 1)
      ensures Writes(buf, outp, 1)
    {
      hide Runnable, Conv.MaxK, Conv.InSize, RowStart, OutByte, Corner, Accumulator, Dot, Emitted;
      ghost var a, b := PointwiseOperands(l, inp, y, x, c);
      var sum := DotProd(buf, sptr, l.w, kptr, l.ic, a, b);
      Emit(l, buf, inp, y, x, c, [sum], pix, outp);
    }

    /** The pointwise branch: channels two at a time, then the odd one. */
    method PixelPointwise(l: Conv, buf: array<int8>, inOff: nat, ghost inp: seq<int8>, y: nat, x: nat, pix: nat,
                          sums: array<int>)
      requires PointwiseReady(l, buf, inOff, inp, y, x, pix) && sums.Length == 2 && sums != sumscale
      modifies buf, sums
      ensures Emitted(l, buf, inp, y, x, pix, 0, l.oc)
      ensures Writes(buf, pix, l.oc)
    {
      CornerOfPixel(l, inp, y, x);
      NextWeightRow(l, 0);
      hide Runnable, Conv.MaxK, Conv.InSize, RowStart, OutByte, Corner, Check;
      var sptr := inOff + Corner(l, l.sy * y, l.sx * x);
      var kptr, outp := 0, pix;
      var c := 0;
      while c < l.oc - 2 + 1
        invariant 0 <= c <= l.oc && outp == pix + c && kptr == RowStart(l, c)
        invariant Emitted(l, buf, inp, y, x, pix, 0, c)
        invariant Writes(buf, pix, l.oc)
      {
        NextWeightRow(l, c);
        NextWeightRow(l, c + 1);
        PointwisePair(l, buf, inOff, inp, y, x, pix, c, outp, sptr, kptr, sums);
        c := c + 2;
        outp := outp + 2;
        kptr := kptr + l.ic * 2;
      }
      while c < l.oc
        invariant 0 <= c <= l.oc && outp == pix + c && kptr == RowStart(l, c)
        invariant Emitted(l, buf, inp, y, x, pix, 0, c)
        invariant Writes(buf, pix, l.oc)
      {
        NextWeightRow(l, c);
        PointwiseOdd(l, buf, inOff, inp, y, x, pix, c, outp, sptr, kptr);
        outp := outp + 1;
        kptr := kptr + l.ic;
        c := c + 1;
      }
    }

    lemma CornerOfPixel(l: Conv, inp: seq<int8>, y: nat, x: nat)
      requires Runnable(l, inp) && l.MaxK() == 1 && y < l.oh && x < l.ow
      ensures 0 <= Corner(l, l.sy * y, l.sx * x)
    {
      StrideBound(l.sy, y, l.oh, l.ih);
      StrideBound(l.sx, x, l.ow, l.iw);
      CornerBound(l, l.sy * y, l.sx * x);
    }

    lemma NextWeightRow(l: Conv, c: nat)
      requires l.MaxK() == 1 && l.dmul == 0
      ensures RowStart(l, 0) == 0 && RowStart(l, c + 1) == RowStart(l, c) + l.ic
    {
      assert (c + 1) * l.ic == c * l.ic + l.ic;
    }

    // ---------- the whole layer ----------

    /** The first n output bytes are final. */
    ghost predicate Filled(l: Conv, mem: seq<int8>, inp: seq<int8>, outOff: nat, n: nat)
      requires Runnable(l, inp) && n <= l.OutSize() && outOff + l.OutSize() <= |mem|
    {
      forall i :: 0 <= i < n ==> mem[outOff + i] == OutAt(l, inp, i)
    }

    /** Pixel number p of the output, row after row. */
    ghost function PixelStart(l: Conv, y: nat, x: nat): nat
    {
      MulNonNegative(y, l.ow);
      MulNonNegative(y * l.ow + x, l.oc);
      (y * l.ow + x) * l.oc
    }

    lemma PixelStartNext(l: Conv, y: nat, x: nat)
      requires y < l.oh && x < l.ow
      ensures PixelStart(l, y, x + 1) == PixelStart(l, y, x) + l.oc <= l.OutSize()
      ensures PixelStart(l, y, l.ow) == PixelStart(l, y + 1, 0) && PixelStart(l, 0, 0) == 0
    {
      assert (y * l.ow + x + 1) * l.oc == (y * l.ow + x) * l.oc + l.oc;
      assert (y + 1) * l.ow == y * l.ow + l.ow;
      CellInBounds(y, x, l.oh, l.ow, l.oc);
    }

    lemma CellInBounds(y: nat, x: nat, h: nat, w: nat, c: nat)
      requires y < h && x < w
      ensures (y * w + x) * c + c <= h * w * c
    {
      if c > 0 { FlatBound(y, x, c - 1, h, w, c); }
    }

    /** A finished pixel extends the finished prefix. */
    lemma FilledNext(l: Conv, buf: array<int8>, inp: seq<int8>, outOff: nat, y: nat, x: nat)
      requires Runnable(l, inp) && y < l.oh && x < l.ow && outOff + l.OutSize() <= buf.Length
      requires PixelStart(l, y, x) + l.oc <= l.OutSize()
      requires Filled(l, buf[..], inp, outOff, PixelStart(l, y, x))
      requires Emitted(l, buf, inp, y, x, outOff + PixelStart(l, y, x), 0, l.oc)
      ensures Filled(l, buf[..], inp, outOff, PixelStart(l, y, x) + l.oc)
    {
      hide Runnable, PixelStart, OutAt, OutByte, Conv.OutSize, Conv.InSize;
      var p := PixelStart(l, y, x);
      forall i | 0 <= i < p + l.oc ensures buf[outOff + i] == OutAt(l, inp, i) {
        if i >= p {
          PixelByte(l, inp, y, x, i - p);
          assert buf[outOff + p + (i - p)] == OutByte(l, inp, y, x, i - p);
        }
      }
    }

    lemma PixelByte(l: Conv, inp: seq<int8>, y: nat, x: nat, c: nat)
      requires Runnable(l, inp) && y < l.oh && x < l.ow && c < l.oc
      ensures |inp| == l.InSize() && PixelStart(l, y, x) + c < l.OutSize()
      ensures |l.b| == |l.sumScale| == l.oc && l.sumScale[c] != 0
      ensures OutAt(l, inp, PixelStart(l, y, x) + c) == OutByte(l, inp, y, x, c)
    {
      hide OutByte, Defined, Accumulator, Conv.OutSize, Conv.InSize;
      PixelIndex(l, y, x, c);
    }

    /** The layer may run on buf: input and output ranges inside it and disjoint. */
    ghost predicate LayerReady(l: Conv, buf: array<int8>, inOff: nat, inp: seq<int8>, outOff: nat)
      reads buf
    {
      && Valid() && buf != sbuf && Check(l) == OK && Runnable(l, inp) && Holds(buf, inOff, inp)
      && outOff + l.OutSize() <= buf.Length
      && (outOff + l.OutSize() <= inOff || inOff + |inp| <= outOff)
    }

    lemma NothingFilled(l: Conv, mem: seq<int8>, inp: seq<int8>, outOff: nat)
      requires Runnable(l, inp) && outOff + l.OutSize() <= |mem|
      ensures Filled(l, mem, inp, outOff, 0)
    {
    }

    /** Writing behind the finished prefix keeps it. */
    lemma FilledKept(l: Conv, before: seq<int8>, mem: seq<int8>, inp: seq<int8>, outOff: nat, p: nat)
      requires Runnable(l, inp) && p <= l.OutSize() && outOff + l.OutSize() <= |mem| == |before|
      requires Filled(l, before, inp, outOff, p) && forall j :: 0 <= j < outOff + p ==> mem[j] == before[j]
      ensures Filled(l, mem, inp, outOff, p)
    {
      forall i | 0 <= i < p ensures mem[outOff + i] == OutAt(l, inp, i) {
        assert mem[outOff + i] == before[outOff + i];
      }
    }

    /** One turn of the pointwise pixel loops. */
    method PointwiseStep(l: Conv, buf: array<int8>, inOff: nat, ghost inp: seq<int8>, ghost outOff: nat,
                         y: nat, x: nat, outp: nat, sums: array<int>)
      requires LayerReady(l, buf, inOff, inp, outOff) && l.MaxK() == 1 && ScalesReady(l)
      requires sums.Length == 2 && sums != sumscale && y < l.oh && x < l.ow
      requires outp == outOff + PixelStart(l, y, x) && PixelStart(l, y, x) + l.oc <= l.OutSize()
      requires Filled(l, buf[..], inp, outOff, PixelStart(l, y, x))
      modifies buf, sums
      ensures Filled(l, buf[..], inp, outOff, PixelStart(l, y, x) + l.oc)
      ensures Writes(buf, outp, l.oc)
    {
      hide Runnable, Conv.MaxK, Conv.InSize, Conv.OutSize, PixelStart, Emitted, Filled, Check, Corner;
      PixelPointwise(l, buf, inOff, inp, y, x, outp, sums);
      FilledKept(l, old(buf[..]), buf[..], inp, outOff, PixelStart(l, y, x));
      FilledNext(l, buf, inp, outOff, y, x);
    }

    /** One turn of the general pixel loops: gather, then write the channels. */
    method PatchStep(l: Conv, buf: array<int8>, inOff: nat, ghost inp: seq<int8>, ghost outOff: nat,
                     ghost y: nat, ghost x: nat, srcY0: int, srcX0: int, outp: nat)
      requires LayerReady(l, buf, inOff, inp, outOff) && l.MaxK() != 1 && ScalesReady(l) && Offsets(l, l.MaxK())
      requires y < l.oh && x < l.ow && srcY0 == l.sy * y - l.padTop && srcX0 == l.sx * x - l.padLeft
      requires outp == outOff + PixelStart(l, y, x) && PixelStart(l, y, x) + l.oc <= l.OutSize()
      requires Filled(l, buf[..], inp, outOff, PixelStart(l, y, x))
      modifies buf, sbuf
      ensures Filled(l, buf[..], inp, outOff, PixelStart(l, y, x) + l.oc)
      ensures Writes(buf, outp, l.oc)
    {
      hide Runnable, Conv.MaxK, Conv.InSize, Conv.OutSize, PixelStart, Emitted, Filled, Check, Corner, PatchAt,
           PatchStart, Gathered;
      PatchesFit(l, inp);
      if !(srcY0 < 0 || srcX0 < 0 || srcY0 + l.kh > l.ih || srcX0 + l.kw > l.iw) {
        GatherInside(l, buf, inOff, inp, srcY0, srcX0);
      } else {
        GatherPadded(l, buf, inOff, inp, srcY0, srcX0);
      }
      if l.MaxK() * l.Chi() == 9 && l.dmul > 0 {
        Pixel3x3(l, buf, inp, y, x, outp);
      } else {
        PixelGeneral(l, buf, inp, y, x, outp);
      }
      FilledKept(l, old(buf[..]), buf[..], inp, outOff, PixelStart(l, y, x));
      FilledNext(l, buf, inp, outOff, y, x);
    }

    method RunPointwise(l: Conv, buf: array<int8>, inOff: nat, ghost inp: seq<int8>, outOff: nat)
      requires LayerReady(l, buf, inOff, inp, outOff) && l.MaxK() == 1 && ScalesReady(l)
      modifies buf
      ensures Filled(l, buf[..], inp, outOff, l.OutSize())
      ensures Writes(buf, outOff, l.OutSize())
    {
      hide Runnable, Conv.MaxK, Conv.InSize, Conv.OutSize, PixelStart, Emitted, Filled, Check, Corner;
      var sums := new int[2];
      var outp := outOff;
      var y := 0;
      ghost var last := StartOfOutput(l);
      NothingFilled(l, buf[..], inp, outOff);
      while y < l.oh
        invariant 0 <= y <= l.oh && outp == outOff + PixelStart(l, y, 0) && PixelStart(l, y, 0) <= l.OutSize()
        invariant Filled(l, buf[..], inp, outOff, PixelStart(l, y, 0))
        invariant Writes(buf, outOff, l.OutSize())
      {
        var x := 0;
        while x < l.ow
          invariant 0 <= x <= l.ow && outp == outOff + PixelStart(l, y, x) && PixelStart(l, y, x) <= l.OutSize()
          invariant Filled(l, buf[..], inp, outOff, PixelStart(l, y, x))
          invariant Writes(buf, outOff, l.OutSize())
        {
          PixelStartNext(l, y, x);
          PointwiseStep(l, buf, inOff, inp, outOff, y, x, outp, sums);
          outp := outp + l.oc;
          x := x + 1;
        }
        RowEnd(l, y);
        y := y + 1;
      }
    }

    lemma StartOfOutput(l: Conv) returns (n: nat)
      ensures PixelStart(l, 0, 0) == 0 && PixelStart(l, l.oh, 0) == l.OutSize() == n
    {
      n := l.OutSize();
    }

    lemma RowEnd(l: Conv, y: nat)
      ensures PixelStart(l, y, l.ow) == PixelStart(l, y + 1, 0)
    {
      assert (y + 1) * l.ow == y * l.ow + l.ow;
    }

    method RunPatches(l: Conv, buf: array<int8>, inOff: nat, ghost inp: seq<int8>, outOff: nat)
      requires LayerReady(l, buf, inOff, inp, outOff) && l.MaxK() != 1 && ScalesReady(l)
      requires Offsets(l, l.MaxK())
      modifies buf, sbuf
      ensures Filled(l, buf[..], inp, outOff, l.OutSize())
      ensures Writes(buf, outOff, l.OutSize())
    {
      hide Runnable, Conv.MaxK, Conv.InSize, Conv.OutSize, PixelStart, Emitted, Filled, Check, Corner, PatchAt,
           PatchStart, Gathered;
      var outp := outOff;
      var y := 0;
      PatchesFit(l, inp);
      ghost var last := StartOfOutput(l);
      NothingFilled(l, buf[..], inp, outOff);
      while y < l.oh
        invariant 0 <= y <= l.oh && outp == outOff + PixelStart(l, y, 0) && PixelStart(l, y, 0) <= l.OutSize()
        invariant Filled(l, buf[..], inp, outOff, PixelStart(l, y, 0))
        invariant Writes(buf, outOff, l.OutSize())
      {
        var srcY0 := l.sy * y - l.padTop;
        var x := 0;
        while x < l.ow
          invariant 0 <= x <= l.ow && outp == outOff + PixelStart(l, y, x) && PixelStart(l, y, x) <= l.OutSize()
          invariant Filled(l, buf[..], inp, outOff, PixelStart(l, y, x))
          invariant Writes(buf, outOff, l.OutSize())
        {
          var srcX0 := l.sx * x - l.padLeft;
          PixelStartNext(l, y, x);
          PatchStep(l, buf, inOff, inp, outOff, y, x, srcY0, srcX0, outp);
          outp := outp + l.oc;
          x := x + 1;
        }
        RowEnd(l, y);
        y := y + 1;
      }
    }

    /** tml_conv2d_dwconv2d: refused layers change nothing; any other layer fills its output range
        with the textbook convolution of its input range and changes no other byte. */
    method Conv2d(l: Conv, buf: array<int8>, inOff: nat, ghost inp: seq<int8>, outOff: nat) returns (res: TmErr)
      requires Valid() && buf != sbuf
      requires Check(l) == OK ==> LayerReady(l, buf, inOff, inp, outOff)
      modifies buf, sbuf, kOft, sumscale
      ensures res == Check(l)
      ensures res != OK ==> buf[..] == old(buf[..])
      ensures res == OK ==> buf[..] == Splice(old(buf[..]), outOff, Output(l, inp))
    {
      if l.dx != 1 || l.dy != 1 { return ErrTodo; }
      if l.act >= ACT_MAXCNT { return ErrUnsupport; }
      var maxk := l.kh * l.kw;
      if maxk > MAX_KSIZE { return ErrKsize; }
      if maxk == 1 && (l.Padded() || l.dmul != 0) { return ErrUnsupport; }
      LoadScales(l);
      hide Runnable, Conv.InSize, Check, OutAt;
      if maxk == 1 {
        RunPointwise(l, buf, inOff, inp, outOff);
      } else {
        GenOffsets(l);
        RunPatches(l, buf, inOff, inp, outOff);
      }
      FilledIsSplice(l, buf, inp, outOff, old(buf[..]));
      return OK;
    }

    /** The loop that fills the static scale table. */
    method LoadScales(l: Conv)
      requires Valid() && l.oc <= MAX_CSIZE && |l.sumScale| == l.oc
      modifies sumscale
      ensures ScalesReady(l)
    {
      var c := 0;
      while c < l.oc
        invariant 0 <= c <= l.oc
        invariant forall i :: 0 <= i < c ==> sumscale[i] == l.sumScale[i]
      {
        sumscale[c] := l.sumScale[c];
        c := c + 1;
      }
    }

    lemma FilledIsSplice(l: Conv, buf: array<int8>, inp: seq<int8>, outOff: nat, before: seq<int8>)
      requires Runnable(l, inp) && outOff + l.OutSize() <= buf.Length == |before|
      requires Filled(l, buf[..], inp, outOff, l.OutSize())
      requires forall j :: 0 <= j < buf.Length && !(outOff <= j < outOff + l.OutSize()) ==> buf[j] == before[j]
      ensures buf[..] == Splice(before, outOff, Output(l, inp))
    {
      hide Runnable, Conv.OutSize, Conv.InSize, OutAt;
      var r := Splice(before, outOff, Output(l, inp));
      forall j | 0 <= j < buf.Length ensures buf[j] == r[j] {
        if outOff <= j < outOff + l.OutSize() {
          assert r[j] == Output(l, inp)[j - outOff];
          assert buf[outOff + (j - outOff)] == OutAt(l, inp, j - outOff);
        }
      }
    }
  }
}
