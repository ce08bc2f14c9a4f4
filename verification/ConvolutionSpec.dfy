/** What tml_conv2d_dwconv2d computes: the textbook convolution, and the facts that connect it to
    the flat patches and weight rows the loops of tm_layers.c work on. */
module ConvolutionSpec {
  import opened Bytes
  import opened CArithmetic
  import opened DotProduct
  import opened Requantize

  /** One convolution layer: input and output shapes, kernel geometry, weights and scales.
      dmul is 0 for an ordinary convolution and the depth multiplier for a depthwise one. */
  datatype Conv = Conv(
    ih: nat, iw: nat, ic: nat,
    oh: nat, ow: nat, oc: nat,
    kw: nat, kh: nat, sx: nat, sy: nat, dx: nat, dy: nat, act: nat,
    padTop: nat, padBottom: nat, padLeft: nat, padRight: nat, dmul: nat,
    w: seq<int8>, b: seq<int>, sumScale: seq<int>, outScale: int, inZp: int, outZp: int)
  {
    function MaxK(): nat { kh * kw }
    function InSize(): nat { ih * iw * ic }
    function OutSize(): nat { oh * ow * oc }

    /** Channels summed into one output value. */
    function Chi(): nat { if dmul > 0 then 1 else ic }

    /** Patches gathered for one pixel: one a summed channel, or one an output channel. */
    function Patches(): nat { if dmul > 0 then oc else ic }

    /** The input channel that patch cc is taken from. */
    function Channel(cc: nat): nat { if dmul > 0 then cc / dmul else cc }

    function Weight(i: int): int8 { if 0 <= i < |w| then w[i] else 0 }

    predicate Padded() { padTop != 0 || padBottom != 0 || padLeft != 0 || padRight != 0 }
  }

  lemma FlatBound(y: nat, x: nat, ch: nat, h: nat, w: nat, c: nat)
    requires y < h && x < w && ch < c
    ensures 0 <= (y * w + x) * c + ch < h * w * c
  {
    MulOrder(y + 1, h, w);
    assert y * w + w == (y + 1) * w;
    MulOrder(y * w + x + 1, h * w, c);
    assert (y * w + x) * c + c == (y * w + x + 1) * c;
    MulNonNegative(y, w);
    MulNonNegative(y * w + x, c);
  }

  lemma DivModUnique(q: nat, n: nat, r: nat)
    requires r < n
    ensures q * n + r >= 0
    ensures (q * n + r) / n == q && (q * n + r) % n == r
  {
    var v := q * n + r;
    MulNonNegative(q, n);
    assert v == v / n * n + v % n;
    MulOrder(q + 1, v / n, n);
    MulOrder(v / n + 1, q, n);
    assert (q + 1) * n == q * n + n;
    assert (v / n + 1) * n == v / n * n + n;
  }

  /** Row and column of a flat index into n rows of m cells. */
  lemma SplitIndex(i: nat, n: nat, m: nat)
    requires i < n * m
    ensures m > 0 && 0 <= i / m < n && 0 <= i % m < m && i == i / m * m + i % m
  {
    assert i == i / m * m + i % m;
    MulOrder(n, i / m, m);
  }

  /** The input at (y, x, ch), or the input zero point outside the picture. */
  function Tap(l: Conv, inp: seq<int8>, y: int, x: int, ch: nat): int8
    requires |inp| == l.InSize()
  {
    if 0 <= y < l.ih && 0 <= x < l.iw && ch < l.ic then
      FlatBound(y, x, ch, l.ih, l.iw, l.ic);
      inp[(y * l.iw + x) * l.ic + ch]
    else
      ToInt8(l.inZp)
  }

  /** The product at kernel cell (ky, kx) of summed channel ci, for output (y, x, c). */
  function Term(l: Conv, inp: seq<int8>, y: int, x: int, c: nat, ci: int, ky: int, kx: int): int
    requires |inp| == l.InSize()
  {
    var ch := if l.dmul > 0 then c / l.dmul else if ci >= 0 then ci else 0;
    Mul(Tap(l, inp, l.sy * y - l.padTop + ky, l.sx * x - l.padLeft + kx, ch),
        l.Weight(((c * l.Chi() + ci) * l.kh + ky) * l.kw + kx))
  }

  /** The textbook accumulator: over channels, kernel rows and kernel columns. */
  ghost function Accumulator(l: Conv, inp: seq<int8>, y: int, x: int, c: nat): int
    requires |inp| == l.InSize()
  {
    Sum(l.Chi(), ci => Sum(l.kh, ky => Sum(l.kw, kx => Term(l, inp, y, x, c, ci, ky, kx))))
  }

  /** The output byte at (y, x, c). */
  ghost function OutByte(l: Conv, inp: seq<int8>, y: int, x: int, c: nat): int8
    requires |inp| == l.InSize() && c < |l.b| && c < |l.sumScale| && l.sumScale[c] != 0
  {
    RequantByte(Accumulator(l, inp, y, x, c) + l.b[c], l.act, l.sumScale[c], l.outScale, l.outZp)
  }

  /** What the source asks of a layer it accepts: tables and weights large enough, a pointwise
      stride that stays in the picture, and no division by zero or int32 overflow while
      requantizing. */
  ghost predicate Runnable(l: Conv, inp: seq<int8>) {
    && |inp| == l.InSize()
    && l.ic <= MAX_SIZE && l.oc <= 16
    && (l.dmul > 0 ==> l.oc <= l.ic * l.dmul)
    && (l.MaxK() != 1 && l.dmul == 0 ==> l.ic * l.MaxK() <= 144)
    && |l.w| == l.oc * (l.Chi() * l.MaxK()) && |l.b| == |l.sumScale| == l.oc
    && (l.MaxK() == 1 && l.oh > 0 && l.ow > 0 ==> l.sy * (l.oh - 1) < l.ih && l.sx * (l.ow - 1) < l.iw)
    && (forall c :: 0 <= c < l.oc ==> l.sumScale[c] != 0)
    && forall y, x, c :: 0 <= y < l.oh && 0 <= x < l.ow && 0 <= c < l.oc ==>
         Defined(Accumulator(l, inp, y, x, c) + l.b[c], l.act, l.sumScale[c], l.outScale, l.outZp)
  }

  /** The place of (y, x, c) in the output, and back. */
  lemma PixelIndex(l: Conv, y: nat, x: nat, c: nat)
    requires y < l.oh && x < l.ow && c < l.oc
    ensures 0 <= (y * l.ow + x) * l.oc + c < l.OutSize()
    ensures ((y * l.ow + x) * l.oc + c) / l.oc / l.ow == y
    ensures ((y * l.ow + x) * l.oc + c) / l.oc % l.ow == x && ((y * l.ow + x) * l.oc + c) % l.oc == c
  {
    FlatBound(y, x, c, l.oh, l.ow, l.oc);
    MulNonNegative(y, l.ow);
    DivModUnique(y * l.ow + x, l.oc, c);
    DivModUnique(y, l.ow, x);
  }

  lemma PixelOf(l: Conv, i: nat)
    requires i < l.OutSize()
    ensures l.oc > 0 && l.ow > 0
    ensures 0 <= i / l.oc / l.ow < l.oh && 0 <= i / l.oc % l.ow < l.ow && 0 <= i % l.oc < l.oc
  {
    SplitIndex(i, l.oh * l.ow, l.oc);
    SplitIndex(i / l.oc, l.oh, l.ow);
  }

  /** Byte i of the output, in HWC order. */
  ghost function OutAt(l: Conv, inp: seq<int8>, i: nat): int8
    requires Runnable(l, inp) && i < l.OutSize()
  {
    PixelOf(l, i);
    OutByte(l, inp, i / l.oc / l.ow, i / l.oc % l.ow, i % l.oc)
  }

  ghost function OutPrefix(l: Conv, inp: seq<int8>, n: nat): (r: seq<int8>)
    requires Runnable(l, inp) && n <= l.OutSize()
    ensures |r| == n && forall i :: 0 <= i < n ==> r[i] == OutAt(l, inp, i)
  {
    if n == 0 then [] else OutPrefix(l, inp, n - 1) + [OutAt(l, inp, n - 1)]
  }

  /** The whole output picture. */
  ghost function Output(l: Conv, inp: seq<int8>): (r: seq<int8>)
    requires Runnable(l, inp)
    ensures |r| == l.OutSize() && forall i :: 0 <= i < |r| ==> r[i] == OutAt(l, inp, i)
  {
    OutPrefix(l, inp, l.OutSize())
  }

  /** The product, spelled out: the input cell under the kernel cell, or the low byte of the input zero point
      outside the picture, times the weight at (c, ci, ky, kx). */
  lemma TermIs(l: Conv, inp: seq<int8>, y: nat, x: nat, c: nat, ci: nat, ky: nat, kx: nat)
    requires |inp| == l.InSize() && |l.w| == l.oc * (l.Chi() * l.MaxK())
    requires c < l.oc && ci < l.Chi() && ky < l.kh && kx < l.kw && (l.dmul > 0 ==> l.oc <= l.ic * l.dmul)
    ensures var ch := if l.dmul > 0 then c / l.dmul else ci;
            var r, s := y * l.sy + ky - l.padTop, x * l.sx + kx - l.padLeft;
            var i, j := (r * l.iw + s) * l.ic + ch, ((c * l.Chi() + ci) * l.kh + ky) * l.kw + kx;
            && 0 <= ch < l.ic && 0 <= j < |l.w| && (0 <= r < l.ih && 0 <= s < l.iw ==> 0 <= i < |inp|)
            && Term(l, inp, y, x, c, ci, ky, kx) ==
               (if 0 <= r < l.ih && 0 <= s < l.iw then inp[i] else ToInt8(l.inZp)) as int * (l.w[j] as int)
  {
    var ch := if l.dmul > 0 then c / l.dmul else ci;
    var r, s := y * l.sy + ky - l.padTop, x * l.sx + kx - l.padLeft;
    ChannelInside(l, c, ci);
    if 0 <= r < l.ih && 0 <= s < l.iw { FlatBound(r, s, ch, l.ih, l.iw, l.ic); }
    WeightInside(l, c, ci, ky, kx);
    assert l.sy * y == y * l.sy && l.sx * x == x * l.sx;
  }

  lemma ChannelInside(l: Conv, c: nat, ci: nat)
    requires c < l.oc && ci < l.Chi() && (l.dmul > 0 ==> l.oc <= l.ic * l.dmul)
    ensures l.dmul > 0 ==> 0 <= c / l.dmul < l.ic
    ensures l.dmul == 0 ==> ci < l.ic
  {
    if l.dmul > 0 { SplitIndex(c, l.ic, l.dmul); }
  }

  lemma WeightInside(l: Conv, c: nat, ci: nat, ky: nat, kx: nat)
    requires c < l.oc && ci < l.Chi() && ky < l.kh && kx < l.kw
    ensures 0 <= ((c * l.Chi() + ci) * l.kh + ky) * l.kw + kx < l.oc * (l.Chi() * l.MaxK())
  {
    FlatBound(c, ci, ky, l.oc, l.Chi(), l.kh);
    FlatBound(0, (c * l.Chi() + ci) * l.kh + ky, kx, 1, l.oc * l.Chi() * l.kh, l.kw);
    Regroup(l.oc, l.Chi(), l.kh, l.kw);
  }

  lemma Regroup(a: int, b: int, c: int, d: int)
    ensures a * b * c * d == a * (b * (c * d))
  {
    assert a * b * c == a * (b * c);
    assert a * (b * c) * d == a * (b * c * d);
    assert b * c * d == b * (c * d);
  }

  /** The output holds at flat index (y*ow + x)*oc + c the requantized textbook convolution of
      pixel (y, x) and channel c, and that byte is the one the rounding and the clamps prescribe. */
  lemma OutputIsConvolution(l: Conv, inp: seq<int8>, y: nat, x: nat, c: nat)
    requires Runnable(l, inp) && y < l.oh && x < l.ow && c < l.oc
    ensures 0 <= (y * l.ow + x) * l.oc + c < |Output(l, inp)|
    ensures Output(l, inp)[(y * l.ow + x) * l.oc + c]
         == RequantByte(Accumulator(l, inp, y, x, c) + l.b[c], l.act, l.sumScale[c], l.outScale, l.outZp)
    ensures IsOutput(Sum(l.Chi(), ci => Sum(l.kh, ky => Sum(l.kw, kx => Term(l, inp, y, x, c, ci, ky, kx)))) + l.b[c],
                     l.act, l.sumScale[c], l.outScale, l.outZp, Output(l, inp)[(y * l.ow + x) * l.oc + c])
  {
    hide IsOutput;
    PixelIndex(l, y, x, c);
    RequantByteIsOutput(Accumulator(l, inp, y, x, c) + l.b[c], l.act, l.sumScale[c], l.outScale, l.outZp);
  }

  /** TM_MATP(in, y0, x0, 0) relative to in->data. */
  function Corner(l: Conv, y0: int, x0: int): int { (y0 * l.iw + x0) * l.ic }

  /** Where patch cc starts in the patch buffer. */
  function PatchStart(l: Conv, cc: nat): (r: nat)
  {
    MulNonNegative(cc, l.MaxK());
    cc * l.MaxK()
  }

  lemma PatchStartNext(l: Conv, cc: nat)
    ensures PatchStart(l, 0) == 0 && PatchStart(l, cc + 1) == PatchStart(l, cc) + l.MaxK()
  {
    assert (cc + 1) * l.MaxK() == cc * l.MaxK() + l.MaxK();
  }

  lemma PatchStartOrder(l: Conv, cc: nat, n: nat)
    requires cc < n
    ensures PatchStart(l, cc) + l.MaxK() <= PatchStart(l, n)
  {
    PatchStartNext(l, cc);
    if l.MaxK() > 0 { MulOrder(cc + 1, n, l.MaxK()); }
  }

  /** The patch, kernel row and kernel column of cell j of the patch buffer. */
  function PatchOf(l: Conv, j: nat): nat requires l.MaxK() > 0 { j / l.MaxK() }
  function RowOf(l: Conv, j: nat): nat requires l.MaxK() > 0 { KernelPositive(l); j % l.MaxK() / l.kw }
  function ColOf(l: Conv, j: nat): nat requires l.MaxK() > 0 { KernelPositive(l); j % l.MaxK() % l.kw }

  lemma KernelPositive(l: Conv)
    requires l.MaxK() > 0
    ensures l.kw > 0 && l.kh > 0
  {
  }

  /** Splitting a cell number gives back the cell number ... */
  lemma Recompose(l: Conv, j: nat)
    requires l.MaxK() > 0
    ensures RowOf(l, j) < l.kh && ColOf(l, j) < l.kw
    ensures j == PatchStart(l, PatchOf(l, j)) + (RowOf(l, j) * l.kw + ColOf(l, j))
  {
    var m := l.MaxK();
    assert j == j / m * m + j % m;
    SplitIndex(j % m, l.kh, l.kw);
  }

  /** ... and every (patch, row, column) has its own number. */
  lemma CellIndex(l: Conv, cc: nat, ky: nat, kx: nat)
    requires ky < l.kh && kx < l.kw
    ensures l.MaxK() > 0 && 0 <= ky * l.kw + kx < l.MaxK()
    ensures var j := PatchStart(l, cc) + (ky * l.kw + kx);
            PatchOf(l, j) == cc && RowOf(l, j) == ky && ColOf(l, j) == kx
  {
    FlatBound(0, ky, kx, 1, l.kh, l.kw);
    DivModUnique(ky, l.kw, kx);
    DivModUnique(cc, l.MaxK(), ky * l.kw + kx);
  }

  /** Cell j of the patch buffer: patch after patch, kernel row after kernel row. */
  function PatchAt(l: Conv, inp: seq<int8>, y0: int, x0: int, j: nat): int8
    requires |inp| == l.InSize() && l.MaxK() > 0
  {
    Tap(l, inp, y0 + RowOf(l, j), x0 + ColOf(l, j), l.Channel(PatchOf(l, j)))
  }

  /** Where the patches of output channel c start. */
  function PatchBase(l: Conv, c: nat): nat { if l.dmul > 0 then PatchStart(l, c) else 0 }

  /** The start of the weight row of output channel c. */
  function RowStart(l: Conv, c: nat): nat
  {
    MulNonNegative(l.Chi(), l.MaxK());
    MulNonNegative(c, l.Chi() * l.MaxK());
    c * (l.Chi() * l.MaxK())
  }

  /** a is the part of a filled patch buffer, and b the row of weights, that belong to output
      channel c of the pixel at (y, x). */
  predicate PatchAndRow(l: Conv, inp: seq<int8>, y: int, x: int, c: nat, a: seq<int8>, b: seq<int8>)
    requires |inp| == l.InSize()
  {
    && |a| == |b| == l.Chi() * l.MaxK()
    && (|a| > 0 ==> l.MaxK() > 0)
    && (forall i :: 0 <= i < |a| ==>
          a[i] == PatchAt(l, inp, l.sy * y - l.padTop, l.sx * x - l.padLeft, PatchBase(l, c) + i))
    && (forall i :: 0 <= i < |b| ==> b[i] == l.Weight(RowStart(l, c) + i))
  }

  /** The flat dot product over a gathered patch is the textbook accumulator. */
  lemma DotIsAccumulator(l: Conv, inp: seq<int8>, y: int, x: int, c: nat, a: seq<int8>, b: seq<int8>)
    requires |inp| == l.InSize() && PatchAndRow(l, inp, y, x, c, a, b)
    ensures Dot(a, b) == Accumulator(l, inp, y, x, c)
  {
    var f, m := Products(a, b), l.MaxK();
    SumRows(l.Chi(), m, f);
    var flat := i => Sum(m, j => f(i * m + j));
    var nested := ci => Sum(l.kh, ky => Sum(l.kw, kx => Term(l, inp, y, x, c, ci, ky, kx)));
    forall ci | 0 <= ci < l.Chi() ensures flat(ci) == nested(ci) {
      DotIsAccumulatorChannel(l, inp, y, x, c, a, b, ci);
    }
    SumExtensional(l.Chi(), flat, nested);
  }

  lemma DotIsAccumulatorChannel(l: Conv, inp: seq<int8>, y: int, x: int, c: nat,
                                a: seq<int8>, b: seq<int8>, ci: nat)
    requires |inp| == l.InSize() && PatchAndRow(l, inp, y, x, c, a, b) && ci < l.Chi()
    ensures Sum(l.MaxK(), j => Products(a, b)(ci * l.MaxK() + j))
         == Sum(l.kh, ky => Sum(l.kw, kx => Term(l, inp, y, x, c, ci, ky, kx)))
  {
    var f, m := Products(a, b), l.MaxK();
    var g := j => f(ci * m + j);
    SumRows(l.kh, l.kw, g);
    var flat := i => Sum(l.kw, j => g(i * l.kw + j));
    var nested := ky => Sum(l.kw, kx => Term(l, inp, y, x, c, ci, ky, kx));
    forall ky | 0 <= ky < l.kh ensures flat(ky) == nested(ky) {
      var row := j => g(ky * l.kw + j);
      var terms := kx => Term(l, inp, y, x, c, ci, ky, kx);
      forall kx | 0 <= kx < l.kw ensures row(kx) == terms(kx) {
        ProductIsTerm(l, inp, y, x, c, a, b, ci, ky, kx);
      }
      SumExtensional(l.kw, row, terms);
    }
    SumExtensional(l.kh, flat, nested);
  }

  lemma ProductIsTerm(l: Conv, inp: seq<int8>, y: int, x: int, c: nat, a: seq<int8>, b: seq<int8>,
                      ci: nat, ky: nat, kx: nat)
    requires |inp| == l.InSize() && PatchAndRow(l, inp, y, x, c, a, b)
    requires ci < l.Chi() && ky < l.kh && kx < l.kw
    ensures Products(a, b)(ci * l.MaxK() + (ky * l.kw + kx)) == Term(l, inp, y, x, c, ci, ky, kx)
  {
    var m, k := l.MaxK(), ky * l.kw + kx;
    var i := ci * m + k;
    var cc := if l.dmul > 0 then c else ci;
    CellIndex(l, cc, ky, kx);
    FlatBound(0, ci, k, 1, l.Chi(), m);
    assert PatchBase(l, c) + i == PatchStart(l, cc) + k;
    WeightIndex(c, l.Chi(), ci, l.kh, ky, l.kw, kx);
  }

  /** The weight layout is (output channel, input channel, kernel row, kernel column). */
  lemma WeightIndex(c: int, chi: int, ci: int, kh: int, ky: int, kw: int, kx: int)
    ensures c * (chi * (kh * kw)) + (ci * (kh * kw) + (ky * kw + kx)) == ((c * chi + ci) * kh + ky) * kw + kx
  {
    var m := kh * kw;
    calc {
      ((c * chi + ci) * kh + ky) * kw + kx;
      ((c * chi + ci) * kh) * kw + ky * kw + kx;
      { assert ((c * chi + ci) * kh) * kw == (c * chi + ci) * m; }
      (c * chi + ci) * m + ky * kw + kx;
      { assert (c * chi + ci) * m == (c * chi) * m + ci * m; }
      (c * chi) * m + ci * m + ky * kw + kx;
      { assert (c * chi) * m == c * (chi * m); }
      c * (chi * m) + (ci * m + (ky * kw + kx));
    }
  }

  /** The accumulator of n products lies between -16256*n and 16384*n. */
  lemma AccumulatorBound(l: Conv, inp: seq<int8>, y: int, x: int, c: nat)
    requires |inp| == l.InSize()
    ensures -16256 * (l.Chi() * l.MaxK()) <= Accumulator(l, inp, y, x, c) <= 16384 * (l.Chi() * l.MaxK())
  {
    var rows := ci => Sum(l.kh, ky => Sum(l.kw, kx => Term(l, inp, y, x, c, ci, ky, kx)));
    var lo, hi := -16256 * l.kw, 16384 * l.kw;
    forall ci | 0 <= ci < l.Chi() ensures lo * l.kh <= rows(ci) <= hi * l.kh {
      var row := ky => Sum(l.kw, kx => Term(l, inp, y, x, c, ci, ky, kx));
      forall ky | 0 <= ky < l.kh ensures lo <= row(ky) <= hi {
        SumBetween(l.kw, kx => Term(l, inp, y, x, c, ci, ky, kx), -16256, 16384);
      }
      SumBetween(l.kh, row, lo, hi);
    }
    SumBetween(l.Chi(), rows, lo * l.kh, hi * l.kh);
    Rescale(-16256, l.kw, l.kh, l.Chi());
    Rescale(16384, l.kw, l.kh, l.Chi());
  }

  /** No convolution this build accepts can overflow its accumulator, and a bias of at most
      6029311 keeps the shift by TM_FASTSCALE_SHIFT in range as well. */
  lemma AccumulatorFits(l: Conv, inp: seq<int8>, y: int, x: int, c: nat)
    requires |inp| == l.InSize() && l.Chi() * l.MaxK() <= 144
    ensures -2340864 <= Accumulator(l, inp, y, x, c) <= 2359296
    ensures c < |l.b| && -6029311 <= l.b[c] <= 6029311 ==>
              FitsInt32((Accumulator(l, inp, y, x, c) + l.b[c]) * 0x100)
  {
    hide Accumulator;
    AccumulatorBound(l, inp, y, x, c);
  }

  lemma Rescale(v: int, kw: int, kh: int, chi: int)
    ensures v * kw * kh * chi == v * (chi * (kh * kw))
  {
    assert v * kw * kh == v * (kh * kw);
    assert v * (kh * kw) * chi == v * (chi * (kh * kw));
  }
}
