/** The layers of tm_layers.c besides convolution, each as a pass over the shared buffer and as
    the function of its input bytes that the pass computes. */
module Layers {
  import opened Bytes
  import opened CArithmetic
  import opened DotProduct
  import opened Requantize
  import opened ConvolutionSpec
  import opened Convolution
  import opened FloatWords

  // ---------- global average pooling ----------

  datatype Gap = Gap(h: nat, w: nat, c: nat, inS: uint32, inZp: int, outS: uint32, outZp: int)

  ghost function Cell(inp: seq<int8>, i: int): int { if 0 <= i < |inp| then inp[i] else 0 }

  /** The sum of channel ch over the picture, row by row. */
  ghost function ChannelSum(l: Gap, inp: seq<int8>, ch: nat): int {
    Sum(l.h, y => Sum(l.w, x => Cell(inp, (y * l.w + x) * l.c + ch)))
  }

  /** What tml_gap asks: a non-empty picture small enough for an int32 sum. */
  ghost predicate GapRunnable(l: Gap, inp: seq<int8>) {
    |inp| == l.h * l.w * l.c && 0 < l.h * l.w <= 16777215
  }

  ghost function GapByte(ops: FloatOps, l: Gap, inp: seq<int8>, ch: nat): int8
    requires GapRunnable(l, inp)
  {
    Quant(ops, Dequant(ops, TruncDiv(ChannelSum(l, inp, ch), l.h * l.w) - l.inZp, l.inS), l.outS, l.outZp)
  }

  ghost function GapPrefix(ops: FloatOps, l: Gap, inp: seq<int8>, n: nat): (r: seq<int8>)
    requires GapRunnable(l, inp)
    ensures |r| == n && forall c :: 0 <= c < n ==> r[c] == GapByte(ops, l, inp, c)
  {
    if n == 0 then [] else GapPrefix(ops, l, inp, n - 1) + [GapByte(ops, l, inp, n - 1)]
  }

  /** The values the strided pointer meets: one pixel of the channel after the other. */
  ghost function Walk(l: Gap, inp: seq<int8>, ch: nat): int -> int {
    k => Cell(inp, k * l.c + ch)
  }

  /** The strided walk visits every pixel of the channel exactly once. */
  lemma WalkIsChannelSum(l: Gap, inp: seq<int8>, ch: nat)
    ensures l.h * l.w >= 0 && Sum(l.h * l.w, Walk(l, inp, ch)) == ChannelSum(l, inp, ch)
  {
    hide Cell, Sum;
    var f := Walk(l, inp, ch);
    MulNonNegative(l.h, l.w);
    SumRows(l.h, l.w, f);
    var walked := i => Sum(l.w, j => f(i * l.w + j));
    var rows := y => Sum(l.w, x => Cell(inp, (y * l.w + x) * l.c + ch));
    forall y | 0 <= y < l.h ensures walked(y) == rows(y) {
      WalkRow(l, inp, ch, y);
    }
    SumExtensional(l.h, walked, rows);
  }

  lemma WalkRow(l: Gap, inp: seq<int8>, ch: nat, y: nat)
    ensures Sum(l.w, j => Walk(l, inp, ch)(y * l.w + j)) == Sum(l.w, x => Cell(inp, (y * l.w + x) * l.c + ch))
  {
    hide Cell;
    var walked, row := j => Walk(l, inp, ch)(y * l.w + j), x => Cell(inp, (y * l.w + x) * l.c + ch);
    forall x | 0 <= x < l.w ensures walked(x) == row(x) {
      assert walked(x) == Walk(l, inp, ch)(y * l.w + x);
    }
    SumExtensional(l.w, walked, row);
  }

  /** The truncated mean lies between the smallest and the largest value of the channel. */
  lemma GapMeanBetween(l: Gap, inp: seq<int8>, ch: nat, lo: int, hi: int)
    requires l.h * l.w > 0
    requires forall k :: 0 <= k < l.h * l.w ==> lo <= Walk(l, inp, ch)(k) <= hi
    ensures lo <= TruncDiv(ChannelSum(l, inp, ch), l.h * l.w) <= hi
  {
    WalkIsChannelSum(l, inp, ch);
    SumBetween(l.h * l.w, Walk(l, inp, ch), lo, hi);
    TruncDivBetween(ChannelSum(l, inp, ch), l.h * l.w, lo, hi);
  }

  lemma WalkStep(l: Gap, inp: seq<int8>, ch: nat, k: nat)
    requires |inp| == l.h * l.w * l.c && ch < l.c && k < l.h * l.w <= 16777215
    ensures 0 <= k * l.c + ch < |inp|
    ensures Sum(k + 1, Walk(l, inp, ch)) == Sum(k, Walk(l, inp, ch)) + inp[k * l.c + ch]
    ensures -0x8000_0000 <= Sum(k + 1, Walk(l, inp, ch)) < 0x8000_0000
    ensures (k + 1) * l.c == k * l.c + l.c
  {
    FlatBound(0, k, ch, 1, l.h * l.w, l.c);
    SumBetween(k + 1, Walk(l, inp, ch), -128, 127);
  }

  /** One channel of tml_gap: the two pixel loops with their pointer stepping by the channels. */
  method GapChannel(l: Gap, buf: array<int8>, inOff: nat, ghost inp: seq<int8>, c: nat) returns (sum: int32)
    requires GapRunnable(l, inp) && Holds(buf, inOff, inp) && c < l.c
    ensures sum == ChannelSum(l, inp, c)
  {
    hide ChannelSum, Walk;
    sum := 0;
    var data := inOff + c;
    ghost var k := 0;
    var y := 0;
    while y < l.h
      invariant 0 <= y <= l.h && k == y * l.w && data == inOff + c + k * l.c
      invariant sum == Sum(k, Walk(l, inp, c))
    {
      RowWithin(y, l.h, l.w);
      var x := 0;
      while x < l.w
        invariant 0 <= x <= l.w && k == y * l.w + x && data == inOff + c + k * l.c
        invariant sum == Sum(k, Walk(l, inp, c))
      {
        WalkStep(l, inp, c, k);
        sum := sum + buf[data];
        data := data + l.c;
        k := k + 1;
        x := x + 1;
      }
      y := y + 1;
    }
    WalkIsChannelSum(l, inp, c);
  }

  lemma RowWithin(y: nat, h: nat, w: nat)
    requires y < h
    ensures (y + 1) * w == y * w + w <= h * w
  {
    FlatRows(y + 1, h, w);
  }

  /** tml_gap. */
  method RunGap(ops: FloatOps, l: Gap, buf: array<int8>, inOff: nat, ghost inp: seq<int8>, outOff: nat)
    requires GapRunnable(l, inp) && Holds(buf, inOff, inp) && outOff + l.c <= buf.Length
    requires outOff + l.c <= inOff || inOff + |inp| <= outOff
    modifies buf
    ensures buf[..] == Splice(old(buf[..]), outOff, GapPrefix(ops, l, inp, l.c))
  {
    hide Quant, Dequant, TruncDiv, ChannelSum;
    var c := 0;
    while c < l.c
      invariant 0 <= c <= l.c
      invariant forall i :: 0 <= i < c ==> buf[outOff + i] == GapByte(ops, l, inp, i)
      invariant forall j :: 0 <= j < buf.Length && !(outOff <= j < outOff + l.c) ==> buf[j] == old(buf[j])
    {
      var sum := GapChannel(l, buf, inOff, inp, c);
      buf[outOff + c] := Quant(ops, Dequant(ops, TruncDiv(sum, l.h * l.w) - l.inZp, l.inS), l.outS, l.outZp);
      c := c + 1;
    }
    IsSplice(old(buf[..]), buf[..], outOff, GapPrefix(ops, l, inp, l.c));
  }

  // ---------- fully connected ----------

  datatype Fc = Fc(ic: nat, oc: nat, w: seq<int8>, b: seq<int>, ws: uint32, inS: uint32, outS: uint32, outZp: int)

  lemma FcRow(l: Fc, c: nat)
    requires c < l.oc && |l.w| == l.oc * l.ic
    ensures 0 <= c * l.ic && c * l.ic + l.ic <= |l.w|
  {
    RowWithin(c, l.oc, l.ic);
    MulNonNegative(c, l.ic);
  }

  /** The weights of output c. */
  function FcWeights(l: Fc, c: nat): (r: seq<int8>)
    requires c < l.oc && |l.w| == l.oc * l.ic
    ensures |r| == l.ic
  {
    FcRow(l, c);
    l.w[c * l.ic..c * l.ic + l.ic]
  }

  ghost predicate FcRunnable(l: Fc, inp: seq<int8>) {
    && |inp| == l.ic <= MAX_SIZE && |l.w| == l.oc * l.ic && |l.b| == l.oc
    && forall c :: 0 <= c < l.oc ==> FitsInt32(Dot(inp, FcWeights(l, c)) + l.b[c])
  }

  ghost function FcByte(ops: FloatOps, l: Fc, inp: seq<int8>, c: nat): int8
    requires FcRunnable(l, inp) && c < l.oc
  {
    Quant(ops, (ops.times)(Dequant(ops, Dot(inp, FcWeights(l, c)) + l.b[c], l.inS), l.ws), l.outS, l.outZp)
  }

  ghost function FcPrefix(ops: FloatOps, l: Fc, inp: seq<int8>, n: nat): (r: seq<int8>)
    requires FcRunnable(l, inp) && n <= l.oc
    ensures |r| == n && forall c :: 0 <= c < n ==> r[c] == FcByte(ops, l, inp, c)
  {
    if n == 0 then [] else FcPrefix(ops, l, inp, n - 1) + [FcByte(ops, l, inp, n - 1)]
  }

  /** tml_fc. */
  method RunFc(ops: FloatOps, l: Fc, buf: array<int8>, inOff: nat, ghost inp: seq<int8>, outOff: nat)
    requires FcRunnable(l, inp) && Holds(buf, inOff, inp) && outOff + l.oc <= buf.Length
    requires outOff + l.oc <= inOff || inOff + |inp| <= outOff
    modifies buf
    ensures buf[..] == Splice(old(buf[..]), outOff, FcPrefix(ops, l, inp, l.oc))
  {
    hide Dot, Quant, Dequant;
    var c := 0;
    while c < l.oc
      invariant 0 <= c <= l.oc
      invariant forall i :: 0 <= i < c ==> buf[outOff + i] == FcByte(ops, l, inp, i)
      invariant forall j :: 0 <= j < buf.Length && !(outOff <= j < outOff + l.oc) ==> buf[j] == old(buf[j])
    {
      FcRow(l, c);
      var sum := DotProd(buf, inOff, l.w, c * l.ic, l.ic, inp, FcWeights(l, c));
      assert FitsInt32(Dot(inp, FcWeights(l, c)) + l.b[c]);
      sum := sum + l.b[c];
      buf[outOff + c] := Quant(ops, (ops.times)(Dequant(ops, sum, l.inS), l.ws), l.outS, l.outZp);
      c := c + 1;
    }
    IsSplice(old(buf[..]), buf[..], outOff, FcPrefix(ops, l, inp, l.oc));
  }

  // ---------- softmax ----------

  datatype Softmax = Softmax(n: nat, inS: uint32, inZp: int, outS: uint32, outZp: int)

  /** Pass 1: the dequantized logits and their running maximum. */
  function Logits(ops: FloatOps, l: Softmax, inp: seq<int8>): (r: seq<uint32>)
    ensures |r| == |inp| && forall c :: 0 <= c < |r| ==> r[c] == Dequant(ops, inp[c] - l.inZp, l.inS)
  {
    if inp == [] then [] else
    Logits(ops, l, inp[..|inp| - 1]) + [Dequant(ops, inp[|inp| - 1] - l.inZp, l.inS)]
  }

  function Largest(ops: FloatOps, f: seq<uint32>, n: nat): uint32
    requires n <= |f|
  {
    if n == 0 then ops.lowest else
    var d := Largest(ops, f, n - 1);
    if (ops.above)(f[n - 1], d) then f[n - 1] else d
  }

  /** Pass 2: the exponentials, their sum, and the values kept for pass 3. */
  function Exponential(ops: FloatOps, f: uint32, dmax: uint32): uint32 { (ops.exp)((ops.minus)(f, dmax)) }

  function Total(ops: FloatOps, f: seq<uint32>, dmax: uint32, n: nat): uint32
    requires n <= |f|
  {
    if n == 0 then ops.zero else (ops.plus)(Total(ops, f, dmax, n - 1), Exponential(ops, f[n - 1], dmax))
  }

  function Kept(ops: FloatOps, f: seq<uint32>, dmax: uint32, n: nat): (r: seq<uint32>)
    requires n <= |f|
    ensures |r| == n
    ensures forall c :: 0 <= c < n ==> r[c] == (ops.minus)(Exponential(ops, f[c], dmax), ops.epsilon)
  {
    if n == 0 then [] else
    Kept(ops, f, dmax, n - 1) + [(ops.minus)(Exponential(ops, f[n - 1], dmax), ops.epsilon)]
  }

  /** Pass 3: every output byte from the float of its own position. */
  function Quantized(ops: FloatOps, l: Softmax, e: seq<uint32>, sum: uint32, n: nat): (r: seq<int8>)
    requires n <= |e|
    ensures |r| == n && forall c :: 0 <= c < n ==> r[c] == Quant(ops, (ops.over)(e[c], sum), l.outS, l.outZp)
  {
    if n == 0 then [] else
    Quantized(ops, l, e, sum, n - 1) + [Quant(ops, (ops.over)(e[n - 1], sum), l.outS, l.outZp)]
  }

  function KeptOf(ops: FloatOps, l: Softmax, inp: seq<int8>): (r: seq<uint32>)
    ensures |r| == |inp|
  {
    var f := Logits(ops, l, inp);
    Kept(ops, f, Largest(ops, f, |f|), |f|)
  }

  /** The softmax of the input, as if the floats and the bytes did not share memory. */
  function SoftmaxOf(ops: FloatOps, l: Softmax, inp: seq<int8>): (r: seq<int8>)
    ensures |r| == |inp|
  {
    var f := Logits(ops, l, inp);
    Quantized(ops, l, KeptOf(ops, l, inp), Total(ops, f, Largest(ops, f, |f|), |f|), |inp|)
  }

  /** What the pass leaves in its 4n bytes: n results, then what remains of the float scratch. */
  function SoftmaxCells(ops: FloatOps, l: Softmax, inp: seq<int8>): (r: seq<int8>)
    ensures |r| == 4 * |inp| && r[..|inp|] == SoftmaxOf(ops, l, inp)
  {
    SoftmaxOf(ops, l, inp) + FloatCells(KeptOf(ops, l, inp))[|inp|..]
  }

  /** Pass 1 of tml_softmax. */
  method SoftmaxLogits(ops: FloatOps, l: Softmax, buf: array<int8>, inOff: nat, ghost inp: seq<int8>, outOff: nat)
    returns (dmax: uint32)
    requires |inp| == l.n && Holds(buf, inOff, inp) && outOff + 4 * l.n <= buf.Length
    requires outOff + 4 * l.n <= inOff || inOff + |inp| <= outOff
    modifies buf
    ensures Floats(buf, outOff, Logits(ops, l, inp))
    ensures dmax == Largest(ops, Logits(ops, l, inp), l.n)
    ensures forall j :: 0 <= j < buf.Length && !(outOff <= j < outOff + 4 * l.n) ==> buf[j] == old(buf[j])
  {
    hide Item, Dequant, Quant;
    ghost var f := Logits(ops, l, inp);
    dmax := ops.lowest;
    var c := 0;
    while c < l.n
      invariant 0 <= c <= l.n && dmax == Largest(ops, f, c)
      invariant forall i :: 0 <= i < c ==> Item(buf, outOff, i) == f[i]
      invariant forall j :: 0 <= j < buf.Length && !(outOff <= j < outOff + 4 * l.n) ==> buf[j] == old(buf[j])
    {
      StoreItem(buf, outOff, c, Dequant(ops, buf[inOff + c] - l.inZp, l.inS));
      if (ops.above)(Item(buf, outOff, c), dmax) { dmax := Item(buf, outOff, c); }
      c := c + 1;
    }
  }

  /** Pass 2, in place in the float scratch. */
  method SoftmaxExps(ops: FloatOps, buf: array<int8>, outOff: nat, ghost f: seq<uint32>, n: nat, dmax: uint32)
    returns (sum: uint32)
    requires |f| == n && outOff + 4 * n <= buf.Length && Floats(buf, outOff, f)
    modifies buf
    ensures sum == Total(ops, f, dmax, n) && Floats(buf, outOff, Kept(ops, f, dmax, n))
    ensures forall j :: 0 <= j < buf.Length && !(outOff <= j < outOff + 4 * n) ==> buf[j] == old(buf[j])
  {
    hide Item, Dequant, Quant;
    sum := ops.zero;
    var c := 0;
    while c < n
      invariant 0 <= c <= n && sum == Total(ops, f, dmax, c)
      invariant forall i :: 0 <= i < c ==> Item(buf, outOff, i) == Kept(ops, f, dmax, n)[i]
      invariant forall i :: c <= i < n ==> Item(buf, outOff, i) == f[i]
      invariant forall j :: 0 <= j < buf.Length && !(outOff <= j < outOff + 4 * n) ==> buf[j] == old(buf[j])
    {
      StoreItem(buf, outOff, c, (ops.minus)(Item(buf, outOff, c), dmax));
      StoreItem(buf, outOff, c, (ops.exp)(Item(buf, outOff, c)));
      sum := (ops.plus)(sum, Item(buf, outOff, c));
      StoreItem(buf, outOff, c, (ops.minus)(Item(buf, outOff, c), ops.epsilon));
      c := c + 1;
    }
  }

  /** Pass 3 writes int8 results over the floats it is still reading: byte c lies in float c/4,
      which has been read by then. */
  method SoftmaxBytes(ops: FloatOps, l: Softmax, buf: array<int8>, outOff: nat, ghost e: seq<uint32>, sum: uint32)
    requires |e| == l.n && outOff + 4 * l.n <= buf.Length && Floats(buf, outOff, e)
    modifies buf
    ensures forall c :: 0 <= c < l.n ==> buf[outOff + c] == Quantized(ops, l, e, sum, l.n)[c]
    ensures forall j :: 0 <= j < buf.Length && !(outOff <= j < outOff + l.n) ==> buf[j] == old(buf[j])
  {
    hide Quant, Dequant, Quantized;
    var c := 0;
    while c < l.n
      invariant 0 <= c <= l.n
      invariant forall i :: 0 <= i < c ==> buf[outOff + i] == Quantized(ops, l, e, sum, l.n)[i]
      invariant forall j :: 0 <= j < buf.Length && !(outOff <= j < outOff + c) ==> buf[j] == old(buf[j])
    {
      assert Item(buf, outOff, c) == e[c] by {
        assert old(Item(buf, outOff, c)) == e[c];
        assert c > 0 ==> outOff + c <= outOff + 4 * c;
      }
      buf[outOff + c] := Quant(ops, (ops.over)(Item(buf, outOff, c), sum), l.outS, l.outZp);
      c := c + 1;
    }
  }

  /** tml_softmax. */
  method RunSoftmax(ops: FloatOps, l: Softmax, buf: array<int8>, inOff: nat, ghost inp: seq<int8>, outOff: nat)
    requires |inp| == l.n && Holds(buf, inOff, inp) && outOff + 4 * l.n <= buf.Length
    requires outOff + 4 * l.n <= inOff || inOff + |inp| <= outOff
    modifies buf
    ensures buf[..] == Splice(old(buf[..]), outOff, SoftmaxCells(ops, l, inp))
  {
    hide Item, Floats, FloatCells, SoftmaxCells, Holds;
    var dmax := SoftmaxLogits(ops, l, buf, inOff, inp, outOff);
    var sum := SoftmaxExps(ops, buf, outOff, Logits(ops, l, inp), l.n, dmax);
    ghost var scratch := buf[..];
    ghost var e := Kept(ops, Logits(ops, l, inp), dmax, l.n);
    forall j | 0 <= j < 4 * l.n ensures scratch[outOff + j] == FloatCells(e)[j] {
      FloatsAreCells(buf, outOff, e, j);
    }
    SoftmaxBytes(ops, l, buf, outOff, e, sum);
    SoftmaxLayout(ops, l, inp, scratch, buf[..], outOff);
    IsSplice(old(buf[..]), buf[..], outOff, SoftmaxCells(ops, l, inp));
  }

  /** Results over the first n cells, float scratch behind them. */
  lemma SoftmaxLayout(ops: FloatOps, l: Softmax, inp: seq<int8>, scratch: seq<int8>, mem: seq<int8>, outOff: nat)
    requires |inp| == l.n && outOff + 4 * l.n <= |mem| == |scratch|
    requires forall j :: 0 <= j < 4 * l.n ==> scratch[outOff + j] == FloatCells(KeptOf(ops, l, inp))[j]
    requires forall c :: 0 <= c < l.n ==> mem[outOff + c] == SoftmaxOf(ops, l, inp)[c]
    requires forall j :: 0 <= j < |mem| && !(outOff <= j < outOff + l.n) ==> mem[j] == scratch[j]
    ensures forall j :: 0 <= j < 4 * l.n ==> mem[outOff + j] == SoftmaxCells(ops, l, inp)[j]
  {
    hide SoftmaxOf, KeptOf, FloatCells;
    forall j | 0 <= j < 4 * l.n ensures mem[outOff + j] == SoftmaxCells(ops, l, inp)[j] {
      if j >= l.n { assert mem[outOff + j] == scratch[outOff + j]; }
    }
  }

  // ---------- addition ----------

  datatype Add = Add(size: nat, s0: uint32, zp0: int, s1: uint32, zp1: int, outS: uint32, outZp: int)

  /** TM_QUANT of the sum of two TM_DEQUANTs. */
  function AddByte(ops: FloatOps, l: Add, x: int8, y: int8): int8 {
    Quant(ops, (ops.plus)(Dequant(ops, x - l.zp0, l.s0), Dequant(ops, y - l.zp1, l.s1)), l.outS, l.outZp)
  }

  function AddOf(ops: FloatOps, l: Add, d0: seq<int8>, d1: seq<int8>): (r: seq<int8>)
    requires |d0| == |d1|
    ensures |r| == |d0|
    ensures forall i :: 0 <= i < |r| ==> r[i] == AddByte(ops, l, d0[i], d1[i])
  {
    if d0 == [] then [] else
    var n := |d0| - 1;
    AddOf(ops, l, d0[..n], d1[..n]) + [AddByte(ops, l, d0[n], d1[n])]
  }

  /** tml_add goes forward, so an operand may start at the result or behind its start, or end before
      it: no cell is overwritten before it has been read. */
  predicate Clear(off: nat, outOff: nat, size: nat) {
    outOff <= off || off + size <= outOff
  }

  /** One line of the unrolled loop. */
  method AddOne(ops: FloatOps, l: Add, buf: array<int8>, in0: nat, in1: nat, ghost d0: seq<int8>, ghost d1: seq<int8>,
                outOff: nat, i: nat) returns (i': nat)
    requires |d0| == |d1| == l.size && i < l.size && Clear(in0, outOff, l.size) && Clear(in1, outOff, l.size)
    requires in0 + l.size <= buf.Length && in1 + l.size <= buf.Length && outOff + l.size <= buf.Length
    requires forall j :: i <= j < l.size ==> buf[in0 + j] == d0[j] && buf[in1 + j] == d1[j]
    requires forall j :: 0 <= j < i ==> buf[outOff + j] == AddOf(ops, l, d0, d1)[j]
    modifies buf
    ensures i' == i + 1
    ensures forall j :: i' <= j < l.size ==> buf[in0 + j] == d0[j] && buf[in1 + j] == d1[j]
    ensures forall j :: 0 <= j < i' ==> buf[outOff + j] == AddOf(ops, l, d0, d1)[j]
    ensures forall j :: 0 <= j < buf.Length && j != outOff + i ==> buf[j] == old(buf[j])
  {
    hide AddByte, AddOf;
    buf[outOff + i] := AddByte(ops, l, buf[in0 + i], buf[in1 + i]);
    i' := i + 1;
  }

  /** tml_add: four sums a turn, then the rest. */
  method RunAdd(ops: FloatOps, l: Add, buf: array<int8>, in0: nat, in1: nat, ghost d0: seq<int8>, ghost d1: seq<int8>,
                outOff: nat)
    requires |d0| == |d1| == l.size && Holds(buf, in0, d0) && Holds(buf, in1, d1) && outOff + l.size <= buf.Length
    requires Clear(in0, outOff, l.size) && Clear(in1, outOff, l.size)
    modifies buf
    ensures buf[..] == Splice(old(buf[..]), outOff, AddOf(ops, l, d0, d1))
  {
    hide AddOf, AddByte;
    var i := 0;
    while i + 4 <= l.size
      invariant 0 <= i <= l.size
      invariant forall j :: i <= j < l.size ==> buf[in0 + j] == d0[j] && buf[in1 + j] == d1[j]
      invariant forall j :: 0 <= j < i ==> buf[outOff + j] == AddOf(ops, l, d0, d1)[j]
      invariant forall j :: 0 <= j < buf.Length && !(outOff <= j < outOff + l.size) ==> buf[j] == old(buf[j])
    {
      i := AddOne(ops, l, buf, in0, in1, d0, d1, outOff, i);
      i := AddOne(ops, l, buf, in0, in1, d0, d1, outOff, i);
      i := AddOne(ops, l, buf, in0, in1, d0, d1, outOff, i);
      i := AddOne(ops, l, buf, in0, in1, d0, d1, outOff, i);
    }
    while i < l.size
      invariant 0 <= i <= l.size
      invariant forall j :: i <= j < l.size ==> buf[in0 + j] == d0[j] && buf[in1 + j] == d1[j]
      invariant forall j :: 0 <= j < i ==> buf[outOff + j] == AddOf(ops, l, d0, d1)[j]
      invariant forall j :: 0 <= j < buf.Length && !(outOff <= j < outOff + l.size) ==> buf[j] == old(buf[j])
    {
      i := AddOne(ops, l, buf, in0, in1, d0, d1, outOff, i);
    }
    IsSplice(old(buf[..]), buf[..], outOff, AddOf(ops, l, d0, d1));
  }
}
