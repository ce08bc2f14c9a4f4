/** tm_model.c: loading a model binary and running its packed layer list in one shared buffer. */
module Model {
  import opened Bytes
  import opened CArithmetic
  import opened ConvolutionSpec
  import opened Convolution
  import opened FloatWords
  import opened Layers

  // ---------- the records of tinymaix.h ----------

  const MAGIC := 0x5849414D // 'XIAM'
  const MDL_INT8 := 0
  const HEADER := 64
  const HEAD := 48

  /** Height, width and channels of a matrix and the offset of its data in the main buffer. */
  datatype Mat = Mat(h: nat, w: nat, c: nat, data: nat)
  {
    function Size(): nat { h * w * c }
  }

  function MdlMagic(bin: seq<byte>): uint32 requires |bin| >= HEADER { Le32(bin, 0) }
  function MdlType(bin: seq<byte>): byte requires |bin| >= HEADER { bin[4] }
  function OutDeq(bin: seq<byte>): byte requires |bin| >= HEADER { bin[5] }
  function LayerCnt(bin: seq<byte>): nat requires |bin| >= HEADER { Le16(bin, 10) }
  function SubSize(bin: seq<byte>): uint32 requires |bin| >= HEADER { Le32(bin, 16) }
  function InDims(bin: seq<byte>): Mat requires |bin| >= HEADER { DimsAt(bin, 20, 0) }

  /** uint16_t dims[4] at off, with the data elsewhere. */
  function DimsAt(bin: seq<byte>, off: nat, data: nat): Mat
    requires off + 8 <= |bin|
  {
    Mat(Le16(bin, off + 2), Le16(bin, off + 4), Le16(bin, off + 6), data)
  }

  /** tml_head_t. */
  datatype Head = Head(kind: nat, isOut: nat, size: nat, inOft: nat, outOft: nat, inDims: Mat, outDims: Mat,
                       inS: uint32, inZp: int, outS: uint32, outZp: int)

  function HeadAt(bin: seq<byte>, o: nat): Head
    requires o + HEAD <= |bin|
  {
    var inOft, outOft := Le32(bin, o + 8), Le32(bin, o + 12);
    Head(Le16(bin, o), Le16(bin, o + 2), Le32(bin, o + 4), inOft, outOft,
         DimsAt(bin, o + 16, inOft), DimsAt(bin, o + 24, outOft),
         Le32(bin, o + 32), ToInt32(Le32(bin, o + 36)), Le32(bin, o + 40), ToInt32(Le32(bin, o + 44)))
  }

  /** n weights, biases and weight scales from off on. */
  function WeightsAt(bin: seq<byte>, off: nat, n: nat): (r: seq<int8>)
    requires off + n <= |bin|
    ensures |r| == n && forall i :: 0 <= i < n ==> r[i] == AsCell(bin[off + i])
  {
    if n == 0 then [] else WeightsAt(bin, off, n - 1) + [AsCell(bin[off + n - 1])]
  }

  function BiasesAt(bin: seq<byte>, off: nat, n: nat): (r: seq<int>)
    requires off + 4 * n <= |bin|
    ensures |r| == n && forall i :: 0 <= i < n ==> r[i] == ToInt32(Le32(bin, off + 4 * i))
  {
    seq(n, i requires 0 <= i < n => ToInt32(Le32(bin, off + 4 * i)))
  }

  function ScalesAt(ops: FloatOps, bin: seq<byte>, off: nat, n: nat, inS: uint32): (r: seq<int>)
    requires off + 4 * n <= |bin|
    ensures |r| == n && forall i :: 0 <= i < n ==> r[i] == (ops.sumScale)(Le32(bin, off + 4 * i), inS)
  {
    seq(n, i requires 0 <= i < n => (ops.sumScale)(Le32(bin, off + 4 * i), inS))
  }

  datatype Layer =
    | ConvLayer(conv: Conv)
    | GapLayer(gap: Gap)
    | FcLayer(fc: Fc)
    | SoftmaxLayer(softmax: Softmax)
    | ReshapeLayer
    | AddLayer(add: Add, in1: nat)
    | UnknownLayer

  const CONV2D := 0
  const GAP := 1
  const FC := 2
  const SOFTMAX := 3
  const RESHAPE := 4
  const DWCONV2D := 5
  const ADD := 6

  /** The geometry of a convolution record, before its tables are read. */
  function ConvShape(bin: seq<byte>, o: nat, h: Head, i: Mat): Conv
    requires o + 80 <= |bin|
  {
    Conv(i.h, i.w, i.c, h.outDims.h, h.outDims.w, h.outDims.c,
         bin[o + 48], bin[o + 49], bin[o + 50], bin[o + 51], bin[o + 52], bin[o + 53], Le16(bin, o + 54),
         bin[o + 56], bin[o + 57], bin[o + 58], bin[o + 59], Le32(bin, o + 60),
         [], [], [], 0, h.inZp, h.outZp)
  }

  /** The record and, for a layer that reads them, its tables lie inside the model. */
  predicate RecordInside(bin: seq<byte>, o: nat, i: Mat) {
    o + HEAD <= |bin| &&
    var h := HeadAt(bin, o);
    if h.kind == CONV2D || h.kind == DWCONV2D then
      o + 80 <= |bin| &&
      var l := ConvShape(bin, o, h, i);
      Check(l) == OK ==>
        && o + Le32(bin, o + 68) + 4 * l.oc <= |bin|
        && o + Le32(bin, o + 72) + l.oc * (l.Chi() * l.MaxK()) <= |bin|
        && o + Le32(bin, o + 76) + 4 * l.oc <= |bin|
    else if h.kind == FC then
      o + 64 <= |bin| &&
      o + Le32(bin, o + 48) + 4 <= |bin| &&
      o + Le32(bin, o + 52) + h.outDims.c * i.c <= |bin| &&
      o + Le32(bin, o + 56) + 4 * h.outDims.c <= |bin|
    else if h.kind == ADD then o + 64 <= |bin|
    else true
  }

  /** The layer at offset o, reading the matrix i. */
  function LayerAt(ops: FloatOps, bin: seq<byte>, o: nat, i: Mat): Layer
    requires RecordInside(bin, o, i)
  {
    var h := HeadAt(bin, o);
    if h.kind == CONV2D || h.kind == DWCONV2D then
      var l := ConvShape(bin, o, h, i);
      if Check(l) != OK then ConvLayer(l) else
      TableSize(l);
      ConvLayer(l.(
        w := WeightsAt(bin, o + Le32(bin, o + 72), l.oc * (l.Chi() * l.MaxK())),
        b := BiasesAt(bin, o + Le32(bin, o + 76), l.oc),
        sumScale := ScalesAt(ops, bin, o + Le32(bin, o + 68), l.oc, h.inS),
        outScale := (ops.outScale)(h.outS)))
    else if h.kind == GAP then GapLayer(Gap(i.h, i.w, i.c, h.inS, h.inZp, h.outS, h.outZp))
    else if h.kind == FC then
      MulNonNegative(h.outDims.c, i.c);
      FcLayer(Fc(i.c, h.outDims.c,
                 WeightsAt(bin, o + Le32(bin, o + 52), h.outDims.c * i.c),
                 BiasesAt(bin, o + Le32(bin, o + 56), h.outDims.c),
                 Le32(bin, o + Le32(bin, o + 48)), h.inS, h.outS, h.outZp))
    else if h.kind == SOFTMAX then SoftmaxLayer(Softmax(i.c, h.inS, h.inZp, h.outS, h.outZp))
    else if h.kind == RESHAPE then ReshapeLayer
    else if h.kind == ADD then
      AddLayer(Add(i.Size(), h.inS, h.inZp, Le32(bin, o + 52), ToInt32(Le32(bin, o + 56)), h.outS, h.outZp),
               Le32(bin, o + 48))
    else UnknownLayer
  }

  lemma TableSize(l: Conv)
    ensures l.oc * (l.Chi() * l.MaxK()) >= 0
  {
    MulNonNegative(l.Chi(), l.MaxK());
    MulNonNegative(l.oc, l.Chi() * l.MaxK());
  }

  // ---------- one layer, in place ----------

  /** A layer with the buffer ranges it works on. */
  datatype Placed = Placed(layer: Layer, inOff: nat, outOff: nat, outC: nat)

  /** The error a layer returns; only convolutions and unknown layers can fail. */
  function LayerErr(layer: Layer): TmErr {
    match layer
    case ConvLayer(l) => Check(l)
    case UnknownLayer => ErrLayerType
    case _ => OK
  }

  /** Bytes read from the input range, and from the second operand of an addition. */
  function InLen(layer: Layer): nat {
    match layer
    case ConvLayer(l) => l.InSize()
    case GapLayer(l) => l.h * l.w * l.c
    case FcLayer(l) => l.ic
    case SoftmaxLayer(l) => l.n
    case AddLayer(l, _) => l.size
    case ReshapeLayer => 0
    case UnknownLayer => 0
  }

  /** Bytes written: the float scratch of a softmax counts. */
  function OutLen(layer: Layer): nat {
    match layer
    case ConvLayer(l) => l.OutSize()
    case GapLayer(l) => l.c
    case FcLayer(l) => l.oc
    case SoftmaxLayer(l) => 4 * l.n
    case AddLayer(l, _) => l.size
    case ReshapeLayer => 0
    case UnknownLayer => 0
  }

  predicate Disjoint(a: nat, n: nat, b: nat, m: nat) { a + n <= b || b + m <= a }

  /** The input range of a layer that runs, and of an addition's second operand. */
  function Window(mem: seq<int8>, off: nat, n: nat): (r: seq<int8>)
    requires off + n <= |mem|
    ensures |r| == n
  {
    mem[off..off + n]
  }

  /** What running p on mem asks: ranges inside the buffer, input and output apart, and operands
      the layer itself accepts. */
  ghost predicate Fits(p: Placed, mem: seq<int8>) {
    LayerErr(p.layer) == OK ==>
      && p.inOff + InLen(p.layer) <= |mem| && p.outOff + OutLen(p.layer) <= |mem|
      && var inp := Window(mem, p.inOff, InLen(p.layer));
      match p.layer
      case ConvLayer(l) => Runnable(l, inp) && Disjoint(p.inOff, InLen(p.layer), p.outOff, OutLen(p.layer))
      case GapLayer(l) => GapRunnable(l, inp) && p.outC == l.c && Disjoint(p.inOff, |inp|, p.outOff, OutLen(p.layer))
      case FcLayer(l) => FcRunnable(l, inp) && Disjoint(p.inOff, |inp|, p.outOff, OutLen(p.layer))
      case SoftmaxLayer(l) => Disjoint(p.inOff, |inp|, p.outOff, OutLen(p.layer))
      case AddLayer(l, in1) => in1 + l.size <= |mem| && Clear(p.inOff, p.outOff, l.size) && Clear(in1, p.outOff, l.size)
      case ReshapeLayer => true
      case UnknownLayer => true
  }

  /** The pure layer: the bytes it produces from the bytes it reads. */
  ghost function Produce(ops: FloatOps, p: Placed, mem: seq<int8>): (r: seq<int8>)
    requires Fits(p, mem) && LayerErr(p.layer) == OK
    ensures |r| == OutLen(p.layer)
  {
    var inp := Window(mem, p.inOff, InLen(p.layer));
    match p.layer
    case ConvLayer(l) => Output(l, inp)
    case GapLayer(l) => GapPrefix(ops, l, inp, l.c)
    case FcLayer(l) => FcPrefix(ops, l, inp, l.oc)
    case SoftmaxLayer(l) => SoftmaxCells(ops, l, inp)
    case AddLayer(l, in1) => AddOf(ops, l, inp, Window(mem, in1, l.size))
    case ReshapeLayer => []
  }

  /** The buffer after p. */
  ghost function Effect(ops: FloatOps, p: Placed, mem: seq<int8>): (r: seq<int8>)
    requires Fits(p, mem)
    ensures |r| == |mem|
  {
    if LayerErr(p.layer) == OK then Splice(mem, p.outOff, Produce(ops, p, mem)) else mem
  }

  /** The dispatch of tm_run. */
  method RunLayer(engine: Engine, ops: FloatOps, p: Placed, buf: array<int8>) returns (res: TmErr)
    requires engine.Valid() && buf != engine.sbuf && Fits(p, buf[..])
    modifies buf, engine.sbuf, engine.kOft, engine.sumscale
    ensures res == LayerErr(p.layer) && buf[..] == Effect(ops, p, old(buf[..]))
    ensures res != OK ==> buf[..] == old(buf[..])
  {
    hide Runnable, GapRunnable, FcRunnable, Check, Conv.InSize, Conv.OutSize;
    ghost var mem := buf[..];
    ghost var inp := if p.inOff + InLen(p.layer) <= |mem| then Window(mem, p.inOff, InLen(p.layer)) else [];
    res := OK;
    match p.layer {
      case ConvLayer(l) =>
        ConvSizes(l, inp);
        res := engine.Conv2d(l, buf, p.inOff, inp, p.outOff);
      case GapLayer(l) =>
        GapSize(l, inp);
        RunGap(ops, l, buf, p.inOff, inp, p.outOff);
      case FcLayer(l) =>
        FcSize(l, inp);
        RunFc(ops, l, buf, p.inOff, inp, p.outOff);
      case SoftmaxLayer(l) => RunSoftmax(ops, l, buf, p.inOff, inp, p.outOff);
      case AddLayer(l, in1) => RunAdd(ops, l, buf, p.inOff, in1, inp, Window(mem, in1, l.size), p.outOff);
      case ReshapeLayer =>
      case UnknownLayer => res := ErrLayerType;
    }
  }

  lemma ConvSizes(l: Conv, inp: seq<int8>)
    ensures Runnable(l, inp) ==> |inp| == l.InSize()
  {
  }

  lemma GapSize(l: Gap, inp: seq<int8>)
    ensures GapRunnable(l, inp) ==> |inp| == l.h * l.w * l.c
  {
  }

  lemma FcSize(l: Fc, inp: seq<int8>)
    ensures FcRunnable(l, inp) ==> |inp| == l.ic
  {
  }

  // ---------- outputs ----------

  /** TM_ALIGN: the next multiple of eight. */
  function AlignUp(a: nat): (r: nat)
    ensures r % 8 == 0 && a <= r < a + 8
  {
    (a + 7) / 8 * 8
  }

  /** Where the dequantized copy of an output goes: behind its bytes, aligned as an address. base is
      the address of the main buffer. */
  function FloatOff(base: nat, h: Head): (r: nat)
    ensures h.outOft + h.outDims.Size() <= r
  {
    AlignUp(base + h.outOft + h.outDims.Size()) - base
  }

  /** It is the first place behind the output whose address is a multiple of eight. */
  lemma FloatOffIsFirst(base: nat, h: Head, r: nat)
    requires h.outOft + h.outDims.h * h.outDims.w * h.outDims.c <= r && (base + r) % 8 == 0
    ensures (base + FloatOff(base, h)) % 8 == 0 && FloatOff(base, h) <= r
  {
    NextMultiple(base + h.outOft + h.outDims.Size(), base + r);
  }

  lemma NextMultiple(a: nat, b: nat)
    requires a <= b && b % 8 == 0
    ensures AlignUp(a) <= b
  {
  }

  function Dequantized(ops: FloatOps, q: seq<int8>, zp: int, s: uint32): (r: seq<uint32>)
    ensures |r| == |q| && forall i :: 0 <= i < |r| ==> r[i] == Dequant(ops, q[i] - zp, s)
  {
    if q == [] then [] else Dequantized(ops, q[..|q| - 1], zp, s) + [Dequant(ops, q[|q| - 1] - zp, s)]
  }

  predicate Publishes(deq: byte, h: Head) { h.isOut != 0 && deq != 0 }

  predicate PublishFits(base: nat, deq: byte, h: Head, size: nat) {
    Publishes(deq, h) ==> FloatOff(base, h) + 4 * h.outDims.Size() <= size
  }

  /** The buffer after an output layer's results have been dequantized, if the model asks for it. */
  function Publish(ops: FloatOps, base: nat, deq: byte, h: Head, mem: seq<int8>): (r: seq<int8>)
    requires PublishFits(base, deq, h, |mem|)
    ensures |r| == |mem|
  {
    if Publishes(deq, h) then
      Splice(mem, FloatOff(base, h),
             FloatCells(Dequantized(ops, Window(mem, h.outOft, h.outDims.Size()), h.outZp, h.outS)))
    else mem
  }

  /** Output k, at outOft + k, is dequantized to float k behind the outputs; nothing else changes, and nothing at
      all unless the layer is an output and the model asks for floats. */
  lemma PublishLaw(ops: FloatOps, base: nat, deq: byte, h: Head, mem: seq<int8>, k: nat)
    requires PublishFits(base, deq, h, |mem|)
    ensures var r, at := Publish(ops, base, deq, h, mem), FloatOff(base, h);
            && (deq == 0 || h.isOut == 0 ==> r == mem)
            && (forall j :: 0 <= j < |mem| && !(at <= j < at + 4 * h.outDims.Size()) ==> r[j] == mem[j])
            && (deq != 0 && h.isOut != 0 && k < h.outDims.Size() ==>
                  && at + 4 * k + 4 <= |r| && h.outOft + k < |mem|
                  && Word(r[at + 4 * k], r[at + 4 * k + 1], r[at + 4 * k + 2], r[at + 4 * k + 3])
                     == Dequant(ops, mem[h.outOft + k] - h.outZp, h.outS))
  {
    hide FloatOff, FloatCells, Cells, Word, Dequant, Mat.Size;
    var n := h.outDims.Size();
    if Publishes(deq, h) && k < n {
      var d := Dequantized(ops, Window(mem, h.outOft, n), h.outZp, h.outS);
      FloatCellAt(d, k, 0);
      FloatCellAt(d, k, 1);
      FloatCellAt(d, k, 2);
      FloatCellAt(d, k, 3);
      WordOfCells(d[k]);
    }
  }

  /** The dequantizing loop. */
  method Dequantize(ops: FloatOps, buf: array<int8>, from: nat, n: nat, to: nat, zp: int, s: uint32)
    requires from + n <= to && to + 4 * n <= buf.Length
    modifies buf
    ensures buf[..] == Splice(old(buf[..]), to, FloatCells(Dequantized(ops, Window(old(buf[..]), from, n), zp, s)))
  {
    hide Item, FloatCells;
    ghost var d := Dequantized(ops, Window(buf[..], from, n), zp, s);
    var i := 0;
    while i < n
      invariant 0 <= i <= n
      invariant forall k :: 0 <= k < i ==> Item(buf, to, k) == d[k]
      invariant forall j :: 0 <= j < buf.Length && !(to <= j < to + 4 * n) ==> buf[j] == old(buf[j])
    {
      StoreItem(buf, to, i, Dequant(ops, buf[from + i] - zp, s));
      i := i + 1;
    }
    forall j | 0 <= j < 4 * n ensures buf[to + j] == FloatCells(d)[j] {
      FloatsAreCells(buf, to, d, j);
    }
    IsSplice(old(buf[..]), buf[..], to, FloatCells(d));
  }

  // ---------- loading and preprocessing ----------

  /** What tm_load answers. tm_malloc is NULL in this build, so a model without a main buffer, or
      one that wants a sub buffer, is out of memory. */
  function LoadErr(bin: seq<byte>, hasBuf: bool): TmErr
    requires |bin| >= HEADER
  {
    if MdlMagic(bin) != MAGIC then ErrMagic
    else if MdlType(bin) != MDL_INT8 then ErrMdlType
    else if !hasBuf || SubSize(bin) > 0 then ErrOom
    else OK
  }

  /** Which models load, and what the others answer: the first four bytes have to be MAIX, the type
      INT8, a main buffer given, and no sub buffer wanted; a wrong magic is answered before a wrong type. */
  lemma LoadsExactly(bin: seq<byte>, hasBuf: bool)
    requires |bin| >= HEADER
    ensures var maix := bin[..4] == [0x4D, 0x41, 0x49, 0x58];
            var memory := bin[16..20] == [0, 0, 0, 0] && hasBuf;
            && (LoadErr(bin, hasBuf) == ErrMagic <==> !maix)
            && (LoadErr(bin, hasBuf) == ErrMdlType <==> maix && bin[4] != 0)
            && (LoadErr(bin, hasBuf) == ErrOom <==> maix && bin[4] == 0 && !memory)
            && (LoadErr(bin, hasBuf) == OK <==> maix && bin[4] == 0 && memory)
  {
    var magic: seq<byte> := [0x4D, 0x41, 0x49, 0x58];
    var none: seq<byte> := [0, 0, 0, 0];
    Le32Slice(bin, 0);
    Le32Slice(bin, 16);
    BytesOfLe32(bin[0..4]);
    BytesOfLe32(bin[16..20]);
    BytesOfLe32(magic);
    BytesOfLe32(none);
    assert Le32(magic, 0) == MAGIC && Le32(none, 0) == 0;
    assert bin[0..4] == bin[..4];
  }

  /** TMPP_UINT2INT: unsigned pixels to signed, around zero. */
  function Centred(pixels: seq<byte>): (r: seq<int8>)
    ensures |r| == |pixels| && forall i :: 0 <= i < |r| ==> r[i] as int + 128 == pixels[i]
  {
    if pixels == [] then [] else Centred(pixels[..|pixels| - 1]) + [(pixels[|pixels| - 1] as int) - 128]
  }

  /** tm_preprocess with TMPP_UINT2INT. */
  method Preprocess(pixels: array<byte>, n: nat, buf: array<int8>, to: nat)
    requires n <= pixels.Length && to + n <= buf.Length
    modifies buf
    ensures buf[..] == Splice(old(buf[..]), to, Centred(old(pixels[..n])))
  {
    ghost var src := pixels[..n];
    var i := 0;
    while i < n
      invariant 0 <= i <= n && pixels[..n] == src
      invariant forall k :: 0 <= k < i ==> buf[to + k] == Centred(src)[k]
      invariant forall j :: 0 <= j < buf.Length && !(to <= j < to + n) ==> buf[j] == old(buf[j])
    {
      assert pixels[i] == src[i];
      buf[to + i] := ToInt8(pixels[i] as int - 128);
      i := i + 1;
    }
    IsSplice(old(buf[..]), buf[..], to, Centred(src));
  }

  // ---------- the run ----------

  /** One entry of the caller's output array: shape, offset in the buffer, and whether the data are
      the dequantized floats. */
  datatype OutMat = OutMat(dims: Mat, isFloat: bool)

  function OutMatOf(base: nat, deq: byte, h: Head): OutMat {
    if deq == 0 then OutMat(h.outDims, false)
    else OutMat(h.outDims.(data := FloatOff(base, h)), true)
  }

  /** The matrix layer i reads: the caller's for the first layer, the header's otherwise. */
  function InMat(bin: seq<byte>, i: nat, o: nat, in0: Mat): Mat
    requires o + HEAD <= |bin|
  {
    if i > 0 then HeadAt(bin, o).inDims else in0
  }

  function Place(ops: FloatOps, bin: seq<byte>, i: nat, o: nat, in0: Mat): Placed
    requires o + HEAD <= |bin| && RecordInside(bin, o, InMat(bin, i, o, in0))
  {
    var m, h := InMat(bin, i, o, in0), HeadAt(bin, o);
    Placed(LayerAt(ops, bin, o, m), m.data, h.outOft, h.outDims.c)
  }

  /** The buffer after layer i, when it does not fail. */
  ghost function Step(ops: FloatOps, base: nat, bin: seq<byte>, i: nat, o: nat, in0: Mat, mem: seq<int8>)
    : (r: seq<int8>)
    requires StepFits(ops, base, bin, i, o, in0, mem)
    ensures |r| == |mem|
  {
    Publish(ops, base, OutDeq(bin), HeadAt(bin, o), Effect(ops, Place(ops, bin, i, o, in0), mem))
  }

  ghost predicate StepFits(ops: FloatOps, base: nat, bin: seq<byte>, i: nat, o: nat, in0: Mat, mem: seq<int8>) {
    && |bin| >= HEADER && o + HEAD <= |bin| && RecordInside(bin, o, InMat(bin, i, o, in0))
    && Fits(Place(ops, bin, i, o, in0), mem) && PublishFits(base, OutDeq(bin), HeadAt(bin, o), |mem|)
  }

  /** The error of layer i, the size of its record, and what it adds to the outputs. */
  ghost function StepErr(ops: FloatOps, base: nat, bin: seq<byte>, i: nat, o: nat, in0: Mat, mem: seq<int8>): TmErr
    requires StepFits(ops, base, bin, i, o, in0, mem)
  {
    LayerErr(Place(ops, bin, i, o, in0).layer)
  }

  function RecordSize(bin: seq<byte>, o: nat): nat { if o + HEAD <= |bin| then HeadAt(bin, o).size else 0 }

  function StepOuts(base: nat, bin: seq<byte>, o: nat): seq<OutMat> {
    if |bin| >= HEADER && o + HEAD <= |bin| && HeadAt(bin, o).isOut != 0
    then [OutMatOf(base, OutDeq(bin), HeadAt(bin, o))] else []
  }

  /** Every layer reached from layer i, at offset o of the model, can run on what it finds. */
  ghost predicate RunFits(ops: FloatOps, base: nat, bin: seq<byte>, i: nat, o: nat, in0: Mat, mem: seq<int8>)
    decreases |bin| >= HEADER, if |bin| >= HEADER then LayerCnt(bin) - i else 0
  {
    |bin| >= HEADER &&
    (i < LayerCnt(bin) ==>
       && StepFits(ops, base, bin, i, o, in0, mem)
       && (StepErr(ops, base, bin, i, o, in0, mem) == OK ==>
             RunFits(ops, base, bin, i + 1, o + RecordSize(bin, o), in0, Step(ops, base, bin, i, o, in0, mem))))
  }

  /** How a run ends: the result, the layer it stopped at, the buffer and the outputs so far. */
  datatype Outcome = Outcome(err: TmErr, layer: nat, mem: seq<int8>, outs: seq<OutMat>)

  /** Layers i, i+1, ... one after the other as functions of the buffer, stopping at the first that
      fails. */
  ghost function RunFrom(ops: FloatOps, base: nat, bin: seq<byte>, i: nat, o: nat, in0: Mat, mem: seq<int8>,
                         outs: seq<OutMat>): (r: Outcome)
    requires RunFits(ops, base, bin, i, o, in0, mem)
    ensures |r.mem| == |mem|
    decreases LayerCnt(bin) - i
  {
    hide StepFits, Step, StepErr, RecordSize, StepOuts;
    if i >= LayerCnt(bin) then Outcome(OK, i, mem, outs) else
    var err := StepErr(ops, base, bin, i, o, in0, mem);
    if err != OK then Outcome(err, i, mem, outs) else
    RunFrom(ops, base, bin, i + 1, o + RecordSize(bin, o), in0, Step(ops, base, bin, i, o, in0, mem),
            outs + StepOuts(base, bin, o))
  }

  /** tm_mdl_t: the model binary, the main buffer at address base, and the walk over the layers. */
  class Mdl {
    var b: array<byte>
    var buf: array<int8>
    var base: nat
    var mainAlloc: nat
    var layerI: nat
    var layerBody: nat

    constructor (bin: array<byte>, main: array<int8>)
      ensures b == bin && buf == main
    {
      b, buf, base, mainAlloc, layerI, layerBody := bin, main, 0, 0, 0, 0;
    }

    /** tm_load: addr is the address of main. */
    method Load(bin: array<byte>, main: array?<int8>, addr: nat) returns (res: TmErr, input: Mat)
      requires bin.Length >= HEADER
      modifies this
      ensures res == LoadErr(bin[..], main != null)
      ensures res == OK ==>
                && b == bin && buf == main && base == addr && mainAlloc == 0
                && layerI == 0 && layerBody == HEADER && input == InDims(bin[..])
      ensures res == ErrOom && main != null ==> b == bin && buf == main && base == addr
      ensures res == ErrMagic || res == ErrMdlType ==> unchanged(this)
    {
      var head := bin[..];
      input := Mat(0, 0, 0, 0);
      if MdlMagic(head) != MAGIC { return ErrMagic, input; }
      if MdlType(head) != MDL_INT8 { return ErrMdlType, input; }
      b := bin;
      if main == null { return ErrOom, input; }
      buf, base, mainAlloc := main, addr, 0;
      if SubSize(head) > 0 { return ErrOom, input; }
      layerI, layerBody := 0, HEADER;
      return OK, InDims(head);
    }

    /** One turn of the loop of tm_run. */
    method RunStep(engine: Engine, ops: FloatOps, in0: Mat) returns (res: TmErr, out: seq<OutMat>)
      requires engine.Valid() && buf != engine.sbuf && b.Length >= HEADER && layerI < LayerCnt(b[..])
      requires StepFits(ops, base, b[..], layerI, layerBody, in0, buf[..])
      modifies this`layerBody, buf, engine.sbuf, engine.kOft, engine.sumscale
      ensures res == StepErr(ops, base, b[..], layerI, old(layerBody), in0, old(buf[..]))
      ensures res != OK ==> layerBody == old(layerBody) && out == [] && buf[..] == old(buf[..])
      ensures res == OK ==>
                && layerBody == old(layerBody) + RecordSize(b[..], old(layerBody))
                && out == StepOuts(base, b[..], old(layerBody))
                && buf[..] == Step(ops, base, b[..], layerI, old(layerBody), in0, old(buf[..]))
    {
      hide Fits, Effect, LayerErr, LayerAt, FloatCells, Dequantized, AlignUp;
      var bin := b[..];
      var h := HeadAt(bin, layerBody);
      var p := Place(ops, bin, layerI, layerBody, in0);
      out := [];
      res := RunLayer(engine, ops, p, buf);
      if res != OK { return; }
      if h.isOut != 0 {
        if OutDeq(bin) != 0 {
          Dequantize(ops, buf, h.outOft, h.outDims.Size(), FloatOff(base, h), h.outZp, h.outS);
        }
        out := [OutMatOf(base, OutDeq(bin), h)];
      }
      layerBody := layerBody + h.size;
    }

    /** tm_run: the in-place run is the composition of the pure layers, up to the first failure. */
    method Run(engine: Engine, ops: FloatOps, in0: Mat) returns (res: TmErr, outs: seq<OutMat>)
      requires engine.Valid() && buf != engine.sbuf
      requires RunFits(ops, base, b[..], 0, HEADER, in0, buf[..])
      modifies this`layerI, this`layerBody, buf, engine.sbuf, engine.kOft, engine.sumscale
      ensures Outcome(res, layerI, buf[..], outs) == RunFrom(ops, base, b[..], 0, HEADER, in0, old(buf[..]), [])
    {
      hide StepFits, Step, StepErr, RecordSize, StepOuts;
      ghost var bin, start := b[..], RunFrom(ops, base, b[..], 0, HEADER, in0, buf[..], []);
      outs := [];
      res := OK;
      layerBody := HEADER;
      layerI := 0;
      while layerI < LayerCnt(b[..])
        invariant res == OK && b[..] == bin && |bin| >= HEADER
        invariant RunFits(ops, base, bin, layerI, layerBody, in0, buf[..])
        invariant RunFrom(ops, base, bin, layerI, layerBody, in0, buf[..], outs) == start
        decreases LayerCnt(b[..]) - layerI
      {
        var out;
        res, out := RunStep(engine, ops, in0);
        if res != OK { return; }
        outs := outs + out;
        layerI := layerI + 1;
      }
    }
  }
}
