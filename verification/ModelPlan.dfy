/** Conditions on a model alone under which tm_run is safe, whatever the buffer holds. */
module ModelPlan {
  import opened Bytes
  import opened CArithmetic
  import opened DotProduct
  import opened Requantize
  import opened ConvolutionSpec
  import opened Convolution
  import opened FloatWords
  import opened Layers
  import opened Model

  // ---------- the requantizer for every accumulator of a size ----------

  function Abs(x: int): nat { if x >= 0 then x else -x }

  /** No accumulator of magnitude at most s can make the requantizer leave int32. */
  predicate RequantSafe(s: nat, scale: int, outScale: int, zp: int) {
    && scale > 0 && outScale >= 0
    && s * 0x100 < 0x8000_0000 && (s * 0x100 / scale) * outScale < 0x8000_0000
    && Abs(zp) < 0x7FFF_0000
  }

  lemma ScaledWithin(s: nat, sum: int, scale: int)
    requires scale > 0 && Abs(sum) <= s
    ensures Abs(Scaled(sum, scale)) <= s * 0x100 / scale <= s * 0x100
  {
    hide TruncDiv;
    var n := s * 0x100;
    TruncDivMonotone(sum * 0x100, n, scale);
    TruncDivMonotone(-n, sum * 0x100, scale);
    SymmetricQuotient(n, scale);
    QuotientSmaller(n, scale);
  }

  lemma SymmetricQuotient(n: nat, scale: int)
    requires scale > 0
    ensures TruncDiv(n, scale) == n / scale && TruncDiv(-(n as int), scale) == -(n / scale)
  {
  }

  lemma QuotientSmaller(n: nat, scale: int)
    requires scale > 0
    ensures 0 <= n / scale <= n
  {
    var v := n / scale;
    if v > 0 { MulOrder(1, scale, v); }
  }

  lemma ProductWithin(q: int, bound: nat, factor: nat)
    requires Abs(q) <= bound
    ensures Abs(q * factor) <= bound * factor
  {
    MulNonNegative(bound - q, factor);
    MulNonNegative(bound + q, factor);
    assert (bound - q) * factor == bound * factor - q * factor;
    assert (bound + q) * factor == bound * factor + q * factor;
  }

  /** Every such accumulator is requantized without undefined behaviour. */
  lemma SafeIsDefined(s: nat, sum: int, act: int, scale: int, outScale: int, zp: int)
    requires RequantSafe(s, scale, outScale, zp) && Abs(sum) <= s
    ensures Defined(sum, act, scale, outScale, zp)
  {
    hide Scaled;
    ScaledWithin(s, sum, scale);
    var q := Activate(act, Scaled(sum, scale));
    assert Abs(q) <= s * 0x100 / scale;
    ProductWithin(q, s * 0x100 / scale, outScale);
  }

  // ---------- one layer ----------

  /** The largest magnitude of channel c's accumulator with its bias. */
  function Reach(l: Conv, c: nat): nat
    requires c < |l.b|
  {
    TableSize(l);
    MulNonNegative(l.Chi(), l.MaxK());
    16384 * (l.Chi() * l.MaxK()) + Abs(l.b[c])
  }

  /** The tables of a convolution fit its shape, and its patches, scales and strides the static buffers
      and the picture. */
  predicate ConvRanges(l: Conv) {
    && l.ic <= MAX_SIZE && l.oc <= 16
    && (l.dmul > 0 ==> l.oc <= l.ic * l.dmul)
    && (l.MaxK() != 1 && l.dmul == 0 ==> l.ic * l.MaxK() <= 144)
    && |l.w| == l.oc * (l.Chi() * l.MaxK()) && |l.b| == |l.sumScale| == l.oc
    && (l.MaxK() == 1 && l.oh > 0 && l.ow > 0 ==> l.sy * (l.oh - 1) < l.ih && l.sx * (l.ow - 1) < l.iw)
  }

  /** No channel of it can overflow. */
  predicate ConvArithmetic(l: Conv) {
    |l.b| == |l.sumScale| &&
    forall c :: 0 <= c < |l.b| ==> RequantSafe(Reach(l, c), l.sumScale[c], l.outScale, l.outZp)
  }

  lemma ConvPlanRuns(l: Conv, inp: seq<int8>)
    requires ConvRanges(l) && ConvArithmetic(l) && |inp| == l.InSize()
    ensures Runnable(l, inp)
  {
    hide Accumulator, Defined, RequantSafe, Reach, Conv.InSize, Conv.MaxK, Conv.Chi;
    forall c | 0 <= c < l.oc ensures l.sumScale[c] != 0 {
      assert RequantSafe(Reach(l, c), l.sumScale[c], l.outScale, l.outZp);
      SafeScale(Reach(l, c), l.sumScale[c], l.outScale, l.outZp);
    }
    forall y, x, c | 0 <= y < l.oh && 0 <= x < l.ow && 0 <= c < l.oc
      ensures Defined(Accumulator(l, inp, y, x, c) + l.b[c], l.act, l.sumScale[c], l.outScale, l.outZp)
    {
      ChannelDefined(l, inp, y, x, c);
    }
  }

  lemma SafeScale(s: nat, scale: int, outScale: int, zp: int)
    requires RequantSafe(s, scale, outScale, zp)
    ensures scale > 0
  {
  }

  lemma ChannelDefined(l: Conv, inp: seq<int8>, y: nat, x: nat, c: nat)
    requires ConvArithmetic(l) && |inp| == l.InSize() && c < |l.b|
    ensures Defined(Accumulator(l, inp, y, x, c) + l.b[c], l.act, l.sumScale[c], l.outScale, l.outZp)
  {
    hide Accumulator, Defined, RequantSafe, Conv.InSize, Conv.MaxK, Conv.Chi;
    AccumulatorBound(l, inp, y, x, c);
    assert RequantSafe(Reach(l, c), l.sumScale[c], l.outScale, l.outZp);
    SafeIsDefined(Reach(l, c), Accumulator(l, inp, y, x, c) + l.b[c], l.act, l.sumScale[c], l.outScale, l.outZp);
  }

  predicate FcRanges(l: Fc) { l.ic <= MAX_SIZE && |l.w| == l.oc * l.ic && |l.b| == l.oc }

  predicate FcArithmetic(l: Fc) {
    forall c :: 0 <= c < |l.b| ==> 16384 * l.ic + Abs(l.b[c]) < 0x8000_0000
  }

  lemma FcPlanRuns(l: Fc, inp: seq<int8>)
    requires FcRanges(l) && FcArithmetic(l) && |inp| == l.ic
    ensures FcRunnable(l, inp)
  {
    hide Sum, Products, FcWeights;
    forall c | 0 <= c < l.oc ensures FitsInt32(Dot(inp, FcWeights(l, c)) + l.b[c]) {
      PartialSumBound(inp, FcWeights(l, c), l.ic);
      assert 16384 * l.ic + Abs(l.b[c]) < 0x8000_0000;
    }
  }

  /** The layer keeps to a buffer of size cells and to its tables, reads and writes apart. */
  predicate LayerRanges(p: Placed, size: nat) {
    LayerErr(p.layer) == OK ==>
      && p.inOff + InLen(p.layer) <= size && p.outOff + OutLen(p.layer) <= size
      && (p.layer.AddLayer? || p.layer.ReshapeLayer? || Disjoint(p.inOff, InLen(p.layer), p.outOff, OutLen(p.layer)))
      && match p.layer
         case ConvLayer(l) => ConvRanges(l)
         case GapLayer(l) => p.outC == l.c
         case FcLayer(l) => FcRanges(l)
         case AddLayer(l, in1) =>
           in1 + l.size <= size && Clear(p.inOff, p.outOff, l.size) && Clear(in1, p.outOff, l.size)
         case _ => true
  }

  /** No input can make the layer overflow or divide by zero. */
  predicate LayerArithmetic(p: Placed) {
    LayerErr(p.layer) == OK ==>
      match p.layer
      case ConvLayer(l) => ConvArithmetic(l)
      case GapLayer(l) => 0 < l.h * l.w <= 16777215
      case FcLayer(l) => FcArithmetic(l)
      case _ => true
  }

  /** For a layer safe in its arithmetic, keeping to the ranges is exactly what running it asks, whatever
      the buffer holds. */
  lemma LayerPlanFits(p: Placed, mem: seq<int8>)
    ensures Fits(p, mem) ==> LayerRanges(p, |mem|)
    ensures LayerArithmetic(p) ==> (Fits(p, mem) <==> LayerRanges(p, |mem|))
  {
    hide ConvRanges, FcRanges, ConvArithmetic, FcArithmetic, Runnable, FcRunnable, Check, Conv.InSize, Conv.OutSize;
    if LayerErr(p.layer) == OK && p.inOff + InLen(p.layer) <= |mem| {
      var inp := Window(mem, p.inOff, InLen(p.layer));
      match p.layer {
        case ConvLayer(l) =>
          if ConvRanges(l) && ConvArithmetic(l) { ConvPlanRuns(l, inp); }
          RunnableRanges(l, inp);
        case FcLayer(l) =>
          if FcRanges(l) && FcArithmetic(l) { FcPlanRuns(l, inp); }
          FcRunnableRanges(l, inp);
        case _ =>
      }
    }
  }

  lemma RunnableRanges(l: Conv, inp: seq<int8>)
    ensures Runnable(l, inp) ==> ConvRanges(l)
  {
    hide Conv.InSize, Accumulator, Defined;
  }

  lemma FcRunnableRanges(l: Fc, inp: seq<int8>)
    ensures FcRunnable(l, inp) ==> FcRanges(l)
  {
  }

  // ---------- the whole model ----------

  /** The records from layer i, at offset o, up to the first that fails are inside the model, and every
      such layer and its dequantized copy keep to a buffer of size cells. */
  predicate Ranges(ops: FloatOps, base: nat, bin: seq<byte>, i: nat, o: nat, in0: Mat, size: nat)
    decreases |bin| >= HEADER, if |bin| >= HEADER then LayerCnt(bin) - i else 0
  {
    |bin| >= HEADER &&
    (i < LayerCnt(bin) ==>
       && o + HEAD <= |bin| && RecordInside(bin, o, InMat(bin, i, o, in0))
       && var p := Place(ops, bin, i, o, in0);
          && LayerRanges(p, size) && PublishFits(base, OutDeq(bin), HeadAt(bin, o), size)
          && (LayerErr(p.layer) == OK ==> Ranges(ops, base, bin, i + 1, o + RecordSize(bin, o), in0, size)))
  }

  /** Every such layer whose record is inside the model is safe in its arithmetic. */
  predicate Arithmetic(ops: FloatOps, bin: seq<byte>, i: nat, o: nat, in0: Mat)
    decreases |bin| >= HEADER, if |bin| >= HEADER then LayerCnt(bin) - i else 0
  {
    |bin| >= HEADER && i < LayerCnt(bin) && o + HEAD <= |bin| && RecordInside(bin, o, InMat(bin, i, o, in0)) ==>
      var p := Place(ops, bin, i, o, in0);
      && LayerArithmetic(p)
      && (LayerErr(p.layer) == OK ==> Arithmetic(ops, bin, i + 1, o + RecordSize(bin, o), in0))
  }

  /** A model that can be run keeps to its ranges; and of a model safe in its arithmetic that is the
      exact condition, on every buffer of that size. */
  lemma {:induction false} RunsExactly(ops: FloatOps, base: nat, bin: seq<byte>, i: nat, o: nat, in0: Mat,
                                       mem: seq<int8>)
    ensures RunFits(ops, base, bin, i, o, in0, mem) ==> Ranges(ops, base, bin, i, o, in0, |mem|)
    ensures Arithmetic(ops, bin, i, o, in0) ==>
              (RunFits(ops, base, bin, i, o, in0, mem) <==> Ranges(ops, base, bin, i, o, in0, |mem|))
    decreases if |bin| >= HEADER then LayerCnt(bin) - i else 0
  {
    hide LayerRanges, LayerArithmetic, RecordInside, LayerAt, Fits, LayerErr, Step, HeadAt, PublishFits;
    if |bin| >= HEADER && i < LayerCnt(bin) && o + HEAD <= |bin| && RecordInside(bin, o, InMat(bin, i, o, in0)) {
      LayerPlanFits(Place(ops, bin, i, o, in0), mem);
      if StepFits(ops, base, bin, i, o, in0, mem) && StepErr(ops, base, bin, i, o, in0, mem) == OK {
        RunsExactly(ops, base, bin, i + 1, o + RecordSize(bin, o), in0, Step(ops, base, bin, i, o, in0, mem));
      }
    }
  }

  /** Both together: a plan under which the model runs on every buffer of that size. */
  predicate Plan(ops: FloatOps, base: nat, bin: seq<byte>, in0: Mat, size: nat) {
    Ranges(ops, base, bin, 0, HEADER, in0, size) && Arithmetic(ops, bin, 0, HEADER, in0)
  }

  lemma PlanRuns(ops: FloatOps, base: nat, bin: seq<byte>, in0: Mat, mem: seq<int8>)
    requires Plan(ops, base, bin, in0, |mem|)
    ensures RunFits(ops, base, bin, 0, HEADER, in0, mem)
  {
    hide Ranges, Arithmetic, RunFits;
    RunsExactly(ops, base, bin, 0, HEADER, in0, mem);
  }
}
