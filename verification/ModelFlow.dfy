/** The run of tm_run as data flow. All layers share one buffer, so a layer works on whatever bytes lie
    at its offsets; here that is shown to be the results of the right earlier layers. */
module ModelFlow {
  import opened Bytes
  import opened ConvolutionSpec
  import opened Convolution
  import opened FloatWords
  import opened Layers
  import opened Model
  import opened ModelRuns

  /** A run: the float steps, the address of the buffer, the model, the caller's input matrix, and
      the bytes in the buffer at the start. */
  datatype Job = Job(ops: FloatOps, base: nat, bin: seq<byte>, in0: Mat, start: seq<int8>)

  // ---------- what the model says, whatever the data ----------

  predicate Present(w: Job, k: nat) {
    var o := OffsetOf(w.bin, k);
    |w.bin| >= HEADER && o + HEAD <= |w.bin| && RecordInside(w.bin, o, InMat(w.bin, k, o, w.in0))
  }

  function Stage(w: Job, k: nat): Placed
    requires Present(w, k)
  {
    Place(w.ops, w.bin, k, OffsetOf(w.bin, k), w.in0)
  }

  function HeadOf(w: Job, k: nat): Head
    requires Present(w, k)
  {
    HeadAt(w.bin, OffsetOf(w.bin, k))
  }

  /** Bytes of the result of a layer whose record declares size output bytes. The float scratch of a
      softmax is not part of it; a reshape writes nothing, and its result is what it declares. */
  function ResultLen(layer: Layer, size: nat): nat {
    if layer.SoftmaxLayer? then layer.softmax.n else if layer.ReshapeLayer? then size else OutLen(layer)
  }

  /** Bytes of the result of layer k. */
  function Length(w: Job, k: nat): nat
    requires Present(w, k)
  {
    ResultLen(Stage(w, k).layer, HeadOf(w, k).outDims.Size())
  }

  /** Layer k writes cell c: as output, or as a dequantized copy. */
  predicate Writes(w: Job, k: nat, c: nat) {
    Present(w, k) &&
    var p, h := Stage(w, k), HeadOf(w, k);
    || !Outside(c, p.outOff, OutLen(p.layer))
    || (Publishes(OutDeq(w.bin), h) && !Outside(c, FloatOff(w.base, h), 4 * h.outDims.Size()))
  }

  /** The last layer before k that writes cell c, or -1. */
  function LastWriter(w: Job, k: nat, c: nat): (j: int)
    ensures -1 <= j < k
    ensures j >= 0 ==> Writes(w, j, c)
    ensures forall i :: j < i < k ==> !Writes(w, i, c)
  {
    if k == 0 then -1 else if Writes(w, k - 1, c) then k - 1 else LastWriter(w, k - 1, c)
  }

  /** Cell c, as layer k finds it, is part of the result of layer j, or untouched if j is -1. */
  predicate From(w: Job, k: nat, c: nat, j: int) {
    LastWriter(w, k, c) == j &&
    (j >= 0 ==> Present(w, j) && !Outside(c, Stage(w, j).outOff, Length(w, j)))
  }

  /** The n cells from off on come from one place: one result, or the initial buffer. */
  predicate OneSource(w: Job, k: nat, off: nat, n: nat) {
    forall c :: off <= c < off + n ==> From(w, k, c, LastWriter(w, k, off))
  }

  /** What a memory plan has to guarantee for layer k: no operand is a patchwork or has been written
      over, and no result is longer than the record says. */
  predicate Planned(w: Job, k: nat) {
    Present(w, k) &&
    var p := Stage(w, k);
    && OneSource(w, k, p.inOff, InLen(p.layer))
    && (p.layer.AddLayer? ==> OneSource(w, k, p.layer.in1, InLen(p.layer)))
    && (p.layer.ReshapeLayer? ==> p.outOff + Length(w, k) <= |w.start| && OneSource(w, k, p.outOff, Length(w, k)))
    && Length(w, k) <= HeadOf(w, k).outDims.Size()
  }

  // ---------- the flow of values, with no buffer in sight ----------

  ghost predicate Accepts(layer: Layer, x: seq<int8>, x1: seq<int8>) {
    |x| == InLen(layer) &&
    match layer
    case ConvLayer(l) => Check(l) == OK && Runnable(l, x)
    case GapLayer(l) => GapRunnable(l, x)
    case FcLayer(l) => FcRunnable(l, x)
    case AddLayer(_, _) => |x1| == |x|
    case _ => true
  }

  /** A layer as a function of its operands. */
  ghost function Value(ops: FloatOps, layer: Layer, x: seq<int8>, x1: seq<int8>): seq<int8> {
    if !Accepts(layer, x, x1) then [] else
    match layer
    case ConvLayer(l) => Output(l, x)
    case GapLayer(l) => GapPrefix(ops, l, x, l.c)
    case FcLayer(l) => FcPrefix(ops, l, x, l.oc)
    case SoftmaxLayer(l) => SoftmaxOf(ops, l, x)
    case AddLayer(l, _) => AddOf(ops, l, x, x1)
    case _ => []
  }

  /** The operand of layer k at off: the initial bytes, or that part of an earlier layer's result. */
  ghost function Operand(w: Job, k: nat, off: nat, n: nat): seq<int8>
    decreases k, 0
  {
    var j := LastWriter(w, k, off);
    if n == 0 then []
    else if j < 0 then (if off + n <= |w.start| then w.start[off..off + n] else [])
    else if !Present(w, j) then []
    else
      var y, at := Data(w, j), off - Stage(w, j).outOff;
      if 0 <= at && at + n <= |y| then y[at..at + n] else []
  }

  /** The result of layer k; that of a reshape is the value it leaves in place. */
  ghost function Data(w: Job, k: nat): seq<int8>
    decreases k, 1
  {
    if !Present(w, k) then [] else
    var p := Stage(w, k);
    if p.layer.ReshapeLayer? then Operand(w, k, p.outOff, Length(w, k)) else
    Value(w.ops, p.layer, Operand(w, k, p.inOff, InLen(p.layer)),
          if p.layer.AddLayer? then Operand(w, k, p.layer.in1, InLen(p.layer)) else [])
  }

  // ---------- the buffer layer by layer ----------

  /** The buffer as layer k finds it. */
  ghost function MemAt(w: Job, k: nat): seq<int8> {
    if k == 0 then w.start else
    var o, mem := OffsetOf(w.bin, k - 1), MemAt(w, k - 1);
    if StepFits(w.ops, w.base, w.bin, k - 1, o, w.in0, mem)
    then Step(w.ops, w.base, w.bin, k - 1, o, w.in0, mem) else mem
  }

  /** The layers before k run, and succeed. */
  ghost predicate Ran(w: Job, k: nat) {
    forall i :: 0 <= i < k ==> RanOne(w, i)
  }

  ghost predicate RanOne(w: Job, i: nat) {
    StepFits(w.ops, w.base, w.bin, i, OffsetOf(w.bin, i), w.in0, MemAt(w, i)) && ErrOf(w.ops, w.bin, i, w.in0) == OK
  }

  /** What one layer that ran says. */
  lemma RanFits(w: Job, i: nat)
    requires RanOne(w, i)
    ensures Present(w, i) && LayerErr(Stage(w, i).layer) == OK && Fits(Stage(w, i), MemAt(w, i))
    ensures PublishFits(w.base, OutDeq(w.bin), HeadOf(w, i), |MemAt(w, i)|)
    ensures MemAt(w, i + 1) ==
            Publish(w.ops, w.base, OutDeq(w.bin), HeadOf(w, i), Effect(w.ops, Stage(w, i), MemAt(w, i)))
    ensures |MemAt(w, i + 1)| == |MemAt(w, i)|
  {
    hide Fits, Effect, Publish, LayerErr, RecordInside, LayerAt;
  }

  /** The buffer a run ends with is the buffer at the layer it stopped at. */
  lemma {:induction false} RunReaches(w: Job, i: nat, outs: seq<OutMat>)
    requires RunFits(w.ops, w.base, w.bin, i, OffsetOf(w.bin, i), w.in0, MemAt(w, i))
    requires i <= LayerCnt(w.bin) && Ran(w, i)
    ensures var r := RunFrom(w.ops, w.base, w.bin, i, OffsetOf(w.bin, i), w.in0, MemAt(w, i), outs);
            Ran(w, r.layer) && r.mem == MemAt(w, r.layer)
    decreases LayerCnt(w.bin) - i
  {
    hide StepFits, Step, StepErr, StepOuts, RecordSize, ErrOf;
    if i < LayerCnt(w.bin) {
      var o, mem := OffsetOf(w.bin, i), MemAt(w, i);
      StepErrIsErrOf(w.ops, w.base, w.bin, i, w.in0, mem);
      if StepErr(w.ops, w.base, w.bin, i, o, w.in0, mem) == OK {
        assert RanOne(w, i);
        RunReaches(w, i + 1, outs + StepOuts(w.base, w.bin, o));
      }
    }
  }

  lemma {:induction false} SizeKept(w: Job, k: nat)
    requires Ran(w, k)
    ensures |MemAt(w, k)| == |w.start|
  {
    hide MemAt, RanOne;
    if k == 0 {
      StartMem(w);
    } else {
      SizeKept(w, k - 1);
      RanSize(w, k - 1);
    }
  }

  lemma RanSize(w: Job, i: nat)
    requires RanOne(w, i)
    ensures |MemAt(w, i + 1)| == |MemAt(w, i)|
  {
    hide Fits, Effect, Publish, LayerErr, RecordInside, LayerAt;
    RanFits(w, i);
  }

  lemma StartMem(w: Job)
    ensures MemAt(w, 0) == w.start
  {
  }

  /** A cell that the layers from j on do not write is still the same before layer k. */
  lemma {:induction false} CellKept(w: Job, j: nat, k: nat, c: nat)
    requires j <= k && Ran(w, k) && c < |w.start|
    requires forall i :: j <= i < k ==> !Writes(w, i, c)
    ensures |MemAt(w, k)| == |MemAt(w, j)| == |w.start| && MemAt(w, k)[c] == MemAt(w, j)[c]
    decreases k
  {
    hide MemAt, RanOne, Writes;
    SizeKept(w, k);
    SizeKept(w, j);
    if j < k {
      CellKept(w, j, k - 1, c);
      assert RanOne(w, k - 1);
      OneCellKept(w, k - 1, c);
    }
  }

  lemma OneCellKept(w: Job, i: nat, c: nat)
    requires RanOne(w, i) && !Writes(w, i, c) && c < |MemAt(w, i)|
    ensures |MemAt(w, i + 1)| == |MemAt(w, i)| && MemAt(w, i + 1)[c] == MemAt(w, i)[c]
  {
    hide MemAt, Fits, LayerErr, RecordInside, LayerAt, FloatCells, OutLen, Effect, FloatOff;
    RanFits(w, i);
    EffectKeeps(w.ops, Stage(w, i), MemAt(w, i), c);
  }

  // ---------- the two agree ----------

  /** The operands of p in the buffer. */
  ghost function InBuffer(p: Placed, mem: seq<int8>): (seq<int8>, seq<int8>)
    requires Fits(p, mem) && LayerErr(p.layer) == OK
  {
    (Window(mem, p.inOff, InLen(p.layer)), if p.layer.AddLayer? then Window(mem, p.layer.in1, InLen(p.layer)) else [])
  }

  /** One layer in place: at its output offset appears its value on the operands in the buffer. */
  lemma EffectIsValue(ops: FloatOps, p: Placed, mem: seq<int8>, size: nat)
    requires Fits(p, mem) && LayerErr(p.layer) == OK && !p.layer.ReshapeLayer?
    ensures var y, mem' := Value(ops, p.layer, InBuffer(p, mem).0, InBuffer(p, mem).1), Effect(ops, p, mem);
            |y| == ResultLen(p.layer, size) && p.outOff + |y| <= |mem'| == |mem| && Window(mem', p.outOff, |y|) == y
  {
    hide Fits, Produce, Splice, OutLen, Value, InBuffer, ResultLen, LayerErr;
    ProduceIsValue(ops, p, mem, size);
    SpliceWindow(mem, p.outOff, Produce(ops, p, mem), ResultLen(p.layer, size));
  }

  /** A reshape leaves the buffer as it is. */
  lemma ReshapeKeeps(ops: FloatOps, p: Placed, mem: seq<int8>)
    requires Fits(p, mem) && p.layer.ReshapeLayer?
    ensures Effect(ops, p, mem) == mem
  {
    assert Splice(mem, p.outOff, []) == mem;
  }

  lemma ProduceIsValue(ops: FloatOps, p: Placed, mem: seq<int8>, size: nat)
    requires Fits(p, mem) && LayerErr(p.layer) == OK && !p.layer.ReshapeLayer?
    ensures p.outOff + OutLen(p.layer) <= |mem| && ResultLen(p.layer, size) <= |Produce(ops, p, mem)|
    ensures Value(ops, p.layer, InBuffer(p, mem).0, InBuffer(p, mem).1)
         == Produce(ops, p, mem)[..ResultLen(p.layer, size)]
  {
    hide Runnable, GapRunnable, FcRunnable, Check, SoftmaxCells, SoftmaxOf;
    var x := InBuffer(p, mem).0;
    match p.layer {
      case ConvLayer(l) => ConvSizes(l, x);
      case GapLayer(l) => GapSize(l, x);
      case FcLayer(l) => FcSize(l, x);
      case SoftmaxLayer(l) => assert Produce(ops, p, mem) == SoftmaxCells(ops, l, x);
      case _ =>
    }
  }

  lemma SpliceWindow(mem: seq<int8>, off: nat, data: seq<int8>, n: nat)
    requires off + |data| <= |mem| && n <= |data|
    ensures Window(Splice(mem, off, data), off, n) == data[..n]
  {
  }

  /** Dequantizing behind a result does not touch it. */
  lemma PublishKeeps(ops: FloatOps, base: nat, deq: byte, h: Head, mem: seq<int8>, n: nat)
    requires PublishFits(base, deq, h, |mem|) && n <= h.outDims.Size() && h.outOft + n <= |mem|
    ensures Window(Publish(ops, base, deq, h, mem), h.outOft, n) == Window(mem, h.outOft, n)
    ensures Publishes(deq, h) && n == h.outDims.Size() ==>
              FloatCells(Dequantized(ops, Window(mem, h.outOft, n), h.outZp, h.outS)) ==
              Window(Publish(ops, base, deq, h, mem), FloatOff(base, h), 4 * n)
  {
    hide FloatCells;
  }

  /** An operand in the buffer is the operand the data flow prescribes. */
  lemma {:induction false} OperandInPlace(w: Job, k: nat, off: nat, n: nat)
    requires Ran(w, k) && OneSource(w, k, off, n) && off + n <= |w.start|
    requires forall i :: 0 <= i < k ==> Planned(w, i)
    ensures |MemAt(w, k)| == |w.start| && Window(MemAt(w, k), off, n) == Operand(w, k, off, n)
    decreases k, 0
  {
    hide MemAt, RanOne, Writes, Planned, Data, LastWriter, Present, Stage, Length, From;
    var j := LastWriter(w, k, off);
    SizeKept(w, k);
    if n > 0 {
      assert From(w, k, off, j) && From(w, k, off + n - 1, j);
      FromKept(w, k, off, n, j);
      if j < 0 {
        StartMem(w);
      } else {
        assert RanOne(w, j) && Planned(w, j);
        ResultInPlace(w, j);
        FromRange(w, k, off, j);
        FromRange(w, k, off + n - 1, j);
        SubWindow(MemAt(w, j + 1), Stage(w, j).outOff, Length(w, j), off, n);
      }
    }
  }

  /** What comes from one place is as it was right behind that place. */
  lemma FromKept(w: Job, k: nat, off: nat, n: nat, j: int)
    requires Ran(w, k) && off + n <= |w.start| && -1 <= j < k
    requires forall c :: off <= c < off + n ==> From(w, k, c, j)
    ensures |MemAt(w, k)| == |MemAt(w, j + 1)| == |w.start|
    ensures Window(MemAt(w, k), off, n) == Window(MemAt(w, j + 1), off, n)
  {
    hide MemAt, RanOne, Writes, Stage, Length;
    SizeKept(w, k);
    SizeKept(w, j + 1);
    forall c | off <= c < off + n ensures MemAt(w, k)[c] == MemAt(w, j + 1)[c] {
      assert From(w, k, c, j);
      CellKept(w, j + 1, k, c);
    }
  }

  lemma FromRange(w: Job, k: nat, c: nat, j: nat)
    requires From(w, k, c, j)
    ensures Present(w, j) && Stage(w, j).outOff <= c < Stage(w, j).outOff + Length(w, j)
  {
    hide Stage, Length, Present;
  }

  lemma SubWindow(mem: seq<int8>, at: nat, m: nat, off: nat, n: nat)
    requires at + m <= |mem| && at <= off && off + n <= at + m
    ensures Window(mem, off, n) == Window(mem, at, m)[off - at..off - at + n]
  {
    var inner := Window(mem, at, m)[off - at..off - at + n];
    forall i | 0 <= i < n ensures inner[i] == mem[off + i] {
      assert inner[i] == Window(mem, at, m)[off - at + i];
    }
  }

  lemma WindowCell(mem: seq<int8>, off: nat, n: nat, c: nat)
    requires off + n <= |mem| && off <= c < off + n
    ensures Window(mem, off, n)[c - off] == mem[c]
  {
  }

  /** Right after layer k its result lies at its output offset. */
  lemma {:induction false} ResultInPlace(w: Job, k: nat)
    requires Ran(w, k + 1) && forall i :: 0 <= i <= k ==> Planned(w, i)
    ensures Present(w, k)
    ensures var p, y, mem := Stage(w, k), Data(w, k), MemAt(w, k + 1);
            |y| == Length(w, k) && p.outOff + |y| <= |mem| == |w.start| && Window(mem, p.outOff, |y|) == y
    ensures var h, y, mem := HeadOf(w, k), Data(w, k), MemAt(w, k + 1);
            Publishes(OutDeq(w.bin), h) && |y| == h.outDims.Size() ==>
              && FloatOff(w.base, h) + 4 * |y| <= |mem|
              && Window(mem, FloatOff(w.base, h), 4 * |y|) == FloatCells(Dequantized(w.ops, y, h.outZp, h.outS))
    decreases k, 1
  {
    hide MemAt, RanOne, Writes, Value, Fits, LayerErr, Effect, Publish, FloatCells, ResultLen, InLen,
         RecordInside, LayerAt, OneSource, LastWriter;
    assert RanOne(w, k) && Planned(w, k);
    SizeKept(w, k);
    SizeKept(w, k + 1);
    RanFits(w, k);
    var p, mem := Stage(w, k), MemAt(w, k);
    if p.layer.ReshapeLayer? {
      OperandInPlace(w, k, p.outOff, Length(w, k));
      ReshapeKeeps(w.ops, p, mem);
    } else {
      FitsRanges(p, mem);
      OperandInPlace(w, k, p.inOff, InLen(p.layer));
      if p.layer.AddLayer? { OperandInPlace(w, k, p.layer.in1, InLen(p.layer)); }
      EffectIsValue(w.ops, p, mem, HeadOf(w, k).outDims.Size());
    }
    PublishKeeps(w.ops, w.base, OutDeq(w.bin), HeadOf(w, k), Effect(w.ops, p, mem), |Data(w, k)|);
  }

  lemma FitsRanges(p: Placed, mem: seq<int8>)
    requires Fits(p, mem) && LayerErr(p.layer) == OK
    ensures p.inOff + InLen(p.layer) <= |mem|
    ensures p.layer.AddLayer? ==> p.layer.in1 + InLen(p.layer) <= |mem|
  {
    hide Runnable, GapRunnable, FcRunnable, Check;
  }

  /** No layer between k and n writes over the m cells from off on. */
  predicate Survives(w: Job, k: nat, n: nat, off: nat, m: nat) {
    forall i, c :: k < i < n && off <= c < off + m ==> !Writes(w, i, c)
  }

  lemma RangeKept(w: Job, j: nat, k: nat, off: nat, m: nat)
    requires j < k && Ran(w, k) && off + m <= |w.start| && Survives(w, j, k, off, m)
    ensures |MemAt(w, k)| == |MemAt(w, j + 1)| == |w.start|
    ensures Window(MemAt(w, k), off, m) == Window(MemAt(w, j + 1), off, m)
  {
    hide MemAt, RanOne, Writes;
    SizeKept(w, k);
    SizeKept(w, j + 1);
    forall c | off <= c < off + m ensures MemAt(w, k)[c] == MemAt(w, j + 1)[c] {
      CellKept(w, j + 1, k, c);
    }
  }

  /** tm_run on a planned model, residual connections included: the result of every layer that ran,
      as computed by the flow of values from the initial bytes, is in the final buffer at the layer's
      output offset, and behind it, if asked for, its dequantized floats, unless a later layer was
      given the same room. */
  lemma RunIsDataflow(w: Job, k: nat)
    requires RunFits(w.ops, w.base, w.bin, 0, HEADER, w.in0, w.start)
    requires k < RunFrom(w.ops, w.base, w.bin, 0, HEADER, w.in0, w.start, []).layer
    requires forall i :: 0 <= i <= k ==> Planned(w, i)
    ensures Present(w, k)
    ensures var r := RunFrom(w.ops, w.base, w.bin, 0, HEADER, w.in0, w.start, []);
            var p, h, y := Stage(w, k), HeadOf(w, k), Data(w, k);
            && |y| == Length(w, k) && p.outOff + |y| <= |r.mem|
            && (Survives(w, k, r.layer, p.outOff, |y|) ==> Window(r.mem, p.outOff, |y|) == y)
            && (Publishes(OutDeq(w.bin), h) && |y| == h.outDims.Size() ==>
                  && FloatOff(w.base, h) + 4 * |y| <= |r.mem|
                  && (Survives(w, k, r.layer, FloatOff(w.base, h), 4 * |y|) ==>
                        FloatCells(Dequantized(w.ops, y, h.outZp, h.outS)) ==
                        Window(r.mem, FloatOff(w.base, h), 4 * |y|)))
  {
    hide RunFrom, RunFits, MemAt, RanOne, Planned, Data, FloatCells, Survives, Stage, HeadOf, RecordInside, FloatOff,
         Length, Dequantized;
    StartMem(w);
    var r := RunFrom(w.ops, w.base, w.bin, 0, HEADER, w.in0, w.start, []);
    RunReaches(w, 0, []);
    assert Ran(w, k + 1);
    ResultInPlace(w, k);
    var p, h, y := Stage(w, k), HeadOf(w, k), Data(w, k);
    SizeKept(w, r.layer);
    if Survives(w, k, r.layer, p.outOff, |y|) {
      RangeKept(w, k, r.layer, p.outOff, |y|);
    }
    if Publishes(OutDeq(w.bin), h) && |y| == h.outDims.Size() && Survives(w, k, r.layer, FloatOff(w.base, h), 4 * |y|) {
      RangeKept(w, k, r.layer, FloatOff(w.base, h), 4 * |y|);
    }
  }

  // ---------- what a result depends on ----------

  /** An operand that no layer has written starts within the first n cells and ends there. */
  predicate FromFront(w: Job, k: nat, off: nat, len: nat, n: nat) {
    len > 0 && LastWriter(w, k, off) < 0 ==> off + len <= n
  }

  /** Of the initial buffer, layer k reads nothing behind the first n cells. */
  predicate ReadsFront(w: Job, k: nat, n: nat) {
    Present(w, k) &&
    var p := Stage(w, k);
    && FromFront(w, k, p.inOff, InLen(p.layer), n)
    && (p.layer.AddLayer? ==> FromFront(w, k, p.layer.in1, InLen(p.layer), n))
    && (p.layer.ReshapeLayer? ==> FromFront(w, k, p.outOff, Length(w, k), n))
  }

  /** The same run on another initial buffer. */
  ghost predicate SameModel(w: Job, w': Job) {
    w' == w.(start := w'.start) && |w'.start| == |w.start|
  }

  lemma SameStage(w: Job, w': Job, k: nat)
    requires SameModel(w, w')
    ensures Present(w', k) <==> Present(w, k)
    ensures Present(w, k) ==> Stage(w', k) == Stage(w, k) && HeadOf(w', k) == HeadOf(w, k)
    ensures Present(w, k) ==> Length(w', k) == Length(w, k)
  {
    hide RecordInside, Place, HeadAt, OffsetOf, ResultLen;
  }

  lemma {:induction false} SameWriter(w: Job, w': Job, k: nat, c: nat)
    requires SameModel(w, w')
    ensures LastWriter(w', k, c) == LastWriter(w, k, c)
  {
    hide Present, Stage, HeadOf, Length, Outside, Publishes, FloatOff, OutLen;
    if k > 0 {
      SameStage(w, w', k - 1);
      SameWriter(w, w', k - 1, c);
    }
  }

  /** A plan does not depend on the initial bytes. */
  lemma SamePlan(w: Job, w': Job, k: nat)
    requires SameModel(w, w') && Planned(w, k)
    ensures Planned(w', k)
  {
    hide Present, Stage, HeadOf, Length, LastWriter, InLen;
    SameStage(w, w', k);
    forall off, n | OneSource(w, k, off, n) ensures OneSource(w', k, off, n) {
      SameSource(w, w', k, off, n);
    }
  }

  lemma SameSource(w: Job, w': Job, k: nat, off: nat, n: nat)
    requires SameModel(w, w') && OneSource(w, k, off, n)
    ensures OneSource(w', k, off, n)
  {
    hide Present, Stage, HeadOf, Length, LastWriter;
    SameWriter(w, w', k, off);
    forall c | off <= c < off + n ensures From(w', k, c, LastWriter(w', k, off)) {
      SameWriter(w, w', k, c);
      assert From(w, k, c, LastWriter(w, k, off));
      if LastWriter(w, k, off) >= 0 { SameStage(w, w', LastWriter(w, k, off)); }
    }
  }

  lemma {:induction false} SameOperand(w: Job, w': Job, k: nat, off: nat, len: nat, n: nat)
    requires SameModel(w, w') && n <= |w.start| && w'.start[..n] == w.start[..n]
    requires FromFront(w, k, off, len, n) && forall i :: 0 <= i < k ==> ReadsFront(w, i, n)
    ensures Operand(w', k, off, len) == Operand(w, k, off, len)
    decreases k, 0
  {
    hide Present, Stage, LastWriter, Data, ReadsFront;
    SameWriter(w, w', k, off);
    var j := LastWriter(w, k, off);
    if len > 0 && j >= 0 {
      SameStage(w, w', j);
      SameData(w, w', j, n);
    } else if len > 0 {
      assert w.start[off..off + len] == w.start[..n][off..off + len];
      assert w'.start[off..off + len] == w'.start[..n][off..off + len];
    }
  }

  /** If no layer up to k reads the initial buffer behind its first n cells, the result of layer k is
      a function of those cells: nothing an earlier run left behind them can show. */
  lemma {:induction false} SameData(w: Job, w': Job, k: nat, n: nat)
    requires SameModel(w, w') && n <= |w.start| && w'.start[..n] == w.start[..n]
    requires forall i :: 0 <= i <= k ==> ReadsFront(w, i, n)
    ensures Data(w', k) == Data(w, k)
    decreases k, 1
  {
    hide Present, Stage, LastWriter, Operand, Value, InLen, FromFront, Length;
    assert ReadsFront(w, k, n);
    SameStage(w, w', k);
    var p := Stage(w, k);
    SameOperand(w, w', k, p.inOff, InLen(p.layer), n);
    if p.layer.AddLayer? { SameOperand(w, w', k, p.layer.in1, InLen(p.layer), n); }
    if p.layer.ReshapeLayer? { SameOperand(w, w', k, p.outOff, Length(w, k), n); }
  }
}
