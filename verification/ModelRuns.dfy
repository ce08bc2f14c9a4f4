/** What a whole run of tm_run keeps and computes. */
module ModelRuns {
  import opened Bytes
  import opened ConvolutionSpec
  import opened Convolution
  import opened FloatWords
  import opened Layers
  import opened Model

  // ---------- where a run stops, and what it outputs ----------

  /** The offset of layer i: the records follow one another by their own size field. */
  function OffsetOf(bin: seq<byte>, i: nat): nat {
    if i == 0 then HEADER else OffsetOf(bin, i - 1) + RecordSize(bin, OffsetOf(bin, i - 1))
  }

  /** The error of layer i, which depends on the model and not on the data. */
  ghost function ErrOf(ops: FloatOps, bin: seq<byte>, i: nat, in0: Mat): TmErr {
    var o := OffsetOf(bin, i);
    if o + HEAD <= |bin| && RecordInside(bin, o, InMat(bin, i, o, in0))
    then LayerErr(Place(ops, bin, i, o, in0).layer) else ErrLayerType
  }

  /** The outputs of the layers from..to, in order: one entry a layer marked is_out. */
  function OutsOf(base: nat, bin: seq<byte>, from: nat, to: nat): seq<OutMat>
    requires from <= to
  {
    if from == to then [] else OutsOf(base, bin, from, to - 1) + StepOuts(base, bin, OffsetOf(bin, to - 1))
  }

  /** The number of layers marked is_out among from..to. */
  function OutCount(bin: seq<byte>, from: nat, to: nat): nat
    requires from <= to
  {
    if from == to then 0 else
    var o := OffsetOf(bin, to - 1);
    OutCount(bin, from, to - 1) +
    if |bin| >= HEADER && o + HEAD <= |bin| && HeadAt(bin, o).isOut != 0 then 1 else 0
  }

  lemma {:induction false} OutsCounted(base: nat, bin: seq<byte>, from: nat, to: nat)
    requires from <= to
    ensures |OutsOf(base, bin, from, to)| == OutCount(bin, from, to)
  {
    hide OffsetOf, HeadAt, OutMatOf;
    if from < to { OutsCounted(base, bin, from, to - 1); }
  }

  lemma {:induction false} OutsJoin(base: nat, bin: seq<byte>, from: nat, to: nat)
    requires from < to
    ensures OutsOf(base, bin, from, to) == StepOuts(base, bin, OffsetOf(bin, from)) + OutsOf(base, bin, from + 1, to)
  {
    hide StepOuts, OffsetOf;
    if from + 1 < to {
      OutsJoin(base, bin, from, to - 1);
    }
  }

  lemma StepErrIsErrOf(ops: FloatOps, base: nat, bin: seq<byte>, i: nat, in0: Mat, mem: seq<int8>)
    requires StepFits(ops, base, bin, i, OffsetOf(bin, i), in0, mem)
    ensures StepErr(ops, base, bin, i, OffsetOf(bin, i), in0, mem) == ErrOf(ops, bin, i, in0)
  {
    hide LayerErr, Place;
  }

  /** A run stops at the first layer that fails, with that layer's error, and otherwise after the
      last layer; its outputs are those of the layers before that point. */
  lemma {:induction false} RunStopsAtFirstFailure(ops: FloatOps, base: nat, bin: seq<byte>, i: nat, in0: Mat,
                                                  mem: seq<int8>, outs: seq<OutMat>)
    requires RunFits(ops, base, bin, i, OffsetOf(bin, i), in0, mem) && i <= LayerCnt(bin)
    ensures var r := RunFrom(ops, base, bin, i, OffsetOf(bin, i), in0, mem, outs);
            && i <= r.layer <= LayerCnt(bin)
            && (forall j :: i <= j < r.layer ==> ErrOf(ops, bin, j, in0) == OK)
            && (r.layer < LayerCnt(bin) ==> r.err == ErrOf(ops, bin, r.layer, in0) && r.err != OK)
            && (r.layer == LayerCnt(bin) ==> r.err == OK)
            && r.outs == outs + OutsOf(base, bin, i, r.layer)
            && |r.outs| == |outs| + OutCount(bin, i, r.layer)
            && |r.mem| == |mem|
    decreases LayerCnt(bin) - i
  {
    hide StepFits, Step, StepErr, StepOuts, RecordSize, ErrOf, OutsOf, OutCount;
    var r := RunFrom(ops, base, bin, i, OffsetOf(bin, i), in0, mem, outs);
    OutsNone(base, bin, i);
    if i < LayerCnt(bin) {
      StepErrIsErrOf(ops, base, bin, i, in0, mem);
      var o := OffsetOf(bin, i);
      if StepErr(ops, base, bin, i, o, in0, mem) == OK {
        RunStopsAtFirstFailure(ops, base, bin, i + 1, in0, Step(ops, base, bin, i, o, in0, mem),
                               outs + StepOuts(base, bin, o));
        OutsJoin(base, bin, i, r.layer);
      }
    }
    OutsCounted(base, bin, i, r.layer);
  }

  lemma OutsNone(base: nat, bin: seq<byte>, i: nat)
    ensures OutsOf(base, bin, i, i) == [] && OutCount(bin, i, i) == 0
  {
  }

  // ---------- what a run leaves alone ----------

  predicate Outside(k: nat, off: nat, n: nat) { k < off || off + n <= k }

  /** Layer i writes cell k neither as output nor as dequantized copy. */
  ghost predicate StepSpares(ops: FloatOps, base: nat, bin: seq<byte>, i: nat, o: nat, in0: Mat, mem: seq<int8>, k: nat)
    requires StepFits(ops, base, bin, i, o, in0, mem)
  {
    var p, h := Place(ops, bin, i, o, in0), HeadAt(bin, o);
    && Outside(k, p.outOff, OutLen(p.layer))
    && (Publishes(OutDeq(bin), h) ==> Outside(k, FloatOff(base, h), 4 * h.outDims.Size()))
  }

  lemma StepKeeps(ops: FloatOps, base: nat, bin: seq<byte>, i: nat, o: nat, in0: Mat, mem: seq<int8>, k: nat)
    requires StepFits(ops, base, bin, i, o, in0, mem) && k < |mem| && StepSpares(ops, base, bin, i, o, in0, mem, k)
    ensures |Step(ops, base, bin, i, o, in0, mem)| == |mem| && Step(ops, base, bin, i, o, in0, mem)[k] == mem[k]
  {
    hide RecordInside, LayerAt, LayerErr, FloatCells, OutLen, Fits;
    var p := Place(ops, bin, i, o, in0);
    EffectKeeps(ops, p, mem, k);
  }

  /** A layer changes only its output range. */
  lemma EffectKeeps(ops: FloatOps, p: Placed, mem: seq<int8>, k: nat)
    requires Fits(p, mem) && k < |mem| && Outside(k, p.outOff, OutLen(p.layer))
    ensures Effect(ops, p, mem)[k] == mem[k]
  {
    hide Runnable, GapRunnable, FcRunnable, Check;
  }

  /** No layer that runs from layer i on writes cell k. */
  ghost predicate RunSpares(ops: FloatOps, base: nat, bin: seq<byte>, i: nat, o: nat, in0: Mat, mem: seq<int8>, k: nat)
    requires RunFits(ops, base, bin, i, o, in0, mem)
    decreases LayerCnt(bin) - i
  {
    i < LayerCnt(bin) && StepErr(ops, base, bin, i, o, in0, mem) == OK ==>
      && StepSpares(ops, base, bin, i, o, in0, mem, k)
      && RunSpares(ops, base, bin, i + 1, o + RecordSize(bin, o), in0, Step(ops, base, bin, i, o, in0, mem), k)
  }

  /** A run leaves every cell outside the written ranges of its layers as it was. */
  lemma {:induction false} RunKeeps(ops: FloatOps, base: nat, bin: seq<byte>, i: nat, o: nat, in0: Mat, mem: seq<int8>,
                                    outs: seq<OutMat>, k: nat)
    requires RunFits(ops, base, bin, i, o, in0, mem) && k < |mem| && RunSpares(ops, base, bin, i, o, in0, mem, k)
    ensures var r := RunFrom(ops, base, bin, i, o, in0, mem, outs); |r.mem| == |mem| && r.mem[k] == mem[k]
    decreases LayerCnt(bin) - i
  {
    hide StepFits, Step, StepErr, StepOuts, RecordSize, StepSpares;
    if i < LayerCnt(bin) && StepErr(ops, base, bin, i, o, in0, mem) == OK {
      StepKeeps(ops, base, bin, i, o, in0, mem, k);
      RunKeeps(ops, base, bin, i + 1, o + RecordSize(bin, o), in0, Step(ops, base, bin, i, o, in0, mem),
               outs + StepOuts(base, bin, o), k);
    }
  }
}
