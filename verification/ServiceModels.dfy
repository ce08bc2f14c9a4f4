/** The inference service and the model it runs: which models make every message safe, and what class
    an inference answers. */
module ServiceModels {
  import opened Bytes
  import opened Options
  import opened Convolution
  import opened FloatWords
  import opened Model
  import opened ModelFlow
  import opened ModelPlan
  import opened ModelRuns
  import opened Package
  import opened Records
  import opened Scores
  import opened Service
  import opened ServiceRuns

  // ---------- loading does not look at the layers ----------

  /** Whether a model loads depends on its first twenty bytes only. */
  lemma LoadIgnoresLayers(bin: seq<byte>, bin': seq<byte>)
    requires |bin| >= HEADER && |bin'| >= HEADER && bin[..20] == bin'[..20]
    ensures LoadErr(bin, true) == LoadErr(bin', true)
  {
    assert forall i :: 0 <= i < 20 ==> bin[i] == bin[..20][i] == bin'[..20][i] == bin'[i];
  }

  /** The head of a pooling layer whose output starts behind the main buffer. */
  function StrayHead(): Head {
    Head(GAP, 0, HEAD, 0, MAIN_SIZE + 1, Mat(1, 1, 1, 0), Mat(1, 1, 1, MAIN_SIZE + 1), 0, 0, 0, 0)
  }

  /** So a model that loads can be one that tm_run would write outside the main buffer for: any model
      with a layer does, once its first layer is replaced by that head. */
  lemma LoadedModelMayStray(bin: seq<byte>, ops: FloatOps, base: nat, in0: Mat, mem: seq<int8>)
    requires |bin| >= HEADER + HEAD && LayerCnt(bin) > 0 && |mem| == MAIN_SIZE
    ensures var bin' := bin[..HEADER] + HeadBytes(StrayHead(), 3) + bin[HEADER + HEAD..];
            LoadErr(bin', true) == LoadErr(bin, true) && !RunFits(ops, base, bin', 0, HEADER, in0, mem)
  {
    hide LoadErr, HeadAt, HeadBytes;
    var before, behind := bin[..HEADER], bin[HEADER + HEAD..];
    var bin' := before + HeadBytes(StrayHead(), 3) + behind;
    assert bin'[..20] == bin[..20];
    LoadIgnoresLayers(bin, bin');
    HeadRoundTrip(before, StrayHead(), 3, behind);
    assert LayerCnt(bin') == LayerCnt(bin) by { assert bin'[10] == bin[10] && bin'[11] == bin[11]; }
    StrayDoesNotFit(ops, base, bin', in0, mem);
  }

  lemma StrayDoesNotFit(ops: FloatOps, base: nat, bin: seq<byte>, in0: Mat, mem: seq<int8>)
    requires |bin| >= HEADER + HEAD && |mem| == MAIN_SIZE && HeadAt(bin, HEADER) == StrayHead()
    ensures !StepFits(ops, base, bin, 0, HEADER, in0, mem)
  {
    hide HeadAt;
  }

  // ---------- the exact condition under which a loaded model stays in its buffers ----------

  /** The first layer from i on that fails, or the number of layers. */
  ghost function StopsAt(b: Build, bin: seq<byte>, i: nat): (n: nat)
    requires |bin| >= HEADER && i <= LayerCnt(bin)
    ensures i <= n <= LayerCnt(bin)
    ensures forall j :: i <= j < n ==> ErrOf(b.ops, bin, j, InDims(bin)) == OK
    ensures n < LayerCnt(bin) ==> ErrOf(b.ops, bin, n, InDims(bin)) != OK
    decreases LayerCnt(bin) - i
  {
    if i == LayerCnt(bin) || ErrOf(b.ops, bin, i, InDims(bin)) != OK then i else StopsAt(b, bin, i + 1)
  }

  lemma StopsThere(b: Build, s: State)
    requires Shape(s) && s.input == InDims(s.buffer)
    requires RunFits(b.ops, b.base, s.buffer, 0, HEADER, s.input, s.main)
    ensures Run(b, s).layer == StopsAt(b, s.buffer, 0)
    ensures Run(b, s).err == OK <==> StopsAt(b, s.buffer, 0) == LayerCnt(s.buffer)
  {
    hide RunFits, RunFrom, ErrOf, OutsOf, OutCount;
    RunStopsAtFirstFailure(b.ops, b.base, s.buffer, 0, s.input, s.main, []);
    var n, r := StopsAt(b, s.buffer, 0), Run(b, s);
    assert r.layer < LayerCnt(s.buffer) ==> !(r.layer < n);
    assert n < LayerCnt(s.buffer) ==> !(n < r.layer);
  }

  /** A loaded model whose layers are safe in their arithmetic can be run without leaving the buffers if
      and only if its records keep to their ranges, at most one layer that runs is an output, and, if
      all layers run, the last output has ten scores inside the main buffer. Whatever the buffer holds,
      all of this can be computed from the model, but for an output left by an earlier run. */
  lemma RunSafeExactly(b: Build, s: State)
    requires Shape(s) && s.input == InDims(s.buffer)
    requires Arithmetic(b.ops, s.buffer, 0, HEADER, s.input)
    ensures RunSafe(b, s) <==>
              && Ranges(b.ops, b.base, s.buffer, 0, HEADER, InDims(s.buffer), MAIN_SIZE)
              && var n := StopsAt(b, s.buffer, 0);
                 var outs := OutsOf(b.base, s.buffer, 0, n);
                 |outs| <= 1 && (n == LayerCnt(s.buffer) ==> HasScores(Latest(s.outs, outs), MAIN_SIZE))
  {
    hide RunFits, Run, OutsOf, Ranges, Arithmetic, StopsAt;
    RunsExactly(b.ops, b.base, s.buffer, 0, HEADER, s.input, s.main);
    if RunFits(b.ops, b.base, s.buffer, 0, HEADER, s.input, s.main) {
      RunSucceedsExactly(b, s);
      StopsThere(b, s);
    }
  }

  // ---------- models that make every message safe ----------

  /** The layers are planned for the main buffer, and one of them is the output and has ten scores.
      Everything here can be computed from the model. */
  predicate GoodModel(b: Build, bin: seq<byte>) {
    && |bin| >= HEADER && Plan(b.ops, b.base, bin, InDims(bin), MAIN_SIZE)
    && var outs := OutsOf(b.base, bin, 0, LayerCnt(bin));
       |outs| == 1 && HasScores(Some(outs[0]), MAIN_SIZE)
  }

  lemma {:induction false} OutsPrefix(base: nat, bin: seq<byte>, k: nat, n: nat)
    requires k <= n
    ensures |OutsOf(base, bin, 0, k)| <= |OutsOf(base, bin, 0, n)|
  {
    hide StepOuts, OffsetOf;
    if k < n { OutsPrefix(base, bin, k, n - 1); }
  }

  /** A good model is safe to run on every buffer. */
  lemma GoodIsSafe(b: Build, s: State)
    requires Shape(s) && s.input == InDims(s.buffer) && GoodModel(b, s.buffer)
    ensures RunSafe(b, s)
  {
    hide Plan, Run, OutsOf;
    PlanRuns(b.ops, b.base, s.buffer, s.input, s.main);
    RunSucceedsExactly(b, s);
    OutsPrefix(b.base, s.buffer, Run(b, s).layer, LayerCnt(s.buffer));
  }

  /** Whatever lies behind this plaintext in the model buffer, the model is good. */
  ghost predicate GoodPlaintext(b: Build, m: seq<byte>) {
    forall bin :: |bin| == MAX_MODEL_SIZE && m <= bin ==> GoodModel(b, bin)
  }

  /** A load can only decrypt the package to a good plaintext, and psa_read keeps its promise. */
  ghost predicate Trusted(b: Build, m: Msg) {
    match m.request
    case LoadEncrypted(c) => IsBlockCipher(c.cipher) && forall p :: Yields(c, b.pkg, p) ==> GoodPlaintext(b, p)
    case RunInference(inSize, sent) => |sent| <= inSize
    case _ => true
  }

  ghost predicate RunsGood(b: Build, s: State)
    requires Shape(s)
  {
    s.loaded ==> s.input == InDims(s.buffer) && GoodModel(b, s.buffer)
  }

  /** If the built-in package holds a good model, every sequence of messages is safe: no request can
      make the service leave its buffers, and all the theorems about runs apply. */
  lemma {:induction false} GoodPackageIsSafe(b: Build, s: State, ms: seq<Msg>)
    requires Shape(s) && !s.loaded && forall i :: 0 <= i < |ms| ==> Trusted(b, ms[i])
    ensures AllSafe(b, s, ms) && RunsGood(b, StateAfter(b, s, ms))
  {
    hide Transition, Safe, Shape, GoodModel, Trusted;
    if ms != [] {
      var front, m := ms[..|ms| - 1], ms[|ms| - 1];
      GoodPackageIsSafe(b, s, front);
      assert Trusted(b, m);
      TrustedStep(b, StateAfter(b, s, front), m);
    }
  }

  lemma TrustedStep(b: Build, s: State, m: Msg)
    requires Shape(s) && RunsGood(b, s) && Trusted(b, m)
    ensures Safe(b, s, m) && RunsGood(b, Transition(b, s, m).0)
  {
    hide GoodModel, RunSafe, Yields, LoadStep, InferenceStep, GoodPlaintext;
    match m.request
    case LoadEncrypted(c) =>
      LoadSetsFlag(b.pkg, s, c);
      LoadGivesPlaintext(b.pkg, s, c);
      var r := LoadStep(b.pkg, s, c).0;
      if r.loaded { GoodBuffer(b, r.buffer[..r.size], r.buffer); }
    case RunInference(inSize, sent) =>
      if Starts(s, inSize, sent) {
        PreparedKeeps(Seen(s, inSize, sent));
        GoodIsSafe(b, Prepared(Seen(s, inSize, sent)));
      }
      InferenceKeeps(b, s, m);
    case _ =>
  }

  lemma GoodBuffer(b: Build, m: seq<byte>, bin: seq<byte>)
    requires GoodPlaintext(b, m) && |bin| == MAX_MODEL_SIZE && m <= bin
    ensures GoodModel(b, bin)
  {
    hide GoodModel;
  }

  /** A model of one reshape that publishes ten scores. */
  function TinyHead(): Head {
    Head(RESHAPE, 1, HEAD, 0, 0, Mat(1, 1, 10, 0), Mat(1, 1, 10, 0), 0, 0, 0, 0)
  }

  function TinyModel(): (r: seq<byte>)
    ensures |r| == HEADER + HEAD
  {
    MAIX + [0, 1, 1, 0, 1, 0, 1, 0] + Repeat(0, 52) + HeadBytes(TinyHead(), 3)
  }

  lemma TinyHeadRead(bin: seq<byte>)
    requires |bin| == MAX_MODEL_SIZE && TinyModel() <= bin
    ensures LayerCnt(bin) == 1 && OutDeq(bin) == 1 && HeadAt(bin, HEADER) == TinyHead()
    ensures bin[..4] == MAIX && bin[4] == 0 && bin[16..20] == [0, 0, 0, 0]
  {
    hide HeadAt, HeadBytes, Repeat;
    var before, behind := MAIX + [0, 1, 1, 0, 1, 0, 1, 0] + Repeat(0, 52), bin[HEADER + HEAD..];
    assert bin == before + HeadBytes(TinyHead(), 3) + behind;
    HeadRoundTrip(before, TinyHead(), 3, behind);
    assert bin[5] == 1 && bin[10] == 1 && bin[11] == 0;
  }

  /** Good plaintexts exist, and load. */
  lemma TinyModelIsGood(b: Build, bin: seq<byte>)
    requires |bin| == MAX_MODEL_SIZE && TinyModel() <= bin
    ensures GoodModel(b, bin) && LoadErr(bin, true) == OK
  {
    hide HeadAt, LoadErr, TinyModel, OutsOf, Plan;
    TinyHeadRead(bin);
    LoadsExactly(bin, true);
    TinyPlan(b, bin);
    TinyOuts(b.base, bin);
  }

  lemma TinyPlan(b: Build, bin: seq<byte>)
    requires |bin| == MAX_MODEL_SIZE && LayerCnt(bin) == 1 && HeadAt(bin, HEADER) == TinyHead()
    ensures Plan(b.ops, b.base, bin, InDims(bin), MAIN_SIZE)
  {
    hide HeadAt;
    var in0 := InDims(bin);
    assert LayerAt(b.ops, bin, HEADER, in0) == ReshapeLayer;
    assert Ranges(b.ops, b.base, bin, 1, HEADER + RecordSize(bin, HEADER), in0, MAIN_SIZE);
    assert Arithmetic(b.ops, bin, 1, HEADER + RecordSize(bin, HEADER), in0);
    assert Ranges(b.ops, b.base, bin, 0, HEADER, in0, MAIN_SIZE);
  }

  lemma TinyOuts(base: nat, bin: seq<byte>)
    requires |bin| == MAX_MODEL_SIZE && LayerCnt(bin) == 1 && OutDeq(bin) == 1 && HeadAt(bin, HEADER) == TinyHead()
    ensures var outs := OutsOf(base, bin, 0, 1); |outs| == 1 && HasScores(Some(outs[0]), MAIN_SIZE)
  {
    hide HeadAt;
    assert OffsetOf(bin, 0) == HEADER && OutsOf(base, bin, 0, 0) == [];
    assert TinyHead().outDims.Size() == 10;
  }

  // ---------- what an inference answers ----------

  /** The run a request starts, on the image it uses. */
  ghost function JobOf(b: Build, s: State, inSize: nat, sent: seq<byte>): Job
    requires Shape(s) && s.loaded && |sent| <= inSize
  {
    Job(b.ops, b.base, s.buffer, s.input, Prepared(Seen(s, inSize, sent)).main)
  }

  /** A single output is the output of whichever layer is marked. */
  lemma {:induction false} OnlyOutput(base: nat, bin: seq<byte>, k: nat, n: nat)
    requires k < n && |OutsOf(base, bin, 0, n)| <= 1 && StepOuts(base, bin, OffsetOf(bin, k)) != []
    ensures OutsOf(base, bin, 0, n) == StepOuts(base, bin, OffsetOf(bin, k))
  {
    hide StepOuts, OffsetOf;
    StepOutsOne(base, bin, OffsetOf(bin, k));
    if k < n - 1 {
      OnlyOutput(base, bin, k, n - 1);
    }
  }

  lemma StepOutsOne(base: nat, bin: seq<byte>, o: nat)
    ensures |StepOuts(base, bin, o)| <= 1
  {
  }

  /** The scores of output layer k, dequantized from its data-flow value. */
  ghost function ScoresOf(w: Job, k: nat): seq<uint32>
    requires Present(w, k)
  {
    Dequantized(w.ops, Data(w, k), HeadOf(w, k).outZp, HeadOf(w, k).outS)
  }

  /** Layer k is a planned, dequantized output with ten scores or more, whose floats no later layer
      writes over. */
  ghost predicate FinalLayer(w: Job, k: nat) {
    && |w.bin| >= HEADER && k < LayerCnt(w.bin)
    && (forall i :: 0 <= i <= k ==> Planned(w, i)) && Present(w, k)
    && Publishes(OutDeq(w.bin), HeadOf(w, k)) && |Data(w, k)| == HeadOf(w, k).outDims.Size() >= CLASSES
    && Survives(w, k, LayerCnt(w.bin), FloatOff(w.base, HeadOf(w, k)), 4 * |Data(w, k)|)
  }

  /** An inference that gets to the model, all of whose layers succeed, answers the class whose score
      wins among the dequantized scores of the output layer; these are the value of the composition of
      the pure layers on the buffer that starts with the centred image. */
  lemma AnswerIsDataflow(b: Build, s: State, m: Msg, k: nat)
    requires Shape(s) && Safe(b, s, m) && m.request.RunInference? && LayersSucceed(b, s)
    requires Starts(s, m.request.inSize, m.request.sent)
    requires FinalLayer(JobOf(b, s, m.request.inSize, m.request.sent), k)
    ensures var w := JobOf(b, s, m.request.inSize, m.request.sent);
            && Window(w.start, 0, IMAGE_SIZE) == Centred(Seen(s, m.request.inSize, m.request.sent).image)
            && |ScoresOf(w, k)| >= CLASSES
            && Transition(b, s, m).1 ==
                 (if m.outSize >= 4 then [Write(m.handle, Winner(b.ops, ScoresOf(w, k)[..CLASSES], CLASSES).0)] else [])
                 + [Reply(m.handle, Success)]
  {
    hide RunFits, Run, FinalLayer, LayersSucceed, Prepared, ScoresOf, Winner, WordsAt, Centred;
    var q := m.request;
    var t := Prepared(Seen(s, q.inSize, q.sent));
    PreparedKeeps(Seen(s, q.inSize, q.sent));
    SameLayers(b, s, t);
    RunSucceedsExactly(b, t);
    ScoresInPlace(b, t, JobOf(b, s, q.inSize, q.sent), k);
  }

  /** After the run, g_outs[0] points at the scores of the output layer. */
  lemma ScoresInPlace(b: Build, t: State, w: Job, k: nat)
    requires Shape(t) && RunSafe(b, t) && LayersSucceed(b, t)
    requires w == Job(b.ops, b.base, t.buffer, t.input, t.main) && FinalLayer(w, k)
    ensures Run(b, t).err == OK && HasScores(AfterRun(b, t).outs, |AfterRun(b, t).main|)
    ensures |ScoresOf(w, k)| >= CLASSES
    ensures WordsAt(AfterRun(b, t).main, AfterRun(b, t).outs.value.dims.data, CLASSES) == ScoresOf(w, k)[..CLASSES]
  {
    hide RunFits, LayersSucceed, Planned, Data, Survives, FloatCells, Dequantized, OutsOf, RunFrom, FloatOff, HeadAt,
         RecordInside, WordsAt, Stage;
    RunSucceedsExactly(b, t);
    RunIsDataflow(w, k);
    OnlyOutput(b.base, t.buffer, k, LayerCnt(t.buffer));
    var r, off := Run(b, t), FloatOff(b.base, HeadOf(w, k));
    assert r.outs[0] == OutMatOf(b.base, OutDeq(t.buffer), HeadOf(w, k));
    assert Window(r.mem, off, 4 * |Data(w, k)|) == FloatCells(ScoresOf(w, k));
    WordsOfCells(r.mem, off, ScoresOf(w, k), CLASSES);
  }
}
