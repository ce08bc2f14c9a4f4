/** What the clients of the service are told, over any sequence of messages: the class of their image under
    the model in the package, and nothing else. */
module ServiceAnswers {
  import opened Bytes
  import opened FloatWords
  import opened Model
  import opened ModelFlow
  import opened ModelRuns
  import opened Package
  import opened Scores
  import opened Service
  import opened ServiceRuns
  import opened ServiceModels

  // ---------- the class of an image ----------

  /** A main buffer that holds nothing but the image. */
  function CleanStart(image: seq<byte>): (r: seq<int8>)
    requires |image| == IMAGE_SIZE
    ensures |r| == MAIN_SIZE && r[..IMAGE_SIZE] == Centred(image)
  {
    Centred(image) + Centred(Repeat(128, MAIN_SIZE - IMAGE_SIZE))
  }

  /** The model run on the image alone. */
  ghost function CleanJob(b: Build, bin: seq<byte>, image: seq<byte>): Job
    requires |bin| >= HEADER && |image| == IMAGE_SIZE
  {
    Job(b.ops, b.base, bin, InDims(bin), CleanStart(image))
  }

  /** Layer k, which is the output and has ten scores or more, and all layers before it are planned, and
      of the initial buffer they read the image only. Only the model is looked at. */
  ghost predicate OutputLayer(w: Job, k: nat) {
    && |w.bin| >= HEADER && k < LayerCnt(w.bin)
    && (forall i :: 0 <= i <= k ==> Planned(w, i) && ReadsFront(w, i, IMAGE_SIZE)) && Present(w, k)
    && Publishes(OutDeq(w.bin), HeadOf(w, k)) && Length(w, k) == HeadOf(w, k).outDims.Size() >= CLASSES
    && Survives(w, k, LayerCnt(w.bin), FloatOff(w.base, HeadOf(w, k)), 4 * Length(w, k))
  }

  /** The class of the image: the winner among the dequantized scores that the composition of the pure
      layers gives. */
  ghost function ClassOf(b: Build, bin: seq<byte>, image: seq<byte>, k: nat): int
    requires |bin| >= HEADER && |image| == IMAGE_SIZE
  {
    var w := CleanJob(b, bin, image);
    if Present(w, k) && |ScoresOf(w, k)| >= CLASSES then Winner(b.ops, ScoresOf(w, k)[..CLASSES], CLASSES).0 else -1
  }

  // ---------- one inference ----------

  lemma SameSurvival(w: Job, w': Job, k: nat, n: nat, off: nat, m: nat)
    requires SameModel(w, w') && Survives(w, k, n, off, m)
    ensures Survives(w', k, n, off, m)
  {
    hide Present, Stage, HeadOf, OutLen, Publishes;
    forall i: nat, c: nat | k < i < n && off <= c < off + m ensures !Writes(w', i, c) {
      SameStage(w, w', i);
      assert !Writes(w, i, c);
    }
  }

  /** An output layer is one whatever the buffer holds, and has the scores of the image alone. */
  lemma ScoresOfImage(w: Job, w': Job, k: nat)
    requires SameModel(w, w') && OutputLayer(w, k) && IMAGE_SIZE <= |w.start|
    requires w'.start[..IMAGE_SIZE] == w.start[..IMAGE_SIZE]
    ensures (forall i :: 0 <= i <= k ==> Planned(w', i)) && Present(w', k)
    ensures HeadOf(w', k) == HeadOf(w, k) && Length(w', k) == Length(w, k) && Data(w', k) == Data(w, k)
    ensures Survives(w', k, LayerCnt(w.bin), FloatOff(w.base, HeadOf(w, k)), 4 * Length(w, k))
  {
    hide Planned, ReadsFront, Present, Stage, HeadOf, Length, Data, Survives, FloatOff;
    forall i | 0 <= i <= k ensures Planned(w', i) { SamePlan(w, w', i); }
    SameStage(w, w', k);
    SameData(w, w', k, IMAGE_SIZE);
    SameSurvival(w, w', k, LayerCnt(w.bin), FloatOff(w.base, HeadOf(w, k)), 4 * Length(w, k));
  }

  /** In a run that gets past layer k the result of layer k has the length the record says. */
  lemma DataLength(b: Build, t: State, k: nat)
    requires Shape(t) && RunSafe(b, t) && k < Run(b, t).layer
    requires forall i :: 0 <= i <= k ==> Planned(Job(b.ops, b.base, t.buffer, t.input, t.main), i)
    ensures var w := Job(b.ops, b.base, t.buffer, t.input, t.main);
            Present(w, k) && |Data(w, k)| == Length(w, k)
  {
    hide RunFits, RunFrom, Planned, Present, Data, Length, Survives, FloatCells, HeadOf, Stage;
    RunIsDataflow(Job(b.ops, b.base, t.buffer, t.input, t.main), k);
  }

  /** An inference that gets to a model with an output layer, and is answered with success, tells the
      client the class of the image it used and nothing else. */
  lemma AnswerIsClass(b: Build, s: State, m: Msg, k: nat)
    requires Shape(s) && s.loaded && s.input == InDims(s.buffer) && Safe(b, s, m) && m.request.RunInference?
    requires Starts(s, m.request.inSize, m.request.sent) && LayersSucceed(b, s)
    requires OutputLayer(CleanJob(b, s.buffer, Seen(s, m.request.inSize, m.request.sent).image), k)
    ensures Transition(b, s, m).1 ==
            (if m.outSize >= 4
             then [Write(m.handle, ClassOf(b, s.buffer, Seen(s, m.request.inSize, m.request.sent).image, k))] else [])
            + [Reply(m.handle, Success)]
  {
    hide Transition, RunSafe, LayersSucceed, Run, Winner, Data, Planned, ReadsFront, Present, HeadOf, Length, Survives,
         FloatOff, Dequantized, CleanStart;
    var q := m.request;
    var seen := Seen(s, q.inSize, q.sent);
    var t := Prepared(seen);
    var w, w' := CleanJob(b, s.buffer, seen.image), JobOf(b, s, q.inSize, q.sent);
    PreparedKeeps(seen);
    StartsWithImage(t, seen.image);
    ScoresOfImage(w, w', k);
    RunReachesAll(b, s, t);
    DataLength(b, t, k);
    AnswerIsDataflow(b, s, m, k);
  }

  lemma StartsWithImage(t: State, image: seq<byte>)
    requires Shape(t) && |image| == IMAGE_SIZE && Window(t.main, 0, IMAGE_SIZE) == Centred(image)
    ensures t.main[..IMAGE_SIZE] == CleanStart(image)[..IMAGE_SIZE] && |t.main| == |CleanStart(image)|
  {
    hide Centred;
  }

  lemma RunReachesAll(b: Build, s: State, t: State)
    requires Shape(s) && Shape(t) && t.buffer == s.buffer && t.input == s.input && LayersSucceed(b, s) && RunSafe(b, t)
    ensures Run(b, t).layer == LayerCnt(t.buffer)
  {
    hide LayersSucceed, Run, RunFits;
    SameLayers(b, s, t);
    RunSucceedsExactly(b, t);
  }

  // ---------- all messages ----------

  /** Whatever lies behind this plaintext in the model buffer, layer k is the output layer. */
  ghost predicate OutputPlaintext(b: Build, m: seq<byte>, k: nat) {
    forall bin :: |bin| == MAX_MODEL_SIZE && m <= bin ==> OutputModel(b, bin, k)
  }

  ghost predicate OutputModel(b: Build, bin: seq<byte>, k: nat)
    requires |bin| >= HEADER
  {
    forall image :: |image| == IMAGE_SIZE ==> OutputLayer(CleanJob(b, bin, image), k)
  }

  /** Every load of these messages can decrypt the package to models with output layer k only. */
  ghost predicate AllOutput(b: Build, ms: seq<Msg>, k: nat)
    requires forall i :: 0 <= i < |ms| ==> Trusted(b, ms[i])
  {
    forall i, p :: 0 <= i < |ms| && Decrypts(b, ms[i], p) ==> OutputPlaintext(b, p, k)
  }

  ghost predicate Decrypts(b: Build, m: Msg, p: seq<byte>)
    requires Trusted(b, m)
  {
    m.request.LoadEncrypted? && Yields(m.request.crypto, b.pkg, p)
  }

  /** Message i of the run finds the model of the last load before it. */
  lemma ModelAt(b: Build, s: State, ms: seq<Msg>, i: nat, k: nat)
    requires Shape(s) && !s.loaded && i < |ms| && forall j :: 0 <= j < |ms| ==> Trusted(b, ms[j])
    requires AllOutput(b, ms, k) && AllSafe(b, s, ms) && StateAfter(b, s, ms[..i]).loaded
    ensures var t := StateAfter(b, s, ms[..i]); t.input == InDims(t.buffer) && OutputModel(b, t.buffer, k)
  {
    hide Transition, Safe, Yields, OutputModel, LoadErr, Loads, Trusted;
    var t := StateAfter(b, s, ms[..i]);
    SafeAt(b, s, ms, i);
    InvariantHolds(b, s, ms[..i]);
    LoadedIffLastLoadSucceeded(b, s, ms[..i]);
    var j := LastLoad(ms[..i]).value;
    assert ms[..i][j] == ms[j] && Trusted(b, ms[j]);
    var p := t.buffer[..t.size];
    assert Decrypts(b, ms[j], p);
    assert OutputPlaintext(b, p, k) && p <= t.buffer;
  }

  /** End to end: from a service with no model loaded, if the package can only hold good models with
      output layer k, then in every sequence of messages every inference that is answered with success
      tells its client the class, under the model bytes, of the image it saw, whatever other clients did
      before. */
  lemma EveryAnswerIsTheClass(b: Build, s: State, ms: seq<Msg>, i: nat, k: nat)
    requires Shape(s) && !s.loaded && forall j :: 0 <= j < |ms| ==> Trusted(b, ms[j])
    requires AllOutput(b, ms, k) && i < |ms| && ms[i].request.RunInference?
    ensures AllSafe(b, s, ms) && i < |RepliesOf(Outputs(b, s, ms))| && RepliesOf(Outputs(b, s, ms))[i].Reply?
    ensures AllSafe(b, s, ms[..i]) && AllSafe(b, s, ms[..i + 1])
    ensures RepliesOf(Outputs(b, s, ms))[i].status == Success ==>
              var t, m := StateAfter(b, s, ms[..i]), ms[i];
              && t.loaded && |m.request.sent| <= m.request.inSize
              && Outputs(b, s, ms[..i + 1]) == Outputs(b, s, ms[..i]) +
                   (if m.outSize >= 4
                    then [Write(m.handle, ClassOf(b, t.buffer, Seen(t, m.request.inSize, m.request.sent).image, k))]
                    else [])
                   + [Reply(m.handle, Success)]
    ensures Outputs(b, s, ms[..i + 1]) <= Outputs(b, s, ms)
  {
    hide Transition, Trusted, RepliesOf, Outputs, StateAfter, AllSafe, ClassOf, AllOutput, Safe, Shape;
    GoodPackageIsSafe(b, s, ms);
    InferenceSucceedsExactly(b, s, ms, i);
    OutputsSoFar(b, s, ms, i + 1);
    OutputsOfOne(b, s, ms, i);
    if RepliesOf(Outputs(b, s, ms))[i].status == Success {
      AnswerAt(b, s, ms, i, k);
    }
  }

  /** What message i sends is sent behind what was sent before it. */
  lemma OutputsOfOne(b: Build, s: State, ms: seq<Msg>, i: nat)
    requires Shape(s) && AllSafe(b, s, ms) && i < |ms|
    ensures AllSafe(b, s, ms[..i]) && AllSafe(b, s, ms[..i + 1]) && Safe(b, StateAfter(b, s, ms[..i]), ms[i])
    ensures Outputs(b, s, ms[..i + 1]) ==
            Outputs(b, s, ms[..i]) + Transition(b, StateAfter(b, s, ms[..i]), ms[i]).1
  {
    hide Transition, Outputs, StateAfter, AllSafe, Safe, Shape;
    SafeAt(b, s, ms, i);
    assert ms[..i] + [ms[i]] == ms[..i + 1];
    OneMore(b, s, ms[..i], ms[i]);
  }

  /** One successful inference of a run. */
  lemma AnswerAt(b: Build, s: State, ms: seq<Msg>, i: nat, k: nat)
    requires Shape(s) && !s.loaded && forall j :: 0 <= j < |ms| ==> Trusted(b, ms[j])
    requires AllOutput(b, ms, k) && AllSafe(b, s, ms) && i < |ms| && ms[i].request.RunInference?
    requires Safe(b, StateAfter(b, s, ms[..i]), ms[i])
    requires var t, q := StateAfter(b, s, ms[..i]), ms[i].request; Starts(t, q.inSize, q.sent) && LayersSucceed(b, t)
    ensures var t, m := StateAfter(b, s, ms[..i]), ms[i];
            && |m.request.sent| <= m.request.inSize
            && Transition(b, t, m).1 ==
                 (if m.outSize >= 4
                  then [Write(m.handle, ClassOf(b, t.buffer, Seen(t, m.request.inSize, m.request.sent).image, k))]
                  else [])
                 + [Reply(m.handle, Success)]
  {
    hide Transition, Trusted, StateAfter, AllSafe, OutputLayer, ClassOf, LayersSucceed, AllOutput, RunSafe;
    ModelAt(b, s, ms, i, k);
    AnswerIsClass(b, StateAfter(b, s, ms[..i]), ms[i], k);
  }

  /** What has been sent stays sent. */
  lemma {:induction false} OutputsSoFar(b: Build, s: State, ms: seq<Msg>, n: nat)
    requires Shape(s) && AllSafe(b, s, ms) && n <= |ms|
    ensures AllSafe(b, s, ms[..n]) && Outputs(b, s, ms[..n]) <= Outputs(b, s, ms)
  {
    hide Transition, Safe, Shape;
    if n < |ms| {
      var front := ms[..|ms| - 1];
      OutputsSoFar(b, s, front, n);
      assert front[..n] == ms[..n];
    } else {
      assert ms[..n] == ms;
    }
  }

  /** The tiny model is one with output layer 0. */
  lemma TinyModelAnswers(b: Build, bin: seq<byte>)
    requires |bin| == MAX_MODEL_SIZE && TinyModel() <= bin
    ensures OutputModel(b, bin, 0)
  {
    hide TinyModel, OutputLayer;
    TinyHeadRead(bin);
    forall image: seq<byte> | |image| == IMAGE_SIZE ensures OutputLayer(CleanJob(b, bin, image), 0) {
      TinyOutput(CleanJob(b, bin, image));
    }
  }

  lemma TinyOutput(w: Job)
    requires |w.bin| == MAX_MODEL_SIZE && |w.start| == MAIN_SIZE && LayerCnt(w.bin) == 1 && OutDeq(w.bin) == 1
    requires HeadAt(w.bin, HEADER) == TinyHead()
    ensures OutputLayer(w, 0)
  {
    hide HeadAt;
    assert OffsetOf(w.bin, 0) == HEADER && Present(w, 0) && Stage(w, 0).layer == ReshapeLayer;
    assert HeadOf(w, 0) == TinyHead() && Length(w, 0) == 10;
    assert Planned(w, 0) && ReadsFront(w, 0, IMAGE_SIZE);
  }
}
