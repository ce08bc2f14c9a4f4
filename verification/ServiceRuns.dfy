/** Safety of the inference service over every sequence of messages. */
module ServiceRuns {
  import opened Bytes
  import opened Options
  import opened Convolution
  import opened Model
  import opened ModelRuns
  import opened Package
  import opened Service

  // ---------- one successful load ----------

  /** The package fits, decrypts to some model, and what is then in the model buffer loads. */
  ghost predicate Loads(pkg: seq<byte>, s: State, c: Crypto)
    requires IsBlockCipher(c.cipher) && Shape(s)
  {
    && |pkg| <= MAX_MODEL_SIZE && Decrypt(c, pkg).status == Success
    && LoadErr(AfterDecrypt(s, Decrypt(c, pkg)).buffer, true) == OK
  }

  /** A load request sets the flag exactly when it loads a model, and is answered with success
      exactly then. */
  lemma LoadSetsFlag(pkg: seq<byte>, s: State, c: Crypto)
    requires IsBlockCipher(c.cipher) && Shape(s)
    ensures LoadStep(pkg, s, c).0.loaded <==> Loads(pkg, s, c)
    ensures LoadStep(pkg, s, c).1 == Success <==> Loads(pkg, s, c)
  {
    hide Decrypt, LoadErr, Splice;
  }

  /** The padding bytes behind a plaintext too short to be a model spoil its magic or its type. */
  lemma ShortPlaintextFails(c: Crypto, pkg: seq<byte>, buffer: seq<byte>)
    requires IsBlockCipher(c.cipher) && Decrypt(c, pkg).status == Success
    requires |buffer| == MAX_MODEL_SIZE && Decrypt(c, pkg).raw <= buffer && LoadErr(buffer, true) == OK
    ensures Decrypt(c, pkg).size.value >= 5
  {
    hide CbcDecrypt, Le32, LoadErr;
    var d := Decrypt(c, pkg);
    LoadsExactly(buffer, true);
    RawBlocks(c, pkg);
    assert buffer[..4][3] == buffer[3] == d.raw[3] && buffer[4] == d.raw[4];
  }

  lemma RawBlocks(c: Crypto, pkg: seq<byte>)
    requires IsBlockCipher(c.cipher) && Decrypt(c, pkg).status == Success
    ensures var d := Decrypt(c, pkg);
            && |d.raw| % 16 == 0 && WellPadded(d.raw)
            && d.size == Some(|d.raw| - d.raw[|d.raw| - 1]) && |d.raw| <= MAX_MODEL_SIZE
  {
    hide CbcDecrypt, Le32;
  }

  /** tm_load reads bytes 16 to 19, and a plaintext of less than 16 bytes is one block. So an accepted
      package with the right magic and type loads alike whatever bytes the static model buffer starts
      with exactly if its plaintext has at least 16 bytes. No message can change the bytes in question:
      ServiceHistory.ResidueNeverChanges. */
  lemma ResidueMattersExactly(pkg: seq<byte>, c: Crypto, s: State)
    requires IsBlockCipher(c.cipher) && Shape(s) && |pkg| <= MAX_MODEL_SIZE && Decrypt(c, pkg).status == Success
    requires var raw := Decrypt(c, pkg).raw; |raw| > 4 && raw[..4] == MAIX && raw[4] == 0
    ensures (forall t, t' :: Shape(t) && Shape(t') ==> (Loads(pkg, t, c) <==> Loads(pkg, t', c))) <==>
              Decrypt(c, pkg).size.value >= 16
  {
    hide Decrypt, Loads, WellPadded, Shape;
    RawBlocks(c, pkg);
    PaddingLength(Decrypt(c, pkg).raw);
    if |Decrypt(c, pkg).raw| >= 20 {
      ManyBlocksAlike(pkg, c);
    } else {
      var zero, one := OneBlockDiffers(pkg, c, s);
    }
  }

  lemma ManyBlocksAlike(pkg: seq<byte>, c: Crypto)
    requires IsBlockCipher(c.cipher) && |pkg| <= MAX_MODEL_SIZE && Decrypt(c, pkg).status == Success
    requires var raw := Decrypt(c, pkg).raw; |raw| >= 20 && raw[..4] == MAIX && raw[4] == 0
    ensures forall t, t' :: Shape(t) && Shape(t') ==> (Loads(pkg, t, c) <==> Loads(pkg, t', c))
  {
    hide Decrypt, Loads, Shape;
    var raw := Decrypt(c, pkg).raw;
    forall t | Shape(t) ensures Loads(pkg, t, c) <==> raw[16..20] == [0, 0, 0, 0] {
      LoadsExactlyIfZero(pkg, c, t);
    }
  }

  lemma OneBlockDiffers(pkg: seq<byte>, c: Crypto, s: State) returns (zero: State, one: State)
    requires IsBlockCipher(c.cipher) && Shape(s) && |pkg| <= MAX_MODEL_SIZE && Decrypt(c, pkg).status == Success
    requires var raw := Decrypt(c, pkg).raw; 4 < |raw| < 20 && raw[..4] == MAIX && raw[4] == 0
    ensures Shape(zero) && Shape(one) && Loads(pkg, zero, c) && !Loads(pkg, one, c)
  {
    hide Decrypt, Loads;
    zero, one := s.(buffer := Repeat(0, MAX_MODEL_SIZE)), s.(buffer := Repeat(1, MAX_MODEL_SIZE));
    LoadsExactlyIfZero(pkg, c, zero);
    LoadsExactlyIfZero(pkg, c, one);
    Residue(zero.buffer, one.buffer);
  }

  lemma PaddingLength(raw: seq<byte>)
    requires WellPadded(raw)
    ensures 1 <= raw[|raw| - 1] <= 16
  {
  }

  lemma LoadsExactlyIfZero(pkg: seq<byte>, c: Crypto, t: State)
    requires IsBlockCipher(c.cipher) && Shape(t) && |pkg| <= MAX_MODEL_SIZE && Decrypt(c, pkg).status == Success
    requires var raw := Decrypt(c, pkg).raw; |raw| > 4 && raw[..4] == MAIX && raw[4] == 0
    ensures Loads(pkg, t, c) <==> SubSizeZero(Decrypt(c, pkg).raw, t.buffer)
  {
    hide Decrypt, LoadErr, Splice;
    RawBlocks(c, pkg);
    BufferLoads(Decrypt(c, pkg).raw, t.buffer);
  }

  lemma Residue(zero: seq<byte>, one: seq<byte>)
    requires |zero| == |one| == MAX_MODEL_SIZE
    requires forall i :: 0 <= i < MAX_MODEL_SIZE ==> zero[i] == 0 && one[i] == 1
    ensures zero[16..20] == [0, 0, 0, 0] && one[16..20] != [0, 0, 0, 0]
  {
    assert one[16..20][0] == 1;
  }

  /** The sub-buffer size tm_load finds behind a decryption is zero. */
  predicate SubSizeZero(raw: seq<byte>, before: seq<byte>)
    requires |before| == MAX_MODEL_SIZE
  {
    (if |raw| >= 20 then raw[16..20] else before[16..20]) == [0, 0, 0, 0]
  }

  lemma BufferLoads(raw: seq<byte>, before: seq<byte>)
    requires |before| == MAX_MODEL_SIZE && (|raw| == 16 || 20 <= |raw| <= MAX_MODEL_SIZE)
    requires raw[..4] == MAIX && raw[4] == 0
    ensures LoadErr(Splice(before, 0, raw), true) == OK <==> SubSizeZero(raw, before)
  {
    hide LoadErr;
    var buffer := Splice(before, 0, raw);
    LoadsExactly(buffer, true);
    assert buffer[..4] == raw[..4];
    if |raw| >= 20 { assert buffer[16..20] == raw[16..20]; } else { assert buffer[16..20] == before[16..20]; }
  }

  // ---------- the invariant ----------

  /** The buffers keep their sizes; while a model counts as loaded, the descriptor refers to the
      decrypted bytes and the static main buffer, those bytes are a loadable INT8 model of at least
      five bytes, and the input matrix is the one they declare. */
  ghost predicate Inv(s: State) {
    && Shape(s)
    && (s.loaded ==>
          && s.attached && LoadErr(s.buffer, true) == OK && 5 <= s.size < MAX_MODEL_SIZE
          && s.input == InDims(s.buffer)
          && s.buffer[..4] == MAIX && s.buffer[4] == 0 && s.buffer[16..20] == [0, 0, 0, 0])
  }

  lemma LoadKeepsInv(pkg: seq<byte>, s: State, c: Crypto)
    requires IsBlockCipher(c.cipher) && Inv(s)
    ensures Inv(LoadStep(pkg, s, c).0)
  {
    hide Decrypt, LoadErr;
    LoadSetsFlag(pkg, s, c);
    if Loads(pkg, s, c) {
      var s' := LoadStep(pkg, s, c).0;
      LoadsExactly(s'.buffer, true);
      RawBlocks(c, pkg);
      ShortPlaintextFails(c, pkg, s'.buffer);
    }
  }

  /** An inference changes only the image, the main buffer and the outputs. */
  lemma InferenceKeeps(b: Build, s: State, m: Msg)
    requires Shape(s) && Safe(b, s, m) && m.request.RunInference?
    ensures var s' := Transition(b, s, m).0; s' == s.(main := s'.main, image := s'.image, outs := s'.outs)
  {
    hide RunSafe, Run;
  }

  /** The invariant holds after every run of messages that keep to the buffers. */
  lemma {:induction false} InvariantHolds(b: Build, s: State, ms: seq<Msg>)
    requires Inv(s) && AllSafe(b, s, ms)
    ensures Inv(StateAfter(b, s, ms))
    ensures var t := StateAfter(b, s, ms); |t.buffer| == 4096 && |t.main| == 1464 && |t.image| == 784
  {
    hide LoadStep, InferenceStep, LoadErr, RunSafe;
    if ms != [] {
      var front, m := ms[..|ms| - 1], ms[|ms| - 1];
      var t := StateAfter(b, s, front);
      InvariantHolds(b, s, front);
      if m.request.LoadEncrypted? { LoadKeepsInv(b.pkg, t, m.request.crypto); }
      if m.request.RunInference? { InferenceKeeps(b, t, m); }
    }
  }

  // ---------- which load counts ----------

  /** The index of the last load request, if there is one. */
  function LastLoad(ms: seq<Msg>): (r: Option<nat>)
    ensures r.Some? ==> r.value < |ms| && ms[r.value].request.LoadEncrypted?
    ensures r.None? ==> forall i :: 0 <= i < |ms| ==> !ms[i].request.LoadEncrypted?
    ensures r.Some? ==> forall i :: r.value < i < |ms| ==> !ms[i].request.LoadEncrypted?
  {
    if ms == [] then None
    else if ms[|ms| - 1].request.LoadEncrypted? then Some(|ms| - 1)
    else LastLoad(ms[..|ms| - 1])
  }

  /** Message k is a load that succeeds in the state it meets. */
  ghost predicate LoadsAt(b: Build, s: State, ms: seq<Msg>, k: nat)
    requires Shape(s) && k < |ms|
  {
    && ms[k].request.LoadEncrypted? && IsBlockCipher(ms[k].request.crypto.cipher)
    && Loads(b.pkg, StateAfter(b, s, ms[..k]), ms[k].request.crypto)
  }

  /** The model bytes of r are what decrypting for message k gives. */
  ghost predicate HoldsPlaintextOf(b: Build, ms: seq<Msg>, k: nat, r: State)
    requires k < |ms|
  {
    && ms[k].request.LoadEncrypted? && IsBlockCipher(ms[k].request.crypto.cipher)
    && r.size <= |r.buffer| && Yields(ms[k].request.crypto, b.pkg, r.buffer[..r.size])
  }

  /** After any messages, inferences included, from a state with no model loaded, a model counts as
      loaded if and only if the most recent load request decrypted and passed tm_load; the model bytes
      are then the plaintext that request's package gives. */
  lemma {:induction false} LoadedIffLastLoadSucceeded(b: Build, s: State, ms: seq<Msg>)
    requires Shape(s) && AllSafe(b, s, ms) && !s.loaded
    ensures var k, r := LastLoad(ms), StateAfter(b, s, ms);
            && (r.loaded <==> k.Some? && LoadsAt(b, s, ms, k.value))
            && (r.loaded ==> k.Some? && HoldsPlaintextOf(b, ms, k.value, r))
  {
    hide LoadStep, InferenceStep, Yields, Loads, RunSafe, Shape;
    if ms != [] {
      var front, m := ms[..|ms| - 1], ms[|ms| - 1];
      var t := StateAfter(b, s, front);
      if m.request.LoadEncrypted? {
        LoadSetsFlag(b.pkg, t, m.request.crypto);
        LoadGivesPlaintext(b.pkg, t, m.request.crypto);
      } else {
        LoadedIffLastLoadSucceeded(b, s, front);
        if m.request.RunInference? { InferenceKeeps(b, t, m); }
        var k := LastLoad(front);
        if k.Some? { assert front[..k.value] == ms[..k.value]; }
      }
    }
  }

  lemma LoadGivesPlaintext(pkg: seq<byte>, s: State, c: Crypto)
    requires IsBlockCipher(c.cipher) && Shape(s)
    ensures Loads(pkg, s, c) ==>
              var r := LoadStep(pkg, s, c).0;
              && 0 <= r.size <= |r.buffer| && Yields(c, pkg, r.buffer[..r.size])
              && r.input == InDims(r.buffer)
  {
    hide Decrypt, LoadErr;
    if Loads(pkg, s, c) {
      RawBlocks(c, pkg);
      var d, r := Decrypt(c, pkg), LoadStep(pkg, s, c).0;
      assert r.buffer[..r.size] == d.raw[..r.size];
    }
  }

  // ---------- replies ----------

  /** The replies among the outputs, in order. */
  function RepliesOf(out: seq<Output>): seq<Output> {
    if out == [] then [] else
    RepliesOf(out[..|out| - 1]) + if out[|out| - 1].Reply? then [out[|out| - 1]] else []
  }

  /** At most one word and then exactly one reply, all to the client that asked; the word only with a
      reply of success and if there is room for it. */
  ghost predicate AnsweredOnce(m: Msg, out: seq<Output>) {
    && 1 <= |out| <= 2 && out[|out| - 1].Reply?
    && (forall i :: 0 <= i < |out| ==> out[i].handle == m.handle)
    && (|out| == 2 ==> out[0].Write? && out[1].status == Success && m.outSize >= 4)
  }

  /** Every branch of the message loop answers its message once. */
  lemma OneMessageAnsweredOnce(b: Build, s: State, m: Msg)
    requires Shape(s) && Safe(b, s, m)
    ensures AnsweredOnce(m, Transition(b, s, m).1)
  {
    hide LoadStep, RunSafe, Prepared, Run, Answer;
  }

  lemma {:induction false} RepliesJoin(a: seq<Output>, b: seq<Output>)
    ensures RepliesOf(a + b) == RepliesOf(a) + RepliesOf(b)
  {
    if b == [] {
      assert a + b == a;
    } else {
      assert (a + b)[..|a + b| - 1] == a + b[..|b| - 1];
      RepliesJoin(a, b[..|b| - 1]);
    }
  }

  lemma OnceIsOneReply(m: Msg, out: seq<Output>)
    requires AnsweredOnce(m, out)
    ensures RepliesOf(out) == [out[|out| - 1]]
  {
    hide RepliesOf;
    ReplyOf(out[0]);
    if |out| == 2 {
      ReplyOf(out[1]);
      RepliesJoin([out[0]], [out[1]]);
      assert out == [out[0]] + [out[1]];
    } else {
      assert out == [out[0]];
    }
  }

  lemma ReplyOf(o: Output)
    ensures RepliesOf([o]) == if o.Reply? then [o] else []
  {
    assert [o][..0] == [] && RepliesOf([]) == [];
  }

  /** Message k is answered with the reply that ends its own outputs. */
  ghost function ReplyTo(b: Build, s: State, ms: seq<Msg>, k: nat): Output
    requires Shape(s) && k < |ms|
  {
    var t := StateAfter(b, s, ms[..k]);
    if !Safe(b, t, ms[k]) then Reply(ms[k].handle, BadState) else
    var out := Transition(b, t, ms[k]).1;
    if out == [] then Reply(ms[k].handle, BadState) else out[|out| - 1]
  }

  /** Every received message gets exactly one reply, in order, on its own handle. */
  lemma {:induction false} OneReplyEach(b: Build, s: State, ms: seq<Msg>)
    requires Shape(s) && AllSafe(b, s, ms)
    ensures var r := RepliesOf(Outputs(b, s, ms));
            && |r| == |ms|
            && forall i :: 0 <= i < |ms| ==> r[i] == ReplyTo(b, s, ms, i) && r[i].Reply? && r[i].handle == ms[i].handle
  {
    hide Transition, Safe, RepliesOf, Shape;
    if ms == [] {
      NoReplies();
    } else {
      var front, m := ms[..|ms| - 1], ms[|ms| - 1];
      var t := StateAfter(b, s, front);
      OneReplyEach(b, s, front);
      OneMessageAnsweredOnce(b, t, m);
      RepliesJoin(Outputs(b, s, front), Transition(b, t, m).1);
      OnceIsOneReply(m, Transition(b, t, m).1);
      assert forall i :: 0 <= i < |front| ==> ms[..i] == front[..i];
    }
  }

  lemma NoReplies()
    ensures RepliesOf([]) == []
  {
  }

  // ---------- what an inference answers ----------

  /** Every layer of the loaded model is one that does not fail. */
  ghost predicate LayersSucceed(b: Build, s: State)
    requires Shape(s)
  {
    forall i :: 0 <= i < LayerCnt(s.buffer) ==> ErrOf(b.ops, s.buffer, i, s.input) == OK
  }

  /** tm_run succeeds exactly if no layer of the model is one that fails, whatever the image; it then
      has the outputs of all layers. */
  lemma RunSucceedsExactly(b: Build, s: State)
    requires Shape(s) && RunFits(b.ops, b.base, s.buffer, 0, HEADER, s.input, s.main)
    ensures Run(b, s).err == OK <==> LayersSucceed(b, s)
    ensures Run(b, s).layer <= LayerCnt(s.buffer)
    ensures Run(b, s).outs == OutsOf(b.base, s.buffer, 0, Run(b, s).layer)
    ensures Run(b, s).err == OK ==> Run(b, s).layer == LayerCnt(s.buffer)
  {
    hide RunFits, RunFrom, ErrOf, OutsOf, OutCount;
    RunStopsAtFirstFailure(b.ops, b.base, s.buffer, 0, s.input, s.main, []);
    var r := Run(b, s);
    assert [] + OutsOf(b.base, s.buffer, 0, r.layer) == OutsOf(b.base, s.buffer, 0, r.layer);
  }

  /** The status of one inference. */
  lemma InferenceStatusExactly(b: Build, s: State, m: Msg)
    requires Shape(s) && Safe(b, s, m) && m.request.RunInference?
    ensures var out, q := Transition(b, s, m).1, m.request;
            && out != [] && out[|out| - 1].Reply?
            && (out[|out| - 1].status == Success <==> Starts(s, q.inSize, q.sent) && LayersSucceed(b, s))
  {
    hide Run, RunFits, LayersSucceed, Prepared, Answer;
    var q := m.request;
    if Starts(s, q.inSize, q.sent) {
      var t := Prepared(Seen(s, q.inSize, q.sent));
      PreparedKeeps(Seen(s, q.inSize, q.sent));
      RunSucceedsExactly(b, t);
      SameLayers(b, s, t);
    }
  }

  lemma PreparedKeeps(s: State)
    requires Shape(s) && s.loaded
    ensures var t := Prepared(s); Shape(t) && t == s.(main := t.main)
    ensures Window(Prepared(s).main, 0, IMAGE_SIZE) == Centred(s.image)
  {
    hide Centred;
  }

  lemma SameLayers(b: Build, s: State, t: State)
    requires Shape(s) && Shape(t) && t.buffer == s.buffer && t.input == s.input
    ensures LayersSucceed(b, s) <==> LayersSucceed(b, t)
  {
  }

  /** An inference in any run is answered with success exactly when a model is loaded, the client sent
      no data or a whole image that was read in full, and no layer of that model is one that fails. */
  lemma InferenceSucceedsExactly(b: Build, s: State, ms: seq<Msg>, k: nat)
    requires Shape(s) && AllSafe(b, s, ms) && k < |ms| && ms[k].request.RunInference?
    ensures k < |RepliesOf(Outputs(b, s, ms))| && RepliesOf(Outputs(b, s, ms))[k].Reply?
    ensures var q, t := ms[k].request, StateAfter(b, s, ms[..k]);
            RepliesOf(Outputs(b, s, ms))[k].status == Success <==>
              && t.loaded && (q.inSize == 0 || (q.inSize == IMAGE_SIZE && |q.sent| == q.inSize))
              && forall i :: 0 <= i < LayerCnt(t.buffer) ==> ErrOf(b.ops, t.buffer, i, t.input) == OK
  {
    hide Transition, Safe, RepliesOf, Outputs;
    OneReplyEach(b, s, ms);
    SafeAt(b, s, ms, k);
    InferenceStatusExactly(b, StateAfter(b, s, ms[..k]), ms[k]);
  }

  /** A message of a safe run is safe in the state it meets. */
  lemma {:induction false} SafeAt(b: Build, s: State, ms: seq<Msg>, k: nat)
    requires Shape(s) && AllSafe(b, s, ms) && k < |ms|
    ensures AllSafe(b, s, ms[..k]) && Safe(b, StateAfter(b, s, ms[..k]), ms[k])
  {
    hide Transition, Safe, Shape;
    if k < |ms| - 1 {
      SafeAt(b, s, ms[..|ms| - 1], k);
      assert ms[..|ms| - 1][..k] == ms[..k];
    }
  }

  // ---------- which image is classified ----------

  /** The message hands no image bytes to psa_read. */
  predicate SendsNothing(m: Msg) {
    m.request.RunInference? ==> m.request.inSize != IMAGE_SIZE || m.request.sent == []
  }

  /** An image sent in full replaces the built-in one for good: every later inference without data
      classifies it again, until more image bytes arrive. */
  lemma {:induction false} LastImageStays(b: Build, s: State, ms: seq<Msg>, k: nat)
    requires Shape(s) && AllSafe(b, s, ms) && k < |ms| && ms[k].request.RunInference?
    requires StateAfter(b, s, ms[..k]).loaded && ms[k].request.inSize == IMAGE_SIZE == |ms[k].request.sent|
    requires forall i :: k < i < |ms| ==> SendsNothing(ms[i])
    ensures StateAfter(b, s, ms).image == ms[k].request.sent
  {
    hide Transition, Shape, Safe;
    var front, m := ms[..|ms| - 1], ms[|ms| - 1];
    var t := StateAfter(b, s, front);
    ImageOf(b, t, m);
    if k == |ms| - 1 {
      assert front == ms[..k];
    } else {
      assert front[..k] == ms[..k];
      LastImageStays(b, s, front, k);
    }
  }

  /** What one message does to the image. */
  lemma ImageOf(b: Build, s: State, m: Msg)
    requires Shape(s) && Safe(b, s, m)
    ensures Transition(b, s, m).0.image ==
            if m.request.RunInference? && s.loaded && m.request.inSize == IMAGE_SIZE
            then m.request.sent + s.image[|m.request.sent|..] else s.image
    ensures SendsNothing(m) ==> Transition(b, s, m).0.image == s.image
    ensures m.request.RunInference? && s.loaded && m.request.inSize == IMAGE_SIZE == |m.request.sent| ==>
              Transition(b, s, m).0.image == m.request.sent
  {
    hide RunSafe, Run, Prepared, Decrypt, LoadErr;
    if m.request.RunInference? && Starts(s, m.request.inSize, m.request.sent) {
      PreparedKeeps(Seen(s, m.request.inSize, m.request.sent));
    }
  }
}
