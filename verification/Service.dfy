/** The inference partition of tinymaix_inference.c: its static state, decrypt_model in place, and
    the message loop with the model it runs. */
module Service {
  import opened Bytes
  import opened Options
  import opened FloatWords
  import opened Convolution
  import opened Model
  import opened Package
  import opened Scores

  // ---------- messages and the abstract state ----------

  const IMAGE_SIZE := 784
  const MAIN_SIZE := 1464

  /** What is fixed for a build: the built-in package, the float steps, the address of the main
      buffer. */
  datatype Build = Build(pkg: seq<byte>, ops: FloatOps, base: nat)

  /** A message with what the outside world supplies while it is handled: the crypto service's answers
      during a load, the bytes psa_read delivers during an inference. */
  datatype Request =
    | Connect
    | Disconnect
    | LoadEncrypted(crypto: Crypto)
    | RunInference(inSize: nat, sent: seq<byte>)
    | Unsupported(code: int)

  datatype Msg = Msg(handle: int, request: Request, outSize: nat)

  /** psa_reply, and psa_write of one int. */
  datatype Output = Reply(handle: int, status: Status) | Write(handle: int, word: int)

  /** g_model_loaded, whether g_mdl refers to the decrypted model and the static main buffer,
      g_decrypted_model with g_decrypted_size, g_in, static_main_buf, mnist_pic and g_outs[0]. */
  datatype State = State(loaded: bool, attached: bool, buffer: seq<byte>, size: nat, input: Mat,
                         main: seq<int8>, image: seq<byte>, outs: Option<OutMat>)

  /** The sizes of the static buffers; a loaded model's input starts the main buffer. */
  predicate Shape(s: State) {
    && |s.buffer| == MAX_MODEL_SIZE && |s.main| == MAIN_SIZE && |s.image| == IMAGE_SIZE
    && (s.loaded ==> s.input.data == 0)
  }

  // ---------- a load ----------

  /** The buffer and size decrypt_model leaves. */
  function AfterDecrypt(s: State, d: Decryption): State
    requires |d.raw| <= |s.buffer|
  {
    s.(buffer := Splice(s.buffer, 0, d.raw), size := if d.size.Some? then d.size.value else s.size)
  }

  /** A load request: the status it is answered with and the state it leaves. */
  function LoadStep(pkg: seq<byte>, s: State, c: Crypto): (r: (State, Status))
    requires IsBlockCipher(c.cipher) && Shape(s)
    ensures Shape(r.0)
  {
    if |pkg| > MAX_MODEL_SIZE then (s.(loaded := false), InsufficientMemory) else
    var d := Decrypt(c, pkg);
    var s' := AfterDecrypt(s, d);
    if d.status != Success then (s'.(loaded := false), d.status) else
    var err := LoadErr(s'.buffer, true);
    if err == OK then (s'.(loaded := true, attached := true, input := InDims(s'.buffer)), Success)
    else (s'.(loaded := false, attached := s.attached || err == ErrOom), GenericError)
  }

  /** The success word of a load, if the client has room for it. */
  function LoadWord(h: int, outSize: nat, status: Status): seq<Output> {
    if status == Success && outSize >= 4 then [Write(h, 0)] else []
  }

  // ---------- an inference ----------

  /** psa_read puts what the client sent over the front of mnist_pic. */
  function Fed(s: State, sent: seq<byte>): State
    requires |sent| <= |s.image|
  {
    s.(image := sent + s.image[|sent|..])
  }

  /** tm_preprocess: the image, centred, in the input matrix. */
  function Prepared(s: State): (r: State)
    requires s.input.data + |s.image| <= |s.main|
    ensures |r.main| == |s.main|
  {
    s.(main := Splice(s.main, s.input.data, Centred(s.image)))
  }

  /** g_outs[0] after a run with these outputs; a run without any leaves it. */
  function Latest(before: Option<OutMat>, outs: seq<OutMat>): Option<OutMat> {
    if outs == [] then before else Some(outs[0])
  }

  /** tm_run on the prepared buffer. */
  ghost function Run(b: Build, s: State): (r: Outcome)
    requires RunFits(b.ops, b.base, s.buffer, 0, HEADER, s.input, s.main)
    ensures |r.mem| == |s.main|
  {
    RunFrom(b.ops, b.base, s.buffer, 0, HEADER, s.input, s.main, [])
  }

  /** What the C code takes for granted when it runs a model: every layer fits, one output at most, and
      ten scores to read where the last output says. tm_load checks none of it. */
  ghost predicate RunSafe(b: Build, s: State) {
    && RunFits(b.ops, b.base, s.buffer, 0, HEADER, s.input, s.main)
    && |Run(b, s).outs| <= 1
    && (Run(b, s).err == OK ==> HasScores(Latest(s.outs, Run(b, s).outs), |s.main|))
  }

  predicate HasScores(out: Option<OutMat>, size: nat) {
    out.Some? && out.value.dims.data + 4 * CLASSES <= size
  }

  /** parse_output. */
  function Answer(b: Build, s: State): int
    requires HasScores(s.outs, |s.main|)
  {
    Winner(b.ops, WordsAt(s.main, s.outs.value.dims.data, CLASSES), CLASSES).0
  }

  /** The state after tm_run. */
  ghost function AfterRun(b: Build, s: State): State
    requires RunSafe(b, s)
  {
    s.(main := Run(b, s).mem, outs := Latest(s.outs, Run(b, s).outs))
  }

  /** The state and status after preprocessing, running and reading the scores, with the class if the
      client has room for it. */
  ghost function Infer(b: Build, s: State, h: int, outSize: nat): (r: (State, seq<Output>, Status))
    requires Shape(s) && s.loaded && RunSafe(b, Prepared(s))
    ensures Shape(r.0)
  {
    var s' := AfterRun(b, Prepared(s));
    if Run(b, Prepared(s)).err != OK then (s', [], GenericError)
    else (s', if outSize >= 4 then [Write(h, Answer(b, s'))] else [], Success)
  }

  /** The request gets as far as tm_run. */
  predicate Starts(s: State, inSize: nat, sent: seq<byte>) {
    s.loaded && (inSize == 0 || (inSize == IMAGE_SIZE && |sent| == inSize))
  }

  /** The image the run uses: a whole one just sent, or the one mnist_pic still holds. */
  function Seen(s: State, inSize: nat, sent: seq<byte>): State
    requires Shape(s) && |sent| <= inSize
  {
    if s.loaded && inSize == IMAGE_SIZE then Fed(s, sent) else s
  }

  ghost function InferenceStep(b: Build, s: State, h: int, inSize: nat, sent: seq<byte>, outSize: nat)
    : (r: (State, seq<Output>, Status))
    requires Shape(s) && |sent| <= inSize
    requires Starts(s, inSize, sent) ==> RunSafe(b, Prepared(Seen(s, inSize, sent)))
    ensures Shape(r.0)
  {
    if !s.loaded then (s, [], BadState)
    else if inSize == IMAGE_SIZE then
      if |sent| != inSize then (Fed(s, sent), [], CommunicationFailure) else Infer(b, Fed(s, sent), h, outSize)
    else if inSize == 0 then Infer(b, s, h, outSize)
    else (s, [], InvalidArgument)
  }

  // ---------- messages ----------

  /** The crypto service is one, psa_read delivers no more than was asked for, and a model that is run
      keeps to its buffers. */
  ghost predicate Safe(b: Build, s: State, m: Msg) {
    match m.request
    case LoadEncrypted(c) => IsBlockCipher(c.cipher)
    case RunInference(inSize, sent) =>
      |sent| <= inSize && Shape(s) && (Starts(s, inSize, sent) ==> RunSafe(b, Prepared(Seen(s, inSize, sent))))
    case _ => true
  }

  /** One message: the state it leaves and what goes back to the client, in order. */
  ghost function Transition(b: Build, s: State, m: Msg): (r: (State, seq<Output>))
    requires Shape(s) && Safe(b, s, m)
    ensures Shape(r.0)
  {
    match m.request
    case Connect => (s, [Reply(m.handle, Success)])
    case LoadEncrypted(c) =>
      var (s', status) := LoadStep(b.pkg, s, c);
      (s', LoadWord(m.handle, m.outSize, status) + [Reply(m.handle, status)])
    case RunInference(inSize, sent) =>
      var (s', words, status) := InferenceStep(b, s, m.handle, inSize, sent, m.outSize);
      (s', words + [Reply(m.handle, status)])
    case Disconnect => (s, [Reply(m.handle, Success)])
    case Unsupported(_) => (s, [Reply(m.handle, NotSupported)])
  }

  /** The state after a sequence of messages; nothing is said about a message that is not safe. */
  ghost function StateAfter(b: Build, s: State, ms: seq<Msg>): (r: State)
    requires Shape(s)
    ensures Shape(r)
  {
    if ms == [] then s else
    var before, m := StateAfter(b, s, ms[..|ms| - 1]), ms[|ms| - 1];
    if Safe(b, before, m) then Transition(b, before, m).0 else before
  }

  /** Every message is safe in the state it meets. */
  ghost predicate AllSafe(b: Build, s: State, ms: seq<Msg>)
    requires Shape(s)
  {
    ms == [] ||
    (AllSafe(b, s, ms[..|ms| - 1]) && Safe(b, StateAfter(b, s, ms[..|ms| - 1]), ms[|ms| - 1]))
  }

  /** Everything sent to the clients, in order. */
  ghost function Outputs(b: Build, s: State, ms: seq<Msg>): seq<Output>
    requires Shape(s) && AllSafe(b, s, ms)
  {
    if ms == [] then [] else
    var front, m := ms[..|ms| - 1], ms[|ms| - 1];
    Outputs(b, s, front) + Transition(b, StateAfter(b, s, front), m).1
  }

  lemma OneMore(b: Build, s: State, front: seq<Msg>, m: Msg)
    requires Shape(s)
    ensures AllSafe(b, s, front + [m]) <==> AllSafe(b, s, front) && Safe(b, StateAfter(b, s, front), m)
    ensures AllSafe(b, s, front + [m]) ==>
              && StateAfter(b, s, front + [m]) == Transition(b, StateAfter(b, s, front), m).0
              && Outputs(b, s, front + [m]) == Outputs(b, s, front) + Transition(b, StateAfter(b, s, front), m).1
  {
    hide Transition, Safe, Shape;
    assert (front + [m])[..|front|] == front;
  }

  /** The messages psa_get delivered. */
  function Received(ms: seq<Option<Msg>>): seq<Msg> {
    if ms == [] then [] else
    Received(ms[..|ms| - 1]) + match ms[|ms| - 1] { case Some(m) => [m] case None => [] }
  }

  // ---------- the partition ----------

  class Partition {
    const build: Build
    const engine: Engine
    const main: array<int8>
    const decrypted: array<byte>
    const pic: array<byte>
    const mdl: Mdl
    var decryptedSize: nat
    var loaded: bool
    var input: Mat
    var outs: Option<OutMat>
    var sent: seq<Output>

    ghost predicate Valid()
      reads this, mdl
    {
      && decrypted.Length == MAX_MODEL_SIZE && main.Length == MAIN_SIZE && pic.Length == IMAGE_SIZE
      && decrypted != pic && engine.Valid() && main != engine.sbuf
      && (loaded ==> Attached() && input.data == 0)
    }

    ghost predicate Attached()
      reads this, mdl
    {
      mdl.b == decrypted && mdl.buf == main && mdl.base == build.base
    }

    ghost function View(): State
      reads this, mdl, decrypted, main, pic
    {
      State(loaded, Attached(), decrypted[..], decryptedSize, input, main[..], pic[..], outs)
    }

    constructor (build: Build, picture: seq<byte>, other: array<byte>, otherMain: array<int8>)
      requires |picture| == IMAGE_SIZE
      ensures Valid() && this.build == build && !loaded && sent == [] && outs == None && pic[..] == picture
    {
      this.build := build;
      engine := new Engine();
      main := new int8[MAIN_SIZE];
      decrypted := new byte[MAX_MODEL_SIZE];
      pic := new byte[IMAGE_SIZE](i requires 0 <= i < |picture| => picture[i]);
      decryptedSize, loaded, sent, outs, input := 0, false, [], None, Mat(0, 0, 0, 0);
      mdl := new Mdl(other, otherMain);
      new;
      assert pic[..] == picture;
    }

    /** The padding loop of decrypt_model, over the n bytes just decrypted. */
    method PaddingOk(n: nat) returns (ok: bool)
      requires n <= decrypted.Length
      ensures ok <==> WellPadded(decrypted[..n])
    {
      if n == 0 { return false; }
      var padding := decrypted[n - 1];
      if padding == 0 || padding > 16 { return false; }
      if padding > n { return false; }
      var i := 0;
      while i < padding
        invariant 0 <= i <= padding
        invariant forall j :: n - i <= j < n ==> decrypted[j] == padding
      {
        if decrypted[n - 1 - i] != padding { return false; }
        i := i + 1;
      }
      return true;
    }

    /** What psa_cipher_update and psa_cipher_finish leave in the static buffer. */
    method DecryptInto(c: Crypto) returns (status: Status, n: nat)
      requires Valid() && IsBlockCipher(c.cipher) && |build.pkg| >= HEADER_SIZE
      modifies decrypted
      ensures n <= decrypted.Length && (status, decrypted[..n]) == PsaDecrypt(c, build.pkg[12..28], build.pkg[28..])
      ensures decrypted[..] == Splice(old(decrypted[..]), 0, decrypted[..n])
    {
      hide PsaDecrypt;
      var (result, out) := PsaDecrypt(c, build.pkg[12..28], build.pkg[28..]);
      status, n := result, |out|;
      forall i | 0 <= i < n { decrypted[i] := out[i]; }
      assert decrypted[..n] == out;
    }

    /** The header checks of decrypt_model. */
    method CheckHeader() returns (status: Status)
      ensures status == HeaderStatus(build.pkg)
    {
      if |build.pkg| < HEADER_SIZE { return InvalidArgument; }
      if Le32(build.pkg, 0) != Le32(TMAX, 0) || Le32(build.pkg, 4) != VERSION { return InvalidArgument; }
      if Le32(build.pkg, 8) > MAX_MODEL_SIZE { return BufferTooSmall; }
      if |build.pkg| - HEADER_SIZE == 0 { return InvalidArgument; }
      return Success;
    }

    /** The crypto calls before the data. */
    method SetUpCrypto(c: Crypto) returns (status: Status)
      ensures status == SetupStatus(c)
    {
      if c.init != Success && c.init != AlreadyExists { return c.init; }
      if c.derive != Success { return GenericError; }
      if c.importKey != Success { return c.importKey; }
      if c.setup != Success { return c.setup; }
      return c.setIv;
    }

    lemma NothingSpliced(mem: seq<byte>)
      ensures Splice(mem, 0, []) == mem
    {
    }

    lemma HeaderPresent(pkg: seq<byte>)
      ensures HeaderStatus(pkg) == Success ==> |pkg| > HEADER_SIZE
    {
    }

    /** decrypt_model on the built-in package. */
    method DecryptModel(c: Crypto) returns (status: Status)
      requires Valid() && IsBlockCipher(c.cipher)
      modifies this`decryptedSize, decrypted
      ensures Valid() && status == Decrypt(c, build.pkg).status
      ensures View() == AfterDecrypt(old(View()), Decrypt(c, build.pkg))
    {
      hide PsaDecrypt, WellPadded, Le32, HeaderStatus, SetupStatus, Splice;
      HeaderPresent(build.pkg);
      NothingSpliced(decrypted[..]);
      status := CheckHeader();
      if status != Success { return; }
      status := SetUpCrypto(c);
      if status != Success { return; }
      var result, n := DecryptInto(c);
      ghost var raw := decrypted[..n];
      if result != Success { return result; }
      var padded := PaddingOk(n);
      if !padded { return GenericError; }
      PaddingShort(raw);
      var padding := decrypted[n - 1];
      decryptedSize := n - padding;
      if decryptedSize != Le32(build.pkg, 8) { return GenericError; }
      if decryptedSize >= 4 {
        SameStart(decrypted[..], raw);
        if Le32(decrypted[..], 0) != Le32(MAIX, 0) { return GenericError; }
      }
      return Success;
    }

    /** psa_write and psa_reply. */
    method Send(o: Output)
      modifies this`sent
      ensures sent == old(sent) + [o]
    {
      sent := sent + [o];
    }

    /** The load branch of the message loop. */
    method HandleLoad(c: Crypto) returns (status: Status)
      requires Valid() && IsBlockCipher(c.cipher)
      modifies this`decryptedSize, this`loaded, this`input, decrypted, mdl
      ensures Valid() && (View(), status) == LoadStep(build.pkg, old(View()), c)
    {
      hide Decrypt;
      if |build.pkg| > MAX_MODEL_SIZE {
        status := InsufficientMemory;
      } else {
        status := DecryptModel(c);
      }
      if status == Success {
        var res, in0 := mdl.Load(decrypted, main, build.base);
        if res != OK {
          status := GenericError;
          loaded := false;
        } else {
          input := in0;
          loaded := true;
        }
      } else {
        loaded := false;
      }
    }

    /** psa_read into mnist_pic. */
    method ReadImage(bytes: seq<byte>) returns (bytesRead: nat)
      requires Valid() && |bytes| <= IMAGE_SIZE
      modifies pic
      ensures bytesRead == |bytes| && View() == Fed(old(View()), bytes)
    {
      forall i | 0 <= i < |bytes| { pic[i] := bytes[i]; }
      assert pic[..] == bytes + old(pic[..])[|bytes|..];
      bytesRead := |bytes|;
    }

    /** tm_preprocess, tm_run and parse_output, as both inference branches do them, and the class to the
        client. */
    method Classify(h: int, outSize: nat) returns (status: Status)
      requires Valid() && loaded && RunSafe(build, Prepared(View()))
      modifies this`outs, this`sent, main, mdl`layerI, mdl`layerBody, engine.sbuf, engine.kOft, engine.sumscale
      ensures Valid()
      ensures var (s, out, st) := Infer(build, old(View()), h, outSize);
              View() == s && sent == old(sent) + out && status == st
    {
      hide RunFits, RunFrom, Winner, WordsAt, Centred, Splice;
      Preprocess(pic, IMAGE_SIZE, main, input.data);
      assert pic[..IMAGE_SIZE] == pic[..];
      assert View() == Prepared(old(View()));
      var res, outs' := mdl.Run(engine, build.ops, input);
      assert Outcome(res, mdl.layerI, main[..], outs') == Run(build, Prepared(old(View())));
      if outs' != [] { outs := Some(outs'[0]); }
      if res != OK {
        status := GenericError;
      } else {
        var result := ParseOutput(build.ops, main, outs.value.dims.data);
        status := Success;
        if outSize >= 4 { Send(Write(h, result)); }
      }
    }

    /** The inference branch. */
    method HandleInference(h: int, inSize: nat, bytes: seq<byte>, outSize: nat) returns (status: Status)
      requires Valid() && |bytes| <= inSize
      requires Starts(View(), inSize, bytes) ==> RunSafe(build, Prepared(Seen(View(), inSize, bytes)))
      modifies this`outs, this`sent, pic, main, mdl`layerI, mdl`layerBody, engine.sbuf, engine.kOft, engine.sumscale
      ensures Valid()
      ensures var (s, out, st) := InferenceStep(build, old(View()), h, inSize, bytes, outSize);
              View() == s && sent == old(sent) + out && status == st
    {
      hide RunSafe, Prepared, Infer;
      if !loaded {
        status := BadState;
      } else if inSize == IMAGE_SIZE {
        var bytesRead := ReadImage(bytes);
        if bytesRead != inSize {
          status := CommunicationFailure;
        } else {
          status := Classify(h, outSize);
        }
      } else if inSize == 0 {
        status := Classify(h, outSize);
      } else {
        status := InvalidArgument;
      }
    }

    /** One message of the loop; every branch sends its own reply. */
    method Handle(m: Msg)
      requires Valid() && Safe(build, View(), m)
      modifies this, decrypted, pic, main, mdl, engine.sbuf, engine.kOft, engine.sumscale
      ensures Valid()
      ensures var (s, out) := Transition(build, old(View()), m);
              View() == s && sent == old(sent) + out
    {
      hide LoadStep, InferenceStep, RunSafe, Prepared;
      match m.request
      case Connect => Send(Reply(m.handle, Success));
      case LoadEncrypted(c) =>
        var status := HandleLoad(c);
        if status == Success && m.outSize >= 4 { Send(Write(m.handle, 0)); }
        Send(Reply(m.handle, status));
      case RunInference(inSize, bytes) =>
        var status := HandleInference(m.handle, inSize, bytes, m.outSize);
        Send(Reply(m.handle, status));
      case Disconnect => Send(Reply(m.handle, Success));
      case Unsupported(_) => Send(Reply(m.handle, NotSupported));
    }

    /** tinymaix_inference_entry over a finite run: psa_get may deliver nothing. */
    method Serve(ms: seq<Option<Msg>>)
      requires Valid() && Shape(View()) && AllSafe(build, View(), Received(ms))
      modifies this, decrypted, pic, main, mdl, engine.sbuf, engine.kOft, engine.sumscale
      ensures Valid()
      ensures View() == StateAfter(build, old(View()), Received(ms))
      ensures sent == old(sent) + Outputs(build, old(View()), Received(ms))
    {
      hide Transition, Safe, StateAfter, AllSafe, Outputs, Received, Shape;
      var i := 0;
      ghost var start := View();
      NoMessages(build, start);
      assert ms[..0] == [];
      while i < |ms|
        invariant 0 <= i <= |ms| && Valid() && AllSafe(build, start, Received(ms[..i]))
        invariant View() == StateAfter(build, start, Received(ms[..i]))
        invariant sent == old(sent) + Outputs(build, start, Received(ms[..i]))
      {
        ReceivedNext(ms, i);
        if ms[i].Some? {
          SafePrefix(build, start, ms, i + 1);
          OneMore(build, start, Received(ms[..i]), ms[i].value);
          Handle(ms[i].value);
        }
        i := i + 1;
      }
      assert ms[..i] == ms;
    }

    lemma NoMessages(b: Build, s: State)
      requires Shape(s)
      ensures Received([]) == [] && AllSafe(b, s, []) && StateAfter(b, s, []) == s && Outputs(b, s, []) == []
    {
    }

    lemma ReceivedNext(ms: seq<Option<Msg>>, i: nat)
      requires i < |ms|
      ensures ms[i].Some? ==> Received(ms[..i + 1]) == Received(ms[..i]) + [ms[i].value]
      ensures ms[i].None? ==> Received(ms[..i + 1]) == Received(ms[..i])
    {
      assert ms[..i + 1][..i] == ms[..i];
    }

    /** What is safe to the end is safe up to any message. */
    lemma {:induction false} SafePrefix(b: Build, s: State, ms: seq<Option<Msg>>, i: nat)
      requires i <= |ms| && Shape(s) && AllSafe(b, s, Received(ms))
      ensures AllSafe(b, s, Received(ms[..i]))
    {
      hide Safe, Transition, Shape;
      if i == |ms| {
        assert ms[..i] == ms;
      } else {
        var front, n := ms[..|ms| - 1], |ms| - 1;
        ReceivedNext(ms, n);
        assert ms[..n + 1] == ms;
        if ms[n].Some? { OneMore(b, s, Received(front), ms[n].value); }
        assert front[..i] == ms[..i];
        SafePrefix(b, s, front, i);
      }
    }

    lemma PaddingShort(raw: seq<byte>)
      requires WellPadded(raw)
      ensures |raw| > 0 && 0 < raw[|raw| - 1] <= |raw|
    {
    }

    lemma SameStart(a: seq<byte>, b: seq<byte>)
      requires 4 <= |b| <= |a| && a[..|b|] == b
      ensures Le32(a, 0) == Le32(b, 0)
    {
      assert forall i :: 0 <= i < 4 ==> a[i] == a[..|b|][i];
    }
  }
}
