/** What the earlier messages of a run can and cannot change for the later ones: the model buffer behind
    the package, and the image. */
module ServiceHistory {
  import opened Bytes
  import opened Options
  import opened Convolution
  import opened Model
  import opened Package
  import opened Records
  import opened Service
  import opened ServiceRuns
  import opened ServiceModels

  // ---------- the model buffer ----------

  /** The cells a load of this package can write: the whole blocks of its ciphertext. */
  function Written(pkg: seq<byte>): nat {
    if |pkg| < HEADER_SIZE then 0 else (|pkg| - HEADER_SIZE) / 16 * 16
  }

  lemma DecryptedLength(c: Crypto, pkg: seq<byte>)
    requires IsBlockCipher(c.cipher)
    ensures |Decrypt(c, pkg).raw| <= Written(pkg)
    ensures Decrypt(c, pkg).status == Success ==> |Decrypt(c, pkg).raw| == Written(pkg)
  {
    hide CbcDecrypt, Le32, WellPadded;
  }

  /** Cell j of the model buffer, behind what the built-in package can fill, is the same after any
      messages: whatever keys were derived, and whether the loads succeeded or not. */
  lemma {:induction false} ResidueNeverChanges(b: Build, s: State, ms: seq<Msg>, j: nat)
    requires Shape(s) && AllSafe(b, s, ms) && Written(b.pkg) <= j < MAX_MODEL_SIZE
    ensures StateAfter(b, s, ms).buffer[j] == s.buffer[j]
  {
    hide InferenceStep, Decrypt, LoadErr, Safe, Written;
    if ms != [] {
      var front, m := ms[..|ms| - 1], ms[|ms| - 1];
      ResidueNeverChanges(b, s, front, j);
      MessageKeepsResidue(b, StateAfter(b, s, front), m, j);
    }
  }

  lemma MessageKeepsResidue(b: Build, s: State, m: Msg, j: nat)
    requires Shape(s) && Safe(b, s, m) && Written(b.pkg) <= j < MAX_MODEL_SIZE
    ensures Transition(b, s, m).0.buffer[j] == s.buffer[j]
  {
    hide InferenceStep, Decrypt, LoadErr, Written, RunSafe;
    match m.request
    case LoadEncrypted(c) => DecryptedLength(c, b.pkg);
    case RunInference(_, _) => InferenceKeeps(b, s, m);
    case _ =>
  }

  /** So a load does after any messages what it would have done before them: neither other clients'
      loads nor their inferences can make it succeed or fail. */
  lemma LoadIgnoresHistory(b: Build, s: State, ms: seq<Msg>, c: Crypto)
    requires Shape(s) && AllSafe(b, s, ms) && IsBlockCipher(c.cipher)
    ensures Loads(b.pkg, StateAfter(b, s, ms), c) <==> Loads(b.pkg, s, c)
    ensures Loads(b.pkg, s, c) ==>
              LoadStep(b.pkg, StateAfter(b, s, ms), c).0.buffer == LoadStep(b.pkg, s, c).0.buffer
  {
    hide StateAfter, Decrypt, LoadErr, Written, InDims;
    var t, d := StateAfter(b, s, ms), Decrypt(c, b.pkg);
    if d.status == Success {
      DecryptedLength(c, b.pkg);
      RawBlocks(c, b.pkg);
      forall j | |d.raw| <= j < MAX_MODEL_SIZE ensures t.buffer[j] == s.buffer[j] {
        ResidueNeverChanges(b, s, ms, j);
      }
      assert Splice(t.buffer, 0, d.raw) == Splice(s.buffer, 0, d.raw);
    }
  }

  /** In a service whose model buffer starts zeroed, as static memory does, a load succeeds at any time
      if and only if the package fits and decrypts to blocks with the magic, type 0 and, if there is a
      second block, sub-buffer size 0. */
  lemma LoadsExactlyFromZero(b: Build, s: State, ms: seq<Msg>, c: Crypto)
    requires Shape(s) && AllSafe(b, s, ms) && IsBlockCipher(c.cipher) && s.buffer == Repeat(0, MAX_MODEL_SIZE)
    ensures Loads(b.pkg, StateAfter(b, s, ms), c) <==>
              && |b.pkg| <= MAX_MODEL_SIZE && Decrypt(c, b.pkg).status == Success
              && var raw := Decrypt(c, b.pkg).raw;
                 && |raw| > 4 && raw[..4] == MAIX && raw[4] == 0
                 && (|raw| >= 20 ==> raw[16..20] == [0, 0, 0, 0])
  {
    hide StateAfter, Decrypt, LoadErr, WellPadded, Repeat, Splice;
    LoadIgnoresHistory(b, s, ms, c);
    if Decrypt(c, b.pkg).status == Success {
      RawBlocks(c, b.pkg);
      PaddingLength(Decrypt(c, b.pkg).raw);
      BlocksLoad(Decrypt(c, b.pkg).raw, s.buffer);
    }
  }

  /** Blocks over a zeroed buffer. */
  lemma BlocksLoad(raw: seq<byte>, zero: seq<byte>)
    requires 16 <= |raw| <= MAX_MODEL_SIZE && |raw| % 16 == 0 && zero == Repeat(0, MAX_MODEL_SIZE)
    ensures LoadErr(Splice(zero, 0, raw), true) == OK <==>
              raw[..4] == MAIX && raw[4] == 0 && (|raw| >= 20 ==> raw[16..20] == [0, 0, 0, 0])
  {
    hide LoadErr, Repeat;
    var buffer := Splice(zero, 0, raw);
    LoadsExactly(buffer, true);
    assert buffer[..4] == raw[..4] && buffer[4] == raw[4];
    if |raw| >= 20 {
      assert buffer[16..20] == raw[16..20];
    } else {
      assert buffer[16..20] == [0, 0, 0, 0];
    }
  }

  // ---------- the image ----------

  /** Message k reaches psa_read: a whole image is announced while a model is loaded. */
  ghost predicate Delivers(b: Build, s: State, ms: seq<Msg>, k: nat)
    requires Shape(s) && k < |ms|
  {
    ms[k].request.RunInference? && ms[k].request.inSize == IMAGE_SIZE && StateAfter(b, s, ms[..k]).loaded
  }

  /** The last such message that brought more than j bytes. */
  ghost function LastOver(b: Build, s: State, ms: seq<Msg>, j: nat): (r: Option<nat>)
    requires Shape(s)
    ensures r.Some? ==> r.value < |ms| && Delivers(b, s, ms, r.value) && j < |ms[r.value].request.sent|
    ensures forall i :: (r.Some? ==> r.value < i) && 0 <= i < |ms| && Delivers(b, s, ms, i) ==>
              |ms[i].request.sent| <= j
  {
    if ms == [] then None else
    var front, n := ms[..|ms| - 1], |ms| - 1;
    assert forall i :: 0 <= i < n ==> front[i] == ms[i] && front[..i] == ms[..i];
    if Delivers(b, s, ms, n) && j < |ms[n].request.sent| then Some(n) else LastOver(b, s, front, j)
  }

  /** Pixel j of the image, after any messages, short reads included, is byte j of the last delivery
      that had one, or the pixel the run started with. */
  lemma {:induction false} PixelLaw(b: Build, s: State, ms: seq<Msg>, j: nat)
    requires Shape(s) && AllSafe(b, s, ms) && j < IMAGE_SIZE
    ensures StateAfter(b, s, ms).image[j] ==
            match LastOver(b, s, ms, j) case Some(k) => ms[k].request.sent[j] case None => s.image[j]
  {
    hide Transition, Safe;
    if ms != [] {
      var front, n := ms[..|ms| - 1], |ms| - 1;
      PixelLaw(b, s, front, j);
      ImagePixel(b, StateAfter(b, s, front), ms[n], j);
    }
  }

  lemma ImagePixel(b: Build, s: State, m: Msg, j: nat)
    requires Shape(s) && Safe(b, s, m) && j < IMAGE_SIZE
    ensures Transition(b, s, m).0.image[j] ==
            if m.request.RunInference? && s.loaded && m.request.inSize == IMAGE_SIZE && j < |m.request.sent|
            then m.request.sent[j] else s.image[j]
  {
    hide Transition, RunSafe;
    ImageOf(b, s, m);
  }

  /** The image is still the one the run started with if and only if every pixel that was ever
      delivered was last delivered with its first value. */
  lemma StillBuiltInExactly(b: Build, s: State, ms: seq<Msg>)
    requires Shape(s) && AllSafe(b, s, ms)
    ensures StateAfter(b, s, ms).image == s.image <==>
              forall j :: 0 <= j < IMAGE_SIZE ==>
                match LastOver(b, s, ms, j) case Some(k) => ms[k].request.sent[j] == s.image[j] case None => true
  {
    hide StateAfter, LastOver;
    forall j | 0 <= j < IMAGE_SIZE
      ensures StateAfter(b, s, ms).image[j] ==
              match LastOver(b, s, ms, j) case Some(k) => ms[k].request.sent[j] case None => s.image[j]
    {
      PixelLaw(b, s, ms, j);
    }
  }

  /** If no read is cut short in the middle, the image is the last one delivered, or the first. */
  lemma WholeImagesLaw(b: Build, s: State, ms: seq<Msg>)
    requires Shape(s) && AllSafe(b, s, ms)
    requires forall k :: 0 <= k < |ms| && Delivers(b, s, ms, k) ==>
               ms[k].request.sent == [] || |ms[k].request.sent| == IMAGE_SIZE
    ensures StateAfter(b, s, ms).image ==
            match LastOver(b, s, ms, 0) case Some(k) => ms[k].request.sent case None => s.image
  {
    hide StateAfter;
    var last := LastOver(b, s, ms, 0);
    forall j | 0 <= j < IMAGE_SIZE
      ensures StateAfter(b, s, ms).image[j] == match last case Some(k) => ms[k].request.sent[j] case None => s.image[j]
    {
      PixelLaw(b, s, ms, j);
      SameDelivery(b, s, ms, j);
    }
  }

  lemma {:induction false} SameDelivery(b: Build, s: State, ms: seq<Msg>, j: nat)
    requires Shape(s) && j < IMAGE_SIZE
    requires forall k :: 0 <= k < |ms| && Delivers(b, s, ms, k) ==>
               ms[k].request.sent == [] || |ms[k].request.sent| == IMAGE_SIZE
    ensures LastOver(b, s, ms, j) == LastOver(b, s, ms, 0)
  {
    hide StateAfter;
    if ms != [] {
      var front := ms[..|ms| - 1];
      assert forall i :: 0 <= i < |front| ==> front[i] == ms[i] && front[..i] == ms[..i];
      SameDelivery(b, s, front, j);
    }
  }

  // ---------- a run of a loaded model in which the image changes ----------

  lemma YieldsOne(c: Crypto, pkg: seq<byte>, m: seq<byte>, m': seq<byte>)
    requires IsBlockCipher(c.cipher) && Yields(c, pkg, m) && Yields(c, pkg, m')
    ensures m == m'
  {
    hide Decrypt;
  }

  lemma TinyStart()
    ensures TinyModel()[..4] == MAIX
  {
    hide HeadBytes;
    assert TinyModel()[..4] == MAIX;
  }

  /** A client loads the tiny model and sends an image: it is the image from then on, so unless it is the
      built-in one, an inference without data no longer classifies the built-in one. */
  lemma SentImageReplacesBuiltIn(c: Crypto, iv: seq<byte>, b: Build, s: State, sent: seq<byte>)
    requires IsBlockCipher(c.cipher) && Works(c) && |iv| == 16
    requires b.pkg == CreatePackage(c.cipher, c.key, iv, TinyModel()).value
    requires Shape(s) && !s.loaded && |sent| == IMAGE_SIZE
    ensures var ms := [Msg(1, LoadEncrypted(c), 4), Msg(2, RunInference(IMAGE_SIZE, sent), 4)];
            && AllSafe(b, s, ms) && StateAfter(b, s, ms[..1]).loaded
            && StateAfter(b, s, ms).loaded && StateAfter(b, s, ms).image == sent
  {
    hide Transition, Safe, Yields, CreatePackage, TinyModel, GoodPlaintext, Loads;
    var load, run := Msg(1, LoadEncrypted(c), 4), Msg(2, RunInference(IMAGE_SIZE, sent), 4);
    var ms := [load, run];
    TinyStart();
    PackageRoundTrip(c, iv, TinyModel());
    TinyTrusted(b, c);
    assert Trusted(b, load) && Trusted(b, run);
    GoodPackageIsSafe(b, s, ms);
    assert ms[..1] == [load] && [load][..0] == [];
    TinyLoads(b, c, s);
    OneLoad(b, s, load);
    assert StateAfter(b, s, [load]) == Transition(b, s, load).0;
    assert Safe(b, StateAfter(b, s, [load]), run);
    ImageOf(b, StateAfter(b, s, [load]), run);
    InferenceKeeps(b, StateAfter(b, s, [load]), run);
  }

  lemma OneLoad(b: Build, s: State, m: Msg)
    requires Shape(s) && m.request.LoadEncrypted? && IsBlockCipher(m.request.crypto.cipher)
    ensures Safe(b, s, m) && Transition(b, s, m).0 == LoadStep(b.pkg, s, m.request.crypto).0
    ensures Transition(b, s, m).0.loaded <==> Loads(b.pkg, s, m.request.crypto)
    ensures StateAfter(b, s, []) == s
  {
    hide LoadStep, Loads;
    LoadSetsFlag(b.pkg, s, m.request.crypto);
  }

  lemma TinyTrusted(b: Build, c: Crypto)
    requires IsBlockCipher(c.cipher) && Yields(c, b.pkg, TinyModel())
    ensures forall p :: Yields(c, b.pkg, p) ==> GoodPlaintext(b, p)
  {
    hide Yields, TinyModel, GoodModel;
    forall p | Yields(c, b.pkg, p) ensures GoodPlaintext(b, p) {
      YieldsOne(c, b.pkg, p, TinyModel());
      forall bin: seq<byte> | |bin| == MAX_MODEL_SIZE && p <= bin ensures GoodModel(b, bin) {
        TinyModelIsGood(b, bin);
      }
    }
  }

  lemma TinyLoads(b: Build, c: Crypto, s: State)
    requires IsBlockCipher(c.cipher) && Shape(s) && Yields(c, b.pkg, TinyModel()) && |b.pkg| <= MAX_MODEL_SIZE
    ensures Loads(b.pkg, s, c)
  {
    hide Decrypt, TinyModel, GoodModel, LoadErr;
    RawBlocks(c, b.pkg);
    var d := Decrypt(c, b.pkg);
    var buffer := Splice(s.buffer, 0, d.raw);
    assert buffer[..|TinyModel()|] == d.raw[..|TinyModel()|];
    TinyModelIsGood(b, buffer);
  }

  /** A crypto service whose cipher leaves blocks as they are. */
  ghost function PlainCrypto(): (c: Crypto)
    ensures IsBlockCipher(c.cipher)
  {
    Crypto(Cipher((k, b) => b, (k, b) => b), [], Success, Success, Success, Success, Success)
  }

  /** A service that has just started, with a black image. */
  function BlackStart(): State {
    State(false, false, Repeat(0, MAX_MODEL_SIZE), 0, Mat(0, 0, 0, 0), Centred(Repeat(128, MAIN_SIZE)),
          Repeat(0, IMAGE_SIZE), None)
  }

  /** A concrete run: the client loads the model and sends a white image, and white it stays. */
  lemma BlackToWhite(b: Build, iv: seq<byte>)
    requires |iv| == 16
    requires b.pkg == CreatePackage(PlainCrypto().cipher, [], iv, TinyModel()).value
    ensures var s, white := BlackStart(), Repeat(255, IMAGE_SIZE);
            var ms := [Msg(1, LoadEncrypted(PlainCrypto()), 4), Msg(2, RunInference(IMAGE_SIZE, white), 4)];
            && Shape(s) && AllSafe(b, s, ms) && StateAfter(b, s, ms).loaded
            && StateAfter(b, s, ms).image == white != s.image
  {
    hide StateAfter, AllSafe, CreatePackage, TinyModel, Repeat;
    SentImageReplacesBuiltIn(PlainCrypto(), iv, b, BlackStart(), Repeat(255, IMAGE_SIZE));
    assert Repeat(255, IMAGE_SIZE)[0] != Repeat(0, IMAGE_SIZE)[0];
  }
}
