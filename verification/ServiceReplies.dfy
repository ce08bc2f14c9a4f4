/** What every request of a run is answered, from the bytes of the package, the answers of the crypto
    service and the state the request meets. */
module ServiceReplies {
  import opened Bytes
  import opened Convolution
  import opened Model
  import opened ModelRuns
  import opened Package
  import opened Scores
  import opened Service
  import opened ServiceRuns

  // ---------- the status of a load ----------

  /** original_size: bytes 8 to 11. */
  function SizeWord(pkg: seq<byte>): nat
    requires |pkg| >= 12
  {
    pkg[8] + 256 * (pkg[9] as int) + 65536 * (pkg[10] as int) + 16777216 * (pkg[11] as int)
  }

  /** Whole blocks of plaintext that end in their padding and, put over the bytes the buffer holds before,
      are an INT8 model without a sub buffer. */
  predicate IsModel(raw: seq<byte>, size: nat, before: seq<byte>)
    requires |raw| >= 16 && |before| == 4096
  {
    && size < |raw| <= size + 16 && (forall i :: size <= i < |raw| ==> raw[i] == |raw| - size)
    && raw[..4] == [0x4D, 0x41, 0x49, 0x58] && raw[4] == 0
    && (if |raw| >= 20 then raw[16..20] else before[16..20]) == [0, 0, 0, 0]
  }

  /** The status of the first check that fails. */
  function LoadStatus(pkg: seq<byte>, before: seq<byte>, c: Crypto): Status
    requires IsBlockCipher(c.cipher) && |before| == 4096
  {
    if |pkg| > 4096 then InsufficientMemory
    else if |pkg| < 28 || pkg[..8] != [0x54, 0x4D, 0x41, 0x58, 3, 0, 0, 0] then InvalidArgument
    else if SizeWord(pkg) > 4096 then BufferTooSmall
    else if |pkg| == 28 then InvalidArgument
    else if c.init != Success && c.init != AlreadyExists then c.init
    else if c.derive != Success then GenericError
    else if c.importKey != Success then c.importKey
    else if c.setup != Success then c.setup
    else if c.setIv != Success then c.setIv
    else if (|pkg| - 28) % 16 != 0 then InvalidArgument
    else if IsModel(CbcDecrypt(c.cipher, c.key, pkg[12..28], pkg[28..]), SizeWord(pkg), before) then Success
    else GenericError
  }

  /** A load request is answered with that status. */
  lemma LoadAnswer(pkg: seq<byte>, s: State, c: Crypto)
    requires IsBlockCipher(c.cipher) && Shape(s)
    ensures LoadStep(pkg, s, c).1 == LoadStatus(pkg, s.buffer, c)
  {
    hide CbcDecrypt, Le32, LoadErr, SetupStatus, HeaderStatus, IsModel, WellPadded, SizeWord;
    if |pkg| <= 4096 {
      HeaderLaw(pkg);
      SetupLaw(c);
      if HeaderStatus(pkg) == Success == SetupStatus(c) && (|pkg| - 28) % 16 == 0 {
        WholeBlocks(pkg);
        PlaintextLaw(pkg, s, c);
      }
    }
  }

  lemma HeaderLaw(pkg: seq<byte>)
    ensures HeaderStatus(pkg) ==
              if |pkg| < 28 || pkg[..8] != [0x54, 0x4D, 0x41, 0x58, 3, 0, 0, 0] then InvalidArgument
              else if SizeWord(pkg) > 4096 then BufferTooSmall
              else if |pkg| == 28 then InvalidArgument
              else Success
  {
    if |pkg| >= 28 {
      assert Le32Bytes(VERSION) == [3, 0, 0, 0];
      HeaderWords(pkg, 0);
      EightBytes(pkg);
      assert Le32(pkg, 8) == SizeWord(pkg);
    }
  }

  lemma EightBytes(pkg: seq<byte>)
    requires |pkg| >= 28
    ensures pkg[..8] == [0x54, 0x4D, 0x41, 0x58, 3, 0, 0, 0] <==>
              pkg[0..4] == [0x54, 0x4D, 0x41, 0x58] && pkg[4..8] == [3, 0, 0, 0]
  {
    assert pkg[..8] == pkg[0..4] + pkg[4..8];
    assert [0x54, 0x4D, 0x41, 0x58, 3, 0, 0, 0] == [0x54, 0x4D, 0x41, 0x58] + [3, 0, 0, 0];
  }

  lemma SetupLaw(c: Crypto)
    ensures SetupStatus(c) ==
              if c.init != Success && c.init != AlreadyExists then c.init
              else if c.derive != Success then GenericError
              else if c.importKey != Success then c.importKey
              else if c.setup != Success then c.setup
              else c.setIv
  {
  }

  lemma WholeBlocks(pkg: seq<byte>)
    requires |pkg| >= 28 && (|pkg| - 28) % 16 == 0
    ensures |pkg[28..]| / 16 * 16 == |pkg[28..]| && pkg[28..][..|pkg[28..]|] == pkg[28..]
  {
  }

  /** The checks behind the decryption, tm_load's included. */
  lemma PlaintextLaw(pkg: seq<byte>, s: State, c: Crypto)
    requires IsBlockCipher(c.cipher) && Shape(s) && |pkg| <= 4096
    requires HeaderStatus(pkg) == Success == SetupStatus(c) && |pkg| > 28 && (|pkg| - 28) % 16 == 0
    ensures LoadStep(pkg, s, c).1 ==
              if IsModel(CbcDecrypt(c.cipher, c.key, pkg[12..28], pkg[28..]), SizeWord(pkg), s.buffer) then Success
              else GenericError
  {
    hide CbcDecrypt, Le32, LoadErr, SetupStatus, HeaderStatus, IsModel, WellPadded, SizeWord;
    WholeBlocks(pkg);
    var raw := CbcDecrypt(c.cipher, c.key, pkg[12..28], pkg[28..]);
    assert PsaDecrypt(c, pkg[12..28], pkg[28..]) == (Success, raw);
    SizeIsWord(pkg);
    ModelLaw(raw, SizeWord(pkg), s.buffer);
    SameMagic(raw);
  }

  lemma SizeIsWord(pkg: seq<byte>)
    requires |pkg| >= 12
    ensures Le32(pkg, 8) == SizeWord(pkg)
  {
  }

  lemma SameMagic(raw: seq<byte>)
    requires |raw| >= 4
    ensures Le32(raw, 0) == Le32(MAIX, 0) <==> raw[..4] == [0x4D, 0x41, 0x49, 0x58]
  {
    Le32Slice(raw, 0);
    SameWord(raw[0..4], MAIX);
    assert raw[0..4] == raw[..4];
  }

  lemma ModelLaw(raw: seq<byte>, size: nat, before: seq<byte>)
    requires 16 <= |raw| <= 4096 && |raw| % 16 == 0 && |before| == 4096
    ensures IsModel(raw, size, before) <==>
              WellPadded(raw) && |raw| - raw[|raw| - 1] == size && LoadErr(Splice(before, 0, raw), true) == OK
    ensures LoadErr(Splice(before, 0, raw), true) == OK ==> raw[..4] == [0x4D, 0x41, 0x49, 0x58]
  {
    hide LoadErr;
    var buffer := Splice(before, 0, raw);
    LoadsExactly(buffer, true);
    assert buffer[..4] == raw[..4] && buffer[4] == raw[4];
    if |raw| >= 20 { assert buffer[16..20] == raw[16..20]; } else { assert buffer[16..20] == before[16..20]; }
  }

  // ---------- the status of every request ----------

  /** What a request that meets the state t is answered. */
  ghost function StatusOf(b: Build, t: State, m: Msg): Status
    requires Shape(t) && Safe(b, t, m)
  {
    match m.request
    case Connect => Success
    case Disconnect => Success
    case Unsupported(_) => NotSupported
    case LoadEncrypted(c) => LoadStatus(b.pkg, t.buffer, c)
    case RunInference(inSize, sent) =>
      if !t.loaded then BadState
      else if inSize != 0 && inSize != 784 then InvalidArgument
      else if inSize == 784 && |sent| < 784 then CommunicationFailure
      else if forall i :: 0 <= i < LayerCnt(t.buffer) ==> ErrOf(b.ops, t.buffer, i, t.input) == OK then Success
      else GenericError
  }

  /** out is what a client gets whose request meets t and leaves t': one reply, and before it, if the
      request succeeds and there is room for four bytes, the word 0 for a load and the class for an
      inference. */
  ghost predicate IsAnswer(b: Build, t: State, t': State, m: Msg, out: seq<Output>)
    requires Shape(t) && Safe(b, t, m)
  {
    var reply := Reply(m.handle, StatusOf(b, t, m));
    var room := reply.status == Success && m.outSize >= 4;
    if room && m.request.LoadEncrypted? then out == [Write(m.handle, 0), reply]
    else if room && m.request.RunInference? then
      HasScores(t'.outs, |t'.main|) && out == [Write(m.handle, Answer(b, t')), reply]
    else out == [reply]
  }

  /** Score i of the ten that the last output holds. */
  function Score(t: State, i: nat): uint32
    requires HasScores(t.outs, |t.main|)
  {
    WordAt(t.main, t.outs.value.dims.data + 4 * i)
  }

  /** The class is the first of the largest of ten scores if that is positive, and -1 if none is. */
  lemma ClassIsArgmax(b: Build, t: State, key: uint32 -> real)
    requires HasScores(t.outs, |t.main|)
    requires forall i: nat :: i < 10 ==>
               ((b.ops.above)(Score(t, i), b.ops.zero) <==> key(Score(t, i)) > key(b.ops.zero))
    requires forall i: nat, j: nat :: i < 10 && j < 10 ==>
               ((b.ops.above)(Score(t, i), Score(t, j)) <==> key(Score(t, i)) > key(Score(t, j)))
    ensures var c := Answer(b, t);
            && -1 <= c < 10
            && (c == -1 ==> forall j: nat :: j < 10 ==> key(Score(t, j)) <= key(b.ops.zero))
            && (c >= 0 ==>
                  && key(Score(t, c)) > key(b.ops.zero)
                  && (forall j: nat :: j < 10 ==> key(Score(t, j)) <= key(Score(t, c)))
                  && (forall j: nat :: j < c ==> key(Score(t, j)) < key(Score(t, c))))
  {
    hide Winner, WordAt;
    var f := WordsAt(t.main, t.outs.value.dims.data, 10);
    assert forall i: nat :: i < 10 ==> f[i] == Score(t, i);
    WinnerIsFirstLargest(b.ops, f, 10, key);
  }

  lemma OneAnswer(b: Build, t: State, m: Msg)
    requires Shape(t) && Safe(b, t, m)
    ensures IsAnswer(b, t, Transition(b, t, m).0, m, Transition(b, t, m).1)
  {
    hide LoadStep, LoadStatus, InferenceStep, Run;
    match m.request {
      case LoadEncrypted(c) => LoadAnswer(b.pkg, t, c);
      case RunInference(inSize, sent) => InferenceAnswer(b, t, m.handle, inSize, sent, m.outSize);
      case _ =>
    }
  }

  lemma InferenceAnswer(b: Build, t: State, h: int, inSize: nat, sent: seq<byte>, outSize: nat)
    requires Shape(t) && Safe(b, t, Msg(h, RunInference(inSize, sent), outSize))
    ensures var m := Msg(h, RunInference(inSize, sent), outSize);
            var (t', words, status) := InferenceStep(b, t, h, inSize, sent, outSize);
            && status == StatusOf(b, t, m)
            && (status == Success ==> HasScores(t'.outs, |t'.main|))
            && words == if status == Success && outSize >= 4 then [Write(h, Answer(b, t'))] else []
  {
    hide Run, RunFits, Answer, Prepared, Shape;
    if Starts(t, inSize, sent) {
      var seen := Seen(t, inSize, sent);
      SeenKeeps(t, inSize, sent);
      PreparedKeeps(seen);
      RunSucceedsExactly(b, Prepared(seen));
      LayersIgnoreImage(b, t, Prepared(seen));
    }
  }

  lemma SeenKeeps(t: State, inSize: nat, sent: seq<byte>)
    requires Shape(t) && |sent| <= inSize
    ensures Shape(Seen(t, inSize, sent)) && Seen(t, inSize, sent) == t.(image := Seen(t, inSize, sent).image)
  {
  }

  lemma LayersIgnoreImage(b: Build, t: State, u: State)
    requires Shape(u) && u.buffer == t.buffer && u.input == t.input
    ensures LayersSucceed(b, u) <==>
              forall i :: 0 <= i < LayerCnt(t.buffer) ==> ErrOf(b.ops, t.buffer, i, t.input) == OK
  {
  }

  // ---------- over a whole run ----------

  /** All parts, one after the other. */
  function Joined(parts: seq<seq<Output>>): seq<Output> {
    if parts == [] then [] else Joined(parts[..|parts| - 1]) + parts[|parts| - 1]
  }

  /** Everything a run sends is one such answer for each message, in order. */
  lemma {:induction false} EveryRequestIsAnswered(b: Build, s: State, ms: seq<Msg>) returns (parts: seq<seq<Output>>)
    requires Shape(s) && AllSafe(b, s, ms)
    ensures |parts| == |ms| && Joined(parts) == Outputs(b, s, ms)
    ensures forall k :: 0 <= k < |ms| ==>
              && Safe(b, StateAfter(b, s, ms[..k]), ms[k])
              && IsAnswer(b, StateAfter(b, s, ms[..k]), StateAfter(b, s, ms[..k + 1]), ms[k], parts[k])
  {
    hide Transition, Safe, Shape, IsAnswer;
    parts := [];
    if ms != [] {
      var front, m := ms[..|ms| - 1], ms[|ms| - 1];
      var t := StateAfter(b, s, front);
      var before := EveryRequestIsAnswered(b, s, front);
      OneAnswer(b, t, m);
      parts := before + [Transition(b, t, m).1];
      assert parts[..|parts| - 1] == before;
      forall k | 0 <= k < |ms|
        ensures Safe(b, StateAfter(b, s, ms[..k]), ms[k])
        ensures IsAnswer(b, StateAfter(b, s, ms[..k]), StateAfter(b, s, ms[..k + 1]), ms[k], parts[k])
      {
        if k < |front| {
          assert ms[..k] == front[..k] && ms[..k + 1] == front[..k + 1];
        } else {
          assert ms[..k] == front && ms[..k + 1] == ms;
        }
      }
    }
  }

  /** Reply k of a run says how request k fared in the state it met. */
  lemma ReplyStatus(b: Build, s: State, ms: seq<Msg>, k: nat)
    requires Shape(s) && AllSafe(b, s, ms) && k < |ms|
    ensures Safe(b, StateAfter(b, s, ms[..k]), ms[k]) && k < |RepliesOf(Outputs(b, s, ms))|
    ensures RepliesOf(Outputs(b, s, ms))[k] == Reply(ms[k].handle, StatusOf(b, StateAfter(b, s, ms[..k]), ms[k]))
  {
    hide Transition, Safe, Shape, RepliesOf, Outputs, StatusOf;
    OneReplyEach(b, s, ms);
    SafeAt(b, s, ms, k);
    var t := StateAfter(b, s, ms[..k]);
    OneAnswer(b, t, ms[k]);
  }
}
