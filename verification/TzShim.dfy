/** tz_shim_layer.c built with TFM_NS_MANAGE_NSID and TEST_NS_MANAGE_NSID: the RTOS allocates, loads,
    stores and frees secure contexts through tokens; the table says whose client id a token carries.
    What the secure side answers is an input. */
module TzShim {
  import opened Bytes
  import opened Nsid
  import opened Options

  const THREAD_ID_MAX := 0xFF

  /** One call from the RTOS, with the secure side's answer to the call it may lead to. */
  datatype Event =
    | Init(ready: bool)
    | Alloc(mod: uint32, token: uint32)
    | Free(id: uint32, released: bool)
    | Load(id: uint32, loaded: bool)
    | Store(id: uint32, saved: bool)

  /** A call of the secure side. */
  datatype Call =
    | Acquire(thread: byte)
    | Release(token: uint32)
    | LoadCtx(token: uint32, nsid: int32)
    | SaveCtx(token: uint32)

  datatype State = State(rows: seq<Row>, threadId: byte, active: uint32)

  // ---------- one call ----------

  datatype Outcome = Outcome(state: State, result: uint32, calls: seq<Call>)

  function Step(s: State, e: Event, invalid: uint32): Outcome {
    match e
    case Init(ready) =>
      if ready then Outcome(State(Empty(THREAD_NUM_MAX, invalid), s.threadId, invalid), 1, [])
      else Outcome(s, 0, [])
    case Alloc(mod, token) =>
      if s.threadId >= THREAD_ID_MAX then Outcome(s, 0, []) else
      var (status, rows) := AddEntry(s.rows, ToInt32(mod), token, invalid);
      Outcome(s.(rows := rows, threadId := s.threadId + 1), if status.Success? then token else 0, [Acquire(s.threadId)])
    case Free(id, released) =>
      var (status, rows) := RemoveEntry(s.rows, id, invalid);
      if !status.Success? then Outcome(s, 0, [])
      else if released then Outcome(s.(rows := rows, active := invalid), 1, [Release(id)])
      else Outcome(s.(rows := rows), 0, [Release(id)])
    case Load(id, loaded) =>
      var nsid := QueryNsid(s.rows, id, invalid);
      if nsid >= INVALID_NSID_MIN then Outcome(s, 0, [])
      else if loaded then Outcome(s.(active := id), 1, [LoadCtx(id, nsid)])
      else Outcome(s, 0, [LoadCtx(id, nsid)])
    case Store(id, saved) =>
      if saved then Outcome(s.(active := invalid), 1, [SaveCtx(id)]) else Outcome(s, 0, [SaveCtx(id)])
  }

  /** The static variables and the functions that update them. */
  class Shim {
    const table: Table
    var threadId: byte
    var currentActiveToken: uint32

    ghost function Abstract(): State
      reads this, table.rows
    {
      State(table.rows[..], threadId, currentActiveToken)
    }

    constructor (invalid: uint32)
      ensures fresh(table) && fresh(table.rows) && table.invalid == invalid && table.rows.Length == THREAD_NUM_MAX
      ensures threadId == 1 && currentActiveToken == 0
    {
      table := new Table(invalid);
      threadId, currentActiveToken := 1, 0;
    }

    /** TZ_InitContextSystem_S */
    method InitContextSystem(ready: bool) returns (result: uint32)
      requires table.rows.Length == THREAD_NUM_MAX
      modifies this, table.rows
      ensures var o := Step(old(Abstract()), Init(ready), table.invalid);
              Abstract() == o.state && result == o.result && o.calls == []
    {
      if !ready {
        return 0;
      }
      var status := table.Init();
      currentActiveToken := table.invalid;
      return 1;
    }

    /** TZ_AllocModuleContext_S; acquire is what tfm_nsce_acquire_ctx answers. */
    method AllocModuleContext(mod: uint32, acquire: uint32) returns (result: uint32, calls: seq<Call>)
      modifies this, table.rows
      ensures Outcome(Abstract(), result, calls) == Step(old(Abstract()), Alloc(mod, acquire), table.invalid)
    {
      hide AddEntry, ToInt32;
      var nsid := ToInt32(mod);
      if threadId >= THREAD_ID_MAX {
        return 0, [];
      }
      calls := [Acquire(threadId)];
      threadId := threadId + 1;
      var status := table.Add(nsid, acquire);
      result := if status.Success? then acquire else 0;
    }

    /** TZ_FreeModuleContext_S */
    method FreeModuleContext(id: uint32, released: bool) returns (result: uint32, calls: seq<Call>)
      modifies this, table.rows
      ensures Outcome(Abstract(), result, calls) == Step(old(Abstract()), Free(id, released), table.invalid)
    {
      var status := table.Remove(id);
      if !status.Success? {
        return 0, [];
      }
      if released {
        if currentActiveToken != table.invalid {
          currentActiveToken := table.invalid;
        }
        return 1, [Release(id)];
      }
      return 0, [Release(id)];
    }

    /** TZ_LoadContext_S */
    method LoadContext(id: uint32, loaded: bool) returns (result: uint32, calls: seq<Call>)
      modifies `currentActiveToken
      ensures Outcome(Abstract(), result, calls) == Step(old(Abstract()), Load(id, loaded), table.invalid)
    {
      var nsid := table.Query(id);
      if nsid >= INVALID_NSID_MIN {
        return 0, [];
      }
      if loaded {
        currentActiveToken := id;
        return 1, [LoadCtx(id, nsid)];
      }
      return 0, [LoadCtx(id, nsid)];
    }

    /** TZ_StoreContext_S */
    method StoreContext(id: uint32, saved: bool) returns (result: uint32, calls: seq<Call>)
      modifies `currentActiveToken
      ensures Outcome(Abstract(), result, calls) == Step(old(Abstract()), Store(id, saved), table.invalid)
    {
      if saved {
        if currentActiveToken != table.invalid {
          currentActiveToken := table.invalid;
        }
        return 1, [SaveCtx(id)];
      }
      return 0, [SaveCtx(id)];
    }
  }

  // ---------- runs ----------

  /** The state once the first initialisation has succeeded. */
  function Started(invalid: uint32): State {
    State(Empty(THREAD_NUM_MAX, invalid), 1, invalid)
  }

  function After(es: seq<Event>, invalid: uint32): State
    decreases |es|, 1
  {
    if es == [] then Started(invalid) else Last(es, invalid).state
  }

  /** What the last event of a run does. */
  function Last(es: seq<Event>, invalid: uint32): Outcome
    requires es != []
    decreases |es|, 0
  {
    Step(After(es[..|es| - 1], invalid), es[|es| - 1], invalid)
  }

  /** The calls the secure side sees over a run. */
  function Calls(es: seq<Event>, invalid: uint32): seq<Call> {
    if es == [] then [] else Calls(es[..|es| - 1], invalid) + Last(es, invalid).calls
  }

  /** The secure side hands out the invalid token, or a nonzero one that is not in use. */
  ghost predicate Fresh(s: State, e: Event, invalid: uint32) {
    e.Alloc? ==> e.token == invalid || (e.token != 0 && e.token !in Entries(s.rows, invalid))
  }

  ghost predicate FreshRun(es: seq<Event>, invalid: uint32) {
    es == [] || (FreshRun(es[..|es| - 1], invalid) && Fresh(After(es[..|es| - 1], invalid), es[|es| - 1], invalid))
  }

  /** The client id a token was given: by the allocation that returned the token, unless it has been
      freed or the table initialised since. Only the calls and their results are looked at. */
  function Given(es: seq<Event>, t: uint32, invalid: uint32): Option<int32> {
    if es == [] then None else
    var front, e, result := es[..|es| - 1], es[|es| - 1], Last(es, invalid).result;
    match e
    case Init(_) => if result == 1 then None else Given(front, t, invalid)
    case Alloc(mod, _) => if result == t && t != 0 then Some(ToInt32(mod)) else Given(front, t, invalid)
    case Free(id, _) => if id == t then None else Given(front, t, invalid)
    case _ => Given(front, t, invalid)
  }

  /** The thread ids passed to tfm_nsce_acquire_ctx, in order. */
  function Threads(calls: seq<Call>): seq<byte> {
    if calls == [] then []
    else Threads(calls[..|calls| - 1]) + if calls[|calls| - 1].Acquire? then [calls[|calls| - 1].thread] else []
  }

  /** Every state after initialisation: ten rows, none of token zero, no token twice. */
  ghost predicate Inv(s: State, invalid: uint32) {
    |s.rows| == THREAD_NUM_MAX && Proper(s.rows, invalid) && 1 <= s.threadId && 0 !in Entries(s.rows, invalid)
  }

  /** What each call does to the map of entries. */
  lemma StepOnEntries(s: State, e: Event, invalid: uint32)
    requires Inv(s, invalid) && Fresh(s, e, invalid)
    ensures var o := Step(s, e, invalid);
            var m, m' := Entries(s.rows, invalid), Entries(o.state.rows, invalid);
            && Inv(o.state, invalid)
            && m' == (match e
                      case Init(ready) => if ready then map[] else m
                      case Alloc(mod, t) => if o.result != 0 then m[t := ToInt32(mod)] else m
                      case Free(id, _) => m - {id}
                      case _ => m)
            && (e.Alloc? && o.result != 0 ==> o.result == e.token)
  {
    hide Entries, Proper, Empty, AddEntry, RemoveEntry, QueryNsid;
    match e
    case Init(_) => EmptyHasNoEntries(THREAD_NUM_MAX, invalid); EmptyLength(invalid);
    case Alloc(mod, t) =>
      NotInvalid(s.rows, invalid);
      AddIsInsertion(s.rows, ToInt32(mod), t, invalid);
    case Free(id, _) => RemoveIsDeletion(s.rows, id, invalid);
      assert id !in Entries(s.rows, invalid) ==> Entries(s.rows, invalid) - {id} == Entries(s.rows, invalid);
    case _ =>
  }

  lemma EmptyLength(invalid: uint32)
    ensures |Empty(THREAD_NUM_MAX, invalid)| == THREAD_NUM_MAX
  {
  }

  lemma NotInvalid(rows: seq<Row>, invalid: uint32)
    ensures invalid !in Entries(rows, invalid)
  {
    LiveIsFound(rows, invalid, invalid);
  }

  /** An allocation with a fresh token succeeds exactly while a thread id and a table entry are left
      and the client id is negative. */
  lemma AllocSucceedsExactly(s: State, mod: uint32, token: uint32, invalid: uint32)
    requires Inv(s, invalid) && Fresh(s, Alloc(mod, token), invalid)
    ensures Step(s, Alloc(mod, token), invalid).result != 0 <==>
            s.threadId < 255 && token != invalid && mod >= 0x8000_0000 && |Entries(s.rows, invalid)| < 10
  {
    hide Entries, Proper, AddEntry, ToInt32;
    NotInvalid(s.rows, invalid);
    AddIsInsertion(s.rows, ToInt32(mod), token, invalid);
    NegativeWord(mod);
  }

  lemma NegativeWord(mod: uint32)
    ensures ToInt32(mod) < 0 <==> mod >= 0x8000_0000
  {
  }

  /** In every run the table holds exactly what the allocations have given and not taken back. */
  lemma {:induction false} TableIsGiven(es: seq<Event>, invalid: uint32)
    requires FreshRun(es, invalid)
    ensures Inv(After(es, invalid), invalid)
    ensures forall t: uint32 :: match Given(es, t, invalid)
                                case None => t !in Entries(After(es, invalid).rows, invalid)
                                case Some(n) => Maps(Entries(After(es, invalid).rows, invalid), t, n)
    decreases |es|
  {
    hide Entries, Proper, Empty, Step, ToInt32;
    if es == [] {
      EmptyHasNoEntries(THREAD_NUM_MAX, invalid);
      EmptyLength(invalid);
    } else {
      var front, e := es[..|es| - 1], es[|es| - 1];
      TableIsGiven(front, invalid);
      var s := After(front, invalid);
      StepOnEntries(s, e, invalid);
      InitResult(s, e, invalid);
    }
  }

  lemma InitResult(s: State, e: Event, invalid: uint32)
    ensures e.Init? ==> (Step(s, e, invalid).result == 1 <==> e.ready)
  {
  }

  /** A load reaches the secure side exactly for a token that has been given out and not freed, and
      presents the client id given at that token's allocation. */
  lemma LoadPresentsItsNsid(es: seq<Event>, id: uint32, loaded: bool, invalid: uint32)
    requires FreshRun(es, invalid)
    ensures Step(After(es, invalid), Load(id, loaded), invalid).calls ==
            match Given(es, id, invalid) { case Some(n) => [LoadCtx(id, n)] case None => [] }
  {
    hide Entries, QueryNsid, After, Given;
    TableIsGiven(es, invalid);
    QueryIsLookup(After(es, invalid).rows, id, invalid);
  }

  /** A free succeeds only for such a token, and at most ten are given out at any time. */
  lemma FreeTakesBack(es: seq<Event>, id: uint32, released: bool, invalid: uint32)
    requires FreshRun(es, invalid)
    ensures Step(After(es, invalid), Free(id, released), invalid).calls ==
            if Given(es, id, invalid).Some? then [Release(id)] else []
    ensures |Entries(After(es, invalid).rows, invalid)| <= 10
  {
    hide Entries, After, Given, RemoveEntry;
    TableIsGiven(es, invalid);
    RemoveIsDeletion(After(es, invalid).rows, id, invalid);
    AddIsInsertion(After(es, invalid).rows, 0, 0, invalid);
  }

  lemma ThreadsAppend(calls: seq<Call>, more: seq<Call>)
    requires |more| <= 1
    ensures Threads(calls + more) ==
            Threads(calls) + if more != [] && more[0].Acquire? then [more[0].thread] else []
  {
    if more != [] {
      assert (calls + more)[..|calls|] == calls;
    } else {
      assert calls + more == calls;
    }
  }

  lemma StepOnThreads(s: State, e: Event, invalid: uint32)
    ensures var o := Step(s, e, invalid);
            && |o.calls| <= 1
            && o.state.threadId == s.threadId + (if o.calls != [] && o.calls[0].Acquire? then 1 else 0)
            && (o.calls != [] && o.calls[0].Acquire? ==> o.calls[0].thread == s.threadId < THREAD_ID_MAX)
  {
    hide AddEntry, RemoveEntry, QueryNsid, Empty;
  }

  /** Over any run, whatever the secure side answers, the thread ids handed to it are 1, 2, 3, ... in
      this order and without repetition, at most 254 of them. */
  lemma {:induction false} ThreadIdsNeverRepeat(es: seq<Event>, invalid: uint32)
    ensures var ids := Threads(Calls(es, invalid));
            && 1 <= After(es, invalid).threadId == |ids| + 1 <= 255
            && forall i :: 0 <= i < |ids| ==> ids[i] == i + 1
    decreases |es|
  {
    hide Step, Threads, Empty;
    if es == [] {
      NoThreads();
    } else {
      var front := es[..|es| - 1];
      ThreadIdsNeverRepeat(front, invalid);
      StepOnThreads(After(front, invalid), es[|es| - 1], invalid);
      ThreadsAppend(Calls(front, invalid), Last(es, invalid).calls);
    }
  }

  lemma NoThreads()
    ensures Threads([]) == []
  {
  }

  // ---------- what every call of a run answers ----------

  /** The tokens given out and not taken back. */
  function Held(es: seq<Event>, invalid: uint32): set<uint32> {
    if es == [] then {} else
    var held, result := Held(es[..|es| - 1], invalid), Last(es, invalid).result;
    match es[|es| - 1]
    case Init(_) => if result == 1 then {} else held
    case Alloc(_, _) => if result != 0 then held + {result} else held
    case Free(id, _) => held - {id}
    case _ => held
  }

  lemma {:induction false} HeldAreEntries(es: seq<Event>, invalid: uint32)
    requires FreshRun(es, invalid)
    ensures Held(es, invalid) == Entries(After(es, invalid).rows, invalid).Keys
    ensures |Held(es, invalid)| == |Entries(After(es, invalid).rows, invalid)|
    decreases |es|
  {
    hide Entries, Proper, Empty, Step, ToInt32;
    if es == [] {
      EmptyHasNoEntries(THREAD_NUM_MAX, invalid);
    } else {
      var front, e := es[..|es| - 1], es[|es| - 1];
      HeldAreEntries(front, invalid);
      TableIsGiven(front, invalid);
      StepOnEntries(After(front, invalid), e, invalid);
      InitResult(After(front, invalid), e, invalid);
    }
  }

  function OneIf(b: bool): uint32 { if b then 1 else 0 }

  /** Result and calls of the last call of a run, from the calls before it: a token is acquired under the next
      thread id as long as there is one; it is returned if it is valid, the client id negative and fewer than
      ten tokens are held; a free and a load reach the secure side for a token that was given out, a store for
      any. */
  lemma LastAnswer(es: seq<Event>, invalid: uint32)
    requires es != [] && FreshRun(es, invalid)
    ensures var front, o := es[..|es| - 1], Last(es, invalid);
            var used := |Threads(Calls(front, invalid))|;
            match es[|es| - 1]
            case Init(ready) => o.result == OneIf(ready) && o.calls == []
            case Alloc(mod, token) =>
              && o.calls == (if used < 254 then [Acquire(used + 1)] else [])
              && o.result == (if used < 254 && token != invalid && mod >= 0x8000_0000 && |Held(front, invalid)| < 10
                              then token else 0)
            case Free(id, released) =>
              if Given(front, id, invalid).Some? then o.result == OneIf(released) && o.calls == [Release(id)]
              else o.result == 0 && o.calls == []
            case Load(id, loaded) =>
              (match Given(front, id, invalid)
               case Some(n) => o.result == OneIf(loaded) && o.calls == [LoadCtx(id, n)]
               case None => o.result == 0 && o.calls == [])
            case Store(id, saved) => o.result == OneIf(saved) && o.calls == [SaveCtx(id)]
  {
    hide Entries, Given, Held, After, AddEntry, RemoveEntry, QueryNsid, ToInt32, Threads, Calls, Proper;
    var front, e := es[..|es| - 1], es[|es| - 1];
    var s := After(front, invalid);
    ThreadIdsNeverRepeat(front, invalid);
    TableIsGiven(front, invalid);
    match e
    case Alloc(mod, token) =>
      HeldAreEntries(front, invalid);
      AllocSucceedsExactly(s, mod, token, invalid);
    case Free(id, _) => RemoveIsDeletion(s.rows, id, invalid);
    case Load(id, _) => QueryIsLookup(s.rows, id, invalid);
    case _ =>
  }

  /** The token of the last load that succeeded, until a store, a free or an initialisation succeeds. */
  function ActiveToken(es: seq<Event>, invalid: uint32): uint32 {
    if es == [] then invalid else
    var before := ActiveToken(es[..|es| - 1], invalid);
    if Last(es, invalid).result != 1 then before else
    match es[|es| - 1]
    case Load(id, _) => id
    case Alloc(_, _) => before
    case _ => invalid
  }

  lemma {:induction false} ActiveIsLastLoaded(es: seq<Event>, invalid: uint32)
    ensures After(es, invalid).active == ActiveToken(es, invalid)
    decreases |es|
  {
    hide AddEntry, RemoveEntry, QueryNsid, Empty, ToInt32;
    if es != [] { ActiveIsLastLoaded(es[..|es| - 1], invalid); }
  }

  /** If the secure side repeats a token that is in use, and the allocation succeeds, a load of the
      token presents the new client id exactly if the row taken precedes the token's first row, or the
      two ids are equal; otherwise it presents the older one. */
  lemma RepeatedTokenPresents(s: State, mod: uint32, token: uint32, loaded: bool, invalid: uint32)
    requires Step(s, Alloc(mod, token), invalid).result == token != 0 && token in Entries(s.rows, invalid)
    requires Inv(s, invalid)
    ensures var s', was := Step(s, Alloc(mod, token), invalid).state, Entries(s.rows, invalid)[token];
            Step(s', Load(token, loaded), invalid).calls ==
              [LoadCtx(token, if Slot(s.rows, invalid) < Slot(s.rows, token) then ToInt32(mod) else was)]
  {
    hide Slot, ToInt32, Proper, QueryNsid, Entries, AddEntry;
    LiveIsFound(s.rows, invalid, token);
    QueryIsLookup(s.rows, token, invalid);
    AddedStatus(s.rows, ToInt32(mod), token, invalid);
    AddAgain(s.rows, ToInt32(mod), token, invalid);
  }

  lemma AddedStatus(rows: seq<Row>, nsid: int32, token: uint32, invalid: uint32)
    ensures AddEntry(rows, nsid, token, invalid).0 == Success ==> nsid < INVALID_NSID_MIN
    ensures token in Entries(rows, invalid) <==> token in Live(rows, invalid)
  {
    hide Slot, Live, QueryNsid;
  }

  /** Without fresh tokens this fails: given one token for two allocations, the loads that follow
      present the client id of whichever row comes first. */
  lemma RepeatedTokenMixesNsids()
    ensures var es := [Alloc(0xFFFF_FFFF, 7), Alloc(0xFFFF_FFFE, 7)];
            && Last(es, 0).result == 7
            && Given(es, 7, 0) == Some(-2)
            && Step(After(es, 0), Load(7, true), 0).calls == [LoadCtx(7, -1)]
  {
    var e1, e2 := Alloc(0xFFFF_FFFF, 7), Alloc(0xFFFF_FFFE, 7);
    var es := [e1, e2];
    assert es[..1] == [e1] && [e1][..0] == [];
    var s0 := Started(0);
    assert Slot(s0.rows, 0) == 0;
    var s1 := Step(s0, e1, 0).state;
    assert After([], 0) == s0 && After([e1], 0) == s1;
    assert s1.rows[0] == Row(7, -1) && Slot(s1.rows, 0) == 1;
    var s2 := Step(s1, e2, 0).state;
    assert s2.rows[0] == Row(7, -1) && Slot(s2.rows, 7) == 0;
  }
}
