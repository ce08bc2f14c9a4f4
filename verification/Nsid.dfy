/** tfm_nsid_manager.c: a table of ten pairs of a token and a client id, searched front to back. */
module Nsid {
  import opened Bytes

  const THREAD_NUM_MAX := 10
  /** TFM_INVALID_NSID_MIN: client ids are negative. */
  const INVALID_NSID_MIN: int32 := 0

  datatype Status = Success | InvalidNsid | InvalidToken | NoFreeEntry

  datatype Row = Row(token: uint32, nsid: int32)

  // ---------- the table as a value ----------

  /** The first row with the token, or the length. */
  function Slot(rows: seq<Row>, token: uint32): (r: nat)
    ensures r <= |rows|
    ensures r < |rows| ==> rows[r].token == token
    ensures forall j :: 0 <= j < r ==> rows[j].token != token
  {
    if rows == [] then 0
    else if rows[0].token == token then 0
    else
      var rest := Slot(rows[1..], token);
      assert forall j :: 1 <= j < 1 + rest ==> rows[j] == rows[1..][j - 1];
      1 + rest
  }

  function Empty(n: nat, invalid: uint32): (rows: seq<Row>)
    ensures |rows| == n && forall i :: 0 <= i < n ==> rows[i] == Row(invalid, INVALID_NSID_MIN)
  {
    if n == 0 then [] else Empty(n - 1, invalid) + [Row(invalid, INVALID_NSID_MIN)]
  }

  function AddEntry(rows: seq<Row>, nsid: int32, token: uint32, invalid: uint32): (Status, seq<Row>) {
    if nsid >= INVALID_NSID_MIN then (InvalidNsid, rows)
    else if token == invalid then (InvalidToken, rows)
    else if Slot(rows, invalid) < |rows| then (Success, rows[Slot(rows, invalid) := Row(token, nsid)])
    else (NoFreeEntry, rows)
  }

  function RemoveEntry(rows: seq<Row>, token: uint32, invalid: uint32): (Status, seq<Row>) {
    if token == invalid || Slot(rows, token) == |rows| then (InvalidToken, rows)
    else (Success, rows[Slot(rows, token) := Row(invalid, INVALID_NSID_MIN)])
  }

  function QueryNsid(rows: seq<Row>, token: uint32, invalid: uint32): int32 {
    if token == invalid || Slot(rows, token) == |rows| then INVALID_NSID_MIN
    else rows[Slot(rows, token)].nsid
  }

  /** Which error an addition or a removal is answered with. */
  lemma EntryErrors(rows: seq<Row>, nsid: int32, token: uint32, invalid: uint32)
    ensures var status := AddEntry(rows, nsid, token, invalid).0;
            && (status == InvalidNsid <==> nsid >= 0)
            && (status == InvalidToken <==> nsid < 0 && token == invalid)
            && (status == NoFreeEntry <==> nsid < 0 && token != invalid && !HasToken(rows, invalid))
    ensures var status := RemoveEntry(rows, token, invalid).0;
            && (status == Success || status == InvalidToken)
            && (status == InvalidToken <==> token == invalid || !HasToken(rows, token))
  {
    hide Slot;
  }

  ghost predicate HasToken(rows: seq<Row>, token: uint32) { exists i :: 0 <= i < |rows| && rows[i].token == token }

  /** Row k, the first with the token from, is rewritten to r, and no other row. */
  ghost predicate RewritesFirst(rows: seq<Row>, after: seq<Row>, from: uint32, r: Row) {
    && |after| == |rows|
    && exists k :: 0 <= k < |rows| && rows[k].token == from && after[k] == r &&
         (forall j :: 0 <= j < k ==> rows[j].token != from) &&
         forall j :: 0 <= j < |rows| && j != k ==> after[j] == rows[j]
  }

  /** A success takes the first free row, or clears the first row with the token; an error changes nothing. */
  lemma EntryRows(rows: seq<Row>, nsid: int32, token: uint32, invalid: uint32)
    ensures var (status, after) := AddEntry(rows, nsid, token, invalid);
            if status == Success then RewritesFirst(rows, after, invalid, Row(token, nsid)) else after == rows
    ensures var (status, after) := RemoveEntry(rows, token, invalid);
            if status == Success then RewritesFirst(rows, after, token, Row(invalid, 0)) else after == rows
  {
    hide Slot;
    var (added, after) := AddEntry(rows, nsid, token, invalid);
    if added == Success {
      assert after[Slot(rows, invalid)] == Row(token, nsid);
    }
    var (removed, left) := RemoveEntry(rows, token, invalid);
    if removed == Success {
      assert left[Slot(rows, token)] == Row(invalid, 0);
    }
  }

  // ---------- the map the table stands for ----------

  /** The tokens in use. */
  function Live(rows: seq<Row>, invalid: uint32): set<uint32> {
    if rows == [] then {}
    else (if rows[0].token == invalid then {} else {rows[0].token}) + Live(rows[1..], invalid)
  }

  function Entries(rows: seq<Row>, invalid: uint32): map<uint32, int32> {
    map t | t in Live(rows, invalid) :: QueryNsid(rows, t, invalid)
  }

  /** No token is in two rows, and every row in use has a client id. */
  ghost predicate Proper(rows: seq<Row>, invalid: uint32) {
    && (forall i, j :: 0 <= i < j < |rows| && rows[i].token == rows[j].token ==> rows[i].token == invalid)
    && (forall i :: 0 <= i < |rows| && rows[i].token != invalid ==> rows[i].nsid < INVALID_NSID_MIN)
  }

  lemma {:induction false} LiveIsFound(rows: seq<Row>, invalid: uint32, t: uint32)
    ensures t in Live(rows, invalid) <==> t != invalid && Slot(rows, t) < |rows|
  {
    if rows != [] { LiveIsFound(rows[1..], invalid, t); }
  }

  /** There are no more tokens in use than rows, and fewer exactly if a row is free. */
  lemma {:induction false} LiveCount(rows: seq<Row>, invalid: uint32)
    requires Proper(rows, invalid)
    ensures |Live(rows, invalid)| <= |rows|
    ensures |Live(rows, invalid)| < |rows| <==> Slot(rows, invalid) < |rows|
  {
    if rows != [] {
      var rest := rows[1..];
      assert forall i :: 0 <= i < |rest| ==> rest[i] == rows[i + 1];
      LiveCount(rest, invalid);
      if rows[0].token != invalid {
        LiveIsFound(rest, invalid, rows[0].token);
        assert forall i :: 0 <= i < |rest| ==> rest[i].token != rows[0].token;
      }
    }
  }

  /** Where the only row of a token is, is where it is found. */
  lemma SlotOf(rows: seq<Row>, invalid: uint32, i: nat)
    requires Proper(rows, invalid) && i < |rows| && rows[i].token != invalid
    ensures Slot(rows, rows[i].token) == i
  {
    var k := Slot(rows, rows[i].token);
    assert k <= i;
  }

  ghost predicate HasRow(rows: seq<Row>, t: uint32, n: int32) {
    exists i :: 0 <= i < |rows| && rows[i] == Row(t, n)
  }

  ghost predicate Maps(m: map<uint32, int32>, t: uint32, n: int32) {
    t in m && m[t] == n
  }

  /** The entries are the rows in use. */
  lemma EntryIsRow(rows: seq<Row>, invalid: uint32, t: uint32, n: int32)
    requires Proper(rows, invalid)
    ensures Maps(Entries(rows, invalid), t, n) <==> t != invalid && HasRow(rows, t, n)
  {
    hide Slot, Live;
    LiveIsFound(rows, invalid, t);
    if t != invalid && HasRow(rows, t, n) {
      var i :| 0 <= i < |rows| && rows[i] == Row(t, n);
      SlotOf(rows, invalid, i);
    }
    var k := Slot(rows, t);
    assert k < |rows| ==> rows[k].token == t && (rows[k].nsid == n ==> rows[k] == Row(t, n));
  }

  /** Rewriting one row takes its token's entry out and puts the new one in. */
  lemma Rewritten(rows: seq<Row>, k: nat, r: Row, invalid: uint32, t: uint32, n: int32)
    requires k < |rows| && Proper(rows, invalid) && t != invalid
    ensures HasRow(rows[k := r], t, n) <==> r == Row(t, n) || (t != rows[k].token && HasRow(rows, t, n))
  {
    var after := rows[k := r];
    if HasRow(after, t, n) {
      var i :| 0 <= i < |after| && after[i] == Row(t, n);
      assert i != k ==> rows[i] == Row(t, n);
    }
    if t != rows[k].token && HasRow(rows, t, n) {
      var i :| 0 <= i < |rows| && rows[i] == Row(t, n);
      assert after[i] == Row(t, n);
    }
    assert r == Row(t, n) ==> after[k] == Row(t, n);
  }

  lemma SameMaps(m: map<uint32, int32>, m': map<uint32, int32>)
    requires forall t, n :: Maps(m, t, n) <==> Maps(m', t, n)
    ensures m == m'
  {
    forall t ensures t in m <==> t in m' {
      if t in m { assert Maps(m, t, m[t]) && Maps(m', t, m[t]); }
      if t in m' { assert Maps(m', t, m'[t]) && Maps(m, t, m'[t]); }
    }
    forall t | t in m ensures m[t] == m'[t] {
      assert Maps(m, t, m[t]) && Maps(m', t, m[t]);
    }
  }

  /** Adding a new token succeeds exactly when the client id is negative, the token valid and fewer
      entries than rows are in use; it then adds that one entry and otherwise changes nothing. */
  lemma AddIsInsertion(rows: seq<Row>, nsid: int32, token: uint32, invalid: uint32)
    requires Proper(rows, invalid) && token !in Entries(rows, invalid)
    ensures var (status, after) := AddEntry(rows, nsid, token, invalid);
            var m := Entries(rows, invalid);
            && Proper(after, invalid) && |after| == |rows| && |m| <= |rows|
            && (status.Success? <==> nsid < 0 && token != invalid && |m| < |rows|)
            && Entries(after, invalid) == if status.Success? then m[token := nsid] else m
  {
    hide Slot, Live;
    var (status, after) := AddEntry(rows, nsid, token, invalid);
    var m := Entries(rows, invalid);
    LiveCount(rows, invalid);
    assert m.Keys == Live(rows, invalid);
    if status.Success? {
      LiveIsFound(rows, invalid, token);
      assert Proper(after, invalid);
      forall t, n ensures Maps(Entries(after, invalid), t, n) <==> Maps(m[token := nsid], t, n) {
        EntryIsRow(rows, invalid, t, n);
        EntryIsRow(after, invalid, t, n);
        if t != invalid { Rewritten(rows, Slot(rows, invalid), Row(token, nsid), invalid, t, n); }
      }
      SameMaps(Entries(after, invalid), m[token := nsid]);
    }
  }

  /** Adding a token that is already in use leaves it in two rows; queries then answer with the new id
      exactly if the free row taken comes before the token's row, or the two ids are equal. */
  lemma AddAgain(rows: seq<Row>, nsid: int32, token: uint32, invalid: uint32)
    requires AddEntry(rows, nsid, token, invalid).0 == Success && Slot(rows, token) < |rows|
    ensures QueryNsid(AddEntry(rows, nsid, token, invalid).1, token, invalid) ==
            if Slot(rows, invalid) < Slot(rows, token) then nsid else QueryNsid(rows, token, invalid)
  {
    hide Slot;
    var k, first, after := Slot(rows, invalid), Slot(rows, token), AddEntry(rows, nsid, token, invalid).1;
    assert forall j :: 0 <= j < |rows| && j != k ==> after[j] == rows[j];
    FoundAt(after, token, if k < first then k else first);
  }

  /** Removing succeeds exactly for a token in use and then removes its one entry. */
  lemma RemoveIsDeletion(rows: seq<Row>, token: uint32, invalid: uint32)
    requires Proper(rows, invalid)
    ensures var (status, after) := RemoveEntry(rows, token, invalid);
            var m := Entries(rows, invalid);
            && Proper(after, invalid) && |after| == |rows|
            && (status.Success? <==> token in m)
            && Entries(after, invalid) == m - {token}
  {
    hide Slot, Live;
    var (status, after) := RemoveEntry(rows, token, invalid);
    var m := Entries(rows, invalid);
    LiveIsFound(rows, invalid, token);
    if status.Success? {
      forall t, n ensures Maps(Entries(after, invalid), t, n) <==> Maps(m - {token}, t, n) {
        EntryIsRow(rows, invalid, t, n);
        EntryIsRow(after, invalid, t, n);
        if t != invalid { Rewritten(rows, Slot(rows, token), Row(invalid, INVALID_NSID_MIN), invalid, t, n); }
      }
      SameMaps(Entries(after, invalid), m - {token});
    }
  }

  /** A query finds a token's client id, which is negative, exactly if the token is in use. */
  lemma QueryIsLookup(rows: seq<Row>, token: uint32, invalid: uint32)
    requires Proper(rows, invalid)
    ensures var n := QueryNsid(rows, token, invalid);
            && (n < INVALID_NSID_MIN <==> token in Entries(rows, invalid))
            && (token in Entries(rows, invalid) ==> Entries(rows, invalid)[token] == n)
  {
    LiveIsFound(rows, invalid, token);
  }

  lemma {:induction false} EmptyHasNoEntries(n: nat, invalid: uint32)
    ensures Proper(Empty(n, invalid), invalid) && Entries(Empty(n, invalid), invalid) == map[]
  {
    var rows := Empty(n, invalid);
    forall t ensures t !in Live(rows, invalid) {
      LiveIsFound(rows, invalid, t);
    }
  }

  // ---------- the table in memory ----------

  /** test_ns_token_table; invalid is TFM_NS_CLIENT_INVALID_TOKEN. */
  class Table {
    const rows: array<Row>
    const invalid: uint32

    constructor (invalid: uint32)
      ensures rows.Length == THREAD_NUM_MAX && fresh(rows) && this.invalid == invalid
      ensures forall i :: 0 <= i < THREAD_NUM_MAX ==> rows[i] == Row(0, 0)
    {
      this.invalid := invalid;
      rows := new Row[THREAD_NUM_MAX](_ => Row(0, 0));
    }

    /** nsid_mgr_init */
    method Init() returns (status: Status)
      modifies rows
      ensures status == Success && rows[..] == Empty(rows.Length, invalid)
    {
      for i := 0 to rows.Length
        invariant forall j :: 0 <= j < i ==> rows[j] == Row(invalid, INVALID_NSID_MIN)
      {
        rows[i] := Row(invalid, INVALID_NSID_MIN);
      }
      status := Success;
    }

    /** nsid_mgr_add_entry */
    method Add(nsid: int32, token: uint32) returns (status: Status)
      modifies rows
      ensures (status, rows[..]) == AddEntry(old(rows[..]), nsid, token, invalid)
    {
      hide Slot;
      if nsid >= INVALID_NSID_MIN {
        return InvalidNsid;
      }
      if token == invalid {
        return InvalidToken;
      }
      for i := 0 to rows.Length
        invariant rows[..] == old(rows[..]) && forall j :: 0 <= j < i ==> rows[j].token != invalid
      {
        if rows[i].token == invalid {
          FoundAt(rows[..], invalid, i);
          rows[i] := Row(token, nsid);
          return Success;
        }
      }
      return NoFreeEntry;
    }

    /** nsid_mgr_remove_entry */
    method Remove(token: uint32) returns (status: Status)
      modifies rows
      ensures (status, rows[..]) == RemoveEntry(old(rows[..]), token, invalid)
    {
      hide Slot;
      if token == invalid {
        return InvalidToken;
      }
      for i := 0 to rows.Length
        invariant rows[..] == old(rows[..]) && forall j :: 0 <= j < i ==> rows[j].token != token
      {
        if rows[i].token == token {
          FoundAt(rows[..], token, i);
          rows[i] := Row(invalid, INVALID_NSID_MIN);
          return Success;
        }
      }
      return InvalidToken;
    }

    /** nsid_mgr_query_nsid */
    method Query(token: uint32) returns (nsid: int32)
      ensures nsid == QueryNsid(rows[..], token, invalid)
    {
      hide Slot;
      if token == invalid {
        return INVALID_NSID_MIN;
      }
      for i := 0 to rows.Length
        invariant forall j :: 0 <= j < i ==> rows[j].token != token
      {
        if rows[i].token == token {
          FoundAt(rows[..], token, i);
          return rows[i].nsid;
        }
      }
      return INVALID_NSID_MIN;
    }
  }

  lemma FoundAt(rows: seq<Row>, token: uint32, i: nat)
    requires i < |rows| && rows[i].token == token && forall j :: 0 <= j < i ==> rows[j].token != token
    ensures Slot(rows, token) == i
  {
  }
}
