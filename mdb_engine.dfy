/** The storage engine as the dictionary adapter sees it: a finite map from
    byte strings to byte strings, the status codes its calls return, the
    failures it may report, and the life of its transactions recorded as a
    log of begin, commit and abort events. */
module MdbEngine {
  import opened CStrings

  type Store = map<Bytes, Bytes>

  datatype Entry = Entry(key: Bytes, val: Bytes)

  /** Status codes of the engine's calls. */
  const MDB_SUCCESS: int := 0
  const MDB_KEYEXIST: int := -30799
  const MDB_NOTFOUND: int := -30798
  /** Stands for every other status (an I/O error, a full map, ...). */
  const MDB_EIO: int := 5

  /** A status other than success, NOTFOUND or KEYEXIST. */
  predicate IsHardError(status: int)
  {
    status != MDB_SUCCESS && status != MDB_NOTFOUND && status != MDB_KEYEXIST
  }

  /** Which of the engine's calls fail during one adapter operation with a
      status the abstract store cannot explain: beginning a transaction,
      committing one, the plain-form probe (the second get of lookup, the
      second del of delete), or any other data call (the terminated-form
      probe, put, drop, cursor open, cursor get). */
  datatype Faults = Faults(txnBegin: bool, txnCommit: bool, data: bool, plainProbe: bool)

  const Healthy: Faults := Faults(false, false, false, false)

  /** mdb_get: the status, and the stored bytes on success; `fail` says the
      call reports an engine error. */
  function Get(s: Store, key: Bytes, fail: bool): (r: (int, Bytes))
    ensures r.0 == MDB_SUCCESS <==> !fail && key in s
    ensures r.0 == MDB_SUCCESS ==> r.1 == s[key]
    ensures r.0 != MDB_SUCCESS ==> (r.0 == MDB_NOTFOUND <==> !fail)
  {
    if fail then (MDB_EIO, [])
    else if key in s then (MDB_SUCCESS, s[key])
    else (MDB_NOTFOUND, [])
  }

  /** mdb_put: with `noOverwrite` an existing key is left alone and
      KEYEXIST is returned; otherwise the key is bound to `val`. */
  function Put(s: Store, key: Bytes, val: Bytes, noOverwrite: bool, fail: bool): (r: (int, Store))
    ensures r.0 == MDB_SUCCESS <==> !fail && (!noOverwrite || key !in s)
    ensures r.0 == MDB_KEYEXIST <==> !fail && noOverwrite && key in s
    ensures r.0 == MDB_SUCCESS ==> r.1 == s[key := val]
    ensures r.0 != MDB_SUCCESS ==> r.1 == s
  {
    if fail then (MDB_EIO, s)
    else if noOverwrite && key in s then (MDB_KEYEXIST, s)
    else (MDB_SUCCESS, s[key := val])
  }

  /** mdb_del: remove a key, or report NOTFOUND. */
  function Del(s: Store, key: Bytes, fail: bool): (r: (int, Store))
    ensures r.0 == MDB_SUCCESS <==> !fail && key in s
    ensures r.0 == MDB_NOTFOUND <==> !fail && key !in s
    ensures r.0 == MDB_SUCCESS ==> r.1 == s - {key}
    ensures r.0 != MDB_SUCCESS ==> r.1 == s
  {
    if fail then (MDB_EIO, s)
    else if key in s then (MDB_SUCCESS, s - {key})
    else (MDB_NOTFOUND, s)
  }

  /** A cursor owned by transaction `txn`, walking `entries`; `next` is the
      position NEXT returns (0 on a cursor not yet positioned, where NEXT
      behaves like FIRST). */
  datatype Cursor = Cursor(txn: nat, entries: seq<Entry>, next: nat)

  datatype CursorOp = MdbFirst | MdbNext

  /** mdb_cursor_get: the status, the entry found, and the repositioned
      cursor. */
  function CursorGet(c: Cursor, op: CursorOp, fail: bool): (r: (int, Entry, Cursor))
    ensures var pos := if op == MdbFirst then 0 else c.next;
      && (r.0 == MDB_SUCCESS <==> !fail && pos < |c.entries|)
      && (r.0 == MDB_NOTFOUND <==> !fail && pos >= |c.entries|)
      && (r.0 == MDB_SUCCESS ==> r.1 == c.entries[pos] && r.2 == c.(next := pos + 1))
      && (r.0 != MDB_SUCCESS ==> r.2 == c)
  {
    var pos := if op == MdbFirst then 0 else c.next;
    if fail then (MDB_EIO, Entry([], []), c)
    else if pos < |c.entries| then (MDB_SUCCESS, c.entries[pos], c.(next := pos + 1))
    else (MDB_NOTFOUND, Entry([], []), c)
  }

  /** What the cursor of a read transaction walks through: every entry of
      the store once, in the engine's order. */
  predicate IsEnumeration(es: seq<Entry>, s: Store)
  {
    && |es| == |s|
    && (forall i :: 0 <= i < |es| ==> es[i].key in s && s[es[i].key] == es[i].val)
    && (forall i, j :: 0 <= i < j < |es| ==> es[i].key != es[j].key)
  }

  /** Transactions are numbered by the position of their Begin event. */
  datatype TxnEvent = Begin(id: nat, readOnly: bool) | Commit(id: nat) | Abort(id: nat)

  predicate LogWellFormed(log: seq<TxnEvent>)
  {
    forall i :: 0 <= i < |log| ==> if log[i].Begin? then log[i].id == i else log[i].id < i
  }

  function Begun(log: seq<TxnEvent>): set<nat>
  {
    set i | 0 <= i < |log| && log[i].Begin? :: log[i].id
  }

  function Ended(log: seq<TxnEvent>): set<nat>
  {
    set i | 0 <= i < |log| && !log[i].Begin? :: log[i].id
  }

  /** Transactions begun and neither committed nor aborted. */
  function Pending(log: seq<TxnEvent>): set<nat>
  {
    Begun(log) - Ended(log)
  }

  /** Beginning a transaction numbered by the log's length adds exactly it
      to the pending ones. */
  lemma PendingAfterBegin(log: seq<TxnEvent>, readOnly: bool)
    requires LogWellFormed(log)
    ensures LogWellFormed(log + [Begin(|log|, readOnly)])
    ensures Pending(log + [Begin(|log|, readOnly)]) == Pending(log) + {|log|}
  {
    var log' := log + [Begin(|log|, readOnly)];
    assert forall i :: 0 <= i < |log| ==> log'[i] == log[i];
    assert Begun(log') == Begun(log) + {|log|} by {
      assert log'[|log|].id == |log|;
    }
    assert Ended(log') == Ended(log);
    assert |log| !in Ended(log);
  }

  /** Finalising a transaction removes it from the pending ones. */
  lemma PendingAfterEnd(log: seq<TxnEvent>, e: TxnEvent)
    requires LogWellFormed(log) && !e.Begin? && e.id < |log|
    ensures LogWellFormed(log + [e])
    ensures Pending(log + [e]) == Pending(log) - {e.id}
  {
    var log' := log + [e];
    assert forall i :: 0 <= i < |log| ==> log'[i] == log[i];
    assert Begun(log') == Begun(log);
    assert Ended(log') == Ended(log) + {e.id} by {
      assert log'[|log|] == e;
    }
  }

  /** Every pending transaction was begun at some position of the log. */
  lemma PendingBelowLength(log: seq<TxnEvent>, id: nat)
    requires LogWellFormed(log) && id in Pending(log)
    ensures id < |log|
  {
  }
}
