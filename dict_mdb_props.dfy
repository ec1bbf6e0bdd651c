/** Properties of the dict_mdb adapter, stated over the specification
    functions: the handle invariant every operation keeps, the encoding
    flags converging and never running out, the update/lookup round trip,
    delete and its quirk, and traversal of the whole store. */
module DictMdbProps {
  import opened CStrings
  import opened MdbEngine
  import opened DictMdbSpec

  // ----- The invariant -----

  /** Open leaves a handle that satisfies the invariant: with O_TRUNC the
      open's write transaction is the one pending transaction, otherwise
      none is pending. */
  lemma OpenEstablishesInv(path: string, openFlags: bv32, df: DictFlags, existing: Store,
                           noTrailingNull: bool, f: Faults)
    requires Open(path, openFlags, df, existing, noTrailingNull, f).Ok?
    ensures Inv(Open(path, openFlags, df, existing, noTrailingNull, f).value)
    ensures var h := Open(path, openFlags, df, existing, noTrailingNull, f).value;
      Pending(h.log) == if openFlags & O_TRUNC != 0 then {0} else {}
  {
    var h := Open(path, openFlags, df, existing, noTrailingNull, f).value;
    var readOnly := openFlags == O_RDONLY;
    PendingAfterBegin([], readOnly);
    assert [] + [Begin(0, readOnly)] == [Begin(0, readOnly)];
    if openFlags & O_TRUNC == 0 {
      PendingAfterEnd([Begin(0, readOnly)], Abort(0));
      assert [Begin(0, readOnly)] + [Abort(0)] == h.log;
    }
  }

  /** A private transaction that is begun and finalised in one call leaves
      the pending transactions as they were. */
  lemma BeginEndKeepsPending(log: seq<TxnEvent>, readOnly: bool, commit: bool)
    requires LogWellFormed(log)
    ensures var id := |log|;
      var log' := log + [Begin(id, readOnly)] + [if commit then Commit(id) else Abort(id)];
      LogWellFormed(log') && Pending(log') == Pending(log)
  {
    var id := |log|;
    var e := if commit then Commit(id) else Abort(id);
    PendingAfterBegin(log, readOnly);
    PendingAfterEnd(log + [Begin(id, readOnly)], e);
    assert id !in Pending(log) by {
      if id in Pending(log) { PendingBelowLength(log, id); }
    }
  }

  lemma LookupKeepsInv(h: Handle, name: CString, f: Faults)
    requires Inv(h) && Lookup(h, name, f).out.Ok?
    ensures Inv(Lookup(h, name, f).next)
  {
    if h.txn.None? {
      BeginEndKeepsPending(h.log, true, false);
    }
  }

  lemma UpdateKeepsInv(h: Handle, name: CString, value: CString, f: Faults)
    requires Inv(h) && Update(h, name, value, f).out.Ok?
    ensures Inv(Update(h, name, value, f).next)
  {
    if h.txn.None? {
      BeginEndKeepsPending(h.log, false, true);
    }
  }

  lemma DeleteKeepsInv(h: Handle, name: CString, f: Faults)
    requires Inv(h) && Delete(h, name, f).out.Ok?
    ensures Inv(Delete(h, name, f).next)
  {
    if h.txn.None? {
      BeginEndKeepsPending(h.log, false, true);
    }
  }

  /** A sequence step keeps the invariant: the cursor it opens is owned by
      the read transaction it begins, and the transaction it aborts at the
      end is that cursor's. */
  lemma SequenceKeepsInv(h: Handle, code: int, snap: seq<Entry>, f: Faults)
    requires Inv(h) && Sequence(h, code, snap, f).out.Ok?
    ensures Inv(Sequence(h, code, snap, f).next)
  {
    var s := Sequence(h, code, snap, f);
    var c := CursorFor(h, snap);
    var log := if h.cursor.Some? then h.log else h.log + [Begin(|h.log|, true)];
    if h.cursor.None? {
      PendingAfterBegin(h.log, true);
      if h.txn.Some? {
        PendingBelowLength(h.log, h.txn.value.id);
      }
    }
    assert LogWellFormed(log) && Pending(log) == Owned(h) + {c.txn};
    if s.out.value == End {
      PendingAfterEnd(log, Abort(c.txn));
      assert Owned(s.next) == Owned(h) + {c.txn} - {c.txn};
    }
  }

  /** Close releases what the handle holds, except that committing the
      ambient transaction forgets the cursor without aborting its read
      transaction: that one stays pending for good. */
  lemma CloseReleases(h: Handle, f: Faults)
    requires Inv(h) && Close(h, f).out.Ok?
    ensures LogWellFormed(Close(h, f).next.log)
    ensures Pending(Close(h, f).next.log) ==
              if h.txn.Some? && h.cursor.Some? then {h.cursor.value.txn} else {}
  {
    var s := Close(h, f);
    if h.txn.Some? {
      PendingAfterEnd(h.log, Commit(h.txn.value.id));
      assert s.next.log == h.log + [Commit(h.txn.value.id)];
    } else if h.cursor.Some? {
      PendingAfterEnd(h.log, Abort(h.cursor.value.txn));
      assert s.next.log == h.log + [Abort(h.cursor.value.txn)];
    }
  }

  /** One call of the generic dictionary contract on an open handle. */
  datatype Call =
    | LookupCall(name: CString, f: Faults)
    | UpdateCall(name: CString, value: CString, f: Faults)
    | DeleteCall(name: CString, f: Faults)
    | SequenceCall(code: int, snap: seq<Entry>, f: Faults)

  /** The handle after a call, or None when the call ended the process. */
  function After(h: Handle, c: Call): Option<Handle>
  {
    match c
    case LookupCall(name, f) =>
      var s := Lookup(h, name, f); if s.out.Ok? then Some(s.next) else None
    case UpdateCall(name, value, f) =>
      var s := Update(h, name, value, f); if s.out.Ok? then Some(s.next) else None
    case DeleteCall(name, f) =>
      var s := Delete(h, name, f); if s.out.Ok? then Some(s.next) else None
    case SequenceCall(code, snap, f) =>
      var s := Sequence(h, code, snap, f); if s.out.Ok? then Some(s.next) else None
  }

  /** The handle after a series of calls, if the process survives them. */
  function Run(h: Handle, calls: seq<Call>): Option<Handle>
    decreases |calls|
  {
    if calls == [] then Some(h)
    else
      match After(h, calls[0])
      case None => None
      case Some(h') => Run(h', calls[1..])
  }

  /** However the calls go, an open handle keeps its invariant (so at least
      one encoding flag stays set) and its flags only ever narrow. */
  lemma {:induction false} RunKeepsInv(h: Handle, calls: seq<Call>)
    requires Inv(h) && Run(h, calls).Some?
    ensures Inv(Run(h, calls).value)
    ensures Narrows(h, Run(h, calls).value)
    decreases |calls|
  {
    if calls != [] {
      var c := calls[0];
      match c {
        case LookupCall(name, f) => LookupKeepsInv(h, name, f);
        case UpdateCall(name, value, f) => UpdateKeepsInv(h, name, value, f);
        case DeleteCall(name, f) => DeleteKeepsInv(h, name, f);
        case SequenceCall(code, snap, f) => SequenceKeepsInv(h, code, snap, f);
      }
      var h' := After(h, c).value;
      RunKeepsInv(h', calls[1..]);
    }
  }

  // ----- Encoding resolver -----

  /** A lookup that matched the terminated form fixes the handle on it:
      every later update writes keys and values with a trailing NUL. A
      match of the plain form fixes it on the plain form. */
  lemma LookupHitFixesWriteEncoding(h: Handle, name: CString, f: Faults)
    requires Lookup(h, name, f).out.Ok? && Lookup(h, name, f).out.value.Some?
    ensures var h' := Lookup(h, name, f).next;
      && HasEncoding(h')
      && (h.try1null && Found(h, WithNul(Key(h.cfg, name)), f.data) ==>
            Settled(h') == (true, false) && forall x :: Encode(h', x) == WithNul(x))
      && (!(h.try1null && Found(h, WithNul(Key(h.cfg, name)), f.data)) ==>
            Settled(h') == (false, true) && forall x :: Encode(h', x) == x)
  {
  }

  /** A get that reports an error is a miss, not a failure: when the
      terminated probe fails, lookup goes on to the plain probe, and a hit
      there fixes the handle on the plain form for good. */
  lemma LookupFallsThroughOnError(h: Handle, name: CString, f: Faults)
    requires h.try1null && h.try0null && f.data && !f.plainProbe
    requires h.txn.Some? || !f.txnBegin
    requires Key(h.cfg, name) in View(h)
    ensures Lookup(h, name, f).out == Ok(Some(UpToNul(View(h)[Key(h.cfg, name)])))
    ensures !Lookup(h, name, f).next.try1null && Lookup(h, name, f).next.try0null
  {
  }

  // ----- Update and lookup -----

  /** What update stores is what lookup returns: after an update that
      stored a new key, or replaced one, a lookup of the same name finds
      the value written. */
  lemma UpdateThenLookup(h: Handle, name: CString, value: CString, f: Faults)
    requires HasEncoding(h) && !Collides(h, name)
    requires Update(h, name, value, f).out.Ok?
    ensures Lookup(Update(h, name, value, f).next, name, Healthy).out == Ok(Some(value))
  {
    UpToNulOfCString(value);
    var h' := Update(h, name, value, f).next;
    var k := Key(h.cfg, name);
    if !Settled(h).0 {
      assert !h'.try1null;
    }
  }

  /** A collision that the policy tolerates leaves the stored value as it
      was, so lookup still returns the old value. */
  lemma CollisionKeepsOldValue(h: Handle, name: CString, value: CString, f: Faults)
    requires HasEncoding(h) && Collides(h, name)
    requires Update(h, name, value, f).out.Ok?
    ensures h.cfg.dup == DupIgnore || h.cfg.dup == DupWarn
    ensures View(Update(h, name, value, f).next) == View(h)
    ensures Lookup(Update(h, name, value, f).next, name, Healthy).out
         == Ok(Some(UpToNul(View(h)[Encode(h, Key(h.cfg, name))])))
  {
    var h' := Update(h, name, value, f).next;
    var k := Key(h.cfg, name);
    if !Settled(h).0 {
      assert !h'.try1null;
    }
  }

  /** Under FOLD_FIX, names that fold to the same key are the same entry
      to lookup, update and delete. */
  lemma FoldedNamesCollide(h: Handle, a: CString, b: CString, value: CString, f: Faults)
    requires h.cfg.fold && Lower(a) == Lower(b)
    ensures Lookup(h, a, f) == Lookup(h, b, f)
    ensures Update(h, a, value, f) == Update(h, b, value, f)
    ensures Delete(h, a, f) == Delete(h, b, f)
  {
    assert Key(h.cfg, a) == Key(h.cfg, b);
    assert FoldBuf(h, a) == FoldBuf(h, b);
  }

  /** Under FOLD_FIX a name and its folded form are the same entry, since
      folding a folded key changes nothing. */
  lemma FoldedNameIsCanonical(h: Handle, name: CString, value: CString, f: Faults)
    requires h.cfg.fold
    ensures Lookup(h, name, f) == Lookup(h, Lower(name), f)
    ensures Update(h, name, value, f) == Update(h, Lower(name), value, f)
    ensures Delete(h, name, f) == Delete(h, Lower(name), f)
  {
    LowerIdempotent(name);
    FoldedNamesCollide(h, name, Lower(name), value, f);
  }

  /** The terminated key of one name is never the plain key of another, so
      the two encodings of a table never read each other's entries. */
  lemma EncodingsNeverCollide(c: Config, a: CString, b: CString)
    ensures WithNul(Key(c, a)) != Key(c, b)
  {
    WithNulIsNotCString(Key(c, a), Key(c, b));
  }

  /** A lookup that misses changes neither the flags nor the contents, and
      asking again misses again. */
  lemma LookupMissIsStable(h: Handle, name: CString, f: Faults)
    requires Lookup(h, name, f).out == Ok(None)
    ensures var h' := Lookup(h, name, f).next;
      && h'.try1null == h.try1null && h'.try0null == h.try0null
      && View(h') == View(h) && h'.cursor == h.cursor
      && Lookup(h', name, f).out == Ok(None)
  {
  }

  // ----- Delete -----

  /** Once delete has probed (anything but the quirk below), the name is
      gone for lookup: a hit narrowed the flags to the encoding it removed,
      and a miss found neither encoding. */
  lemma DeleteThenLookupMisses(h: Handle, name: CString, f: Faults)
    requires HasEncoding(h) && (h.txn.Some? || h.try1null)
    requires Delete(h, name, f).out.Ok?
    ensures Lookup(Delete(h, name, f).next, name, Healthy).out == Ok(None)
  {
    var k := Key(h.cfg, name);
    var h' := Delete(h, name, f).next;
    assert h.try1null ==> !f.data;
    assert ProbesPlain(h, name, f) ==> !f.plainProbe;
    if h.try1null && WithNul(k) in View(h) {
      assert WithNul(k) !in View(h');
    }
  }

  /** The delete quirk: in a private transaction with only the plain
      encoding enabled, the begin's status 0 skips the plain probe, so
      delete reports success, removes nothing, and lookup still finds the
      entry. */
  lemma DeleteQuirkKeepsEntry(h: Handle, name: CString, f: Faults)
    requires h.txn.None? && !h.try1null && h.try0null
    requires Key(h.cfg, name) in h.disk
    requires Delete(h, name, f).out.Ok?
    ensures Delete(h, name, f).out.value == 0
    ensures Delete(h, name, f).next.disk == h.disk
    ensures Lookup(Delete(h, name, f).next, name, Healthy).out
         == Ok(Some(UpToNul(h.disk[Key(h.cfg, name)])))
  {
  }

  // ----- Transactions -----

  /** After an O_TRUNC open the handle sees an empty dictionary, and
      closing it without further updates commits the empty contents. */
  lemma TruncatedOpenStartsEmpty(path: string, openFlags: bv32, df: DictFlags, existing: Store,
                                 noTrailingNull: bool, f: Faults, name: CString)
    requires openFlags & O_TRUNC != 0
    requires Open(path, openFlags, df, existing, noTrailingNull, f).Ok?
    ensures var h := Open(path, openFlags, df, existing, noTrailingNull, f).value;
      && Lookup(h, name, Healthy).out == Ok(None)
      && Close(h, Healthy).next.disk == map[]
  {
  }

  /** The fresh-transaction quirk: a traversal begun beside the ambient
      transaction reads the committed store, so right after an O_TRUNC open
      of a non-empty file it returns an old entry that lookup no longer
      finds. */
  lemma TruncatedOpenTraversalSeesOldEntries(path: string, openFlags: bv32, df: DictFlags,
                                             existing: Store, noTrailingNull: bool, f: Faults,
                                             snap: seq<Entry>)
    requires openFlags & O_TRUNC != 0
    requires Open(path, openFlags, df, existing, noTrailingNull, f).Ok?
    requires IsEnumeration(snap, existing) && |existing| > 0
    ensures var h := Open(path, openFlags, df, existing, noTrailingNull, f).value;
      && Sequence(h, DICT_SEQ_FUN_FIRST, snap, Healthy).out == Ok(ItemOf(snap[0]))
      && snap[0].key in existing
      && snap[0].key !in View(h)
  {
  }

  /** Closing with the ambient transaction open commits what it wrote;
      a cursor left open is dropped and its transaction never finalised. */
  lemma CloseCommitsAmbient(h: Handle, f: Faults)
    requires Inv(h) && h.txn.Some? && Close(h, f).out.Ok?
    ensures Close(h, f).next.disk == h.txn.value.view
    ensures h.cursor.Some? ==> h.cursor.value.txn in Pending(Close(h, f).next.log)
  {
    CloseReleases(h, f);
  }

  // ----- Sequence -----

  /** The results of `n` sequence calls without engine faults: the first
      with `code`, the rest NEXT; and the handle they leave. */
  function Walk(h: Handle, code: int, snap: seq<Entry>, n: nat): (seq<Outcome<SeqItem>>, Handle)
    decreases n
  {
    if n == 0 then ([], h)
    else
      var s := Sequence(h, code, snap, Healthy);
      var rest := Walk(s.next, DICT_SEQ_FUN_NEXT, snap, n - 1);
      ([s.out] + rest.0, rest.1)
  }

  /** What a walk over `es` returns from position `from` on, entry by
      entry. */
  function Items(es: seq<Entry>, from: nat): (r: seq<Outcome<SeqItem>>)
    requires from <= |es|
    ensures |r| == |es| - from
    ensures forall j :: from <= j < |es| ==> r[j - from] == Ok(ItemOf(es[j]))
    decreases |es| - from
  {
    if from == |es| then [] else [Ok(ItemOf(es[from]))] + Items(es, from + 1)
  }

  /** One NEXT on an open cursor without engine faults: the entry at the
      cursor's position and the cursor advanced, or, past the last entry,
      the end with the cursor closed and its transaction aborted. */
  lemma NextOnCursor(h: Handle, snap: seq<Entry>)
    requires h.cursor.Some? && h.cursor.value.next <= |h.cursor.value.entries|
    ensures var c := h.cursor.value;
      var s := Sequence(h, DICT_SEQ_FUN_NEXT, snap, Healthy);
      && (c.next < |c.entries| ==>
            s.out == Ok(ItemOf(c.entries[c.next])) && s.next.cursor == Some(c.(next := c.next + 1))
            && s.next.log == h.log)
      && (c.next == |c.entries| ==>
            s.out == Ok(End) && s.next.cursor.None? && s.next.log == h.log + [Abort(c.txn)])
      && s.next.disk == h.disk && s.next.txn == h.txn
  {
  }

  /** From an open cursor, NEXT returns the remaining entries in order and
      then the end, after which the cursor is gone and its transaction
      aborted. */
  lemma {:induction false} WalkRest(h: Handle, snap: seq<Entry>, k: nat)
    requires h.cursor.Some? && h.cursor.value.next + k == |h.cursor.value.entries|
    ensures var c := h.cursor.value;
      var w := Walk(h, DICT_SEQ_FUN_NEXT, snap, k + 1);
      && w.0 == Items(c.entries, c.next) + [Ok(End)]
      && w.1.cursor.None? && w.1.log == h.log + [Abort(c.txn)]
      && w.1.disk == h.disk && w.1.txn == h.txn
    decreases k
  {
    var c := h.cursor.value;
    var s := Sequence(h, DICT_SEQ_FUN_NEXT, snap, Healthy);
    var rest := Walk(s.next, DICT_SEQ_FUN_NEXT, snap, k);
    assert Walk(h, DICT_SEQ_FUN_NEXT, snap, k + 1) == ([s.out] + rest.0, rest.1);
    NextOnCursor(h, snap);
    if k > 0 {
      WalkRest(s.next, snap, k - 1);
      assert [s.out] + (Items(c.entries, c.next + 1) + [Ok(End)]) == Items(c.entries, c.next) + [Ok(End)];
    }
  }

  /** FIRST on a handle with no cursor begins a read transaction, opens a
      cursor over the snapshot, and walks it to the end with NEXT. */
  lemma {:induction false} WalkFromFirst(h: Handle, snap: seq<Entry>)
    requires h.cursor.None?
    ensures var n := |h.log|;
      var w := Walk(h, DICT_SEQ_FUN_FIRST, snap, |snap| + 1);
      && w.0 == Items(snap, 0) + [Ok(End)]
      && w.1.cursor.None? && w.1.log == h.log + [Begin(n, true)] + [Abort(n)]
      && w.1.disk == h.disk && w.1.txn == h.txn
  {
    var n := |h.log|;
    var s := Sequence(h, DICT_SEQ_FUN_FIRST, snap, Healthy);
    var rest := Walk(s.next, DICT_SEQ_FUN_NEXT, snap, |snap|);
    assert Walk(h, DICT_SEQ_FUN_FIRST, snap, |snap| + 1) == ([s.out] + rest.0, rest.1);
    if |snap| == 0 {
      assert s.out == Ok(End) && rest == ([], s.next);
      assert s.next.log == h.log + [Begin(n, true)] + [Abort(n)];
    } else {
      assert s.out == Ok(ItemOf(snap[0]));
      assert s.next.cursor == Some(Cursor(n, snap, 1));
      assert s.next.log == h.log + [Begin(n, true)];
      WalkRest(s.next, snap, |snap| - 1);
      assert rest.1.log == h.log + [Begin(n, true)] + [Abort(n)];
    }
  }

  /** Sequence completeness: over a store of N entries, FIRST and then NEXT
      return the N entries of the snapshot and then the end, and leave no
      cursor and no transaction behind, so the next traversal starts over. */
  lemma TraversalComplete(h: Handle, snap: seq<Entry>)
    requires Inv(h) && h.cursor.None? && IsEnumeration(snap, h.disk)
    ensures var w := Walk(h, DICT_SEQ_FUN_FIRST, snap, |h.disk| + 1);
      && w.0 == Items(snap, 0) + [Ok(End)]
      && |w.0| == |h.disk| + 1
      && w.1.cursor.None?
      && Pending(w.1.log) == Pending(h.log)
      && w.1.disk == h.disk && w.1.txn == h.txn
  {
    WalkFromFirst(h, snap);
    BeginEndKeepsPending(h.log, true, false);
  }
}
