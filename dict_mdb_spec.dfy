/** The dictionary handle of dict_mdb as a value, and each operation of the
    adapter as a function from the handle before the call to its outcome and
    the handle after it. The class in dict_mdb.dfy is proved against these
    functions; the lemmas in dict_mdb_props.dfy are about them. */
module DictMdbSpec {
  import opened CStrings
  import opened MdbEngine

  /** open(2) flags as Linux defines them; read-only means exactly O_RDONLY. */
  const O_RDONLY: bv32 := 0
  const O_TRUNC: bv32 := 0x200

  /** Function codes of the generic sequence operation. */
  const DICT_SEQ_FUN_FIRST: int := 0
  const DICT_SEQ_FUN_NEXT: int := 1

  /** What an insert does when the key is already there. */
  datatype DupPolicy = DupReplace | DupIgnore | DupWarn | DupFatal

  /** The dictionary flags the adapter reads at open time. */
  datatype DictFlags = DictFlags(try0null: bool, try1null: bool, foldFix: bool,
                                 dupReplace: bool, dupIgnore: bool, dupWarn: bool)

  /** The policy update applies: REPLACE decides the put mode; on a collision
      IGNORE is tested before WARN, and with neither the collision is fatal. */
  function Policy(df: DictFlags): (p: DupPolicy)
    ensures p == DupReplace <==> df.dupReplace
    ensures p == DupIgnore <==> !df.dupReplace && df.dupIgnore
    ensures p == DupWarn <==> !df.dupReplace && !df.dupIgnore && df.dupWarn
  {
    if df.dupReplace then DupReplace
    else if df.dupIgnore then DupIgnore
    else if df.dupWarn then DupWarn
    else DupFatal
  }

  /** What open fixes for the handle's lifetime. `noTrailingNull` is the
      build-time MDB_NO_TRAILING_NULL switch. */
  datatype Config = Config(mdbPath: string, readOnly: bool, fold: bool, dup: DupPolicy,
                           noTrailingNull: bool)

  /** The long-lived write transaction kept after an O_TRUNC open, with the
      contents it sees (its own uncommitted writes included). */
  datatype Txn = Txn(id: nat, view: Store)

  /** The handle: the two encoding flags, the ambient transaction, the
      sequence cursor, the committed store, the engine's transaction log and
      the three reusable buffers. */
  datatype Handle = Handle(cfg: Config, try1null: bool, try0null: bool,
                           txn: Option<Txn>, cursor: Option<Cursor>,
                           disk: Store, log: seq<TxnEvent>,
                           keyBuf: Option<Bytes>, valBuf: Option<Bytes>, foldBuf: Option<Bytes>)

  /** Fatal stands for msg_fatal, Panic for msg_panic: both end the process. */
  datatype Outcome<T> = Ok(value: T) | Fatal | Panic

  /** An operation's outcome and the handle it leaves. After Fatal or Panic
      there is no handle any more; `next` is then the handle before the call. */
  datatype Step<T> = Step(out: Outcome<T>, next: Handle)

  /** What update returns, and whether it logged a duplicate warning. */
  datatype UpdateResult = UpdateResult(status: int, warned: bool)

  /** One step of a traversal: a key and, when the stored value is not
      empty, its value; or the end of the sequence. */
  datatype SeqItem = Hit(key: Bytes, value: Option<Bytes>) | End
  {
    /** The sequence operation's return value. */
    function Status(): int
    {
      if Hit? then 0 else 1
    }
  }

  /** How a call to the class relates to its specification. */
  predicate Completes<T(==)>(s: Step<T>, r: Outcome<T>, before: Handle, after: Handle)
  {
    r == s.out && (if r.Ok? then after == s.next else after.disk == before.disk)
  }

  // ----- The handle's state and its invariant -----

  /** The contents an operation sees: the ambient transaction's, else the
      committed store (each private transaction starts from it). */
  function View(h: Handle): Store
  {
    if h.txn.Some? then h.txn.value.view else h.disk
  }

  predicate HasEncoding(h: Handle)
  {
    h.try1null || h.try0null
  }

  /** `h'` keeps no encoding flag `h` had not, and keeps at least one. */
  predicate Narrows(h: Handle, h': Handle)
  {
    && (h'.try1null ==> h.try1null)
    && (h'.try0null ==> h.try0null)
    && (h'.try1null || h'.try0null)
  }

  /** The transactions the handle holds: the ambient one and the cursor's. */
  function Owned(h: Handle): set<nat>
  {
    (if h.txn.Some? then {h.txn.value.id} else {}) +
    (if h.cursor.Some? then {h.cursor.value.txn} else {})
  }

  /** The handle's invariant: an encoding flag is set, every transaction
      left open belongs to the handle, the ambient transaction and the
      cursor's are two, a cursor stays within its snapshot, and only a
      writable environment has an ambient write transaction. */
  predicate Inv(h: Handle)
  {
    && HasEncoding(h)
    && LogWellFormed(h.log)
    && Pending(h.log) == Owned(h)
    && (h.txn.Some? && h.cursor.Some? ==> h.txn.value.id != h.cursor.value.txn)
    && (h.cursor.Some? ==> h.cursor.value.next <= |h.cursor.value.entries|)
    && (h.txn.Some? ==> !h.cfg.readOnly)
  }

  // ----- Encoding resolver -----

  /** The key the engine is asked for: folded to lower case under FOLD_FIX. */
  function Key(c: Config, name: Bytes): (k: Bytes)
    ensures |k| == |name|
    ensures IsCString(name) ==> IsCString(k)
    ensures c.fold ==> k == Lower(name)
    ensures !c.fold ==> k == name
  {
    if c.fold then Lower(name) else name
  }

  /** The fold buffer after a call that folds `name`. */
  function FoldBuf(h: Handle, name: Bytes): Option<Bytes>
  {
    if h.cfg.fold then Some(Lower(name)) else h.foldBuf
  }

  /** The encoding flags an update settles on: when both are set, the build
      default keeps one. Exactly one flag is left. */
  function Settled(h: Handle): (t: (bool, bool))
    requires HasEncoding(h)
    ensures t.0 != t.1
    ensures (t.0 ==> h.try1null) && (t.1 ==> h.try0null)
    ensures h.try1null && h.try0null ==> (t.0 <==> !h.cfg.noTrailingNull)
  {
    var both := h.try1null && h.try0null;
    (h.try1null && !(both && h.cfg.noTrailingNull), h.try0null && !(both && !h.cfg.noTrailingNull))
  }

  /** The stored form of a key or value under the settled encoding. */
  function Encode(h: Handle, s: Bytes): (e: Bytes)
    requires HasEncoding(h)
    ensures |e| == |s| + (if Settled(h).0 then 1 else 0)
    ensures e[..|s|] == s
    ensures Settled(h).0 ==> e[|s|] == NUL
  {
    if Settled(h).0 then WithNul(s) else s
  }

  /** An update would find its stored key already there and may not replace it. */
  predicate Collides(h: Handle, name: Bytes)
    requires HasEncoding(h)
  {
    h.cfg.dup != DupReplace && Encode(h, Key(h.cfg, name)) in View(h)
  }

  // ----- Open -----

  /** dict_mdb_open: derive the file name, open the environment read-only
      for exactly O_RDONLY, truncate and keep the write transaction for
      O_TRUNC (otherwise abort it), default the encoding flags to both. */
  function Open(path: string, openFlags: bv32, df: DictFlags, existing: Store,
                noTrailingNull: bool, f: Faults): (r: Outcome<Handle>)
    ensures r.Ok? <==> !f.txnBegin && !(openFlags & O_TRUNC != 0 && f.data)
    ensures !r.Panic?
    ensures r.Ok? ==>
      var h := r.value;
      && h.cfg.mdbPath == path + ".mdb"
      && h.cfg.readOnly == (openFlags == O_RDONLY)
      && h.cfg.fold == df.foldFix
      && h.cfg.noTrailingNull == noTrailingNull
      && (h.txn.Some? <==> openFlags & O_TRUNC != 0)
      && (h.txn.Some? ==> h.txn.value.view == map[])
      && h.disk == existing
      && h.cfg.dup == Policy(df)
      && HasEncoding(h)
      && (df.try1null || df.try0null ==> h.try1null == df.try1null && h.try0null == df.try0null)
      && (!df.try1null && !df.try0null ==> h.try1null && h.try0null)
      && h.cursor.None? && h.keyBuf.None? && h.valBuf.None?
  {
    var readOnly := openFlags == O_RDONLY;
    var trunc := openFlags & O_TRUNC != 0;
    if f.txnBegin || (trunc && f.data) then Fatal
    else
      var neither := !df.try0null && !df.try1null;
      var cfg := Config(path + ".mdb", readOnly, df.foldFix, Policy(df), noTrailingNull);
      Ok(Handle(cfg, df.try1null || neither, df.try0null || neither,
                if trunc then Some(Txn(0, map[])) else None, None, existing,
                if trunc then [Begin(0, readOnly)] else [Begin(0, readOnly), Abort(0)],
                None, None, if df.foldFix then Some([]) else None))
  }

  // ----- Lookup -----

  /** The engine finds `key` in what the handle sees, unless the call
      reports an error. */
  predicate Found(h: Handle, key: Bytes, fail: bool)
  {
    !fail && key in View(h)
  }

  /** dict_mdb_lookup: try the terminated key, then the plain one, each only
      while its flag is set; a hit keeps only the encoding that matched. A
      private read transaction is begun and always aborted. A probe whose
      get reports an error counts as a miss. */
  function Lookup(h: Handle, name: CString, f: Faults): (s: Step<Option<Bytes>>)
    ensures !HasEncoding(h) ==> s.out == Panic
    ensures s.out.Fatal? <==> HasEncoding(h) && h.txn.None? && f.txnBegin
    ensures !s.out.Ok? ==> s.next == h
    ensures s.out.Ok? ==>
      var k := Key(h.cfg, name);
      var nul := h.try1null && Found(h, WithNul(k), f.data);
      var plain := h.try0null && Found(h, k, f.plainProbe);
      && Narrows(h, s.next)
      && (nul ==> s.out.value == Some(UpToNul(View(h)[WithNul(k)])) && s.next.try1null && !s.next.try0null)
      && (!nul && plain ==> s.out.value == Some(UpToNul(View(h)[k])) && !s.next.try1null && s.next.try0null)
      && (s.out.value.None? <==> !nul && !plain)
      && (s.out.value.None? ==> s.next.try1null == h.try1null && s.next.try0null == h.try0null)
      && (s.out.value.Some? ==> IsCString(s.out.value.value) && s.next.valBuf == s.out.value)
      && (s.out.value.None? ==> s.next.valBuf == h.valBuf)
      && s.next.txn == h.txn && s.next.disk == h.disk && s.next.cursor == h.cursor
      && s.next.cfg == h.cfg && s.next.keyBuf == h.keyBuf && s.next.foldBuf == FoldBuf(h, name)
      && s.next.log == (if h.txn.Some? then h.log else h.log + [Begin(|h.log|, true)] + [Abort(|h.log|)])
  {
    if !HasEncoding(h) then Step(Panic, h)
    else if h.txn.None? && f.txnBegin then Step(Fatal, h)
    else
      var k := Key(h.cfg, name);
      var view := View(h);
      var g1 := Get(view, WithNul(k), f.data);
      var hit1 := h.try1null && g1.0 == MDB_SUCCESS;
      var g0 := Get(view, k, f.plainProbe);
      var hit0 := !hit1 && h.try0null && g0.0 == MDB_SUCCESS;
      var result := if hit1 then Some(UpToNul(g1.1)) else if hit0 then Some(UpToNul(g0.1)) else None;
      var id := |h.log|;
      Step(Ok(result),
           h.(try1null := h.try1null && !hit0, try0null := h.try0null && !hit1,
              valBuf := if result.Some? then result else h.valBuf,
              foldBuf := FoldBuf(h, name),
              log := if h.txn.None? then h.log + [Begin(id, true)] + [Abort(id)] else h.log))
  }

  // ----- Update -----

  /** dict_mdb_update: settle on one encoding, issue one put (strict unless
      REPLACE), and dispose of a collision by the duplicate policy. The
      ambient transaction keeps the write; a private one is committed, and
      then the commit's status is returned. */
  function Update(h: Handle, name: CString, value: CString, f: Faults): (s: Step<UpdateResult>)
    ensures !HasEncoding(h) ==> s.out == Panic
    ensures HasEncoding(h) ==>
      (s.out.Fatal? <==>
        || (h.txn.None? && (f.txnBegin || h.cfg.readOnly))
        || f.data
        || (Collides(h, name) && h.cfg.dup == DupFatal)
        || (h.txn.None? && f.txnCommit))
    ensures !s.out.Ok? ==> s.next == h
    ensures s.out.Ok? ==>
      var ek := Encode(h, Key(h.cfg, name));
      var ev := Encode(h, value);
      && Narrows(h, s.next)
      && (s.next.try1null, s.next.try0null) == Settled(h)
      && View(s.next) == (if Collides(h, name) then View(h) else View(h)[ek := ev])
      && s.out.value.status == (if h.txn.Some? && Collides(h, name) then MDB_KEYEXIST else MDB_SUCCESS)
      && s.out.value.warned == (Collides(h, name) && h.cfg.dup == DupWarn)
      && (h.txn.Some? ==>
            && s.next.txn.Some? && s.next.txn.value.id == h.txn.value.id
            && s.next.disk == h.disk && s.next.log == h.log)
      && (h.txn.None? ==>
            && s.next.txn.None?
            && s.next.log == h.log + [Begin(|h.log|, false)] + [Commit(|h.log|)])
      && s.next.cursor == h.cursor && s.next.cfg == h.cfg
      && s.next.keyBuf == h.keyBuf && s.next.valBuf == h.valBuf
      && s.next.foldBuf == FoldBuf(h, name)
  {
    if !HasEncoding(h) then Step(Panic, h)
    else
      var t := Settled(h);
      var ek := Encode(h, Key(h.cfg, name));
      var ev := Encode(h, value);
      if h.txn.None? && (f.txnBegin || h.cfg.readOnly) then Step(Fatal, h)
      else
        var put := Put(View(h), ek, ev, h.cfg.dup != DupReplace, f.data);
        if IsHardError(put.0) || (put.0 == MDB_KEYEXIST && h.cfg.dup == DupFatal) then Step(Fatal, h)
        else if h.txn.None? && f.txnCommit then Step(Fatal, h)
        else
          var warned := put.0 == MDB_KEYEXIST && h.cfg.dup == DupWarn;
          var h' := h.(try1null := t.0, try0null := t.1, foldBuf := FoldBuf(h, name));
          if h.txn.Some? then
            Step(Ok(UpdateResult(put.0, warned)), h'.(txn := Some(h.txn.value.(view := put.1))))
          else
            var id := |h.log|;
            Step(Ok(UpdateResult(MDB_SUCCESS, warned)),
                 h'.(disk := put.1, log := h.log + [Begin(id, false)] + [Commit(id)]))
  }

  // ----- Delete -----

  /** Delete probes the plain key: after a terminated probe that missed, or,
      with no terminated probe, only inside the ambient transaction — a
      private transaction's begin has already set the status to 0. */
  predicate ProbesPlain(h: Handle, name: Bytes, f: Faults)
  {
    h.try0null &&
    (if h.try1null then !Found(h, WithNul(Key(h.cfg, name)), f.data) else h.txn.Some?)
  }

  /** dict_mdb_delete: remove the terminated key, then the plain one, each
      only while its flag is set and nothing was removed yet; return 0, or 1
      when every probe reported NOTFOUND. */
  function Delete(h: Handle, name: CString, f: Faults): (s: Step<int>)
    ensures !HasEncoding(h) ==> s.out == Panic
    ensures HasEncoding(h) ==>
      (s.out.Fatal? <==>
        || (h.txn.None? && (f.txnBegin || h.cfg.readOnly))
        || (h.try1null && f.data)
        || (ProbesPlain(h, name, f) && f.plainProbe)
        || (h.txn.None? && f.txnCommit))
    ensures !s.out.Ok? ==> s.next == h
    ensures s.out.Ok? ==>
      var k := Key(h.cfg, name);
      var nul := h.try1null && WithNul(k) in View(h);
      var plain := ProbesPlain(h, name, f) && k in View(h);
      && Narrows(h, s.next)
      && (nul ==> s.out.value == 0 && View(s.next) == View(h) - {WithNul(k)}
                  && s.next.try1null && !s.next.try0null)
      && (plain ==> s.out.value == 0 && View(s.next) == View(h) - {k}
                    && !s.next.try1null && s.next.try0null)
      && (!nul && !plain ==> View(s.next) == View(h)
                             && s.next.try1null == h.try1null && s.next.try0null == h.try0null)
      && (s.out.value == 1 <==> !nul && !plain && (h.try1null || ProbesPlain(h, name, f)))
      && (s.out.value == 0 || s.out.value == 1)
      && (h.txn.Some? ==>
            && s.next.txn.Some? && s.next.txn.value.id == h.txn.value.id
            && s.next.disk == h.disk && s.next.log == h.log)
      && (h.txn.None? ==>
            && s.next.txn.None?
            && s.next.log == h.log + [Begin(|h.log|, false)] + [Commit(|h.log|)])
      && s.next.cursor == h.cursor && s.next.cfg == h.cfg
      && s.next.keyBuf == h.keyBuf && s.next.valBuf == h.valBuf
      && s.next.foldBuf == FoldBuf(h, name)
  {
    if !HasEncoding(h) then Step(Panic, h)
    else if h.txn.None? && (f.txnBegin || h.cfg.readOnly) then Step(Fatal, h)
    else
      var k := Key(h.cfg, name);
      var before := if h.txn.Some? then 1 else 0;
      var d1 := Del(View(h), WithNul(k), f.data);
      if h.try1null && IsHardError(d1.0) then Step(Fatal, h)
      else
        var hit1 := h.try1null && d1.0 == MDB_SUCCESS;
        var status1 := if !h.try1null then before else if hit1 then 0 else 1;
        var view1 := if hit1 then d1.1 else View(h);
        var probe0 := status1 > 0 && h.try0null;
        var d0 := Del(view1, k, f.plainProbe);
        if probe0 && IsHardError(d0.0) then Step(Fatal, h)
        else if h.txn.None? && f.txnCommit then Step(Fatal, h)
        else
          var hit0 := probe0 && d0.0 == MDB_SUCCESS;
          var status := if !probe0 then status1 else if hit0 then 0 else 1;
          var view2 := if hit0 then d0.1 else view1;
          var h' := h.(try1null := h.try1null && !hit0, try0null := h.try0null && !hit1,
                       foldBuf := FoldBuf(h, name));
          if h.txn.Some? then
            Step(Ok(status), h'.(txn := Some(h.txn.value.(view := view2))))
          else
            var id := |h.log|;
            Step(Ok(status), h'.(disk := view2, log := h.log + [Begin(id, false)] + [Commit(id)]))
  }

  // ----- Sequence -----

  /** The cursor a sequence call works with: the open one, or a new one
      over `snap` owned by a read transaction begun now. */
  function CursorFor(h: Handle, snap: seq<Entry>): Cursor
  {
    if h.cursor.Some? then h.cursor.value else Cursor(|h.log|, snap, 0)
  }

  /** What a successful step returns for an entry: the key copied, and the
      value copied when it is not empty. */
  function ItemOf(e: Entry): (item: SeqItem)
    ensures item.Hit? && item.key == UpToNul(e.key)
    ensures item.value.Some? <==> |e.val| > 0
    ensures item.value.Some? ==> item.value.value == UpToNul(e.val)
  {
    Hit(UpToNul(e.key), if |e.val| > 0 then Some(UpToNul(e.val)) else None)
  }

  /** dict_mdb_sequence: FIRST or NEXT on the handle's cursor, opening a
      fresh read transaction and cursor when there is none (even beside an
      ambient transaction); at the end, close the cursor, abort its
      transaction and forget it. `snap` is what a read transaction begun now
      would walk through. */
  function Sequence(h: Handle, code: int, snap: seq<Entry>, f: Faults): (s: Step<SeqItem>)
    ensures s.out.Panic? <==> code != DICT_SEQ_FUN_FIRST && code != DICT_SEQ_FUN_NEXT
    ensures !s.out.Panic? ==> (s.out.Fatal? <==> (h.cursor.None? && f.txnBegin) || f.data)
    ensures !s.out.Ok? ==> s.next == h
    ensures s.out.Ok? ==>
      var c := CursorFor(h, snap);
      var pos := if code == DICT_SEQ_FUN_FIRST then 0 else c.next;
      var log := if h.cursor.Some? then h.log else h.log + [Begin(|h.log|, true)];
      && (pos < |c.entries| ==>
            && s.out.value == ItemOf(c.entries[pos])
            && s.out.value.Status() == 0
            && s.next.cursor == Some(c.(next := pos + 1))
            && s.next.log == log
            && s.next.keyBuf == Some(s.out.value.key)
            && s.next.valBuf == (if s.out.value.value.Some? then s.out.value.value else h.valBuf))
      && (pos >= |c.entries| ==>
            && s.out.value == End
            && s.out.value.Status() == 1
            && s.next.cursor.None?
            && s.next.log == log + [Abort(c.txn)]
            && s.next.keyBuf == h.keyBuf && s.next.valBuf == h.valBuf)
      && s.next.try1null == h.try1null && s.next.try0null == h.try0null
      && s.next.txn == h.txn && s.next.disk == h.disk && s.next.cfg == h.cfg
      && s.next.foldBuf == h.foldBuf
  {
    if code != DICT_SEQ_FUN_FIRST && code != DICT_SEQ_FUN_NEXT then Step(Panic, h)
    else if (h.cursor.None? && f.txnBegin) || f.data then Step(Fatal, h)
    else
      var c := CursorFor(h, snap);
      var log := if h.cursor.Some? then h.log else h.log + [Begin(|h.log|, true)];
      var g := CursorGet(c, if code == DICT_SEQ_FUN_FIRST then MdbFirst else MdbNext, f.data);
      if g.0 == MDB_NOTFOUND then
        Step(Ok(End), h.(cursor := None, log := log + [Abort(c.txn)]))
      else
        var item := ItemOf(g.1);
        Step(Ok(item), h.(cursor := Some(g.2), log := log, keyBuf := Some(item.key),
                          valBuf := if item.value.Some? then item.value else h.valBuf))
  }

  // ----- Close -----

  /** dict_mdb_close: commit the ambient transaction, dropping the cursor
      with it; otherwise close an open cursor and abort its transaction;
      release the buffers. */
  function Close(h: Handle, f: Faults): (s: Step<()>)
    ensures s.out.Fatal? <==> h.txn.Some? && f.txnCommit
    ensures !s.out.Panic?
    ensures !s.out.Ok? ==> s.next == h
    ensures s.out.Ok? ==>
      && s.next.disk == View(h)
      && s.next.txn.None? && s.next.cursor.None?
      && s.next.log == h.log
           + (if h.txn.Some? then [Commit(h.txn.value.id)] else [])
           + (if h.txn.None? && h.cursor.Some? then [Abort(h.cursor.value.txn)] else [])
      && s.next.keyBuf.None? && s.next.valBuf.None? && s.next.foldBuf.None?
      && s.next.try1null == h.try1null && s.next.try0null == h.try0null && s.next.cfg == h.cfg
  {
    if h.txn.Some? && f.txnCommit then Step(Fatal, h)
    else
      var h1 := if h.txn.Some?
                then h.(disk := h.txn.value.view, log := h.log + [Commit(h.txn.value.id)],
                        txn := None, cursor := None)
                else h;
      var h2 := if h1.cursor.Some?
                then h1.(log := h1.log + [Abort(h1.cursor.value.txn)], cursor := None)
                else h1;
      Step(Ok(()), h2.(keyBuf := None, valBuf := None, foldBuf := None))
  }
}
