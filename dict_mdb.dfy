/** The DICT_MDB handle as an object: each operation changes its fields step
    by step, as dict_mdb.c does, and is proved to do what the matching
    function of DictMdbSpec says. */
module DictMdb {
  import opened CStrings
  import opened MdbEngine
  import opened DictMdbSpec
  import DictMdbProps

  class MdbDict {
    /** Fixed at open. */
    const mdbPath: string
    const readOnly: bool
    const fold: bool
    const dup: DupPolicy
    const noTrailingNull: bool

    /** DICT_FLAG_TRY1NULL and DICT_FLAG_TRY0NULL. */
    var try1null: bool
    var try0null: bool
    /** The write transaction kept after an O_TRUNC open. */
    var txn: Option<Txn>
    /** The sequence cursor and, inside it, its read transaction. */
    var cursor: Option<Cursor>
    /** The committed contents of the file, and the engine's transactions. */
    var disk: Store
    var log: seq<TxnEvent>
    /** key_buf, val_buf and fold_buf; None before the first use. */
    var keyBuf: Option<Bytes>
    var valBuf: Option<Bytes>
    var foldBuf: Option<Bytes>

    /** The handle as a value. */
    function State(): Handle
      reads this
    {
      Handle(Config(mdbPath, readOnly, fold, dup, noTrailingNull), try1null, try0null,
             txn, cursor, disk, log, keyBuf, valBuf, foldBuf)
    }

    ghost predicate Valid()
      reads this
    {
      Inv(State())
    }

    /** The field setting at the end of dict_mdb_open. */
    constructor (mdbPath: string, readOnly: bool, df: DictFlags, noTrailingNull: bool,
                 txn: Option<Txn>, disk: Store, log: seq<TxnEvent>)
      ensures State() == Handle(Config(mdbPath, readOnly, df.foldFix, Policy(df), noTrailingNull),
                                df.try1null || !df.try0null, df.try0null || !df.try1null,
                                txn, None, disk, log, None, None,
                                if df.foldFix then Some([]) else None)
    {
      this.mdbPath := mdbPath;
      this.readOnly := readOnly;
      this.fold := df.foldFix;
      this.dup := Policy(df);
      this.noTrailingNull := noTrailingNull;
      try1null, try0null := df.try1null, df.try0null;
      if !df.try0null && !df.try1null {
        try0null, try1null := true, true;
      }
      foldBuf := if df.foldFix then Some([]) else None;
      this.txn := txn;
      cursor := None;
      this.disk := disk;
      this.log := log;
      keyBuf, valBuf := None, None;
    }

    /** dict_mdb_open over a file whose committed contents are `existing`. */
    static method Open(path: string, openFlags: bv32, df: DictFlags, existing: Store,
                       noTrailingNull: bool, f: Faults) returns (r: Outcome<MdbDict>)
      ensures var spec := DictMdbSpec.Open(path, openFlags, df, existing, noTrailingNull, f);
        && (r.Ok? <==> spec.Ok?) && (r.Fatal? <==> spec.Fatal?)
        && (r.Ok? ==> fresh(r.value) && r.value.State() == spec.value && r.value.Valid())
    {
      var mdbPath := path + ".mdb";
      var envReadOnly := openFlags == O_RDONLY;
      if f.txnBegin {
        return Fatal;
      }
      var openLog := [Begin(0, envReadOnly)];
      var ambient: Option<Txn>;
      if openFlags & O_TRUNC != 0 {
        if f.data {
          return Fatal;
        }
        ambient := Some(Txn(0, map[]));
      } else {
        openLog := openLog + [Abort(0)];
        ambient := None;
      }
      var d := new MdbDict(mdbPath, envReadOnly, df, noTrailingNull, ambient, existing, openLog);
      DictMdbProps.OpenEstablishesInv(path, openFlags, df, existing, noTrailingNull, f);
      r := Ok(d);
    }

    /** The fold step shared by lookup, update and delete: under FOLD_FIX
        the key is copied into the fold buffer and lower-cased there. */
    method FoldKey(name: Bytes) returns (key: Bytes)
      modifies this
      ensures key == Key(State().cfg, name)
      ensures State() == old(State()).(foldBuf := FoldBuf(old(State()), name))
    {
      key := name;
      if fold {
        key := Lower(name);
        foldBuf := Some(key);
      }
    }

    /** dict_mdb_lookup. */
    method Lookup(name: CString, f: Faults) returns (r: Outcome<Option<Bytes>>)
      modifies this
      ensures Completes(DictMdbSpec.Lookup(old(State()), name, f), r, old(State()), State())
      ensures old(Valid()) && r.Ok? ==> Valid()
    {
      ghost var h := State();
      r := LookupSteps(name, f);
      if old(Valid()) && r.Ok? {
        DictMdbProps.LookupKeepsInv(h, name, f);
      }
    }

    /** The statements of dict_mdb_lookup. */
    method LookupSteps(name: CString, f: Faults) returns (r: Outcome<Option<Bytes>>)
      modifies this
      ensures Completes(DictMdbSpec.Lookup(old(State()), name, f), r, old(State()), State())
    {
      if !try1null && !try0null {
        return Panic;
      }
      var key := FoldKey(name);
      var id := |log|;
      var view: Store;
      if txn.Some? {
        view := txn.value.view;
      } else {
        if f.txnBegin {
          return Fatal;
        }
        log := log + [Begin(id, true)];
        view := disk;
      }
      var result: Option<Bytes> := None;
      if try1null {
        var (status, data) := Get(view, WithNul(key), f.data);
        if status == MDB_SUCCESS {
          try0null := false;
          valBuf := Some(UpToNul(data));
          result := valBuf;
        }
      }
      if result.None? && try0null {
        var (status, data) := Get(view, key, f.plainProbe);
        if status == MDB_SUCCESS {
          try1null := false;
          valBuf := Some(UpToNul(data));
          result := valBuf;
        }
      }
      if txn.None? {
        log := log + [Abort(id)];
      }
      r := Ok(result);
    }

    /** Update's choice of one encoding when both are still possible. */
    method SettleEncoding()
      requires try1null || try0null
      modifies this
      ensures var t := Settled(old(State()));
        State() == old(State()).(try1null := t.0, try0null := t.1)
    {
      if try1null && try0null {
        if noTrailingNull {
          try1null := false;
        } else {
          try0null := false;
        }
      }
    }

    /** dict_mdb_update. */
    method Update(name: CString, value: CString, f: Faults) returns (r: Outcome<UpdateResult>)
      modifies this
      ensures Completes(DictMdbSpec.Update(old(State()), name, value, f), r, old(State()), State())
      ensures old(Valid()) && r.Ok? ==> Valid()
    {
      ghost var h := State();
      r := UpdateSteps(name, value, f);
      if old(Valid()) && r.Ok? {
        DictMdbProps.UpdateKeepsInv(h, name, value, f);
      }
    }

    /** The statements of dict_mdb_update. */
    method UpdateSteps(name: CString, value: CString, f: Faults) returns (r: Outcome<UpdateResult>)
      modifies this
      ensures Completes(DictMdbSpec.Update(old(State()), name, value, f), r, old(State()), State())
    {
      if !try1null && !try0null {
        return Panic;
      }
      var key := FoldKey(name);
      SettleEncoding();
      var mkey, mval := key, value;
      if try1null {
        mkey, mval := WithNul(mkey), WithNul(mval);
      }
      var id := |log|;
      var view: Store;
      if txn.Some? {
        view := txn.value.view;
      } else {
        if f.txnBegin || readOnly {
          return Fatal;
        }
        log := log + [Begin(id, false)];
        view := disk;
      }
      var (status, written) := Put(view, mkey, mval, dup != DupReplace, f.data);
      var warned := false;
      if status != MDB_SUCCESS {
        if status == MDB_KEYEXIST {
          if dup == DupIgnore {
          } else if dup == DupWarn {
            warned := true;
          } else {
            return Fatal;
          }
        } else {
          return Fatal;
        }
      }
      if txn.Some? {
        txn := Some(txn.value.(view := written));
      } else {
        if f.txnCommit {
          return Fatal;
        }
        disk := written;
        log := log + [Commit(id)];
        status := MDB_SUCCESS;
      }
      r := Ok(UpdateResult(status, warned));
    }

    /** dict_mdb_delete. */
    method Delete(name: CString, f: Faults) returns (r: Outcome<int>)
      modifies this
      ensures Completes(DictMdbSpec.Delete(old(State()), name, f), r, old(State()), State())
      ensures old(Valid()) && r.Ok? ==> Valid()
    {
      ghost var h := State();
      r := DeleteSteps(name, f);
      if old(Valid()) && r.Ok? {
        DictMdbProps.DeleteKeepsInv(h, name, f);
      }
    }

    /** The statements of dict_mdb_delete; `status` starts at 1 and is
        overwritten by a private transaction's begin. */
    method DeleteSteps(name: CString, f: Faults) returns (r: Outcome<int>)
      modifies this
      ensures Completes(DictMdbSpec.Delete(old(State()), name, f), r, old(State()), State())
    {
      var status := 1;
      if !try1null && !try0null {
        return Panic;
      }
      var key := FoldKey(name);
      var id := |log|;
      var view: Store;
      if txn.Some? {
        view := txn.value.view;
      } else {
        if f.txnBegin || readOnly {
          return Fatal;
        }
        status := 0;
        log := log + [Begin(id, false)];
        view := disk;
      }
      if try1null {
        var (st, rest) := Del(view, WithNul(key), f.data);
        status := st;
        if status != MDB_SUCCESS {
          if status == MDB_NOTFOUND {
            status := 1;
          } else {
            return Fatal;
          }
        } else {
          view := rest;
          try0null := false;
        }
      }
      if status > 0 && try0null {
        var (st, rest) := Del(view, key, f.plainProbe);
        status := st;
        if status != MDB_SUCCESS {
          if status == MDB_NOTFOUND {
            status := 1;
          } else {
            return Fatal;
          }
        } else {
          view := rest;
          try1null := false;
        }
      }
      if txn.Some? {
        txn := Some(txn.value.(view := view));
      } else {
        if f.txnCommit {
          return Fatal;
        }
        disk := view;
        log := log + [Commit(id)];
      }
      r := Ok(status);
    }

    /** The start of a traversal: with no cursor, begin a read transaction
        and open a cursor in it over `snap`. */
    method OpenCursor(snap: seq<Entry>, f: Faults) returns (ok: bool)
      modifies this
      ensures ok <==> old(cursor).Some? || (!f.txnBegin && !f.data)
      ensures ok ==> State() == old(State()).(cursor := Some(CursorFor(old(State()), snap)),
                                               log := if old(cursor).Some? then old(log)
                                                      else old(log) + [Begin(|old(log)|, true)])
      ensures disk == old(disk)
    {
      ok := true;
      if cursor.None? {
        if f.txnBegin {
          return false;
        }
        var id := |log|;
        log := log + [Begin(id, true)];
        if f.data {
          return false;
        }
        cursor := Some(Cursor(id, snap, 0));
      }
    }

    /** dict_mdb_sequence. `snap` is what the engine's cursor walks over
        when a read transaction is begun in this call: every committed
        entry, in the engine's order. */
    method Sequence(code: int, snap: seq<Entry>, f: Faults) returns (r: Outcome<SeqItem>)
      requires cursor.None? ==> IsEnumeration(snap, disk)
      modifies this
      ensures Completes(DictMdbSpec.Sequence(old(State()), code, snap, f), r, old(State()), State())
      ensures old(Valid()) && r.Ok? ==> Valid()
    {
      ghost var h := State();
      r := SequenceSteps(code, snap, f);
      if old(Valid()) && r.Ok? {
        DictMdbProps.SequenceKeepsInv(h, code, snap, f);
      }
    }

    /** The statements of dict_mdb_sequence. */
    method SequenceSteps(code: int, snap: seq<Entry>, f: Faults) returns (r: Outcome<SeqItem>)
      modifies this
      ensures Completes(DictMdbSpec.Sequence(old(State()), code, snap, f), r, old(State()), State())
    {
      var op: CursorOp;
      if code == DICT_SEQ_FUN_FIRST {
        op := MdbFirst;
      } else if code == DICT_SEQ_FUN_NEXT {
        op := MdbNext;
      } else {
        return Panic;
      }
      var ok := OpenCursor(snap, f);
      if !ok {
        return Fatal;
      }
      var (status, e, moved) := CursorGet(cursor.value, op, f.data);
      if status != MDB_SUCCESS && status != MDB_NOTFOUND {
        return Fatal;
      }
      if status == MDB_NOTFOUND {
        log := log + [Abort(cursor.value.txn)];
        cursor := None;
        r := Ok(End);
      } else {
        cursor := Some(moved);
        keyBuf := Some(UpToNul(e.key));
        var v: Option<Bytes> := None;
        if |e.val| > 0 {
          valBuf := Some(UpToNul(e.val));
          v := valBuf;
        }
        r := Ok(Hit(keyBuf.value, v));
      }
    }

    /** dict_mdb_lock: the engine does its own concurrency control. */
    method Lock(op: int) returns (r: int)
      ensures r == 0
    {
      r := 0;
    }

    /** dict_mdb_close. */
    method Close(f: Faults) returns (r: Outcome<()>)
      modifies this
      ensures Completes(DictMdbSpec.Close(old(State()), f), r, old(State()), State())
      ensures old(Valid()) && r.Ok? ==>
        Pending(log) == if old(txn).Some? && old(cursor).Some? then {old(cursor).value.txn} else {}
    {
      ghost var h := State();
      if txn.Some? {
        if f.txnCommit {
          return Fatal;
        }
        disk := txn.value.view;
        log := log + [Commit(txn.value.id)];
        txn := None;
        cursor := None;
      }
      if cursor.Some? {
        log := log + [Abort(cursor.value.txn)];
        cursor := None;
      }
      keyBuf, valBuf, foldBuf := None, None, None;
      r := Ok(());
      if old(Valid()) {
        DictMdbProps.CloseReleases(h, f);
      }
    }
  }
}
