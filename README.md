# dict_mdb: the Postfix dictionary adapter over an MDB store, in Dafny

Postfix reaches its indexed lookup tables through a generic dictionary
interface (lookup, update, delete, sequence, lock, close). `dict_mdb` adapts
that interface to an MDB (LMDB) environment. This project models the adapter
and proves properties of the model. The engine underneath is a finite map
from byte strings to byte strings, together with the statuses its calls
return.

What the model covers:

- **Encoding resolver.** A table holds its keys and values either with one
  trailing NUL byte or without one. The handle carries two flags,
  `try1null` and `try0null`, saying which forms are still possible.
  - Lookup and delete probe the terminated form first, then the plain form.
  - A hit clears the other flag for good.
  - The first update made while both flags are set keeps one of them. The
    default build keeps the terminated form. The build switch
    `MDB_NO_TRAILING_NULL` is a configuration parameter.
- **Transaction scope.** An open with `O_TRUNC` drops all entries and keeps
  its write transaction as the ambient transaction until close. Without one,
  each operation uses a private transaction:
  - lookup begins a read transaction and aborts it;
  - update and delete begin a write transaction and commit it.

  The engine's transactions are recorded as a log of begin, commit and abort
  events. The handle invariant says that the transactions left pending are
  exactly those the handle holds.
- **Duplicate policy.**
  - Without REPLACE, the put is strict: it fails with KEYEXIST rather than
    overwrite.
  - A collision is then ignored, warned about, or fatal, depending on the
    policy.
  - Any other engine error ends the process.
- **Sequence.** The handle has three states: no cursor, cursor open, and
  exhausted. Exhausted closes the cursor, aborts the cursor's own read
  transaction, and returns to no cursor.

Three behaviours of the code are modelled as written, and each has a lemma
that exhibits it:

- Delete in a private transaction starts from the begin call's status 0. With
  only `try0null` set, the plain probe is skipped, so delete reports success
  and removes nothing (`DeleteQuirkKeepsEntry`).
- Sequence always begins a fresh read transaction over the committed store,
  even beside the ambient transaction. Right after an `O_TRUNC` open it
  therefore still shows the dropped entries
  (`TruncatedOpenTraversalSeesOldEntries`).
- Close with the ambient transaction commits it and forgets the cursor
  without aborting the cursor's transaction (`CloseReleases`,
  `CloseCommitsAmbient`).

Two consequences of the code for duplicates:

- Under WARN the old value stays. The put at src/util/dict_mdb.c:220-221 is
  NOOVERWRITE unless REPLACE is set, and a KEYEXIST under WARN only logs a
  warning (line 227).
- Inside a private transaction, update returns the commit's status, which is
  0 (lines 238-241). An ignored or warned duplicate is therefore reported as 0.
  Only the ambient transaction returns KEYEXIST.

Engine failures that the abstract store cannot explain come in as a `Faults`
value with four switches:
- a transaction begin fails;
- a commit fails;
- the plain-form probe of lookup or delete fails;
- the operation's other data calls fail (the terminated-form probe, the put,
  the truncating drop, the cursor open and the cursor get).

This makes every fatal branch reachable. Lookup ignores a failing get
(src/util/dict_mdb.c:126-127). A failing terminated probe therefore falls
through to the plain probe, and a hit there fixes the handle on the plain
form (`LookupFallsThroughOnError`).

Names and values passed in are C strings (`CString`), as `strlen` measures
them. A fatal or panic
outcome ends the process, so after one only the committed store matters.

Layout:

- `cstrings.dfy` (`CStrings`): bytes, C strings, SCOPY as `UpToNul`, and
  ASCII case folding.
- `mdb_engine.dfy` (`MdbEngine`):
  - the store;
  - the status codes (`MDB_KEYEXIST` = -30799, `MDB_NOTFOUND` = -30798);
  - get, put, del and cursor get;
  - the transaction log.
- `dict_mdb_spec.dfy` (`DictMdbSpec`): the handle as a value, and one
  function per operation from the handle before the call to its outcome and
  the handle after it.
- `dict_mdb_props.dfy` (`DictMdbProps`): lemmas about those functions.
- `dict_mdb.dfy` (`DictMdb`): the class `MdbDict`. Its fields are the
  handle's fields, and its methods change them statement by statement as the
  C functions do.
  - Each operation's method, for example `Lookup`, calls a `…Steps` method
    that carries the statements of the C function.
  - Each `…Steps` method is proved to complete the specification function:
    same outcome and, unless the process ended, the state the function
    gives. If the process ended, only the committed store is promised
    unchanged.
  - The outer method adds that the class invariant `Valid()` is kept, by the
    matching lemma.

## Model

| member | source | states |
|---|---|---|
| CStrings.UpToNul | src/util/dict_mdb.c:75-76 | SCOPY's result is a C string and a prefix of the engine's bytes, ending at the first NUL or at the end |
| CStrings.UpToNulOfCString | src/util/dict_mdb.c:75-76 | copying a C string, with or without its terminator, gives the C string back |
| CStrings.Lower | src/util/dict_mdb.c:104-109 | folding keeps the length, leaves no upper-case byte, and keeps a C string a C string |
| CStrings.LowerIdempotent | src/util/dict_mdb.c:104-109 | folding a folded key changes nothing |
| MdbEngine.Get | src/util/dict_mdb.c:126 | mdb_get succeeds exactly when the key is stored and there is no engine fault, returning the stored bytes; otherwise NOTFOUND, or an error on a fault |
| MdbEngine.Put | src/util/dict_mdb.c:220-221 | mdb_put with NOOVERWRITE returns KEYEXIST and changes nothing when the key is present; otherwise it binds the key; an engine fault changes nothing |
| MdbEngine.Del | src/util/dict_mdb.c:287 | mdb_del removes exactly the key when present, otherwise NOTFOUND with the store unchanged |
| MdbEngine.CursorGet | src/util/dict_mdb.c:367 | MDB_FIRST reads position 0 and MDB_NEXT the cursor's position; success advances the cursor past that entry, past the end is NOTFOUND |
| MdbEngine.PendingAfterBegin | src/util/dict_mdb.c:116 | beginning a transaction adds exactly it to the pending ones |
| MdbEngine.PendingAfterEnd | src/util/dict_mdb.c:151 | committing or aborting a transaction removes exactly it from the pending ones |
| DictMdbSpec.Policy | src/util/dict_mdb.c:220-229 | REPLACE decides the put mode; on a collision IGNORE is tested before WARN, and with neither the collision is fatal |
| DictMdbSpec.Key | src/util/dict_mdb.c:104-109 | the probed key is the name lower-cased under FOLD_FIX and the name itself otherwise, of the same length and still a C string |
| DictMdbSpec.Settled | src/util/dict_mdb.c:192-199 | update leaves exactly one encoding flag, one that was set; with both set, the terminated form is kept unless MDB_NO_TRAILING_NULL |
| DictMdbSpec.Encode | src/util/dict_mdb.c:204-207 | when the terminated form is settled, the key and the value each grow by one trailing NUL byte, their old bytes unchanged; otherwise they are stored as given |
| DictMdbSpec.ItemOf | src/util/dict_mdb.c:383-394 | a sequence hit returns the key as SCOPY copies it, and the value copied the same way exactly when the stored value is not empty |
| DictMdbSpec.Open | src/util/dict_mdb.c:439-533 | only a failed begin or truncate is fatal; the path gets ".mdb"; read-only exactly for O_RDONLY; an ambient transaction with an empty view exactly for O_TRUNC; the duplicate policy derived from the flags; the caller's encoding flags when given and both when neither was; no cursor and no key or value buffer |
| DictMdbSpec.Lookup | src/util/dict_mdb.c:83-154 | panic with no flag, fatal only on a failed private begin; the terminated key is tried before the plain one, and a probe whose get fails counts as a miss; a terminated hit keeps only try1null, a plain hit only try0null, a miss returns none and keeps both flags; a hit returns a C string and fills the value buffer; the ambient transaction is used, otherwise a private read transaction is begun and aborted |
| DictMdbSpec.Update | src/util/dict_mdb.c:158-242 | fatal exactly on a failed private begin or a read-only environment, an engine fault, a collision under the fatal policy, or a failed commit; otherwise the flags settle on one encoding and the visible store gains exactly the encoded entry unless the key collides (then it is unchanged); status is KEYEXIST only for a collision in the ambient transaction, 0 otherwise; a warning exactly for a collision under WARN; the ambient transaction keeps the write, a private one is committed |
| DictMdbSpec.Delete | src/util/dict_mdb.c:246-323 | fatal exactly on a failed private begin or a read-only environment, a fault in a probe that runs, or a failed commit; a terminated hit removes that key and keeps only try1null; a plain hit removes the plain key and keeps only try0null; otherwise nothing changes; the result is 1 exactly when every probe that ran missed, else 0, and the plain probe runs only as the begin status allows |
| DictMdbSpec.Sequence | src/util/dict_mdb.c:327-398 | panic exactly for a code other than FIRST and NEXT; fatal exactly on a failed begin of a new cursor or an engine fault; a new cursor over the committed store is owned by a read transaction begun now; a hit returns the entry at the position with status 0 and advances the cursor; past the end it returns End with status 1, drops the cursor and aborts its transaction |
| DictMdbSpec.Close | src/util/dict_mdb.c:410-435 | fatal exactly when committing the ambient transaction fails; the ambient transaction's contents become the file's and the cursor is forgotten without abort; otherwise an open cursor's transaction is aborted; all buffers released |
| DictMdbProps.OpenEstablishesInv | src/util/dict_mdb.c:467-488 | an opened handle satisfies the invariant; with O_TRUNC the open's transaction is the one pending, otherwise none is |
| DictMdbProps.LookupKeepsInv | src/util/dict_mdb.c:114-151 | lookup keeps the invariant: its private read transaction is begun and aborted |
| DictMdbProps.UpdateKeepsInv | src/util/dict_mdb.c:192-241 | update keeps the invariant: a flag stays set, and a private write transaction is begun and committed |
| DictMdbProps.DeleteKeepsInv | src/util/dict_mdb.c:275-322 | delete keeps the invariant: a flag stays set, and a private write transaction is begun and committed |
| DictMdbProps.SequenceKeepsInv | src/util/dict_mdb.c:357-380 | sequence keeps the invariant: the cursor is owned by the read transaction begun for it, and the end aborts exactly that transaction |
| DictMdbProps.CloseReleases | src/util/dict_mdb.c:414-424 | after close no transaction is pending, except the cursor's when close committed the ambient transaction |
| DictMdbProps.RunKeepsInv | src/util/dict_mdb.c:515-517 | over any series of calls the process survives, the invariant holds, so at least one encoding flag stays set, and the flags only ever narrow |
| DictMdbProps.LookupHitFixesWriteEncoding | src/util/dict_mdb.c:123-145 | after a lookup hit every later update writes in the encoding that matched |
| DictMdbProps.LookupFallsThroughOnError | src/util/dict_mdb.c:123-142 | with both flags set, a failing terminated probe is a miss: lookup goes on to the plain probe, returns the stored value and keeps only try0null |
| DictMdbProps.UpdateThenLookup | src/util/dict_mdb.c:204-221 | after an update of a C-string value that stored a new key (or replaced one), a fault-free lookup of the same name returns exactly that value |
| DictMdbProps.CollisionKeepsOldValue | src/util/dict_mdb.c:220-229 | a collision the process survives happened under IGNORE or WARN, left the store unchanged, and lookup still returns the old value |
| DictMdbProps.FoldedNamesCollide | src/util/dict_mdb.c:104-109 | under FOLD_FIX, names with the same folded form behave identically in lookup, update and delete |
| DictMdbProps.FoldedNameIsCanonical | src/util/dict_mdb.c:104-109 | under FOLD_FIX a name and its lower-cased form give identical lookup, update and delete steps |
| DictMdbProps.EncodingsNeverCollide | src/util/dict_mdb.c:123-140 | the terminated key of one C-string name is never the plain key of another, so the two encodings never read each other's entries |
| DictMdbProps.LookupMissIsStable | src/util/dict_mdb.c:137-153 | a lookup miss changes neither flags nor contents, and asking again misses again |
| DictMdbProps.DeleteThenLookupMisses | src/util/dict_mdb.c:284-314 | when the terminated probe runs, or the ambient transaction is in use, lookup misses the name after delete |
| DictMdbProps.DeleteQuirkKeepsEntry | src/util/dict_mdb.c:277 | with a private transaction and only try0null set, delete returns 0, removes nothing, and lookup still finds the entry |
| DictMdbProps.TruncatedOpenStartsEmpty | src/util/dict_mdb.c:482-484 | after an O_TRUNC open lookup finds nothing, and close commits an empty table |
| DictMdbProps.TruncatedOpenTraversalSeesOldEntries | src/util/dict_mdb.c:357-362 | after an O_TRUNC open of a non-empty file, FIRST returns a dropped entry that lookup no longer sees |
| DictMdbProps.CloseCommitsAmbient | src/util/dict_mdb.c:414-419 | closing with the ambient transaction commits its contents and leaves the cursor's transaction pending |
| DictMdbProps.NextOnCursor | src/util/dict_mdb.c:367-392 | NEXT on an open cursor returns the entry at its position and advances, or past the last entry returns End, drops the cursor and aborts its transaction |
| DictMdbProps.WalkRest | src/util/dict_mdb.c:367-397 | from an open cursor, repeated NEXT returns the remaining entries in order, then End, and closes the cursor |
| DictMdbProps.WalkFromFirst | src/util/dict_mdb.c:357-397 | FIRST and then NEXT over a new cursor return every entry of the snapshot in order, then End, with one read transaction begun and aborted |
| DictMdbProps.TraversalComplete | src/util/dict_mdb.c:371-379 | over a store of N entries, FIRST then NEXT yield exactly N entries then End, leave no cursor and no new pending transaction, and change neither the store nor the ambient transaction |
| DictMdb.MdbDict.constructor | src/util/dict_mdb.c:515-528 | the handle's fields after open: the flags defaulted to both when neither is given, the fold buffer under FOLD_FIX, no cursor and no key or value buffer |
| DictMdb.MdbDict.Open | src/util/dict_mdb.c:439-533 | opening gives the outcome and the handle of the specification of open, as a fresh object satisfying the invariant |
| DictMdb.MdbDict.FoldKey | src/util/dict_mdb.c:104-109 | the key used is the folded name under FOLD_FIX, with the fold buffer refilled; nothing else changes |
| DictMdb.MdbDict.SettleEncoding | src/util/dict_mdb.c:192-199 | the flags become the settled pair; nothing else changes |
| DictMdb.MdbDict.Lookup | src/util/dict_mdb.c:83-154 | completes the specification of lookup and keeps the invariant |
| DictMdb.MdbDict.LookupSteps | src/util/dict_mdb.c:83-154 | the statements of lookup complete its specification: outcome and new state |
| DictMdb.MdbDict.Update | src/util/dict_mdb.c:158-242 | completes the specification of update and keeps the invariant |
| DictMdb.MdbDict.UpdateSteps | src/util/dict_mdb.c:158-242 | the statements of update complete its specification: outcome and new state |
| DictMdb.MdbDict.Delete | src/util/dict_mdb.c:246-323 | completes the specification of delete and keeps the invariant |
| DictMdb.MdbDict.DeleteSteps | src/util/dict_mdb.c:246-323 | the statements of delete complete its specification: outcome and new state |
| DictMdb.MdbDict.OpenCursor | src/util/dict_mdb.c:357-362 | with no cursor, a read transaction is begun and a cursor over the snapshot opened in it; fails exactly when the begin or the cursor open fails |
| DictMdb.MdbDict.Sequence | src/util/dict_mdb.c:327-398 | completes the specification of sequence and keeps the invariant |
| DictMdb.MdbDict.SequenceSteps | src/util/dict_mdb.c:327-398 | the statements of sequence complete its specification: outcome and new state |
| DictMdb.MdbDict.Lock | src/util/dict_mdb.c:402-406 | locking is a no-op that returns 0 |
| DictMdb.MdbDict.Close | src/util/dict_mdb.c:410-435 | completes the specification of close; from a valid handle, no transaction is left pending except the cursor's after an ambient commit |

## Left out

- The storage engine itself is a map. This leaves out environment creation, map size, reader limits, MVCC snapshots and page layout. The failures of `mdb_env_create`, `mdb_env_set_mapsize`, `mdb_env_set_maxreaders`, `mdb_env_open` and `mdb_open` at open (src/util/dict_mdb.c:455-475) are not modelled; only the open's transaction begin and the truncate can fail.
- The order in which a cursor walks the store is a parameter (`snap`), required to list every committed entry once.
- The staleness report is left out: the `open`, `fstat` and `stat` of the files, the mtime and owner capture, the "older than source file" warning based on `time()`, `close_on_exec` and the `stat_fd` close. These are file system and clock I/O.
- Memory management is left out: `vstring_alloc`/`vstring_free`, `dict_alloc`/`dict_free`, `myfree` and `DICT_DEBUG`. The buffers are optional byte sequences.
- The text of warnings, fatal errors and panics, and `mdb_strerror`, are left out. Fatal and panic are outcomes, and a warning is a boolean in update's result.
- `dict->error` is not modelled: every operation sets it to 0 and nothing here reads it.
- Use of a handle after close, and the handle's state after a fatal or panic outcome, are not modelled; the process has ended.
- Cross-process concurrency is delegated to the engine and left out.
- src/global/mkmap_mdb.c is configuration glue and is not part of this model, including its reader limit of twice the process limit plus 16. src/util/dict_mdb.h holds declarations only.
- CStrings.Lower: lowercase() is modelled as ASCII folding in the C locale; lowercase.c is not part of this model.
- dict.h is not part of this model. The dictionary flags are a record of booleans, and the sequence codes FIRST and NEXT are 0 and 1. `O_RDONLY` and `O_TRUNC` take their Linux values, 0 and 0x200.
- Engine statuses other than success, NOTFOUND and KEYEXIST all appear as one code, standing for any engine error.
- A read-only environment refuses to begin a write transaction, so update and delete there are fatal. This is how LMDB behaves, not code in this file.
- Data calls that end the process on any error share one fault switch: delete's terminated probe, update's put, open's drop, and sequence's cursor open and cursor get. Each such failure is fatal, so which of them failed is not observable.
