/**
 * A block of data transactions: the flags given to its transactions, the updates collected from the valid ones, and
 * the equality of the batch commit with executing the valid transactions one after another.
 */
module SerialBlock {
  import opened Basics
  import opened WorldState
  import opened DataValidation

  ghost function TxWrites(tx: DataTx): set<Loc> {
    set i, loc | 0 <= i < |tx| && loc in WriteLocs(tx[i]) :: loc
  }

  ghost function TxDeletes(tx: DataTx): set<Loc> {
    set i, loc | 0 <= i < |tx| && loc in DeleteLocs(tx[i]) :: loc
  }

  /** What the valid transactions among the first |flags| write and delete. */
  ghost function PendingWrites(txs: seq<DataTx>, flags: seq<Flag>): set<Loc>
    requires |flags| <= |txs|
  {
    if flags == [] then {}
    else
      var n := |flags| - 1;
      PendingWrites(txs, flags[..n]) + (if flags[n] == VALID then TxWrites(txs[n]) else {})
  }

  ghost function PendingDeletes(txs: seq<DataTx>, flags: seq<Flag>): set<Loc>
    requires |flags| <= |txs|
  {
    if flags == [] then {}
    else
      var n := |flags| - 1;
      PendingDeletes(txs, flags[..n]) + (if flags[n] == VALID then TxDeletes(txs[n]) else {})
  }

  ghost function Pending(txs: seq<DataTx>, flags: seq<Flag>): set<Loc>
    requires |flags| <= |txs|
  {
    PendingWrites(txs, flags) + PendingDeletes(txs, flags)
  }

  /** The n-th flag: the signature check's, unless that passed; then by the data and what is pending. */
  ghost predicate Judged(
    env: Env, data: Data, txs: seq<DataTx>, sigFlags: seq<Flag>, signers: seq<seq<string>>, flags: seq<Flag>, n: nat)
    requires n < |flags| <= |txs| && |sigFlags| == |signers| == |txs|
  {
    if sigFlags[n] != VALID then flags[n] == sigFlags[n]
    else flags[n] == VALID <==>
      TxAlone(env, data, signers[n], txs[n]) && TxTouched(txs[n]) !! Pending(txs, flags[..n])
  }

  ghost predicate AllJudged(
    env: Env, data: Data, txs: seq<DataTx>, sigFlags: seq<Flag>, signers: seq<seq<string>>, flags: seq<Flag>)
  {
    && |flags| <= |txs| && |sigFlags| == |signers| == |txs|
    && forall n :: 0 <= n < |flags| ==> Judged(env, data, txs, sigFlags, signers, flags, n)
  }

  method RecordOp(op: DBOperation, pending: PendingOperations, ghost writes: set<Loc>, ghost deletes: set<Loc>)
    requires pending.Records(writes, deletes) && ValidDBName(op.dbName) && NoNil(op)
    modifies pending
    ensures pending.Records(writes + WriteLocs(op), deletes + DeleteLocs(op))
  {
    ghost var w, d := writes, deletes;
    for i := 0 to |op.dataWrites|
      invariant pending.Records(w, deletes)
      invariant w == writes + set k | 0 <= k < i :: (op.dbName, op.dataWrites[k].value.key)
    {
      pending.AddWrite(op.dbName, op.dataWrites[i].value.key, w, deletes);
      w := w + {(op.dbName, op.dataWrites[i].value.key)};
    }
    assert w == writes + WriteLocs(op);
    for i := 0 to |op.dataDeletes|
      invariant pending.Records(w, d)
      invariant d == deletes + set k | 0 <= k < i :: (op.dbName, op.dataDeletes[k].value)
    {
      pending.AddDelete(op.dbName, op.dataDeletes[i].value, w, d);
      d := d + {(op.dbName, op.dataDeletes[i].value)};
    }
    assert d == deletes + DeleteLocs(op);
  }

  method RecordTx(tx: DataTx, pending: PendingOperations, ghost writes: set<Loc>, ghost deletes: set<Loc>)
    requires pending.Records(writes, deletes)
    requires forall i :: 0 <= i < |tx| ==> ValidDBName(tx[i].dbName) && NoNil(tx[i])
    modifies pending
    ensures pending.Records(writes + TxWrites(tx), deletes + TxDeletes(tx))
  {
    for i := 0 to |tx|
      invariant pending.Records(writes + TxWrites(tx[..i]), deletes + TxDeletes(tx[..i]))
    {
      RecordOp(tx[i], pending, writes + TxWrites(tx[..i]), deletes + TxDeletes(tx[..i]));
      TxLocsStep(tx, i, writes, deletes);
    }
    assert tx[..|tx|] == tx;
  }

  lemma TxLocsSnoc(tx: DataTx, op: DBOperation)
    ensures TxWrites(tx + [op]) == TxWrites(tx) + WriteLocs(op)
    ensures TxDeletes(tx + [op]) == TxDeletes(tx) + DeleteLocs(op)
    ensures TxTouched(tx + [op]) == TxTouched(tx) + Touched(op)
  {
    var t := tx + [op];
    assert t[|tx|] == op && forall i :: 0 <= i < |tx| ==> t[i] == tx[i];
    assert forall loc :: loc in WriteLocs(op) ==> loc in WriteLocs(t[|tx|]);
    assert forall loc :: loc in DeleteLocs(op) ==> loc in DeleteLocs(t[|tx|]);
    assert forall loc :: loc in Touched(op) ==> loc in Touched(t[|tx|]);
  }

  lemma TxLocsStep(tx: DataTx, i: nat, writes: set<Loc>, deletes: set<Loc>)
    requires i < |tx|
    ensures writes + TxWrites(tx[..i + 1]) == writes + TxWrites(tx[..i]) + WriteLocs(tx[i])
    ensures deletes + TxDeletes(tx[..i + 1]) == deletes + TxDeletes(tx[..i]) + DeleteLocs(tx[i])
  {
    TxLocsSnoc(tx[..i], tx[i]);
    assert tx[..i] + [tx[i]] == tx[..i + 1];
  }

  method ValidateBlock(env: Env, data: Data, txs: seq<DataTx>, sigFlags: seq<Flag>, signers: seq<seq<string>>)
    returns (flags: seq<Flag>)
    requires |sigFlags| == |signers| == |txs|
    ensures |flags| == |txs| && AllJudged(env, data, txs, sigFlags, signers, flags)
  {
    var pending := new PendingOperations();
    flags := [];
    for n := 0 to |txs|
      invariant |flags| == n && AllJudged(env, data, txs, sigFlags, signers, flags)
      invariant fresh(pending) && pending.Records(PendingWrites(txs, flags), PendingDeletes(txs, flags))
    {
      ghost var w, d := PendingWrites(txs, flags), PendingDeletes(txs, flags);
      var f := sigFlags[n];
      if f == VALID {
        f := Validate(env, data, signers[n], txs[n], pending, w, d);
        if f == VALID {
          RecordTx(txs[n], pending, w, d);
        }
      }
      JudgedSnoc(env, data, txs, sigFlags, signers, flags, f);
      flags := flags + [f];
      assert flags[..n] + [f] == flags;
    }
  }

  lemma JudgedSnoc(
    env: Env, data: Data, txs: seq<DataTx>, sigFlags: seq<Flag>, signers: seq<seq<string>>, flags: seq<Flag>, f: Flag)
    requires AllJudged(env, data, txs, sigFlags, signers, flags) && |flags| < |txs|
    requires
      var n := |flags|;
      if sigFlags[n] != VALID then f == sigFlags[n]
      else f == VALID <==> TxAlone(env, data, signers[n], txs[n]) && TxTouched(txs[n]) !! Pending(txs, flags)
    ensures AllJudged(env, data, txs, sigFlags, signers, flags + [f])
    ensures PendingWrites(txs, flags + [f]) ==
      PendingWrites(txs, flags) + if f == VALID then TxWrites(txs[|flags|]) else {}
    ensures PendingDeletes(txs, flags + [f]) ==
      PendingDeletes(txs, flags) + if f == VALID then TxDeletes(txs[|flags|]) else {}
  {
    var all := flags + [f];
    assert all[..|flags|] == flags;
    forall n | 0 <= n < |all| ensures Judged(env, data, txs, sigFlags, signers, all, n) {
      assert n < |flags| ==> all[..n] == flags[..n] && Judged(env, data, txs, sigFlags, signers, flags, n);
    }
  }

  // ----- Collecting the updates of the valid transactions -----

  function KVs(writes: seq<Option<DataWrite>>, version: Version): seq<KV> {
    if writes == [] then []
    else
      var w := writes[|writes| - 1];
      KVs(writes[..|writes| - 1], version) +
      if w.Some? then [KV(w.value.key, Stored(w.value.value, version, w.value.acl))] else []
  }

  function DeletedKeys(deletes: seq<Option<string>>): seq<string> {
    if deletes == [] then []
    else
      var d := deletes[|deletes| - 1];
      DeletedKeys(deletes[..|deletes| - 1]) + if d.Some? then [d.value] else []
  }

  function OpUpdates(op: DBOperation, version: Version): Updates {
    Updates(KVs(op.dataWrites, version), DeletedKeys(op.dataDeletes))
  }

  function Of(updates: map<string, Updates>, db: string): Updates {
    if db in updates then updates[db] else Updates([], [])
  }

  function Merge(updates: map<string, Updates>, db: string, u: Updates): map<string, Updates> {
    updates[db := Updates(Of(updates, db).writes + u.writes, Of(updates, db).deletes + u.deletes)]
  }

  function Collect(updates: map<string, Updates>, tx: DataTx, version: Version): map<string, Updates> {
    if tx == [] then updates
    else
      var op := tx[|tx| - 1];
      Merge(Collect(updates, tx[..|tx| - 1], version), op.dbName, OpUpdates(op, version))
  }

  function CollectBlock(txs: seq<DataTx>, flags: seq<Flag>, blockNum: nat): map<string, Updates>
    requires |flags| <= |txs|
  {
    if flags == [] then map[]
    else
      var n := |flags| - 1;
      var before := CollectBlock(txs, flags[..n], blockNum);
      if flags[n] == VALID then Collect(before, txs[n], Version(blockNum, n)) else before
  }

  /** The writes and deletes of one database are appended to what was collected for it. */
  method AppendEntries(op: DBOperation, version: Version, start: Updates) returns (r: Updates)
    requires NoNil(op)
    ensures r.writes == start.writes + OpUpdates(op, version).writes
    ensures r.deletes == start.deletes + OpUpdates(op, version).deletes
  {
    var writes, deletes := start.writes, start.deletes;
    for j := 0 to |op.dataWrites|
      invariant writes == start.writes + KVs(op.dataWrites[..j], version)
    {
      var w := op.dataWrites[j].value;
      assert op.dataWrites[..j + 1][..j] == op.dataWrites[..j];
      writes := writes + [KV(w.key, Stored(w.value, version, w.acl))];
    }
    assert op.dataWrites[..|op.dataWrites|] == op.dataWrites;
    for j := 0 to |op.dataDeletes|
      invariant deletes == start.deletes + DeletedKeys(op.dataDeletes[..j])
    {
      assert op.dataDeletes[..j + 1][..j] == op.dataDeletes[..j];
      deletes := deletes + [op.dataDeletes[j].value];
    }
    assert op.dataDeletes[..|op.dataDeletes|] == op.dataDeletes;
    r := Updates(writes, deletes);
  }

  method AddDBEntriesForDataTx(tx: DataTx, version: Version, dbsUpdates: map<string, Updates>)
    returns (r: map<string, Updates>)
    requires forall i :: 0 <= i < |tx| ==> NoNil(tx[i])
    ensures r == Collect(dbsUpdates, tx, version)
  {
    r := dbsUpdates;
    for i := 0 to |tx|
      invariant r == Collect(dbsUpdates, tx[..i], version)
    {
      var updates := if tx[i].dbName in r then r[tx[i].dbName] else Updates([], []);
      updates := AppendEntries(tx[i], version, updates);
      r := r[tx[i].dbName := updates];
      assert tx[..i + 1][..i] == tx[..i];
    }
    assert tx[..|tx|] == tx;
  }

  method ConstructDBEntries(txs: seq<DataTx>, flags: seq<Flag>, blockNum: nat) returns (r: map<string, Updates>)
    requires |flags| == |txs|
    requires forall n, i :: 0 <= n < |txs| && flags[n] == VALID && 0 <= i < |txs[n]| ==> NoNil(txs[n][i])
    ensures r == CollectBlock(txs, flags, blockNum)
  {
    r := map[];
    for n := 0 to |flags|
      invariant r == CollectBlock(txs, flags[..n], blockNum)
    {
      assert flags[..n + 1][..n] == flags[..n];
      if flags[n] == VALID {
        r := AddDBEntriesForDataTx(txs[n], Version(blockNum, n), r);
      }
    }
    assert flags[..|flags|] == flags;
  }

  // ----- Executing one transaction after another -----

  function Execute(data: Data, tx: DataTx, version: Version): Data {
    if tx == [] then data
    else
      var op := tx[|tx| - 1];
      ApplyDB(Execute(data, tx[..|tx| - 1], version), op.dbName, OpUpdates(op, version))
  }

  function Serial(data: Data, txs: seq<DataTx>, flags: seq<Flag>, blockNum: nat): Data
    requires |flags| <= |txs|
  {
    if flags == [] then data
    else
      var n := |flags| - 1;
      var before := Serial(data, txs, flags[..n], blockNum);
      if flags[n] == VALID then Execute(before, txs[n], Version(blockNum, n)) else before
  }

  lemma {:induction false} WrittenKeys(writes: seq<Option<DataWrite>>, version: Version, key: string)
    ensures LastWrite(KVs(writes, version), key).Some? <==> exists w :: w in writes && w.Some? && w.value.key == key
    ensures LastWrite(KVs(writes, version), key).Some? ==>
      LastWrite(KVs(writes, version), key).value.version == version
  {
    if writes != [] {
      var n := |writes| - 1;
      WrittenKeys(writes[..n], version, key);
      assert writes == writes[..n] + [writes[n]];
      var kv := KVs(writes, version)[|KVs(writes[..n], version)|..];
      assert KVs(writes, version) == KVs(writes[..n], version) + kv;
      LastWriteAppend(KVs(writes[..n], version), kv, key);
    }
  }

  lemma {:induction false} DeletedKeysAre(deletes: seq<Option<string>>, key: string)
    ensures key in DeletedKeys(deletes) <==> Some(key) in deletes
  {
    if deletes != [] {
      var n := |deletes| - 1;
      DeletedKeysAre(deletes[..n], key);
      assert deletes == deletes[..n] + [deletes[n]];
    }
  }

  /** The two lists of an operation name the locations it writes and deletes. */
  lemma OpUpdatesLocs(op: DBOperation, version: Version, key: string)
    ensures LastWrite(OpUpdates(op, version).writes, key).Some? <==> (op.dbName, key) in WriteLocs(op)
    ensures key in OpUpdates(op, version).deletes <==> (op.dbName, key) in DeleteLocs(op)
  {
    WrittenKeys(op.dataWrites, version, key);
    DeletedKeysAre(op.dataDeletes, key);
  }

  /** Everything collected for deletion lies in `deletes`. */
  ghost predicate DeletesWithin(updates: map<string, Updates>, deletes: set<Loc>) {
    forall db, key :: db in updates && key in updates[db].deletes ==> (db, key) in deletes
  }

  /** Adding one operation to a batch is executing it after the batch, if it writes nothing the batch deletes. */
  lemma MergeIsExecution(
    data: Data, updates: map<string, Updates>, before: Data, op: DBOperation, version: Version, deletes: set<Loc>)
    requires Batched(data, updates, before) && DeletesWithin(updates, deletes)
    requires WriteLocs(op) !! deletes
    ensures Batched(data, Merge(updates, op.dbName, OpUpdates(op, version)),
                    ApplyDB(before, op.dbName, OpUpdates(op, version)))
    ensures DeletesWithin(Merge(updates, op.dbName, OpUpdates(op, version)), deletes + DeleteLocs(op))
  {
    var u, db := OpUpdates(op, version), op.dbName;
    var merged := Merge(updates, db, u);
    forall loc ensures Get(ApplyDB(before, db, u), loc) ==
      if loc.0 in merged then Outcome(Get(data, loc), merged[loc.0], loc.1) else Get(data, loc)
    {
      GetApplyDB(before, db, u, loc);
      LastWriteAppend(Of(updates, db).writes, u.writes, loc.1);
      OpUpdatesLocs(op, version, loc.1);
    }
    forall d, key | d in merged && key in merged[d].deletes ensures (d, key) in deletes + DeleteLocs(op) {
      OpUpdatesLocs(op, version, key);
    }
  }

  lemma OtherDatabases(rest: DataTx, op: DBOperation)
    requires forall i :: 0 <= i < |rest| ==> rest[i].dbName != op.dbName
    ensures WriteLocs(op) + DeleteLocs(op) !! TxWrites(rest) + TxDeletes(rest)
  {
  }

  lemma {:induction false} TxBatched(
    data: Data, updates: map<string, Updates>, before: Data, tx: DataTx, version: Version, deletes: set<Loc>)
    requires Batched(data, updates, before) && DeletesWithin(updates, deletes)
    requires DBsUnique(tx) && TxTouched(tx) !! deletes
    ensures Batched(data, Collect(updates, tx, version), Execute(before, tx, version))
    ensures DeletesWithin(Collect(updates, tx, version), deletes + TxDeletes(tx))
  {
    if tx != [] {
      var rest, op := tx[..|tx| - 1], tx[|tx| - 1];
      assert tx == rest + [op];
      TxLocsSnoc(rest, op);
      TxBatched(data, updates, before, rest, version, deletes);
      OtherDatabases(rest, op);
      MergeIsExecution(data, Collect(updates, rest, version), Execute(before, rest, version), op, version,
                       deletes + TxDeletes(rest));
      assert deletes + TxDeletes(rest) + DeleteLocs(op) == deletes + TxDeletes(tx);
    }
  }

  /** Every valid transaction names each database once and touches nothing modified before it in the block. */
  ghost predicate Isolated(txs: seq<DataTx>, flags: seq<Flag>) {
    && |flags| <= |txs|
    && forall n :: 0 <= n < |flags| && flags[n] == VALID ==>
         DBsUnique(txs[n]) && TxTouched(txs[n]) !! Pending(txs, flags[..n])
  }

  lemma JudgedIsIsolated(
    env: Env, data: Data, txs: seq<DataTx>, sigFlags: seq<Flag>, signers: seq<seq<string>>, flags: seq<Flag>)
    requires AllJudged(env, data, txs, sigFlags, signers, flags)
    ensures Isolated(txs, flags)
  {
    forall n | 0 <= n < |flags| && flags[n] == VALID
      ensures DBsUnique(txs[n]) && TxTouched(txs[n]) !! Pending(txs, flags[..n])
    {
      assert Judged(env, data, txs, sigFlags, signers, flags, n);
    }
  }

  /** Each database once, no nil entry, and no key named twice in an operation. */
  ghost predicate CleanTx(tx: DataTx) {
    DBsUnique(tx) && forall i :: 0 <= i < |tx| ==> NoNil(tx[i]) && KeysUnique(tx[i])
  }

  /** What validation leaves: the valid transactions are clean and do not touch what was modified before them. */
  ghost predicate CleanBlock(txs: seq<DataTx>, flags: seq<Flag>) {
    Isolated(txs, flags) && forall n :: 0 <= n < |flags| && flags[n] == VALID ==> CleanTx(txs[n])
  }

  /** The flags of a judged block make it clean. */
  lemma JudgedIsCleanBlock(
    env: Env, data: Data, txs: seq<DataTx>, sigFlags: seq<Flag>, signers: seq<seq<string>>, flags: seq<Flag>)
    requires AllJudged(env, data, txs, sigFlags, signers, flags)
    ensures CleanBlock(txs, flags)
  {
    JudgedIsIsolated(env, data, txs, sigFlags, signers, flags);
    forall n | 0 <= n < |flags| && flags[n] == VALID ensures CleanTx(txs[n]) {
      assert Judged(env, data, txs, sigFlags, signers, flags, n);
      assert forall i :: 0 <= i < |txs[n]| ==> OpAlone(env, data, signers[n], txs[n][i]);
    }
  }

  lemma IsolatedPrefix(txs: seq<DataTx>, flags: seq<Flag>, n: nat)
    requires Isolated(txs, flags) && n <= |flags|
    ensures Isolated(txs, flags[..n])
  {
    forall k | 0 <= k < n && flags[..n][k] == VALID
      ensures DBsUnique(txs[k]) && TxTouched(txs[k]) !! Pending(txs, flags[..n][..k])
    {
      assert flags[..n][..k] == flags[..k];
    }
  }

  /** Committing the collected batch is executing the valid transactions one after another. */
  lemma {:induction false} SerialEquivalence(data: Data, txs: seq<DataTx>, flags: seq<Flag>, blockNum: nat)
    requires Isolated(txs, flags)
    ensures Batched(data, CollectBlock(txs, flags, blockNum), Serial(data, txs, flags, blockNum))
    ensures DeletesWithin(CollectBlock(txs, flags, blockNum), PendingDeletes(txs, flags))
  {
    if flags != [] {
      var n := |flags| - 1;
      IsolatedPrefix(txs, flags, n);
      SerialEquivalence(data, txs, flags[..n], blockNum);
      if flags[n] == VALID {
        TxBatched(data, CollectBlock(txs, flags[..n], blockNum), Serial(data, txs, flags[..n], blockNum),
                  txs[n], Version(blockNum, n), PendingDeletes(txs, flags[..n]));
      }
    }
  }

  lemma {:induction false} ExecuteFrame(data: Data, tx: DataTx, version: Version, loc: Loc)
    requires loc !in TxWrites(tx) + TxDeletes(tx)
    ensures Get(Execute(data, tx, version), loc) == Get(data, loc)
  {
    if tx != [] {
      var rest, op := tx[..|tx| - 1], tx[|tx| - 1];
      assert tx == rest + [op];
      TxLocsSnoc(rest, op);
      ExecuteFrame(data, rest, version, loc);
      GetApplyDB(Execute(data, rest, version), op.dbName, OpUpdates(op, version), loc);
      OpUpdatesLocs(op, version, loc.1);
    }
  }

  lemma {:induction false} SerialFrame(data: Data, txs: seq<DataTx>, flags: seq<Flag>, blockNum: nat, loc: Loc)
    requires |flags| <= |txs| && loc !in Pending(txs, flags)
    ensures Get(Serial(data, txs, flags, blockNum), loc) == Get(data, loc)
  {
    if flags != [] {
      var n := |flags| - 1;
      SerialFrame(data, txs, flags[..n], blockNum, loc);
      if flags[n] == VALID {
        ExecuteFrame(Serial(data, txs, flags[..n], blockNum), txs[n], Version(blockNum, n), loc);
      }
    }
  }

  lemma AgreesByTouched(env: Env, a: Data, b: Data, signers: seq<string>, op: DBOperation)
    requires forall loc :: loc in Touched(op) ==> Get(a, loc) == Get(b, loc)
    requires Agrees(env, a, signers, op)
    ensures Agrees(env, b, signers, op)
  {
    forall loc | loc in Touched(op)
      ensures AclOf(a, loc) == AclOf(b, loc) && VersionOf(a, loc) == VersionOf(b, loc) && (loc in a <==> loc in b)
    {
      assert Get(a, loc) == Get(b, loc);
    }
    forall r | r in op.dataReads ensures r.version == VersionOf(b, (op.dbName, r.key)) {
      assert (op.dbName, r.key) in ReadLocs(op);
    }
  }

  lemma AloneByTouched(env: Env, a: Data, b: Data, signers: seq<string>, tx: DataTx)
    requires forall loc :: loc in TxTouched(tx) ==> Get(a, loc) == Get(b, loc)
    ensures TxAlone(env, a, signers, tx) <==> TxAlone(env, b, signers, tx)
  {
    forall i | 0 <= i < |tx| ensures OpAlone(env, a, signers, tx[i]) <==> OpAlone(env, b, signers, tx[i]) {
      TouchedByTx(tx, i);
      if OpAlone(env, a, signers, tx[i]) { AgreesByTouched(env, a, b, signers, tx[i]); }
      if OpAlone(env, b, signers, tx[i]) { AgreesByTouched(env, b, a, signers, tx[i]); }
    }
  }

  /**
   * The flag of a transaction is the one it would get on its own in the state left by the valid transactions before
   * it, but for those that touch a location modified earlier in the block, which are refused.
   */
  lemma SerialVerdict(
    env: Env, data: Data, txs: seq<DataTx>, sigFlags: seq<Flag>, signers: seq<seq<string>>, flags: seq<Flag>,
    blockNum: nat, n: nat)
    requires AllJudged(env, data, txs, sigFlags, signers, flags) && n < |flags|
    ensures flags[n] == VALID <==>
      && sigFlags[n] == VALID
      && TxTouched(txs[n]) !! Pending(txs, flags[..n])
      && TxAlone(env, Serial(data, txs, flags[..n], blockNum), signers[n], txs[n])
  {
    assert Judged(env, data, txs, sigFlags, signers, flags, n);
    if TxTouched(txs[n]) !! Pending(txs, flags[..n]) {
      var s := Serial(data, txs, flags[..n], blockNum);
      forall loc | loc in TxTouched(txs[n]) ensures Get(data, loc) == Get(s, loc) {
        SerialFrame(data, txs, flags[..n], blockNum, loc);
      }
      AloneByTouched(env, data, s, signers[n], txs[n]);
    }
  }

  lemma TxModifiedIsTouched(tx: DataTx)
    ensures TxWrites(tx) + TxDeletes(tx) <= TxTouched(tx)
  {
    forall i, loc | 0 <= i < |tx| && loc in WriteLocs(tx[i]) ensures loc in TxTouched(tx) { TouchedByTx(tx, i); }
    forall i, loc | 0 <= i < |tx| && loc in DeleteLocs(tx[i]) ensures loc in TxTouched(tx) { TouchedByTx(tx, i); }
  }

  lemma {:induction false} PendingGrows(txs: seq<DataTx>, flags: seq<Flag>, m: nat)
    requires m < |flags| <= |txs| && flags[m] == VALID
    ensures TxWrites(txs[m]) + TxDeletes(txs[m]) <= Pending(txs, flags)
    decreases |flags|
  {
    var n := |flags| - 1;
    if m < n {
      PendingGrows(txs, flags[..n], m);
    }
  }

  /** A location is modified by at most one valid transaction of a block, and read by none after that. */
  lemma ModifiedOnce(txs: seq<DataTx>, flags: seq<Flag>, m: nat, n: nat)
    requires Isolated(txs, flags) && m < n < |flags| && flags[m] == VALID && flags[n] == VALID
    ensures TxWrites(txs[m]) + TxDeletes(txs[m]) !! TxTouched(txs[n])
    ensures TxWrites(txs[m]) + TxDeletes(txs[m]) !! TxWrites(txs[n]) + TxDeletes(txs[n])
  {
    PendingGrows(txs, flags[..n], m);
    TxModifiedIsTouched(txs[n]);
  }

  lemma {:induction false} WrittenValue(writes: seq<Option<DataWrite>>, version: Version, i: nat)
    requires forall w :: w in writes ==> w.Some?
    requires forall j, k :: 0 <= j < k < |writes| ==> writes[j].value.key != writes[k].value.key
    requires i < |writes|
    ensures LastWrite(KVs(writes, version), writes[i].value.key) ==
      Some(Stored(writes[i].value.value, version, writes[i].value.acl))
    decreases |writes|
  {
    var n := |writes| - 1;
    if i < n {
      assert writes == writes[..n] + [writes[n]];
      WrittenValue(writes[..n], version, i);
    }
  }

  /** A transaction leaves the values, version and access control it wrote, and none of the keys it deleted. */
  lemma {:induction false} ExecuteMeans(data: Data, tx: DataTx, version: Version, i: nat)
    requires i < |tx| && DBsUnique(tx) && forall k :: 0 <= k < |tx| ==> NoNil(tx[k]) && KeysUnique(tx[k])
    ensures forall w :: w in tx[i].dataWrites && w.Some? ==>
      Get(Execute(data, tx, version), (tx[i].dbName, w.value.key)) ==
        Some(Stored(w.value.value, version, w.value.acl))
    ensures forall loc :: loc in DeleteLocs(tx[i]) ==> loc !in Execute(data, tx, version)
    decreases |tx|
  {
    var rest, op := tx[..|tx| - 1], tx[|tx| - 1];
    var before := Execute(data, rest, version);
    if i == |tx| - 1 {
      forall w | w in op.dataWrites && w.Some?
        ensures Get(Execute(data, tx, version), (op.dbName, w.value.key)) ==
          Some(Stored(w.value.value, version, w.value.acl))
      {
        var j :| 0 <= j < |op.dataWrites| && op.dataWrites[j] == w;
        var key := w.value.key;
        assert (op.dbName, key) in WriteLocs(op);
        GetApplyDB(before, op.dbName, OpUpdates(op, version), (op.dbName, key));
        OpUpdatesLocs(op, version, key);
        WrittenValue(op.dataWrites, version, j);
      }
      forall loc | loc in DeleteLocs(op) ensures loc !in Execute(data, tx, version) {
        GetApplyDB(before, op.dbName, OpUpdates(op, version), loc);
        OpUpdatesLocs(op, version, loc.1);
      }
    } else {
      ExecuteMeans(data, rest, version, i);
      assert rest[i] == tx[i] && tx[i].dbName != op.dbName;
      forall key ensures Get(Execute(data, tx, version), (tx[i].dbName, key)) == Get(before, (tx[i].dbName, key)) {
        GetApplyDB(before, op.dbName, OpUpdates(op, version), (tx[i].dbName, key));
      }
      forall loc | loc in DeleteLocs(tx[i]) ensures loc !in Execute(data, tx, version) {
        assert loc == (tx[i].dbName, loc.1) && Get(Execute(data, tx, version), loc) == Get(before, loc);
      }
    }
  }
}
