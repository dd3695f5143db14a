/** Agreement of index and data over runs of blocks, and under crashes. */
module IndexRuns {
  import opened Basics
  import opened WorldState
  import opened DataValidation
  import opened SerialBlock
  import opened Ledger
  import opened StateIndex

  // ----- The updates of a validated block name each key once -----

  ghost predicate AllUnique(updates: map<string, Updates>) {
    forall db :: db in updates ==> UniqueKeys(updates[db])
  }

  ghost predicate WritesWithin(updates: map<string, Updates>, writes: set<Loc>) {
    forall db, i :: db in updates && 0 <= i < |updates[db].writes| ==> (db, updates[db].writes[i].key) in writes
  }

  lemma {:induction false} KVsKeys(writes: seq<Option<DataWrite>>, version: Version)
    requires forall w :: w in writes ==> w.Some?
    ensures |KVs(writes, version)| == |writes|
    ensures forall i :: 0 <= i < |writes| ==> KVs(writes, version)[i].key == writes[i].value.key
  {
    if writes != [] {
      var n := |writes| - 1;
      assert writes == writes[..n] + [writes[n]];
      KVsKeys(writes[..n], version);
    }
  }

  lemma OpUnique(op: DBOperation, version: Version)
    requires NoNil(op) && KeysUnique(op)
    ensures UniqueKeys(OpUpdates(op, version))
    ensures forall i :: 0 <= i < |OpUpdates(op, version).writes| ==>
      (op.dbName, OpUpdates(op, version).writes[i].key) in WriteLocs(op)
  {
    var u := OpUpdates(op, version);
    KVsKeys(op.dataWrites, version);
    forall i | 0 <= i < |u.writes|
      ensures u.writes[i].key !in u.deletes && (op.dbName, u.writes[i].key) in WriteLocs(op)
    {
      assert op.dataWrites[i] in op.dataWrites;
      OpUpdatesLocs(op, version, u.writes[i].key);
    }
  }

  lemma AppendUnique(a: Updates, b: Updates)
    requires UniqueKeys(a) && UniqueKeys(b)
    requires forall i, j :: 0 <= i < |a.writes| && 0 <= j < |b.writes| ==> a.writes[i].key != b.writes[j].key
    requires forall i :: 0 <= i < |a.writes| ==> a.writes[i].key !in b.deletes
    requires forall j :: 0 <= j < |b.writes| ==> b.writes[j].key !in a.deletes
    ensures UniqueKeys(Updates(a.writes + b.writes, a.deletes + b.deletes))
  {
  }

  /** Nothing collected for a database meets what the operation writes or deletes. */
  lemma OpApart(a: Updates, op: DBOperation, version: Version, writes: set<Loc>, deletes: set<Loc>)
    requires NoNil(op) && KeysUnique(op) && WriteLocs(op) + DeleteLocs(op) !! writes + deletes
    requires forall i :: 0 <= i < |a.writes| ==> (op.dbName, a.writes[i].key) in writes
    requires forall key :: key in a.deletes ==> (op.dbName, key) in deletes
    ensures
      var u := OpUpdates(op, version);
      && (forall i, j :: 0 <= i < |a.writes| && 0 <= j < |u.writes| ==> a.writes[i].key != u.writes[j].key)
      && (forall i :: 0 <= i < |a.writes| ==> a.writes[i].key !in u.deletes)
      && (forall j :: 0 <= j < |u.writes| ==> u.writes[j].key !in a.deletes)
  {
    var u, db := OpUpdates(op, version), op.dbName;
    OpUnique(op, version);
    forall i | 0 <= i < |a.writes|
      ensures a.writes[i].key !in u.deletes && (db, a.writes[i].key) !in WriteLocs(op)
    {
      assert (db, a.writes[i].key) in writes + deletes;
      OpUpdatesLocs(op, version, a.writes[i].key);
    }
    forall j | 0 <= j < |u.writes| ensures u.writes[j].key !in a.deletes {
      assert (db, u.writes[j].key) in WriteLocs(op) + DeleteLocs(op);
      assert (db, u.writes[j].key) !in writes + deletes;
    }
  }

  lemma MergeUnique(
    updates: map<string, Updates>, op: DBOperation, version: Version, writes: set<Loc>, deletes: set<Loc>)
    requires AllUnique(updates) && WritesWithin(updates, writes) && DeletesWithin(updates, deletes)
    requires NoNil(op) && KeysUnique(op)
    requires WriteLocs(op) + DeleteLocs(op) !! writes + deletes
    ensures AllUnique(Merge(updates, op.dbName, OpUpdates(op, version)))
  {
    var a := Of(updates, op.dbName);
    OpUnique(op, version);
    OpApart(a, op, version, writes, deletes);
    AppendUnique(a, OpUpdates(op, version));
  }

  lemma MergeWithin(
    updates: map<string, Updates>, op: DBOperation, version: Version, writes: set<Loc>, deletes: set<Loc>)
    requires WritesWithin(updates, writes) && DeletesWithin(updates, deletes) && NoNil(op) && KeysUnique(op)
    ensures WritesWithin(Merge(updates, op.dbName, OpUpdates(op, version)), writes + WriteLocs(op))
    ensures DeletesWithin(Merge(updates, op.dbName, OpUpdates(op, version)), deletes + DeleteLocs(op))
  {
    OpUnique(op, version);
    var merged := Merge(updates, op.dbName, OpUpdates(op, version));
    forall d, key | d in merged && key in merged[d].deletes ensures (d, key) in deletes + DeleteLocs(op) {
      OpUpdatesLocs(op, version, key);
    }
  }

  /** The updates name each key once, and lie within the given locations. */
  ghost predicate Collected(updates: map<string, Updates>, writes: set<Loc>, deletes: set<Loc>) {
    AllUnique(updates) && WritesWithin(updates, writes) && DeletesWithin(updates, deletes)
  }

  lemma MergeCollected(
    updates: map<string, Updates>, op: DBOperation, version: Version, writes: set<Loc>, deletes: set<Loc>)
    requires Collected(updates, writes, deletes) && NoNil(op) && KeysUnique(op)
    requires WriteLocs(op) + DeleteLocs(op) !! writes + deletes
    ensures var merged := Merge(updates, op.dbName, OpUpdates(op, version));
      Collected(merged, writes + WriteLocs(op), deletes + DeleteLocs(op))
  {
    MergeUnique(updates, op, version, writes, deletes);
    MergeWithin(updates, op, version, writes, deletes);
  }

  lemma CleanSnoc(rest: DataTx, op: DBOperation)
    requires CleanTx(rest + [op])
    ensures CleanTx(rest) && NoNil(op) && KeysUnique(op)
    ensures WriteLocs(op) + DeleteLocs(op) !! TxWrites(rest) + TxDeletes(rest)
  {
    var tx := rest + [op];
    assert tx[|rest|] == op && forall i :: 0 <= i < |rest| ==> tx[i] == rest[i];
    OtherDatabases(rest, op);
  }

  lemma {:induction false} TxUnique(
    updates: map<string, Updates>, tx: DataTx, version: Version, writes: set<Loc>, deletes: set<Loc>)
    requires Collected(updates, writes, deletes) && CleanTx(tx) && TxTouched(tx) !! writes + deletes
    ensures Collected(Collect(updates, tx, version), writes + TxWrites(tx), deletes + TxDeletes(tx))
  {
    if tx == [] {
      assert writes + TxWrites(tx) == writes && deletes + TxDeletes(tx) == deletes;
    } else {
      var rest, op := tx[..|tx| - 1], tx[|tx| - 1];
      assert tx == rest + [op];
      TxLocsSnoc(rest, op);
      CleanSnoc(rest, op);
      TxUnique(updates, rest, version, writes, deletes);
      MergeCollected(Collect(updates, rest, version), op, version, writes + TxWrites(rest), deletes + TxDeletes(rest));
      assert writes + TxWrites(rest) + WriteLocs(op) == writes + TxWrites(tx);
      assert deletes + TxDeletes(rest) + DeleteLocs(op) == deletes + TxDeletes(tx);
    }
  }

  /** In the updates collected from a validated block, no key of a database is named twice. */
  lemma {:induction false} BlockKeysUnique(txs: seq<DataTx>, flags: seq<Flag>, blockNum: nat)
    requires CleanBlock(txs, flags)
    ensures AllUnique(CollectBlock(txs, flags, blockNum))
    ensures WritesWithin(CollectBlock(txs, flags, blockNum), PendingWrites(txs, flags))
    ensures DeletesWithin(CollectBlock(txs, flags, blockNum), PendingDeletes(txs, flags))
  {
    if flags != [] {
      var n := |flags| - 1;
      IsolatedPrefix(txs, flags, n);
      BlockKeysUnique(txs, flags[..n], blockNum);
      if flags[n] == VALID {
        TxUnique(CollectBlock(txs, flags[..n], blockNum), txs[n], Version(blockNum, n),
                 PendingWrites(txs, flags[..n]), PendingDeletes(txs, flags[..n]));
      }
    }
  }

  // ----- Runs -----

  /** Administration blocks do not touch the database. */
  ghost predicate Ordinary(blocks: seq<Block>, db: string) {
    WellNumbered(blocks) && forall i :: 0 <= i < |blocks| && blocks[i].AdminBlock? ==> db !in blocks[i].entries
  }

  /** The contents of the index database after a run of blocks. */
  ghost function IndexAfterRun(decode: Decoder, index: Index, blocks: seq<Block>, db: string): set<IndexEntry>
    requires WellNumbered(blocks)
  {
    if blocks == [] then {}
    else
      var n := |blocks| - 1;
      IndexAfter(decode, index, IndexAfterRun(decode, index, blocks[..n], db), StateAfter(blocks[..n]), db,
                 Of(BlockUpdates(blocks[n]), db))
  }

  /**
   * So a key is indexed under a value exactly when its record now holds that value under the attribute, and the type
   * is the one declared.
   */
  lemma IndexedAfterRun(decode: Decoder, index: Index, blocks: seq<Block>, db: string, e: IndexEntry)
    requires Ordinary(blocks, db)
    ensures
      var data := StateAfter(blocks);
      e in IndexAfterRun(decode, index, blocks, db) <==>
        && (db, e.key) in data && decode(data[(db, e.key)].value).Some?
        && e.partial.attribute in index && e.partial.typ == index[e.partial.attribute]
        && exists x ::
             StandsFor(e.partial, x) && Has(decode(data[(db, e.key)].value).value, e.partial.attribute, x)
  {
    IndexAgreesOverRuns(decode, index, blocks, db);
    ImageExact(decode, index, StateAfter(blocks), db, e);
  }

  /** After every run of blocks the index holds exactly the entries of the data. */
  lemma {:induction false} IndexAgreesOverRuns(decode: Decoder, index: Index, blocks: seq<Block>, db: string)
    requires Ordinary(blocks, db)
    ensures IndexAfterRun(decode, index, blocks, db) == Image(decode, index, StateAfter(blocks), db)
  {
    if blocks != [] {
      var n := |blocks| - 1;
      IndexAgreesOverRuns(decode, index, blocks[..n], db);
      var b, before := blocks[n], StateAfter(blocks[..n]);
      if b.DataBlock? {
        BlockKeysUnique(b.txs, b.flags, b.number);
      }
      assert UniqueKeys(Of(BlockUpdates(b), db));
      ApplyIsBatched(before, BlockUpdates(b), StateAfter(blocks));
      IndexAgrees(decode, index, before, BlockUpdates(b), StateAfter(blocks), db);
    }
  }

  // ----- Crashes -----

  /**
   * A commit stopped after some of the data database and the index database, then replayed: the index changes are
   * computed anew from the data found.
   */
  ghost function IndexReplayed(
    decode: Decoder, index: Index, data: Data, updates: map<string, Updates>, after: Data, db: string,
    dataWritten: bool, indexWritten: bool): set<IndexEntry>
  {
    var u := Of(updates, db);
    var entries := Image(decode, index, data, db);
    IndexAfter(decode, index,
               if indexWritten then IndexAfter(decode, index, entries, data, db, u) else entries,
               if dataWritten then after else data, db, u)
  }

  lemma OldEntryOfKey(decode: Decoder, index: Index, data: Data, db: string, keys: set<string>, e: IndexEntry)
    ensures e in OldEntries(decode, index, data, db, keys) <==>
      e.key in keys && (db, e.key) in data && e in EntriesFor(decode, index, e.key, data[(db, e.key)].value)
  {
  }

  /** Over the new data the changes are empty. */
  lemma NothingToChange(
    decode: Decoder, index: Index, data: Data, updates: map<string, Updates>, after: Data, db: string,
    entries: set<IndexEntry>)
    requires Batched(data, updates, after) && UniqueKeys(Of(updates, db))
    ensures IndexAfter(decode, index, entries, after, db, Of(updates, db)) == entries
  {
    var u := Of(updates, db);
    var written, deleted := WrittenKeySet(u.writes), set k | k in u.deletes;
    forall e
      ensures e in NewEntries(decode, index, u.writes) <==> e in OldEntries(decode, index, after, db, written)
      ensures e !in OldEntries(decode, index, after, db, deleted)
    {
      assert Get(after, (db, e.key)) == Outcome(Get(data, (db, e.key)), u, e.key);
      OldEntryOfKey(decode, index, after, db, written, e);
      OldEntryOfKey(decode, index, after, db, deleted, e);
      NewEntryOfKey(decode, index, u, e);
      WrittenKeyIs(u, e.key);
      LastWriteIsListed(u.writes, e.key);
    }
    assert Created(decode, index, after, db, u) == {} && Removed(decode, index, after, db, u) == {};
  }

  /**
   * Replay restores the agreement of index and data exactly when the crash did not fall after the data and before the
   * index, or the block changes no entry.
   */
  lemma IndexReplayExact(
    decode: Decoder, index: Index, data: Data, updates: map<string, Updates>, after: Data, db: string,
    dataWritten: bool, indexWritten: bool)
    requires Batched(data, updates, after) && UniqueKeys(Of(updates, db))
    ensures
      IndexReplayed(decode, index, data, updates, after, db, dataWritten, indexWritten) ==
        Image(decode, index, after, db)
      <==> !dataWritten || indexWritten || Image(decode, index, data, db) == Image(decode, index, after, db)
  {
    var entries := Image(decode, index, data, db);
    IndexAgrees(decode, index, data, updates, after, db);
    if dataWritten {
      NothingToChange(decode, index, data, updates, after, db, entries);
      NothingToChange(decode, index, data, updates, after, db, Image(decode, index, after, db));
    }
  }

  /**
   * A key created by a block that was interrupted between data and index is never found through the index, whatever
   * its value, as long as it has an entry.
   */
  lemma IndexLost(decode: Decoder, index: Index, db: string, key: string, stored: Stored, e: IndexEntry)
    requires e in EntriesFor(decode, index, key, stored.value)
    ensures
      var updates := map[db := Updates([KV(key, stored)], [])];
      var after: Data := map[(db, key) := stored];
      && Batched(map[], updates, after)
      && IndexReplayed(decode, index, map[], updates, after, db, true, false) == {}
      && e in Image(decode, index, after, db)
  {
    var updates := map[db := Updates([KV(key, stored)], [])];
    var after: Data := map[(db, key) := stored];
    assert updates[db].writes[..0] == [];
    forall loc: Loc ensures Get(after, loc) == ResultAt(map[], updates, loc) {
      assert LastWrite(updates[db].writes, loc.1) == if loc.1 == key then Some(stored) else None;
    }
    assert Image(decode, index, map[], db) == {};
    NothingToChange(decode, index, map[], updates, after, db, {});
    EntryOfKey(decode, index, after, db, e);
  }
}
