/** The ledger over runs of blocks: the state each block leaves, what versions tell, commit, crash and recovery. */
module Ledger {
  import opened Basics
  import opened WorldState
  import opened DataValidation
  import opened SerialBlock

  datatype Entry = Entry(key: string, value: Bytes, acl: Option<Acl>)

  datatype AdminEntries = AdminEntries(writes: seq<Entry>, deletes: seq<string>)

  /** A validated block: data transactions with their flags, or one administration transaction with its entries. */
  datatype Block =
    | DataBlock(number: nat, txs: seq<DataTx>, flags: seq<Flag>)
    | AdminBlock(number: nat, flag: Flag, entries: map<string, AdminEntries>)

  function Stamp(writes: seq<Entry>, version: Version): seq<KV> {
    seq(|writes|, i requires 0 <= i < |writes| => KV(writes[i].key, Stored(writes[i].value, version, writes[i].acl)))
  }

  /** The updates of a block; those of a transaction carry the block's number and the transaction's position. */
  function BlockUpdates(block: Block): map<string, Updates>
    requires block.DataBlock? ==> |block.flags| <= |block.txs|
  {
    match block
    case DataBlock(number, txs, flags) => CollectBlock(txs, flags, number)
    case AdminBlock(number, flag, entries) =>
      if flag != VALID then map[]
      else map db | db in entries :: Updates(Stamp(entries[db].writes, Version(number, 0)), entries[db].deletes)
  }

  /** Numbers without gaps, and data blocks as validation leaves them. */
  ghost predicate WellNumbered(blocks: seq<Block>) {
    forall i :: 0 <= i < |blocks| ==>
      && blocks[i].number == i + 1
      && (blocks[i].DataBlock? ==> |blocks[i].flags| == |blocks[i].txs| && CleanBlock(blocks[i].txs, blocks[i].flags))
  }

  ghost function WrittenLocs(updates: map<string, Updates>): set<Loc> {
    set db, i | db in updates && 0 <= i < |updates[db].writes| :: (db, updates[db].writes[i].key)
  }

  ghost function ResultAt(data: Data, updates: map<string, Updates>, loc: Loc): Option<Stored> {
    if loc.0 in updates then Outcome(Get(data, loc), updates[loc.0], loc.1) else Get(data, loc)
  }

  /** The state a batch leaves. */
  ghost function Apply(data: Data, updates: map<string, Updates>): Data {
    map loc | loc in data.Keys + WrittenLocs(updates) && ResultAt(data, updates, loc).Some? ::
      ResultAt(data, updates, loc).value
  }

  lemma ApplyIsBatched(data: Data, updates: map<string, Updates>, after: Data)
    ensures after == Apply(data, updates) <==> Batched(data, updates, after)
  {
    forall loc ensures Get(Apply(data, updates), loc) == ResultAt(data, updates, loc) {
      if loc.0 in updates && LastWrite(updates[loc.0].writes, loc.1).Some? {
        LastWriteIsListed(updates[loc.0].writes, loc.1);
        assert loc in WrittenLocs(updates);
      }
    }
    assert Batched(data, updates, Apply(data, updates));
    if Batched(data, updates, after) {
      BatchedIsUnique(data, updates, after, Apply(data, updates));
    }
  }

  /** The state after a run of blocks. */
  ghost function StateAfter(blocks: seq<Block>): Data
    requires WellNumbered(blocks)
  {
    if blocks == [] then map[]
    else
      var n := |blocks| - 1;
      Apply(StateAfter(blocks[..n]), BlockUpdates(blocks[n]))
  }

  lemma WellNumberedPrefix(blocks: seq<Block>, n: nat)
    requires WellNumbered(blocks) && n <= |blocks|
    ensures WellNumbered(blocks[..n])
  {
  }

  /** The state after the first n blocks. */
  ghost function StateAt(blocks: seq<Block>, n: nat): Data
    requires WellNumbered(blocks) && n <= |blocks|
  {
    WellNumberedPrefix(blocks, n);
    StateAfter(blocks[..n])
  }

  /** A block of data transactions leaves what its valid transactions leave, executed one after another. */
  lemma DataBlockIsSerial(blocks: seq<Block>)
    requires WellNumbered(blocks) && blocks != [] && blocks[|blocks| - 1].DataBlock?
    ensures
      var b := blocks[|blocks| - 1];
      StateAfter(blocks) == Serial(StateAfter(blocks[..|blocks| - 1]), b.txs, b.flags, b.number)
  {
    var b, before := blocks[|blocks| - 1], StateAfter(blocks[..|blocks| - 1]);
    SerialEquivalence(before, b.txs, b.flags, b.number);
    ApplyIsBatched(before, BlockUpdates(b), Serial(before, b.txs, b.flags, b.number));
  }

  /** The last write of a key in a list is the i-th. */
  ghost predicate LastAt(writes: seq<Entry>, key: string, i: int) {
    0 <= i < |writes| && writes[i].key == key && forall j :: i < j < |writes| ==> writes[j].key != key
  }

  /** What a valid administration transaction makes of one key of a database it has entries for. */
  ghost predicate AdminLeaves(
    entries: AdminEntries, number: nat, key: string, before: Option<Stored>, after: Option<Stored>) {
    if key in entries.deletes then after.None?
    else
      || (after == before && forall i :: 0 <= i < |entries.writes| ==> entries.writes[i].key != key)
      || exists i ::
           && LastAt(entries.writes, key, i)
           && after == Some(Stored(entries.writes[i].value, Version(number, 0), entries.writes[i].acl))
  }

  lemma {:induction false} LastStamped(writes: seq<Entry>, version: Version, key: string)
    ensures LastWrite(Stamp(writes, version), key).None? ==> forall i :: 0 <= i < |writes| ==> writes[i].key != key
    ensures LastWrite(Stamp(writes, version), key).Some? ==>
      exists i ::
        && LastAt(writes, key, i)
        && LastWrite(Stamp(writes, version), key) == Some(Stored(writes[i].value, version, writes[i].acl))
  {
    if writes != [] {
      var n := |writes| - 1;
      assert Stamp(writes, version)[..n] == Stamp(writes[..n], version);
      if writes[n].key == key {
        assert LastAt(writes, key, n);
      } else {
        LastStamped(writes[..n], version, key);
        if LastWrite(Stamp(writes[..n], version), key).Some? {
          var i :| LastAt(writes[..n], key, i) &&
            LastWrite(Stamp(writes[..n], version), key) == Some(Stored(writes[i].value, version, writes[i].acl));
          assert LastAt(writes, key, i);
        }
      }
    }
  }

  /** An administration block changes the state only if it is valid, and then exactly where it has entries. */
  lemma AdminBlockExact(blocks: seq<Block>, loc: Loc)
    requires WellNumbered(blocks) && blocks != [] && blocks[|blocks| - 1].AdminBlock?
    ensures
      var b := blocks[|blocks| - 1];
      var before, after := Get(StateAfter(blocks[..|blocks| - 1]), loc), Get(StateAfter(blocks), loc);
      if b.flag == VALID && loc.0 in b.entries then AdminLeaves(b.entries[loc.0], |blocks|, loc.1, before, after)
      else after == before
  {
    var b, before := blocks[|blocks| - 1], StateAfter(blocks[..|blocks| - 1]);
    ApplyIsBatched(before, BlockUpdates(b), StateAfter(blocks));
    assert Get(StateAfter(blocks), loc) == ResultAt(before, BlockUpdates(b), loc);
    if loc.0 in b.entries { LastStamped(b.entries[loc.0].writes, Version(b.number, 0), loc.1); }
  }

  // ----- Versions -----

  /** Every write carries the block number. */
  ghost predicate Stamped(updates: map<string, Updates>, number: nat) {
    forall db, key :: db in updates && LastWrite(updates[db].writes, key).Some? ==>
      LastWrite(updates[db].writes, key).value.version.blockNum == number
  }

  lemma {:induction false} CollectStamped(updates: map<string, Updates>, tx: DataTx, version: Version)
    requires Stamped(updates, version.blockNum)
    ensures Stamped(Collect(updates, tx, version), version.blockNum)
  {
    if tx != [] {
      var rest, op := tx[..|tx| - 1], tx[|tx| - 1];
      CollectStamped(updates, rest, version);
      forall key
        ensures
          var last := LastWrite(Of(Collect(updates, rest, version), op.dbName).writes +
                                OpUpdates(op, version).writes, key);
          last.Some? ==> last.value.version.blockNum == version.blockNum
      {
        LastWriteAppend(Of(Collect(updates, rest, version), op.dbName).writes, OpUpdates(op, version).writes, key);
        WrittenKeys(op.dataWrites, version, key);
      }
    }
  }

  lemma {:induction false} CollectBlockStamped(txs: seq<DataTx>, flags: seq<Flag>, blockNum: nat)
    requires |flags| <= |txs|
    ensures Stamped(CollectBlock(txs, flags, blockNum), blockNum)
  {
    if flags != [] {
      var n := |flags| - 1;
      CollectBlockStamped(txs, flags[..n], blockNum);
      if flags[n] == VALID {
        CollectStamped(CollectBlock(txs, flags[..n], blockNum), txs[n], Version(blockNum, n));
      }
    }
  }

  lemma BlockStamped(block: Block)
    requires block.DataBlock? ==> |block.flags| <= |block.txs|
    ensures Stamped(BlockUpdates(block), block.number)
  {
    if block.DataBlock? {
      CollectBlockStamped(block.txs, block.flags, block.number);
    } else {
      var updates := BlockUpdates(block);
      forall db, key | db in updates && LastWrite(updates[db].writes, key).Some?
        ensures LastWrite(updates[db].writes, key).value.version.blockNum == block.number
      {
        LastWriteIsListed(updates[db].writes, key);
      }
    }
  }

  /** A block leaves a record as it was or stamps it with its own number. */
  lemma OneBlockStamps(blocks: seq<Block>, n: nat, loc: Loc)
    requires WellNumbered(blocks) && 0 < n <= |blocks| && loc in StateAt(blocks, n)
    ensures
      || Get(StateAt(blocks, n), loc) == Get(StateAt(blocks, n - 1), loc)
      || StateAt(blocks, n)[loc].version.blockNum == n
  {
    var b, before := blocks[n - 1], StateAt(blocks, n - 1);
    assert blocks[..n][..n - 1] == blocks[..n - 1] && blocks[..n][n - 1] == b;
    ApplyIsBatched(before, BlockUpdates(b), StateAt(blocks, n));
    BlockStamped(b);
    assert Get(StateAt(blocks, n), loc) == ResultAt(before, BlockUpdates(b), loc);
  }

  lemma {:induction false} VersionsInRange(blocks: seq<Block>, n: nat, loc: Loc)
    requires WellNumbered(blocks) && n <= |blocks| && loc in StateAt(blocks, n)
    ensures 1 <= StateAt(blocks, n)[loc].version.blockNum <= n
    decreases n
  {
    if n > 0 {
      OneBlockStamps(blocks, n, loc);
      if Get(StateAt(blocks, n), loc) == Get(StateAt(blocks, n - 1), loc) {
        VersionsInRange(blocks, n - 1, loc);
      }
    }
  }

  /** What a later state holds at a location is either what the earlier one held, or written in between. */
  lemma {:induction false} OnlyNewVersions(blocks: seq<Block>, m: nat, n: nat, loc: Loc)
    requires WellNumbered(blocks) && m <= n <= |blocks| && loc in StateAt(blocks, n)
    ensures
      || Get(StateAt(blocks, n), loc) == Get(StateAt(blocks, m), loc)
      || m < StateAt(blocks, n)[loc].version.blockNum
    ensures 1 <= StateAt(blocks, n)[loc].version.blockNum <= n
    decreases n
  {
    VersionsInRange(blocks, n, loc);
    if m < n {
      OneBlockStamps(blocks, n, loc);
      if Get(StateAt(blocks, n), loc) == Get(StateAt(blocks, n - 1), loc) {
        OnlyNewVersions(blocks, m, n - 1, loc);
      }
    }
  }

  /**
   * A location and a version name one value for ever: two states of a run that hold the same version hold the same
   * value and access control, and a different one at the later state has a greater block number.
   */
  lemma VersionsIdentifyValues(blocks: seq<Block>, m: nat, n: nat, loc: Loc)
    requires WellNumbered(blocks) && m <= n <= |blocks|
    requires loc in StateAt(blocks, m) && loc in StateAt(blocks, n)
    ensures
      var a, b := StateAt(blocks, m)[loc], StateAt(blocks, n)[loc];
      (a.version == b.version <==> a == b) && (a != b ==> a.version.blockNum < b.version.blockNum)
  {
    OnlyNewVersions(blocks, m, m, loc);
    OnlyNewVersions(blocks, m, n, loc);
  }

  /** A value replaced or deleted never comes back under its version, also when the key is created again. */
  lemma VersionsNeverReturn(blocks: seq<Block>, m: nat, k: nat, n: nat, loc: Loc)
    requires WellNumbered(blocks) && m <= k <= n <= |blocks|
    requires loc in StateAt(blocks, m)
    requires Get(StateAt(blocks, k), loc) != Get(StateAt(blocks, m), loc)
    ensures VersionOf(StateAt(blocks, n), loc) != VersionOf(StateAt(blocks, m), loc)
  {
    OnlyNewVersions(blocks, m, m, loc);
    if loc in StateAt(blocks, n) {
      OnlyNewVersions(blocks, k, n, loc);
      if loc in StateAt(blocks, k) {
        VersionsIdentifyValues(blocks, m, k, loc);
      }
    }
  }
}
