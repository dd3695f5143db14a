/** Committing a block, crashing at any point of it, and recovering from the block store. */
module Recovery {
  import opened WorldState
  import opened DataValidation
  import opened SerialBlock
  import opened Ledger

  function Restrict(updates: map<string, Updates>, written: set<string>): map<string, Updates> {
    map db | db in updates && db in written :: updates[db]
  }

  /** The data is `before` with some of the databases already updated. */
  ghost predicate Partly(before: Data, updates: map<string, Updates>, written: set<string>, data: Data) {
    Batched(before, Restrict(updates, written), data)
  }

  ghost predicate SomePart(before: Data, updates: map<string, Updates>, data: Data) {
    exists written :: Partly(before, updates, written, data)
  }

  /** Writing a batch again over what a part of it left gives what writing it once gives. */
  lemma ReplayConverges(
    before: Data, updates: map<string, Updates>, written: set<string>, crashed: Data, again: set<string>, data: Data)
    requires Partly(before, updates, written, crashed) && Partly(crashed, updates, again, data)
    ensures Partly(before, updates, written + again, data)
  {
    forall loc ensures Get(data, loc) == ResultAt(before, Restrict(updates, written + again), loc) {
      assert Get(crashed, loc) == ResultAt(before, Restrict(updates, written), loc);
      assert Get(data, loc) == ResultAt(crashed, Restrict(updates, again), loc);
    }
  }

  lemma FullyIsApply(before: Data, updates: map<string, Updates>, written: set<string>, data: Data)
    requires Partly(before, updates, written, data) && updates.Keys <= written
    ensures data == Apply(before, updates)
  {
    assert Restrict(updates, written) == updates;
    ApplyIsBatched(before, updates, data);
  }

  datatype Recovered = UpToDate | Replayed | StateAhead | TooFarBehind | NoDatabase

  datatype Attempt = Done | Panicked

  class BlockProcessor {
    const db: StateDB
    var blocks: seq<Block>

    constructor (db: StateDB, blocks: seq<Block>)
      ensures this.db == db && this.blocks == blocks
    {
      this.db, this.blocks := db, blocks;
    }

    /** Block store and state are in step, and the state is the one the blocks define. */
    ghost predicate InStep()
      reads this, db
    {
      WellNumbered(blocks) && db.height == |blocks| && db.data == StateAfter(blocks)
    }

    /** The last block is stored and part of its databases are written, but not the height. */
    ghost predicate Interrupted()
      reads this, db
    {
      && WellNumbered(blocks) && blocks != [] && db.height == |blocks| - 1
      && SomePart(StateAfter(blocks[..|blocks| - 1]), BlockUpdates(blocks[|blocks| - 1]), db.data)
    }

    /**
     * A block with the next number is judged against the state, stored and committed; on any other the node panics
     * before anything is written.
     */
    method ValidateAndCommit(
      env: Env, number: nat, txs: seq<DataTx>, sigFlags: seq<Flag>, signers: seq<seq<string>>)
      returns (r: Attempt, flags: seq<Flag>)
      requires InStep() && env.dbs <= db.dbs && |sigFlags| == |signers| == |txs|
      modifies this`blocks, db`data, db`height
      ensures InStep()
      ensures |flags| == |txs| && AllJudged(env, old(db.data), txs, sigFlags, signers, flags)
      ensures r == Done <==> number == old(|blocks|) + 1
      ensures r == Done ==> blocks == old(blocks) + [DataBlock(number, txs, flags)]
      ensures r == Done ==> db.data == Serial(old(db.data), txs, flags, number)
      ensures r == Panicked ==> blocks == old(blocks) && db.data == old(db.data) && db.height == old(db.height)
    {
      flags := ValidateBlock(env, db.data, txs, sigFlags, signers);
      JudgedIsCleanBlock(env, db.data, txs, sigFlags, signers, flags);
      var updates := ConstructDBEntries(txs, flags, number);
      if number != |blocks| + 1 {
        return Panicked, flags;
      }
      blocks := blocks + [DataBlock(number, txs, flags)];
      assert blocks[..|blocks| - 1] == old(blocks);
      CollectedDBsExist(env, db.data, txs, sigFlags, signers, flags, number);
      ghost var written;
      var ok;
      ok, written := db.Commit(updates, number);
      r := if ok then Done else Panicked;
      assert (map d | d in written :: updates[d]) == updates;
      ApplyIsBatched(old(db.data), updates, db.data);
      DataBlockIsSerial(blocks);
    }

    /** The start-up rule: only a state one block behind is replayed, from the stored block. */
    method RecoverWorldStateDBIfNeeded() returns (r: Recovered)
      requires WellNumbered(blocks)
      modifies db`data, db`height
      ensures r == UpToDate <==> old(db.height) == |blocks|
      ensures r == StateAhead <==> old(db.height) > |blocks|
      ensures r == TooFarBehind <==> old(db.height) + 1 < |blocks|
      ensures r == Replayed <==>
        old(db.height) + 1 == |blocks| && BlockUpdates(blocks[|blocks| - 1]).Keys <= db.dbs
      ensures r !in {Replayed, NoDatabase} ==> db.data == old(db.data)
      ensures r != Replayed ==> db.height == old(db.height)
      ensures r == Replayed && old(Interrupted()) ==> InStep()
    {
      if db.height == |blocks| {
        return UpToDate;
      }
      if db.height > |blocks| {
        return StateAhead;
      }
      if |blocks| - db.height > 1 {
        return TooFarBehind;
      }
      var updates := BlockUpdates(blocks[|blocks| - 1]);
      ghost var crashed := db.data;
      var ok, written := db.Commit(updates, |blocks|);
      if !ok {
        return NoDatabase;
      }
      r := Replayed;
      if old(Interrupted()) {
        ghost var before := StateAfter(blocks[..|blocks| - 1]);
        ghost var part :| Partly(before, updates, part, crashed);
        assert Restrict(updates, written) == map d | d in written :: updates[d];
        ReplayConverges(before, updates, part, crashed, written, db.data);
        FullyIsApply(before, updates, part + written, db.data);
      }
    }
  }

  lemma JudgedIsClean(
    env: Env, data: Data, txs: seq<DataTx>, sigFlags: seq<Flag>, signers: seq<seq<string>>, flags: seq<Flag>)
    requires AllJudged(env, data, txs, sigFlags, signers, flags)
    ensures forall n, i :: 0 <= n < |flags| && flags[n] == VALID && 0 <= i < |txs[n]| ==>
      NoNil(txs[n][i]) && txs[n][i].dbName in env.dbs
  {
    forall n, i | 0 <= n < |flags| && flags[n] == VALID && 0 <= i < |txs[n]|
      ensures NoNil(txs[n][i]) && txs[n][i].dbName in env.dbs
    {
      assert Judged(env, data, txs, sigFlags, signers, flags, n) && OpAlone(env, data, signers[n], txs[n][i]);
    }
  }

  lemma {:induction false} CollectedDBs(updates: map<string, Updates>, tx: DataTx, version: Version, dbs: set<string>)
    requires updates.Keys <= dbs && forall i :: 0 <= i < |tx| ==> tx[i].dbName in dbs
    ensures Collect(updates, tx, version).Keys <= dbs
  {
    if tx != [] { CollectedDBs(updates, tx[..|tx| - 1], version, dbs); }
  }

  lemma {:induction false} CollectedBlockDBs(txs: seq<DataTx>, flags: seq<Flag>, blockNum: nat, dbs: set<string>)
    requires |flags| <= |txs|
    requires forall n, i :: 0 <= n < |flags| && flags[n] == VALID && 0 <= i < |txs[n]| ==> txs[n][i].dbName in dbs
    ensures CollectBlock(txs, flags, blockNum).Keys <= dbs
  {
    if flags != [] {
      var n := |flags| - 1;
      CollectedBlockDBs(txs, flags[..n], blockNum, dbs);
      if flags[n] == VALID {
        CollectedDBs(CollectBlock(txs, flags[..n], blockNum), txs[n], Version(blockNum, n), dbs);
      }
    }
  }

  /** The commit of a validated block never meets an unknown database. */
  lemma CollectedDBsExist(
    env: Env, data: Data, txs: seq<DataTx>, sigFlags: seq<Flag>, signers: seq<seq<string>>, flags: seq<Flag>,
    blockNum: nat)
    requires AllJudged(env, data, txs, sigFlags, signers, flags)
    ensures CollectBlock(txs, flags, blockNum).Keys <= env.dbs
  {
    JudgedIsClean(env, data, txs, sigFlags, signers, flags);
    CollectedBlockDBs(txs, flags, blockNum, env.dbs);
  }

  // ----- Runs with crashes at any point, any number of times -----
  //
  // The updates of a block are those of its stored transactions, as they are for data and user administration. Index
  // databases and configuration blocks, whose updates depend on the state found, are in IndexRuns and ConfigReplay.

  datatype Phase = Idle | Committing(done: set<string>) | Down | Halted

  datatype Node = Node(blocks: seq<Block>, height: nat, data: Data, phase: Phase)

  ghost predicate Start(s: Node) {
    s.blocks == [] && s.height == 0 && s.data == map[] && s.phase == Idle
  }

  ghost function Current(s: Node): map<string, Updates>
    requires WellNumbered(s.blocks) && s.blocks != []
  {
    BlockUpdates(s.blocks[|s.blocks| - 1])
  }

  /** The next block goes to the block store. */
  ghost predicate StoreBlock(s: Node, t: Node, block: Block) {
    s.phase == Idle && t == s.(blocks := s.blocks + [block], phase := Committing({})) && WellNumbered(t.blocks)
  }

  /** One database takes its updates. */
  ghost predicate WriteDB(s: Node, t: Node, db: string) {
    && WellNumbered(s.blocks) && s.blocks != [] && s.phase.Committing?
    && db in Current(s) && db !in s.phase.done
    && t == s.(data := ApplyDB(s.data, db, Current(s)[db]), phase := Committing(s.phase.done + {db}))
  }

  /** After all of them the height is written. */
  ghost predicate WriteHeight(s: Node, t: Node) {
    && WellNumbered(s.blocks) && s.blocks != [] && s.phase.Committing? && Current(s).Keys <= s.phase.done
    && t == s.(height := |s.blocks|, phase := Idle)
  }

  ghost predicate Crash(s: Node, t: Node) {
    t == s.(phase := Down)
  }

  /** The recovery rule; a state ahead, or more than one block behind, halts the node. */
  ghost predicate Restart(s: Node, t: Node) {
    && s.phase == Down
    && t == s.(phase :=
         if s.height == |s.blocks| then Idle
         else if s.height + 1 == |s.blocks| then Committing({})
         else Halted)
  }

  ghost predicate Next(s: Node, t: Node) {
    || (exists block :: StoreBlock(s, t, block))
    || (exists db :: WriteDB(s, t, db))
    || WriteHeight(s, t) || Crash(s, t) || Restart(s, t)
  }

  ghost predicate Inv(s: Node) {
    && WellNumbered(s.blocks) && s.phase != Halted
    && (s.height == |s.blocks| ==> s.data == StateAfter(s.blocks) && !s.phase.Committing?)
    && (s.height != |s.blocks| ==> s.height + 1 == |s.blocks| && s.phase != Idle && Midway(s))
  }

  /** What is done since the last restart is a part of what is written. */
  ghost predicate Midway(s: Node)
    requires WellNumbered(s.blocks) && s.height + 1 == |s.blocks|
  {
    exists written ::
      && Partly(StateAfter(s.blocks[..s.height]), Current(s), written, s.data)
      && (s.phase.Committing? ==> s.phase.done <= written)
  }

  lemma PartlyNothing(data: Data, updates: map<string, Updates>)
    ensures Partly(data, updates, {}, data)
  {
  }

  lemma PartlyOneMore(before: Data, updates: map<string, Updates>, written: set<string>, data: Data, db: string)
    requires Partly(before, updates, written, data) && db in updates
    ensures Partly(before, updates, written + {db}, ApplyDB(data, db, updates[db]))
  {
    forall loc ensures Get(ApplyDB(data, db, updates[db]), loc) ==
      ResultAt(data, Restrict(updates, {db}), loc)
    {
      GetApplyDB(data, db, updates[db], loc);
    }
    ReplayConverges(before, updates, written, data, {db}, ApplyDB(data, db, updates[db]));
  }

  lemma StoreBlockKeeps(s: Node, t: Node, block: Block)
    requires Inv(s) && StoreBlock(s, t, block)
    ensures Inv(t)
  {
    assert t.blocks[..s.height] == s.blocks;
    PartlyNothing(s.data, Current(t));
  }

  lemma WriteDBKeeps(s: Node, t: Node, db: string)
    requires Inv(s) && WriteDB(s, t, db)
    ensures Inv(t)
  {
    var before := StateAfter(s.blocks[..s.height]);
    var written :| Partly(before, Current(s), written, s.data) && s.phase.done <= written;
    PartlyOneMore(before, Current(s), written, s.data, db);
    assert t.phase.done <= written + {db};
  }

  lemma WriteHeightKeeps(s: Node, t: Node)
    requires Inv(s) && WriteHeight(s, t)
    ensures Inv(t)
  {
    var before := StateAfter(s.blocks[..s.height]);
    var written :| Partly(before, Current(s), written, s.data) && s.phase.done <= written;
    FullyIsApply(before, Current(s), written, s.data);
  }

  lemma CrashKeeps(s: Node, t: Node)
    requires Inv(s) && (Crash(s, t) || Restart(s, t))
    ensures Inv(t)
  {
    if s.height != |s.blocks| {
      var before := StateAfter(s.blocks[..s.height]);
      var written :| Partly(before, Current(s), written, s.data);
      assert Partly(StateAfter(t.blocks[..t.height]), Current(t), written, t.data);
      assert t.phase.Committing? ==> t.phase.done <= written;
    }
  }

  lemma NextKeeps(s: Node, t: Node)
    requires Inv(s) && Next(s, t)
    ensures Inv(t)
  {
    if block :| StoreBlock(s, t, block) {
      StoreBlockKeeps(s, t, block);
    } else if db :| WriteDB(s, t, db) {
      WriteDBKeeps(s, t, db);
    } else if WriteHeight(s, t) {
      WriteHeightKeeps(s, t);
    } else {
      CrashKeeps(s, t);
    }
  }

  ghost predicate Run(states: seq<Node>) {
    && states != [] && Start(states[0])
    && forall i :: 0 <= i < |states| - 1 ==> Next(states[i], states[i + 1])
  }

  /**
   * However often and wherever the node crashes, recovery never halts, and whenever the height says so the data is
   * exactly what committing the stored blocks without a crash gives.
   */
  lemma {:induction false} CrashesDoNotShow(states: seq<Node>)
    requires Run(states)
    ensures
      var s := states[|states| - 1];
      && WellNumbered(s.blocks) && s.phase != Halted && s.height <= |s.blocks| <= s.height + 1
      && (s.height == |s.blocks| ==> s.data == StateAfter(s.blocks))
    ensures Inv(states[|states| - 1])
    decreases |states|
  {
    var n := |states| - 1;
    if n > 0 {
      CrashesDoNotShow(states[..n]);
      assert Next(states[n - 1], states[n]);
      NextKeeps(states[n - 1], states[n]);
    }
  }
}
