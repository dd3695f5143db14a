/** Validation of one data transaction: structure, access control and version checks against pending operations. */
module DataValidation {
  import opened Basics
  import opened WorldState

  datatype DataRead = DataRead(key: string, version: Option<Version>)

  datatype DataWrite = DataWrite(key: string, value: Bytes, acl: Option<Acl>)

  /** Entries of the write and delete lists may be nil. */
  datatype DBOperation = DBOperation(
    dbName: string, dataReads: seq<DataRead>, dataWrites: seq<Option<DataWrite>>, dataDeletes: seq<Option<string>>)

  type DataTx = seq<DBOperation>

  datatype Flag =
    | VALID
    | INCORRECT_ENTRIES
    | NO_PERMISSION
    | UNAUTHORISED
    | DATABASE_DOES_NOT_EXIST
    | CONFLICT_WITHIN_BLOCK
    | CONFLICT_WITH_COMMITTED_STATE

  /** What validation reads besides the data; a block of data transactions changes none of it. */
  datatype Env = Env(dbs: set<string>, systemDBs: set<string>, users: set<string>, readWrite: set<(string, string)>)

  /** The alphabet of database names. */
  predicate NameChar(c: char) {
    '0' <= c <= '9' || 'a' <= c <= 'z' || 'A' <= c <= 'Z' || c == '_' || c == '-' || c == '.'
  }

  predicate ValidDBName(db: string) {
    db != "" && forall i :: 0 <= i < |db| ==> NameChar(db[i])
  }

  function CompositeKey(db: string, key: string): string { db + "~" + key }

  /** Database names do not contain the separator, so composite keys do not collide. */
  lemma CompositeKeyInjective(db1: string, key1: string, db2: string, key2: string)
    requires ValidDBName(db1) && ValidDBName(db2)
    requires CompositeKey(db1, key1) == CompositeKey(db2, key2)
    ensures db1 == db2 && key1 == key2
  {
    var s := CompositeKey(db1, key1);
    assert s[|db1|] == '~' && s[|db2|] == '~';
    assert forall i :: 0 <= i < |db1| ==> s[i] == db1[i] && s[i] != '~';
    assert forall i :: 0 <= i < |db2| ==> s[i] == db2[i] && s[i] != '~';
    assert db1 == s[..|db1|] && db2 == s[..|db2|];
    assert key1 == s[|db1| + 1..] && key2 == s[|db2| + 1..];
  }

  /** The composite keys of the locations an operation writes or deletes. */
  ghost function CompositeKeys(locs: set<Loc>): set<string> {
    set loc | loc in locs :: CompositeKey(loc.0, loc.1)
  }

  class PendingOperations {
    var pendingWrites: set<string>
    var pendingDeletes: set<string>

    constructor ()
      ensures Records({}, {})
    {
      pendingWrites, pendingDeletes := {}, {};
    }

    /** What is recorded are exactly the writes and deletes of the given locations. */
    ghost predicate Records(writes: set<Loc>, deletes: set<Loc>)
      reads this
    {
      && (forall loc :: loc in writes + deletes ==> ValidDBName(loc.0))
      && pendingWrites == CompositeKeys(writes)
      && pendingDeletes == CompositeKeys(deletes)
    }

    method AddWrite(db: string, key: string, ghost writes: set<Loc>, ghost deletes: set<Loc>)
      requires Records(writes, deletes) && ValidDBName(db)
      modifies this`pendingWrites
      ensures Records(writes + {(db, key)}, deletes)
    {
      pendingWrites := pendingWrites + {CompositeKey(db, key)};
    }

    method AddDelete(db: string, key: string, ghost writes: set<Loc>, ghost deletes: set<Loc>)
      requires Records(writes, deletes) && ValidDBName(db)
      modifies this`pendingDeletes
      ensures Records(writes, deletes + {(db, key)})
    {
      pendingDeletes := pendingDeletes + {CompositeKey(db, key)};
    }

    method ExistDelete(db: string, key: string, ghost writes: set<Loc>, ghost deletes: set<Loc>) returns (b: bool)
      requires Records(writes, deletes) && ValidDBName(db)
      ensures b <==> (db, key) in deletes
    {
      CompositeKeysExact(deletes, db, key);
      b := CompositeKey(db, key) in pendingDeletes;
    }

    method Exist(db: string, key: string, ghost writes: set<Loc>, ghost deletes: set<Loc>) returns (b: bool)
      requires Records(writes, deletes) && ValidDBName(db)
      ensures b <==> (db, key) in writes + deletes
    {
      CompositeKeysExact(writes, db, key);
      CompositeKeysExact(deletes, db, key);
      b := CompositeKey(db, key) in pendingWrites || CompositeKey(db, key) in pendingDeletes;
    }
  }

  lemma CompositeKeysExact(locs: set<Loc>, db: string, key: string)
    requires ValidDBName(db) && forall loc :: loc in locs ==> ValidDBName(loc.0)
    ensures CompositeKey(db, key) in CompositeKeys(locs) <==> (db, key) in locs
  {
    forall loc | loc in locs && CompositeKey(loc.0, loc.1) == CompositeKey(db, key)
      ensures loc == (db, key)
    {
      CompositeKeyInjective(loc.0, loc.1, db, key);
    }
    assert (db, key) in locs ==> CompositeKey((db, key).0, (db, key).1) in CompositeKeys(locs);
  }

  // ----- What a valid transaction is -----

  predicate Listed(users: map<string, bool>, user: string) { user in users && users[user] }

  /** A single listed user is enough to read. */
  ghost predicate MayRead(acl: Option<Acl>, users: set<string>) {
    acl.Some? ==>
      exists u :: u in users && (Listed(acl.value.readUsers, u) || Listed(acl.value.readWriteUsers, u))
  }

  /** To write, one listed user or all of them, by the policy; a list without users forbids it. */
  ghost predicate MayWrite(acl: Option<Acl>, users: set<string>) {
    acl.Some? ==>
      && acl.value.readWriteUsers != map[]
      && (acl.value.policy.Any? ==> exists u :: u in users && Listed(acl.value.readWriteUsers, u))
      && (acl.value.policy.All? ==> acl.value.readWriteUsers.Keys <= users)
  }

  function AclOf(data: Data, loc: Loc): Option<Acl> {
    if loc in data then data[loc].acl else None
  }

  function VersionOf(data: Data, loc: Loc): Option<Version> {
    if loc in data then Some(data[loc].version) else None
  }

  ghost function WriteLocs(op: DBOperation): set<Loc> {
    set w | w in op.dataWrites && w.Some? :: (op.dbName, w.value.key)
  }

  ghost function DeleteLocs(op: DBOperation): set<Loc> {
    set d | d in op.dataDeletes && d.Some? :: (op.dbName, d.value)
  }

  ghost function ReadLocs(op: DBOperation): set<Loc> {
    set r | r in op.dataReads :: (op.dbName, r.key)
  }

  ghost function Touched(op: DBOperation): set<Loc> {
    ReadLocs(op) + WriteLocs(op) + DeleteLocs(op)
  }

  /** The write and delete lists have no nil entry. */
  ghost predicate NoNil(op: DBOperation) {
    (forall w :: w in op.dataWrites ==> w.Some?) && (forall d :: d in op.dataDeletes ==> d.Some?)
  }

  /** No key is written twice, deleted twice, or both written and deleted. */
  ghost predicate KeysUnique(op: DBOperation)
    requires NoNil(op)
  {
    && (forall i, j :: 0 <= i < j < |op.dataWrites| ==> op.dataWrites[i].value.key != op.dataWrites[j].value.key)
    && (forall i, j :: 0 <= i < j < |op.dataDeletes| ==> op.dataDeletes[i].value != op.dataDeletes[j].value)
    && WriteLocs(op) !! DeleteLocs(op)
  }

  /** Access control lists of the written values name existing users only. */
  ghost predicate AclUsersExist(env: Env, op: DBOperation) {
    forall w :: w in op.dataWrites && w.Some? && w.value.acl.Some? ==>
      w.value.acl.value.readUsers.Keys + w.value.acl.value.readWriteUsers.Keys <= env.users
  }

  ghost predicate Permitted(data: Data, users: set<string>, op: DBOperation) {
    && (forall loc :: loc in ReadLocs(op) ==> MayRead(AclOf(data, loc), users))
    && (forall loc :: loc in WriteLocs(op) ==> MayWrite(AclOf(data, loc), users))
    && (forall loc :: loc in DeleteLocs(op) ==> MayWrite(AclOf(data, loc), users))
  }

  ghost predicate ReadsCurrent(data: Data, op: DBOperation) {
    forall r :: r in op.dataReads ==> r.version == VersionOf(data, (op.dbName, r.key))
  }

  /** The signers who may access the database. */
  ghost function Access(env: Env, signers: seq<string>, db: string): set<string> {
    set u | u in signers && (u, db) in env.readWrite
  }

  /** What does not depend on the data. */
  ghost predicate WellFormed(env: Env, signers: seq<string>, op: DBOperation) {
    && ValidDBName(op.dbName) && op.dbName in env.dbs && op.dbName !in env.systemDBs
    && Access(env, signers, op.dbName) != {}
    && NoNil(op) && KeysUnique(op) && AclUsersExist(env, op)
  }

  /** What does: permissions, read versions and the existence of what is deleted. */
  ghost predicate Agrees(env: Env, data: Data, signers: seq<string>, op: DBOperation) {
    && Permitted(data, Access(env, signers, op.dbName), op)
    && ReadsCurrent(data, op)
    && DeleteLocs(op) <= data.Keys
  }

  /** An operation that would be accepted on its own, with nothing pending. */
  ghost predicate OpAlone(env: Env, data: Data, signers: seq<string>, op: DBOperation) {
    WellFormed(env, signers, op) && Agrees(env, data, signers, op)
  }

  ghost predicate DBsUnique(tx: DataTx) {
    forall i, j :: 0 <= i < j < |tx| ==> tx[i].dbName != tx[j].dbName
  }

  /** A transaction that would be accepted on its own. */
  ghost predicate TxAlone(env: Env, data: Data, signers: seq<string>, tx: DataTx) {
    DBsUnique(tx) && forall i :: 0 <= i < |tx| ==> OpAlone(env, data, signers, tx[i])
  }

  ghost function TxTouched(tx: DataTx): set<Loc> {
    set i, loc | 0 <= i < |tx| && loc in Touched(tx[i]) :: loc
  }

  // ----- The same on the stored records, list by list -----

  /** The character class `[0-9a-zA-Z_\-\.]`, by code. */
  ghost predicate InNameClass(c: char) {
    var code := c as int;
    48 <= code <= 57 || 97 <= code <= 122 || 65 <= code <= 90 || code in {95, 45, 46}
  }

  /** One of the users is on the readers' or on the writers' list of the record. */
  ghost predicate Reads(a: Acl, users: set<string>) {
    exists u :: u in users &&
      ((u in a.readUsers && a.readUsers[u] == true) || (u in a.readWriteUsers && a.readWriteUsers[u] == true))
  }

  /** The writers' list names somebody, and one of the users is on it, or everybody on it is among the users. */
  ghost predicate Writes(a: Acl, users: set<string>) {
    && (exists u :: u in a.readWriteUsers)
    && match a.policy
       case Any => exists u :: u in users && u in a.readWriteUsers && a.readWriteUsers[u] == true
       case All => forall u :: u in a.readWriteUsers ==> u in users
  }

  ghost predicate Granted(data: Data, users: set<string>, op: DBOperation) {
    && (forall r :: r in op.dataReads ==>
          match Get(data, (op.dbName, r.key))
          case Some(Stored(_, _, Some(a))) => Reads(a, users)
          case _ => true)
    && (forall w :: w in op.dataWrites && w.Some? ==>
          match Get(data, (op.dbName, w.value.key))
          case Some(Stored(_, _, Some(a))) => Writes(a, users)
          case _ => true)
    && (forall d :: d in op.dataDeletes && d.Some? ==>
          match Get(data, (op.dbName, d.value))
          case Some(Stored(_, _, Some(a))) => Writes(a, users)
          case _ => true)
  }

  /** Each read names the block and the transaction that wrote the record, or no version if there is none. */
  ghost predicate Current(data: Data, op: DBOperation) {
    forall r :: r in op.dataReads ==>
      match Get(data, (op.dbName, r.key))
      case Some(stored) => r.version == Some(Version(stored.version.blockNum, stored.version.txNum))
      case None => r.version == None
  }

  /** The lists have no nil entry, name no key twice, grant access to existing users and delete existing keys. */
  ghost predicate Proper(env: Env, data: Data, op: DBOperation) {
    && (forall i :: 0 <= i < |op.dataWrites| ==>
          match op.dataWrites[i]
          case None => false
          case Some(w) =>
            && (forall j :: 0 <= j < |op.dataWrites| && j != i ==> op.dataWrites[j].Some? ==>
                  op.dataWrites[j].value.key != w.key)
            && (w.acl.Some? ==> forall u :: u in w.acl.value.readUsers || u in w.acl.value.readWriteUsers ==>
                  u in env.users))
    && (forall i :: 0 <= i < |op.dataDeletes| ==>
          match op.dataDeletes[i]
          case None => false
          case Some(key) =>
            && (op.dbName, key) in data
            && (forall j :: 0 <= j < |op.dataDeletes| && j != i ==> op.dataDeletes[j] != Some(key))
            && (forall j :: 0 <= j < |op.dataWrites| && op.dataWrites[j].Some? ==> op.dataWrites[j].value.key != key))
  }

  /** No key that is read, written or deleted is pending. */
  ghost predicate Untouched(op: DBOperation, pending: set<Loc>) {
    && (forall r :: r in op.dataReads ==> (op.dbName, r.key) !in pending)
    && (forall w :: w in op.dataWrites && w.Some? ==> (op.dbName, w.value.key) !in pending)
    && (forall d :: d in op.dataDeletes && d.Some? ==> (op.dbName, d.value) !in pending)
  }

  /** What acceptance of a transaction means. */
  ghost predicate Accepted(env: Env, data: Data, signers: seq<string>, tx: DataTx, pending: set<Loc>) {
    && (forall i, j :: 0 <= i < j < |tx| ==> tx[i].dbName != tx[j].dbName)
    && forall i :: 0 <= i < |tx| ==> AcceptedOp(env, data, signers, tx[i], pending)
  }

  ghost predicate AcceptedOp(env: Env, data: Data, signers: seq<string>, op: DBOperation, pending: set<Loc>) {
    var users := set u | u in signers && (u, op.dbName) in env.readWrite;
    && op.dbName != "" && (forall c :: c in op.dbName ==> InNameClass(c))
    && op.dbName in env.dbs && op.dbName !in env.systemDBs && users != {}
    && Proper(env, data, op) && Granted(data, users, op) && Current(data, op) && Untouched(op, pending)
  }

  lemma NameExact(db: string)
    ensures ValidDBName(db) <==> db != "" && forall c :: c in db ==> InNameClass(c)
  {
    forall i | 0 <= i < |db| ensures NameChar(db[i]) <==> InNameClass(db[i]) {}
  }

  lemma PermittedExact(data: Data, users: set<string>, op: DBOperation)
    ensures Permitted(data, users, op) <==> Granted(data, users, op)
  {
    forall loc ensures MayRead(AclOf(data, loc), users) <==>
        match Get(data, loc)
        case Some(Stored(_, _, Some(a))) => Reads(a, users)
        case _ => true
    {}
    forall loc ensures MayWrite(AclOf(data, loc), users) <==>
        match Get(data, loc)
        case Some(Stored(_, _, Some(a))) => Writes(a, users)
        case _ => true
    {}
  }

  lemma CurrentExact(data: Data, op: DBOperation)
    ensures ReadsCurrent(data, op) <==> Current(data, op)
  {
  }

  lemma ProperExact(env: Env, data: Data, op: DBOperation)
    ensures Proper(env, data, op) <==>
      NoNil(op) && KeysUnique(op) && AclUsersExist(env, op) && DeleteLocs(op) <= data.Keys
  {
    forall i | 0 <= i < |op.dataDeletes| && op.dataDeletes[i].Some?
      ensures (op.dbName, op.dataDeletes[i].value) in DeleteLocs(op)
    {
      assert op.dataDeletes[i] in op.dataDeletes;
    }
    forall i | 0 <= i < |op.dataWrites| && op.dataWrites[i].Some?
      ensures (op.dbName, op.dataWrites[i].value.key) in WriteLocs(op)
    {
      assert op.dataWrites[i] in op.dataWrites;
    }
    if Proper(env, data, op) {
      forall w | w in op.dataWrites ensures w.Some? {
        var i :| 0 <= i < |op.dataWrites| && op.dataWrites[i] == w;
      }
      forall d | d in op.dataDeletes ensures d.Some? {
        var i :| 0 <= i < |op.dataDeletes| && op.dataDeletes[i] == d;
      }
    }
  }

  lemma UntouchedExact(op: DBOperation, pending: set<Loc>)
    ensures Untouched(op, pending) <==> Touched(op) !! pending
    ensures Touched(op) * pending != {} ==> !Untouched(op, pending)
  {
  }

  /** An operation that would be accepted on its own and touches nothing pending, spelled out. */
  lemma OpExact(env: Env, data: Data, signers: seq<string>, op: DBOperation, pending: set<Loc>)
    ensures OpAlone(env, data, signers, op) && Touched(op) !! pending <==> AcceptedOp(env, data, signers, op, pending)
  {
    NameExact(op.dbName);
    ProperExact(env, data, op);
    PermittedExact(data, Access(env, signers, op.dbName), op);
    CurrentExact(data, op);
    UntouchedExact(op, pending);
  }

  lemma AcceptedExact(env: Env, data: Data, signers: seq<string>, tx: DataTx, pending: set<Loc>)
    ensures TxAlone(env, data, signers, tx) && TxTouched(tx) !! pending <==> Accepted(env, data, signers, tx, pending)
  {
    forall i | 0 <= i < |tx|
      ensures OpAlone(env, data, signers, tx[i]) && Touched(tx[i]) !! pending <==>
        AcceptedOp(env, data, signers, tx[i], pending)
    {
      OpExact(env, data, signers, tx[i], pending);
    }
    forall i | 0 <= i < |tx| ensures Touched(tx[i]) <= TxTouched(tx) { TouchedByTx(tx, i); }
  }

  // ----- The validator -----

  /** What each flag tells about an operation that was refused. */
  ghost predicate Refuted(
    f: Flag, env: Env, data: Data, users: set<string>, op: DBOperation, writes: set<Loc>, deletes: set<Loc>)
  {
    match f
    case INCORRECT_ENTRIES =>
      op.dbName == "" || (exists c :: c in op.dbName && !InNameClass(c)) || !Proper(env, data, op)
    case NO_PERMISSION => op.dbName in env.systemDBs || users == {} || !Granted(data, users, op)
    case DATABASE_DOES_NOT_EXIST => op.dbName !in env.dbs
    case CONFLICT_WITHIN_BLOCK => !Untouched(op, writes + deletes)
    case CONFLICT_WITH_COMMITTED_STATE => !Current(data, op)
    case _ => false
  }

  method ValidateDBName(env: Env, db: string) returns (f: Flag)
    ensures f == VALID <==> ValidDBName(db) && db in env.dbs && db !in env.systemDBs
    ensures f == INCORRECT_ENTRIES <==> !ValidDBName(db)
    ensures f == DATABASE_DOES_NOT_EXIST <==> ValidDBName(db) && db !in env.dbs
    ensures f in {VALID, INCORRECT_ENTRIES, DATABASE_DOES_NOT_EXIST, NO_PERMISSION}
  {
    if !ValidDBName(db) {
      f := INCORRECT_ENTRIES;
    } else if db !in env.dbs {
      f := DATABASE_DOES_NOT_EXIST;
    } else if db in env.systemDBs {
      f := NO_PERMISSION;
    } else {
      f := VALID;
    }
  }

  /** Users known to exist are asked for only once. */
  method CheckUsers(env: Env, users: set<string>, known: set<string>) returns (ok: bool, known': set<string>)
    requires known <= env.users
    ensures ok <==> users <= env.users
    ensures ok ==> known' == known + users
  {
    var todo := users - known;
    known' := known;
    while todo != {}
      invariant todo <= users && known <= known' <= env.users && known' == known + (users - todo)
      decreases |todo|
    {
      var user :| user in todo;
      if user !in env.users {
        return false, known';
      }
      known', todo := known' + {user}, todo - {user};
    }
    ok := true;
    assert known' == known + users;
  }

  method ValidateFieldsInDataWrites(env: Env, op: DBOperation) returns (f: Flag)
    ensures f == VALID <==> (forall w :: w in op.dataWrites ==> w.Some?) && AclUsersExist(env, op)
    ensures f in {VALID, INCORRECT_ENTRIES}
  {
    var existing: set<string> := {};
    for i := 0 to |op.dataWrites|
      invariant existing <= env.users
      invariant forall k :: 0 <= k < i ==> op.dataWrites[k].Some?
      invariant forall k :: 0 <= k < i && op.dataWrites[k].value.acl.Some? ==>
        var acl := op.dataWrites[k].value.acl.value; acl.readUsers.Keys + acl.readWriteUsers.Keys <= env.users
    {
      assert op.dataWrites[i] in op.dataWrites;
      if op.dataWrites[i].None? {
        return INCORRECT_ENTRIES;
      }
      var w := op.dataWrites[i].value;
      if w.acl.Some? {
        var ok, known := CheckUsers(env, w.acl.value.readUsers.Keys + w.acl.value.readWriteUsers.Keys, existing);
        if !ok {
          return INCORRECT_ENTRIES;
        }
        existing := known;
      }
    }
    f := VALID;
  }

  method ValidateFieldsInDataDeletes(
    data: Data, op: DBOperation, pending: PendingOperations, ghost writes: set<Loc>, ghost deletes: set<Loc>)
    returns (f: Flag)
    requires pending.Records(writes, deletes) && ValidDBName(op.dbName)
    ensures f == VALID <==>
      && (forall d :: d in op.dataDeletes ==> d.Some?)
      && DeleteLocs(op) !! deletes && DeleteLocs(op) <= data.Keys
    ensures f in {VALID, INCORRECT_ENTRIES, CONFLICT_WITHIN_BLOCK}
    ensures f == CONFLICT_WITHIN_BLOCK ==> DeleteLocs(op) * deletes != {}
    ensures f == INCORRECT_ENTRIES ==> !(DeleteLocs(op) <= data.Keys) || exists d :: d in op.dataDeletes && d.None?
  {
    for i := 0 to |op.dataDeletes|
      invariant forall k :: 0 <= k < i ==> op.dataDeletes[k].Some?
      invariant forall k :: 0 <= k < i ==>
        var loc := (op.dbName, op.dataDeletes[k].value); loc !in deletes && loc in data
    {
      assert op.dataDeletes[i] in op.dataDeletes;
      if op.dataDeletes[i].None? {
        return INCORRECT_ENTRIES;
      }
      assert (op.dbName, op.dataDeletes[i].value) in DeleteLocs(op);
      var gone := pending.ExistDelete(op.dbName, op.dataDeletes[i].value, writes, deletes);
      if gone {
        assert (op.dbName, op.dataDeletes[i].value) in DeleteLocs(op) * deletes;
        return CONFLICT_WITHIN_BLOCK;
      }
      if (op.dbName, op.dataDeletes[i].value) !in data {
        return INCORRECT_ENTRIES;
      }
    }
    f := VALID;
  }

  method ValidateUniqueness(op: DBOperation) returns (f: Flag)
    requires NoNil(op)
    ensures f == VALID <==> KeysUnique(op)
    ensures f in {VALID, INCORRECT_ENTRIES}
  {
    var writeKeys, deleteKeys: set<string> := {}, {};
    for i := 0 to |op.dataWrites|
      invariant writeKeys == set k | 0 <= k < i :: op.dataWrites[k].value.key
      invariant forall j, k :: 0 <= j < k < i ==> op.dataWrites[j].value.key != op.dataWrites[k].value.key
    {
      if op.dataWrites[i].value.key in writeKeys {
        return INCORRECT_ENTRIES;
      }
      writeKeys := writeKeys + {op.dataWrites[i].value.key};
    }
    for i := 0 to |op.dataDeletes|
      invariant deleteKeys == set k | 0 <= k < i :: op.dataDeletes[k].value
      invariant forall j, k :: 0 <= j < k < i ==> op.dataDeletes[j].value != op.dataDeletes[k].value
      invariant deleteKeys !! writeKeys
    {
      var key := op.dataDeletes[i].value;
      if key in deleteKeys {
        return INCORRECT_ENTRIES;
      }
      if key in writeKeys {
        assert (op.dbName, key) in DeleteLocs(op) by { assert op.dataDeletes[i] in op.dataDeletes; }
        assert (op.dbName, key) in WriteLocs(op);
        return INCORRECT_ENTRIES;
      }
      deleteKeys := deleteKeys + {key};
    }
    assert forall loc :: loc in WriteLocs(op) ==> loc.1 in writeKeys;
    assert forall loc :: loc in DeleteLocs(op) ==> loc.1 in deleteKeys;
    f := VALID;
  }

  method ValidateACLOnDataReads(data: Data, users: seq<string>, op: DBOperation) returns (f: Flag)
    ensures f == VALID <==> forall loc :: loc in ReadLocs(op) ==> MayRead(AclOf(data, loc), (set u | u in users))
    ensures f in {VALID, NO_PERMISSION}
  {
    for i := 0 to |op.dataReads|
      invariant forall k :: 0 <= k < i ==>
        MayRead(AclOf(data, (op.dbName, op.dataReads[k].key)), (set u | u in users))
    {
      var acl := AclOf(data, (op.dbName, op.dataReads[i].key));
      assert op.dataReads[i] in op.dataReads && (op.dbName, op.dataReads[i].key) in ReadLocs(op);
      if acl.Some? {
        var hasPerm := false;
        var j := 0;
        while j < |users| && !hasPerm
          invariant 0 <= j <= |users|
          invariant hasPerm ==> MayRead(acl, (set u | u in users))
          invariant !hasPerm ==> forall k :: 0 <= k < j ==>
            !Listed(acl.value.readUsers, users[k]) && !Listed(acl.value.readWriteUsers, users[k])
        {
          if Listed(acl.value.readUsers, users[j]) || Listed(acl.value.readWriteUsers, users[j]) {
            hasPerm := true;
          }
          j := j + 1;
        }
        if !hasPerm {
          return NO_PERMISSION;
        }
      }
    }
    f := VALID;
  }

  method ValidateACLForWriteOrDelete(data: Data, users: seq<string>, loc: Loc) returns (f: Flag)
    ensures f == VALID <==> MayWrite(AclOf(data, loc), (set u | u in users))
    ensures f in {VALID, NO_PERMISSION}
  {
    var acl := AclOf(data, loc);
    if acl.None? {
      return VALID;
    }
    if acl.value.readWriteUsers == map[] {
      return NO_PERMISSION;
    }
    match acl.value.policy
    case Any =>
      var hasPerm := false;
      var j := 0;
      while j < |users| && !hasPerm
        invariant 0 <= j <= |users|
        invariant hasPerm ==> exists u :: u in users && Listed(acl.value.readWriteUsers, u)
        invariant !hasPerm ==> forall k :: 0 <= k < j ==> !Listed(acl.value.readWriteUsers, users[k])
      {
        if Listed(acl.value.readWriteUsers, users[j]) {
          hasPerm := true;
        }
        j := j + 1;
      }
      f := if hasPerm then VALID else NO_PERMISSION;
    case All =>
      var todo := acl.value.readWriteUsers.Keys;
      while todo != {}
        invariant todo <= acl.value.readWriteUsers.Keys
        invariant forall u :: u in acl.value.readWriteUsers.Keys - todo ==> u in users
        decreases |todo|
      {
        var target :| target in todo;
        if target !in users {
          return NO_PERMISSION;
        }
        todo := todo - {target};
      }
      f := VALID;
  }

  method ValidateACLOnDataWrites(data: Data, users: seq<string>, op: DBOperation) returns (f: Flag)
    requires NoNil(op)
    ensures f == VALID <==> forall loc :: loc in WriteLocs(op) ==> MayWrite(AclOf(data, loc), (set u | u in users))
    ensures f in {VALID, NO_PERMISSION}
  {
    for i := 0 to |op.dataWrites|
      invariant forall k :: 0 <= k < i ==>
        MayWrite(AclOf(data, (op.dbName, op.dataWrites[k].value.key)), (set u | u in users))
    {
      assert op.dataWrites[i] in op.dataWrites && (op.dbName, op.dataWrites[i].value.key) in WriteLocs(op);
      f := ValidateACLForWriteOrDelete(data, users, (op.dbName, op.dataWrites[i].value.key));
      if f != VALID {
        return;
      }
    }
    f := VALID;
  }

  method ValidateACLOnDataDeletes(data: Data, users: seq<string>, op: DBOperation) returns (f: Flag)
    requires NoNil(op)
    ensures f == VALID <==> forall loc :: loc in DeleteLocs(op) ==> MayWrite(AclOf(data, loc), (set u | u in users))
    ensures f in {VALID, NO_PERMISSION}
  {
    for i := 0 to |op.dataDeletes|
      invariant forall k :: 0 <= k < i ==>
        MayWrite(AclOf(data, (op.dbName, op.dataDeletes[k].value)), (set u | u in users))
    {
      assert op.dataDeletes[i] in op.dataDeletes && (op.dbName, op.dataDeletes[i].value) in DeleteLocs(op);
      f := ValidateACLForWriteOrDelete(data, users, (op.dbName, op.dataDeletes[i].value));
      if f != VALID {
        return;
      }
    }
    f := VALID;
  }

  method MvccValidation(
    data: Data, op: DBOperation, pending: PendingOperations, ghost writes: set<Loc>, ghost deletes: set<Loc>)
    returns (f: Flag)
    requires pending.Records(writes, deletes) && ValidDBName(op.dbName) && NoNil(op)
    ensures f == VALID <==> ReadsCurrent(data, op) && Touched(op) !! writes + deletes
    ensures f in {VALID, CONFLICT_WITHIN_BLOCK, CONFLICT_WITH_COMMITTED_STATE}
    ensures f == CONFLICT_WITH_COMMITTED_STATE ==> !ReadsCurrent(data, op)
    ensures f == CONFLICT_WITHIN_BLOCK ==> Touched(op) * (writes + deletes) != {}
  {
    for i := 0 to |op.dataReads|
      invariant forall k :: 0 <= k < i ==>
        var loc := (op.dbName, op.dataReads[k].key);
        loc !in writes + deletes && op.dataReads[k].version == VersionOf(data, loc)
    {
      ghost var loc := (op.dbName, op.dataReads[i].key);
      assert op.dataReads[i] in op.dataReads && loc in ReadLocs(op);
      var exist := pending.Exist(op.dbName, op.dataReads[i].key, writes, deletes);
      if exist {
        assert loc in Touched(op) * (writes + deletes);
        return CONFLICT_WITHIN_BLOCK;
      }
      if op.dataReads[i].version != VersionOf(data, (op.dbName, op.dataReads[i].key)) {
        return CONFLICT_WITH_COMMITTED_STATE;
      }
    }
    for i := 0 to |op.dataWrites|
      invariant forall k :: 0 <= k < i ==> (op.dbName, op.dataWrites[k].value.key) !in writes + deletes
    {
      ghost var loc := (op.dbName, op.dataWrites[i].value.key);
      assert op.dataWrites[i] in op.dataWrites && loc in WriteLocs(op);
      var exist := pending.Exist(op.dbName, op.dataWrites[i].value.key, writes, deletes);
      if exist {
        assert loc in Touched(op) * (writes + deletes);
        return CONFLICT_WITHIN_BLOCK;
      }
    }
    for i := 0 to |op.dataDeletes|
      invariant forall k :: 0 <= k < i ==> (op.dbName, op.dataDeletes[k].value) !in writes + deletes
    {
      ghost var loc := (op.dbName, op.dataDeletes[i].value);
      assert op.dataDeletes[i] in op.dataDeletes && loc in DeleteLocs(op);
      var exist := pending.Exist(op.dbName, op.dataDeletes[i].value, writes, deletes);
      if exist {
        assert loc in Touched(op) * (writes + deletes);
        return CONFLICT_WITHIN_BLOCK;
      }
    }
    f := VALID;
  }

  /** Everything validateOps checks about one database's operations. */
  ghost predicate OpsPass(
    env: Env, data: Data, users: set<string>, op: DBOperation, writes: set<Loc>, deletes: set<Loc>)
  {
    && NoNil(op) && KeysUnique(op) && AclUsersExist(env, op)
    && Permitted(data, users, op) && ReadsCurrent(data, op) && DeleteLocs(op) <= data.Keys
    && Touched(op) !! writes + deletes
  }

  method ValidateOps(
    env: Env, data: Data, users: seq<string>, op: DBOperation, pending: PendingOperations,
    ghost writes: set<Loc>, ghost deletes: set<Loc>)
    returns (f: Flag)
    requires pending.Records(writes, deletes) && ValidDBName(op.dbName)
    ensures f == VALID <==> OpsPass(env, data, (set u | u in users), op, writes, deletes)
    ensures f != VALID ==> Refuted(f, env, data, (set u | u in users), op, writes, deletes)
  {
    ProperExact(env, data, op);
    UntouchedExact(op, writes + deletes);
    f := ValidateFieldsInDataWrites(env, op);
    if f != VALID { return; }
    f := ValidateFieldsInDataDeletes(data, op, pending, writes, deletes);
    if f != VALID {
      assert DeleteLocs(op) * deletes <= Touched(op) * (writes + deletes);
      return;
    }
    f := ValidateUniqueness(op);
    if f != VALID { return; }
    PermittedExact(data, (set u | u in users), op);
    CurrentExact(data, op);
    f := ValidateACLOnDataReads(data, users, op);
    if f != VALID { return; }
    f := ValidateACLOnDataWrites(data, users, op);
    if f != VALID { return; }
    f := ValidateACLOnDataDeletes(data, users, op);
    if f != VALID { return; }
    f := MvccValidation(data, op, pending, writes, deletes);
  }

  method UsersWithAccess(env: Env, signers: seq<string>, db: string) returns (users: seq<string>)
    ensures (set u | u in users) == Access(env, signers, db)
  {
    users := [];
    for i := 0 to |signers|
      invariant forall u :: u in users <==> u in signers[..i] && (u, db) in env.readWrite
    {
      if (signers[i], db) in env.readWrite {
        users := users + [signers[i]];
      }
    }
  }

  /** The operations on one database: its name, the signers who may access it, and what they do there. */
  method ValidateDBOperation(
    env: Env, data: Data, signers: seq<string>, op: DBOperation, pending: PendingOperations,
    ghost writes: set<Loc>, ghost deletes: set<Loc>)
    returns (f: Flag)
    requires pending.Records(writes, deletes)
    ensures f == VALID <==> OpAlone(env, data, signers, op) && Touched(op) !! writes + deletes
    ensures f != VALID ==> Refuted(f, env, data, Access(env, signers, op.dbName), op, writes, deletes)
  {
    NameExact(op.dbName);
    f := ValidateDBName(env, op.dbName);
    if f != VALID {
      return;
    }
    var users := UsersWithAccess(env, signers, op.dbName);
    if |users| == 0 {
      assert Access(env, signers, op.dbName) == {};
      return NO_PERMISSION;
    }
    assert users[0] in Access(env, signers, op.dbName);
    f := ValidateOps(env, data, users, op, pending, writes, deletes);
  }

  /** A transaction is valid exactly when it would be on its own and touches nothing pending. */
  method Validate(
    env: Env, data: Data, signers: seq<string>, tx: DataTx, pending: PendingOperations,
    ghost writes: set<Loc>, ghost deletes: set<Loc>)
    returns (f: Flag)
    requires pending.Records(writes, deletes)
    ensures f == VALID <==> TxAlone(env, data, signers, tx) && TxTouched(tx) !! writes + deletes
    ensures f == VALID <==> Accepted(env, data, signers, tx, writes + deletes)
    ensures f != VALID ==>
      || (f == INCORRECT_ENTRIES && !DBsUnique(tx))
      || exists i :: 0 <= i < |tx| &&
           Refuted(f, env, data, Access(env, signers, tx[i].dbName), tx[i], writes, deletes)
  {
    AcceptedExact(env, data, signers, tx, writes + deletes);
    var dbs: set<string> := {};
    for i := 0 to |tx|
      invariant dbs == set k | 0 <= k < i :: tx[k].dbName
      invariant forall j, k :: 0 <= j < k < i ==> tx[j].dbName != tx[k].dbName
    {
      if tx[i].dbName in dbs {
        return INCORRECT_ENTRIES;
      }
      dbs := dbs + {tx[i].dbName};
    }
    for i := 0 to |tx|
      invariant forall k :: 0 <= k < i ==> OpAlone(env, data, signers, tx[k]) && Touched(tx[k]) !! writes + deletes
    {
      f := ValidateDBOperation(env, data, signers, tx[i], pending, writes, deletes);
      if f != VALID {
        TouchedByTx(tx, i);
        return;
      }
    }
    f := VALID;
  }

  lemma TouchedByTx(tx: DataTx, i: nat)
    requires i < |tx|
    ensures Touched(tx[i]) <= TxTouched(tx)
  {
  }
}
