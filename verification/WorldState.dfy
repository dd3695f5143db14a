/** The world state: versioned values by database and key, and the commit of one batch of updates per database. */
module WorldState {
  import opened Basics

  type Loc = (string, string)

  datatype Version = Version(blockNum: nat, txNum: nat)

  datatype SignPolicy = Any | All

  /** Users listed in an access control, with the flag stored for each. */
  datatype Acl = Acl(readUsers: map<string, bool>, readWriteUsers: map<string, bool>, policy: SignPolicy)

  datatype Stored = Stored(value: Bytes, version: Version, acl: Option<Acl>)

  datatype KV = KV(key: string, stored: Stored)

  datatype Updates = Updates(writes: seq<KV>, deletes: seq<string>)

  type Data = map<Loc, Stored>

  function Get(data: Data, loc: Loc): Option<Stored> {
    if loc in data then Some(data[loc]) else None
  }

  /** Data is determined by what it answers. */
  lemma SameAnswers(a: Data, b: Data)
    requires forall loc :: Get(a, loc) == Get(b, loc)
    ensures a == b
  {
    forall loc ensures loc in a <==> loc in b { assert Get(a, loc) == Get(b, loc); }
    forall loc | loc in a ensures a[loc] == b[loc] { assert Get(a, loc) == Get(b, loc); }
  }

  function PutAll(data: Data, db: string, writes: seq<KV>): Data {
    if writes == [] then data
    else
      var last := writes[|writes| - 1];
      PutAll(data, db, writes[..|writes| - 1])[(db, last.key) := last.stored]
  }

  function DelAll(data: Data, db: string, deletes: seq<string>): Data {
    map loc | loc in data && !(loc.0 == db && loc.1 in deletes) :: data[loc]
  }

  /** One database's part of a batch: the writes in order, then the deletes. */
  function ApplyDB(data: Data, db: string, u: Updates): Data {
    DelAll(PutAll(data, db, u.writes), db, u.deletes)
  }

  /** What a list of writes leaves for a key. */
  function LastWrite(writes: seq<KV>, key: string): Option<Stored> {
    if writes == [] then None
    else if writes[|writes| - 1].key == key then Some(writes[|writes| - 1].stored)
    else LastWrite(writes[..|writes| - 1], key)
  }

  /** What an update makes of one location. */
  function Outcome(before: Option<Stored>, u: Updates, key: string): Option<Stored> {
    if key in u.deletes then None
    else if LastWrite(u.writes, key).Some? then LastWrite(u.writes, key)
    else before
  }

  lemma {:induction false} GetPutAll(data: Data, db: string, writes: seq<KV>, loc: Loc)
    ensures Get(PutAll(data, db, writes), loc) ==
      if loc.0 == db && LastWrite(writes, loc.1).Some? then LastWrite(writes, loc.1) else Get(data, loc)
  {
    if writes != [] { GetPutAll(data, db, writes[..|writes| - 1], loc); }
  }

  lemma GetApplyDB(data: Data, db: string, u: Updates, loc: Loc)
    ensures Get(ApplyDB(data, db, u), loc) == if loc.0 == db then Outcome(Get(data, loc), u, loc.1) else Get(data, loc)
  {
    GetPutAll(data, db, u.writes, loc);
  }

  lemma {:induction false} LastWriteAppend(a: seq<KV>, b: seq<KV>, key: string)
    ensures LastWrite(a + b, key) == if LastWrite(b, key).Some? then LastWrite(b, key) else LastWrite(a, key)
  {
    if b == [] {
      assert a + b == a;
    } else {
      assert (a + b)[..|a + b| - 1] == a + b[..|b| - 1];
      LastWriteAppend(a, b[..|b| - 1], key);
    }
  }

  lemma {:induction false} LastWriteIsListed(writes: seq<KV>, key: string)
    ensures LastWrite(writes, key).Some? <==> exists i :: 0 <= i < |writes| && writes[i].key == key
    ensures LastWrite(writes, key).Some? ==>
      exists i :: 0 <= i < |writes| && writes[i].key == key && writes[i].stored == LastWrite(writes, key).value
  {
    if writes != [] {
      var n := |writes| - 1;
      LastWriteIsListed(writes[..n], key);
      if writes[n].key != key && LastWrite(writes[..n], key).Some? {
        var i :| 0 <= i < n && writes[..n][i].key == key && writes[..n][i].stored == LastWrite(writes, key).value;
        assert writes[i].key == key && writes[i].stored == LastWrite(writes, key).value;
      }
    }
  }

  /** A batch over several databases has been applied to `data`. */
  ghost predicate Batched(data: Data, updates: map<string, Updates>, data': Data) {
    forall loc :: Get(data', loc) ==
      if loc.0 in updates then Outcome(Get(data, loc), updates[loc.0], loc.1) else Get(data, loc)
  }

  lemma BatchedIsUnique(data: Data, updates: map<string, Updates>, a: Data, b: Data)
    requires Batched(data, updates, a) && Batched(data, updates, b)
    ensures a == b
  {
    SameAnswers(a, b);
  }

  /** The state database: existing databases, their contents, and the height. */
  class StateDB {
    var dbs: set<string>
    var data: Data
    var height: nat

    constructor (dbs: set<string>, data: Data, height: nat)
      ensures this.dbs == dbs && this.data == data && this.height == height
    {
      this.dbs, this.data, this.height := dbs, data, height;
    }

    /**
     * Databases are visited in any order and each is written in one batch; the height follows last. An unknown
     * database stops the commit before the height is written, and leaves a part of the databases updated.
     */
    method Commit(updates: map<string, Updates>, blockNum: nat) returns (ok: bool, ghost written: set<string>)
      modifies this`data, this`height
      ensures ok <==> updates.Keys <= dbs
      ensures written <= updates.Keys && Batched(old(data), map db | db in written :: updates[db], data)
      ensures ok ==> written == updates.Keys && height == blockNum
      ensures !ok ==> height == old(height)
    {
      var todo := updates.Keys;
      written := {};
      ok := true;
      while todo != {}
        invariant todo <= updates.Keys && written == updates.Keys - todo && written <= dbs
        invariant height == old(height)
        invariant Batched(old(data), map db | db in written :: updates[db], data)
        decreases |todo|
      {
        var db :| db in todo;
        if db !in dbs {
          return false, written;
        }
        ghost var before := data;
        data := ApplyDB(data, db, updates[db]);
        AddToBatch(old(data), updates, written, before, db);
        written, todo := written + {db}, todo - {db};
      }
      height := blockNum;
    }
  }

  lemma AddToBatch(data: Data, updates: map<string, Updates>, written: set<string>, before: Data, db: string)
    requires written <= updates.Keys && db in updates && db !in written
    requires Batched(data, map d | d in written :: updates[d], before)
    ensures Batched(data, map d | d in written + {db} :: updates[d], ApplyDB(before, db, updates[db]))
  {
    forall loc ensures Get(ApplyDB(before, db, updates[db]), loc) ==
      if loc.0 in written + {db} then Outcome(Get(data, loc), updates[loc.0], loc.1) else Get(data, loc)
    {
      GetApplyDB(before, db, updates[db], loc);
    }
  }
}
