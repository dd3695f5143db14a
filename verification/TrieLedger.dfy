/** The state trie over runs of blocks: what it holds for each location of the world state. */
module TrieLedger {
  import opened Basics
  import opened TrieTree
  import opened TrieNodes
  import opened TrieRuns
  import opened MPTrie
  import opened TrieValues
  import Ledger
  import State = WorldState

  // ----- Composite keys -----

  function NameDigest(h: Digest, utf8: string -> Bytes, name: string): Bytes {
    if name == "" then [] else h(utf8(name))
  }

  /** What is digested for a location: the digests of its two names, none for an empty name. */
  function LocPreimage(h: Digest, utf8: string -> Bytes, loc: State.Loc): Bytes {
    NameDigest(h, utf8, loc.0) + NameDigest(h, utf8, loc.1)
  }

  function CompositeKey(h: Digest, utf8: string -> Bytes, loc: State.Loc): Bytes {
    h(LocPreimage(h, utf8, loc))
  }

  /** Strings put together of two parts, each empty or of length `d`, tell the parts unless one is on the other side. */
  lemma TwoParts(a: Bytes, b: Bytes, x: Bytes, y: Bytes, d: nat)
    requires |a| in {0, d} && |b| in {0, d} && |x| in {0, d} && |y| in {0, d}
    ensures a + b == x + y <==> (a == x && b == y) || (a == y == [] && b == x) || (b == x == [] && a == y)
  {
    if a + b == x + y {
      assert |a| == |x| ==> a == (a + b)[..|a|] && x == (x + y)[..|a|] && b == (a + b)[|a|..] && y == (x + y)[|a|..];
      assert a == [] ==> a + b == b;
      assert b == [] ==> a + b == a;
      assert x == [] ==> x + y == y;
      assert y == [] ==> x + y == x;
    }
  }

  /** Digests have one length, as those of SHA-256 have 32 bytes. */
  ghost predicate OneSize(h: Digest, d: nat) { forall x :: |h(x)| == d }

  /** No two different strings digested for the composite keys have the same digest. */
  ghost predicate NoKeyCollisions(h: Digest, utf8: string -> Bytes, locs: set<State.Loc>) {
    forall a, b :: a in locs && b in locs ==>
      && (CompositeKey(h, utf8, a) == CompositeKey(h, utf8, b) ==> LocPreimage(h, utf8, a) == LocPreimage(h, utf8, b))
      && (NameDigest(h, utf8, a.0) == NameDigest(h, utf8, b.0) ==> a.0 == b.0)
      && (NameDigest(h, utf8, a.1) == NameDigest(h, utf8, b.1) ==> a.1 == b.1)
      && (NameDigest(h, utf8, a.0) == NameDigest(h, utf8, b.1) ==> a.0 == b.1)
  }

  /** The composite keys of these locations have one length and are different. */
  ghost predicate Keyed(h: Digest, utf8: string -> Bytes, locs: set<State.Loc>, n: nat) {
    && n > 0 && (forall loc :: loc in locs ==> |CompositeKey(h, utf8, loc)| == n)
    && (forall a, b :: a in locs && b in locs && CompositeKey(h, utf8, a) == CompositeKey(h, utf8, b) ==> a == b)
  }

  lemma NameSize(h: Digest, utf8: string -> Bytes, name: string, d: nat)
    requires OneSize(h, d)
    ensures |NameDigest(h, utf8, name)| in {0, d} && (NameDigest(h, utf8, name) == [] <==> name == "")
  {
  }

  lemma NamesTold(h: Digest, utf8: string -> Bytes, locs: set<State.Loc>, a: State.Loc, b: State.Loc)
    requires NoKeyCollisions(h, utf8, locs) && a in locs && b in locs
    ensures CompositeKey(h, utf8, a) == CompositeKey(h, utf8, b) <==> LocPreimage(h, utf8, a) == LocPreimage(h, utf8, b)
    ensures NameDigest(h, utf8, a.0) == NameDigest(h, utf8, b.0) <==> a.0 == b.0
    ensures NameDigest(h, utf8, a.1) == NameDigest(h, utf8, b.1) <==> a.1 == b.1
    ensures NameDigest(h, utf8, a.0) == NameDigest(h, utf8, b.1) <==> a.0 == b.1
    ensures NameDigest(h, utf8, a.1) == NameDigest(h, utf8, b.0) <==> a.1 == b.0
  {
  }

  /** Two locations share their composite key exactly when one is `("", name)` and the other `(name, "")`. */
  lemma CompositeKeyExact(
    h: Digest, utf8: string -> Bytes, locs: set<State.Loc>, a: State.Loc, b: State.Loc, d: nat)
    requires OneSize(h, d) && NoKeyCollisions(h, utf8, locs) && a in locs && b in locs
    ensures CompositeKey(h, utf8, a) == CompositeKey(h, utf8, b) <==>
      a == b || (a.0 == b.1 == "" && a.1 == b.0) || (a.1 == b.0 == "" && a.0 == b.1)
  {
    NamesTold(h, utf8, locs, a, b);
    NameSize(h, utf8, a.0, d);
    NameSize(h, utf8, a.1, d);
    NameSize(h, utf8, b.0, d);
    NameSize(h, utf8, b.1, d);
    TwoParts(NameDigest(h, utf8, a.0), NameDigest(h, utf8, a.1), NameDigest(h, utf8, b.0), NameDigest(h, utf8, b.1), d);
  }

  /** Database names are not empty, so the keys of different records differ. */
  lemma NamesAreKeyed(h: Digest, utf8: string -> Bytes, locs: set<State.Loc>, d: nat)
    requires OneSize(h, d) && NoKeyCollisions(h, utf8, locs) && forall loc :: loc in locs ==> loc.0 != ""
    ensures Keyed(h, utf8, locs, d)
  {
    assert h([]) != [] && |h([])| == d;
    forall a, b | a in locs && b in locs && CompositeKey(h, utf8, a) == CompositeKey(h, utf8, b) ensures a == b {
      CompositeKeyExact(h, utf8, locs, a, b, d);
    }
  }

  // ----- The operations of a block -----

  function WriteOps(h: Digest, utf8: string -> Bytes, db: string, writes: seq<State.KV>): (ops: seq<KVOp>) {
    if writes == [] then []
    else
      var w := writes[|writes| - 1];
      WriteOps(h, utf8, db, writes[..|writes| - 1]) + [Write(CompositeKey(h, utf8, (db, w.key)), w.stored.value)]
  }

  function RemoveOps(h: Digest, utf8: string -> Bytes, db: string, deletes: seq<string>): (ops: seq<KVOp>) {
    if deletes == [] then []
    else
      RemoveOps(h, utf8, db, deletes[..|deletes| - 1]) + [Remove(CompositeKey(h, utf8, (db, deletes[|deletes| - 1])))]
  }

  function DBOps(h: Digest, utf8: string -> Bytes, db: string, u: State.Updates): seq<KVOp> {
    WriteOps(h, utf8, db, u.writes) + RemoveOps(h, utf8, db, u.deletes)
  }

  /** The databases in the order in which they are visited: writes of a database first, then its deletes. */
  function BlockOps(h: Digest, utf8: string -> Bytes, updates: map<string, State.Updates>, order: seq<string>)
    : seq<KVOp>
    requires forall db :: db in order ==> db in updates
  {
    if order == [] then []
    else
      var n := |order| - 1;
      BlockOps(h, utf8, updates, order[..n]) + DBOps(h, utf8, order[n], updates[order[n]])
  }

  /** Each database of the updates once. */
  ghost predicate Visits(order: seq<string>, updates: map<string, State.Updates>) {
    (forall db :: db in order <==> db in updates) && forall i, j :: 0 <= i < j < |order| ==> order[i] != order[j]
  }

  ghost predicate AllVisited(blocks: seq<Ledger.Block>, orders: seq<seq<string>>)
    requires Ledger.WellNumbered(blocks)
  {
    |orders| == |blocks| && forall i :: 0 <= i < |blocks| ==> Visits(orders[i], Ledger.BlockUpdates(blocks[i]))
  }

  /** What is done to the trie by a run of blocks. */
  ghost function TrieOps(
    h: Digest, utf8: string -> Bytes, blocks: seq<Ledger.Block>, orders: seq<seq<string>>): seq<KVOp>
    requires Ledger.WellNumbered(blocks) && AllVisited(blocks, orders)
  {
    if blocks == [] then []
    else
      var n := |blocks| - 1;
      TrieOps(h, utf8, blocks[..n], orders[..n]) + BlockOps(h, utf8, Ledger.BlockUpdates(blocks[n]), orders[n])
  }

  /** All locations that the updates name. */
  ghost predicate Within(updates: map<string, State.Updates>, locs: set<State.Loc>) {
    forall db :: db in updates ==>
      && (forall i :: 0 <= i < |updates[db].writes| ==> (db, updates[db].writes[i].key) in locs)
      && (forall i :: 0 <= i < |updates[db].deletes| ==> (db, updates[db].deletes[i]) in locs)
  }

  ghost predicate AllWithin(blocks: seq<Ledger.Block>, locs: set<State.Loc>)
    requires Ledger.WellNumbered(blocks)
  {
    forall i :: 0 <= i < |blocks| ==> Within(Ledger.BlockUpdates(blocks[i]), locs)
  }

  // ----- What is kept for a key through a stretch of operations -----

  /** The value last written, and whether it was removed since. */
  datatype Kept = Kept(value: Bytes, deleted: bool)

  function KeptStep(e: Option<Kept>, op: KVOp, key: Bytes): Option<Kept> {
    if op.key != key then e
    else if op.Write? then Some(Kept(op.value, false))
    else if e.None? then None else Some(Kept(e.value.value, true))
  }

  function KeptAfter(e: Option<Kept>, ops: seq<KVOp>, key: Bytes): Option<Kept> {
    if ops == [] then e else KeptStep(KeptAfter(e, ops[..|ops| - 1], key), ops[|ops| - 1], key)
  }

  lemma {:induction false} KeptAppend(e: Option<Kept>, a: seq<KVOp>, b: seq<KVOp>, key: Bytes)
    ensures KeptAfter(e, a + b, key) == KeptAfter(KeptAfter(e, a, key), b, key)
    decreases |b|
  {
    if b == [] {
      assert a + b == a;
    } else {
      var ab := a + b;
      assert ab[..|ab| - 1] == a + b[..|b| - 1] && ab[|ab| - 1] == b[|b| - 1];
      KeptAppend(e, a, b[..|b| - 1], key);
    }
  }

  lemma {:induction false} KeptIsIntended(h: Digest, ops: seq<KVOp>, key: Bytes)
    ensures
      var e := KeptAfter(None, ops, key);
      && LastValue(ops, key) == (if e.Some? && !e.value.deleted then Some(e.value.value) else None)
      && Intended(HexOps(h, ops), ToHex(key)) ==
           (if e.None? then None else Some(Entry(KeyValueHash(h, key, e.value.value), e.value.deleted)))
  {
    if ops != [] {
      var before, op := ops[..|ops| - 1], ops[|ops| - 1];
      assert ops == before + [op];
      KeptIsIntended(h, before, key);
      SnocKey(HexOps(h, before), HexOp(h, op), ToHex(key));
      SameKey(h, op, key);
    }
  }

  // ----- One block -----

  /** The composite key tells the location from the other one. */
  predicate Tells(h: Digest, utf8: string -> Bytes, loc: State.Loc, other: State.Loc) {
    CompositeKey(h, utf8, other) == CompositeKey(h, utf8, loc) ==> other == loc
  }

  lemma WriteStep(
    h: Digest, utf8: string -> Bytes, db: string, before: seq<State.KV>, w: State.KV, loc: State.Loc, e: Option<Kept>)
    requires Tells(h, utf8, loc, (db, w.key))
    ensures
      var key := CompositeKey(h, utf8, loc);
      KeptAfter(e, WriteOps(h, utf8, db, before + [w]), key) ==
        if loc == (db, w.key) then Some(Kept(w.stored.value, false))
        else KeptAfter(e, WriteOps(h, utf8, db, before), key)
  {
    var writes := before + [w];
    assert writes[..|writes| - 1] == before;
    var ops := WriteOps(h, utf8, db, writes);
    assert ops[..|ops| - 1] == WriteOps(h, utf8, db, before);
  }

  lemma {:induction false} WritesEffect(
    h: Digest, utf8: string -> Bytes, db: string, writes: seq<State.KV>, loc: State.Loc, e: Option<Kept>)
    requires forall i :: 0 <= i < |writes| ==> Tells(h, utf8, loc, (db, writes[i].key))
    ensures
      var key, last := CompositeKey(h, utf8, loc), State.LastWrite(writes, loc.1);
      KeptAfter(e, WriteOps(h, utf8, db, writes), key) ==
        if loc.0 == db && last.Some? then Some(Kept(last.value.value, false)) else e
  {
    if writes != [] {
      var before, w := writes[..|writes| - 1], writes[|writes| - 1];
      assert writes == before + [w];
      WritesEffect(h, utf8, db, before, loc, e);
      WriteStep(h, utf8, db, before, w, loc, e);
    }
  }

  lemma RemoveStep(
    h: Digest, utf8: string -> Bytes, db: string, before: seq<string>, name: string, loc: State.Loc, e: Option<Kept>)
    requires Tells(h, utf8, loc, (db, name))
    ensures
      var key := CompositeKey(h, utf8, loc);
      var e1 := KeptAfter(e, RemoveOps(h, utf8, db, before), key);
      KeptAfter(e, RemoveOps(h, utf8, db, before + [name]), key) ==
        if loc == (db, name) && e1.Some? then Some(Kept(e1.value.value, true)) else e1
  {
    var deletes := before + [name];
    assert deletes[..|deletes| - 1] == before;
    var ops := RemoveOps(h, utf8, db, deletes);
    assert ops[..|ops| - 1] == RemoveOps(h, utf8, db, before);
  }

  lemma {:induction false} RemovesEffect(
    h: Digest, utf8: string -> Bytes, db: string, deletes: seq<string>, loc: State.Loc, e: Option<Kept>)
    requires forall i :: 0 <= i < |deletes| ==> Tells(h, utf8, loc, (db, deletes[i]))
    ensures KeptAfter(e, RemoveOps(h, utf8, db, deletes), CompositeKey(h, utf8, loc)) ==
      if loc.0 == db && loc.1 in deletes && e.Some? then Some(Kept(e.value.value, true)) else e
  {
    if deletes != [] {
      var before, name := deletes[..|deletes| - 1], deletes[|deletes| - 1];
      assert deletes == before + [name];
      RemovesEffect(h, utf8, db, before, loc, e);
      RemoveStep(h, utf8, db, before, name, loc, e);
    }
  }

  /** What a block makes of the entry of a location: its own database alone matters. */
  function BlockEffect(updates: map<string, State.Updates>, loc: State.Loc, e: Option<Kept>): Option<Kept> {
    if loc.0 !in updates then e
    else
      var u := updates[loc.0];
      var last := State.LastWrite(u.writes, loc.1);
      var written := if last.Some? then Some(Kept(last.value.value, false)) else e;
      if loc.1 in u.deletes && written.Some? then Some(Kept(written.value.value, true)) else written
  }

  /** The composite key tells the location from all that the updates of a database name. */
  ghost predicate TellsAll(h: Digest, utf8: string -> Bytes, loc: State.Loc, db: string, u: State.Updates) {
    && (forall i :: 0 <= i < |u.writes| ==> Tells(h, utf8, loc, (db, u.writes[i].key)))
    && (forall i :: 0 <= i < |u.deletes| ==> Tells(h, utf8, loc, (db, u.deletes[i])))
  }

  lemma KeyedTells(
    h: Digest, utf8: string -> Bytes, locs: set<State.Loc>, n: nat, updates: map<string, State.Updates>, loc: State.Loc)
    requires Keyed(h, utf8, locs, n) && loc in locs && Within(updates, locs)
    ensures forall db :: db in updates ==> TellsAll(h, utf8, loc, db, updates[db])
  {
    forall db | db in updates ensures TellsAll(h, utf8, loc, db, updates[db]) {
      forall i | 0 <= i < |updates[db].writes| ensures Tells(h, utf8, loc, (db, updates[db].writes[i].key)) {}
      forall i | 0 <= i < |updates[db].deletes| ensures Tells(h, utf8, loc, (db, updates[db].deletes[i])) {}
    }
  }

  lemma DBEffect(
    h: Digest, utf8: string -> Bytes, updates: map<string, State.Updates>, db: string, loc: State.Loc,
    e: Option<Kept>)
    requires db in updates && TellsAll(h, utf8, loc, db, updates[db])
    ensures KeptAfter(e, DBOps(h, utf8, db, updates[db]), CompositeKey(h, utf8, loc)) ==
      if loc.0 == db then BlockEffect(updates, loc, e) else e
  {
    var u, key := updates[db], CompositeKey(h, utf8, loc);
    var written := KeptAfter(e, WriteOps(h, utf8, db, u.writes), key);
    KeptAppend(e, WriteOps(h, utf8, db, u.writes), RemoveOps(h, utf8, db, u.deletes), key);
    WritesEffect(h, utf8, db, u.writes, loc, e);
    RemovesEffect(h, utf8, db, u.deletes, loc, written);
  }

  /** The order in which the databases are visited does not matter to any entry. */
  lemma {:induction false} OrderEffect(
    h: Digest, utf8: string -> Bytes, updates: map<string, State.Updates>, order: seq<string>, loc: State.Loc,
    e: Option<Kept>)
    requires forall db :: db in updates ==> TellsAll(h, utf8, loc, db, updates[db])
    requires forall db :: db in order ==> db in updates
    requires forall i, j :: 0 <= i < j < |order| ==> order[i] != order[j]
    ensures KeptAfter(e, BlockOps(h, utf8, updates, order), CompositeKey(h, utf8, loc)) ==
      if loc.0 in order then BlockEffect(updates, loc, e) else e
  {
    if order != [] {
      var before, db := order[..|order| - 1], order[|order| - 1];
      assert order == before + [db];
      var key := CompositeKey(h, utf8, loc);
      var e1 := KeptAfter(e, BlockOps(h, utf8, updates, before), key);
      OrderEffect(h, utf8, updates, before, loc, e);
      DBEffect(h, utf8, updates, db, loc, e1);
      KeptAppend(e, BlockOps(h, utf8, updates, before), DBOps(h, utf8, db, updates[db]), key);
    }
  }

  // ----- Runs of blocks -----

  /** What is kept for a location is its record, or a value removed or nothing if there is none. */
  ghost predicate Matches(data: State.Data, loc: State.Loc, e: Option<Kept>) {
    && (loc in data <==> e.Some? && !e.value.deleted)
    && (loc in data ==> e.value.value == data[loc].value)
  }

  lemma BlockMatches(data: State.Data, updates: map<string, State.Updates>, loc: State.Loc, e: Option<Kept>)
    requires Matches(data, loc, e)
    ensures Matches(Ledger.Apply(data, updates), loc, BlockEffect(updates, loc, e))
  {
    Ledger.ApplyIsBatched(data, updates, Ledger.Apply(data, updates));
    assert State.Get(Ledger.Apply(data, updates), loc) == Ledger.ResultAt(data, updates, loc);
  }

  lemma BlockKept(
    h: Digest, utf8: string -> Bytes, before: seq<KVOp>, updates: map<string, State.Updates>, order: seq<string>,
    loc: State.Loc)
    requires Visits(order, updates) && forall db :: db in updates ==> TellsAll(h, utf8, loc, db, updates[db])
    ensures KeptAfter(None, before + BlockOps(h, utf8, updates, order), CompositeKey(h, utf8, loc)) ==
      BlockEffect(updates, loc, KeptAfter(None, before, CompositeKey(h, utf8, loc)))
  {
    var key := CompositeKey(h, utf8, loc);
    KeptAppend(None, before, BlockOps(h, utf8, updates, order), key);
    OrderEffect(h, utf8, updates, order, loc, KeptAfter(None, before, key));
  }

  lemma OneMoreBlock(
    h: Digest, utf8: string -> Bytes, before: seq<KVOp>, data: State.Data, updates: map<string, State.Updates>,
    order: seq<string>, loc: State.Loc)
    requires forall db :: db in updates ==> TellsAll(h, utf8, loc, db, updates[db])
    requires Visits(order, updates) && Matches(data, loc, KeptAfter(None, before, CompositeKey(h, utf8, loc)))
    ensures
      var ops := before + BlockOps(h, utf8, updates, order);
      Matches(Ledger.Apply(data, updates), loc, KeptAfter(None, ops, CompositeKey(h, utf8, loc)))
  {
    BlockKept(h, utf8, before, updates, order, loc);
    BlockMatches(data, updates, loc, KeptAfter(None, before, CompositeKey(h, utf8, loc)));
  }

  /** After every run of blocks, in any orders of their databases, what is kept for each location is its record. */
  lemma {:induction false} RunMatches(
    h: Digest, utf8: string -> Bytes, locs: set<State.Loc>, n: nat, blocks: seq<Ledger.Block>,
    orders: seq<seq<string>>, loc: State.Loc)
    requires Ledger.WellNumbered(blocks) && AllVisited(blocks, orders) && AllWithin(blocks, locs)
    requires Keyed(h, utf8, locs, n) && loc in locs
    ensures
      Matches(Ledger.StateAfter(blocks), loc,
              KeptAfter(None, TrieOps(h, utf8, blocks, orders), CompositeKey(h, utf8, loc)))
    decreases |blocks|
  {
    if blocks != [] {
      var k := |blocks| - 1;
      var updates := Ledger.BlockUpdates(blocks[k]);
      RunMatches(h, utf8, locs, n, blocks[..k], orders[..k], loc);
      KeyedTells(h, utf8, locs, n, updates, loc);
      OneMoreBlock(h, utf8, TrieOps(h, utf8, blocks[..k], orders[..k]), Ledger.StateAfter(blocks[..k]), updates,
                   orders[k], loc);
    }
  }

  // ----- Keys of the operations -----

  ghost predicate KeysOf(h: Digest, utf8: string -> Bytes, locs: set<State.Loc>, ops: seq<KVOp>) {
    forall op :: op in ops ==> exists loc :: loc in locs && op.key == CompositeKey(h, utf8, loc)
  }

  lemma {:induction false} WriteKeys(
    h: Digest, utf8: string -> Bytes, locs: set<State.Loc>, db: string, writes: seq<State.KV>)
    requires forall i :: 0 <= i < |writes| ==> (db, writes[i].key) in locs
    ensures KeysOf(h, utf8, locs, WriteOps(h, utf8, db, writes))
  {
    if writes != [] {
      var w := writes[|writes| - 1];
      WriteKeys(h, utf8, locs, db, writes[..|writes| - 1]);
      assert (db, w.key) in locs;
    }
  }

  lemma {:induction false} RemoveKeys(
    h: Digest, utf8: string -> Bytes, locs: set<State.Loc>, db: string, deletes: seq<string>)
    requires forall i :: 0 <= i < |deletes| ==> (db, deletes[i]) in locs
    ensures KeysOf(h, utf8, locs, RemoveOps(h, utf8, db, deletes))
  {
    if deletes != [] {
      RemoveKeys(h, utf8, locs, db, deletes[..|deletes| - 1]);
      assert (db, deletes[|deletes| - 1]) in locs;
    }
  }

  lemma {:induction false} BlockKeys(
    h: Digest, utf8: string -> Bytes, locs: set<State.Loc>, updates: map<string, State.Updates>, order: seq<string>)
    requires Within(updates, locs) && forall db :: db in order ==> db in updates
    ensures KeysOf(h, utf8, locs, BlockOps(h, utf8, updates, order))
  {
    if order != [] {
      var before, db := order[..|order| - 1], order[|order| - 1];
      BlockKeys(h, utf8, locs, updates, before);
      WriteKeys(h, utf8, locs, db, updates[db].writes);
      RemoveKeys(h, utf8, locs, db, updates[db].deletes);
    }
  }

  lemma {:induction false} RunKeys(
    h: Digest, utf8: string -> Bytes, locs: set<State.Loc>, blocks: seq<Ledger.Block>, orders: seq<seq<string>>)
    requires Ledger.WellNumbered(blocks) && AllVisited(blocks, orders) && AllWithin(blocks, locs)
    ensures KeysOf(h, utf8, locs, TrieOps(h, utf8, blocks, orders))
    decreases |blocks|
  {
    if blocks != [] {
      var k := |blocks| - 1;
      RunKeys(h, utf8, locs, blocks[..k], orders[..k]);
      BlockKeys(h, utf8, locs, Ledger.BlockUpdates(blocks[k]), orders[k]);
    }
  }

  lemma RunLength(
    h: Digest, utf8: string -> Bytes, locs: set<State.Loc>, n: nat, blocks: seq<Ledger.Block>, orders: seq<seq<string>>)
    requires Ledger.WellNumbered(blocks) && AllVisited(blocks, orders) && AllWithin(blocks, locs)
    requires Keyed(h, utf8, locs, n)
    ensures OneLength(TrieOps(h, utf8, blocks, orders), n)
  {
    RunKeys(h, utf8, locs, blocks, orders);
  }

  // ----- What the trie holds -----

  /** A record's entry is live and points to its value; without a record it is live exactly if a tombstone was lost. */
  ghost predicate HoldsRecord(h: Digest, t: Tree, data: State.Data, loc: State.Loc, key: Bytes, lost: bool)
    requires WellFormed(t)
  {
    var e := Find(t, ToHex(key));
    if loc in data then e == Some(Entry(KeyValueHash(h, key, data[loc].value), false))
    else (e.Some? && !e.value.deleted) <==> lost
  }

  /** After every run of blocks, in any orders of their databases, the trie holds the world state. */
  lemma StateInTrie(
    h: Digest, utf8: string -> Bytes, locs: set<State.Loc>, n: nat, blocks: seq<Ledger.Block>,
    orders: seq<seq<string>>, loc: State.Loc)
    requires Ledger.WellNumbered(blocks) && AllVisited(blocks, orders) && AllWithin(blocks, locs)
    requires Keyed(h, utf8, locs, n) && loc in locs
    ensures
      var hex, key := HexOps(h, TrieOps(h, utf8, blocks, orders)), CompositeKey(h, utf8, loc);
      && Run(hex).Some?
      && HoldsRecord(h, Run(hex).value, Ledger.StateAfter(blocks), loc, key, TombstoneLost(hex, ToHex(key)))
  {
    var ops, key := TrieOps(h, utf8, blocks, orders), CompositeKey(h, utf8, loc);
    RunLength(h, utf8, locs, n, blocks, orders);
    OneLengthSound(h, ops, n);
    RunEntryExact(HexOps(h, ops), ToHex(key));
    RunMatches(h, utf8, locs, n, blocks, orders, loc);
    KeptIsIntended(h, ops, key);
    if TombstoneLost(HexOps(h, ops), ToHex(key)) { LostWasDeleted(HexOps(h, ops), ToHex(key)); }
  }

  /** And reading it gives the value in the world state, exactly unless the tombstone was lost. */
  lemma StateRead(
    h: Digest, utf8: string -> Bytes, locs: set<State.Loc>, n: nat, blocks: seq<Ledger.Block>,
    orders: seq<seq<string>>, loc: State.Loc, base: map<Bytes, Bytes>)
    requires Ledger.WellNumbered(blocks) && AllVisited(blocks, orders) && AllWithin(blocks, locs)
    requires Keyed(h, utf8, locs, n) && loc in locs && NoCollisions(h, Writes(TrieOps(h, utf8, blocks, orders)))
    ensures
      var ops, key, data := TrieOps(h, utf8, blocks, orders), CompositeKey(h, utf8, loc), Ledger.StateAfter(blocks);
      && Run(HexOps(h, ops)).Some?
      && (ReplyOf(Run(HexOps(h, ops)).value, base + ValuesAfter(h, ops), key) ==
            Reply(if loc in data then Some(data[loc].value) else None) <==>
          !TombstoneLost(HexOps(h, ops), ToHex(key)))
  {
    var ops, key := TrieOps(h, utf8, blocks, orders), CompositeKey(h, utf8, loc);
    RunLength(h, utf8, locs, n, blocks, orders);
    OneLengthRead(h, ops, n, key, base);
    RunMatches(h, utf8, locs, n, blocks, orders, loc);
    KeptIsIntended(h, ops, key);
  }

  // ----- The same blocks in other orders -----

  lemma {:induction false} SameKept(
    h: Digest, utf8: string -> Bytes, locs: set<State.Loc>, n: nat, blocks: seq<Ledger.Block>,
    orders1: seq<seq<string>>, orders2: seq<seq<string>>, loc: State.Loc)
    requires Ledger.WellNumbered(blocks) && AllVisited(blocks, orders1) && AllVisited(blocks, orders2)
    requires AllWithin(blocks, locs) && Keyed(h, utf8, locs, n) && loc in locs
    ensures KeptAfter(None, TrieOps(h, utf8, blocks, orders1), CompositeKey(h, utf8, loc)) ==
      KeptAfter(None, TrieOps(h, utf8, blocks, orders2), CompositeKey(h, utf8, loc))
    decreases |blocks|
  {
    if blocks != [] {
      var k, key := |blocks| - 1, CompositeKey(h, utf8, loc);
      var updates := Ledger.BlockUpdates(blocks[k]);
      SameKept(h, utf8, locs, n, blocks[..k], orders1[..k], orders2[..k], loc);
      KeyedTells(h, utf8, locs, n, updates, loc);
      BlockKept(h, utf8, TrieOps(h, utf8, blocks[..k], orders1[..k]), updates, orders1[k], loc);
      BlockKept(h, utf8, TrieOps(h, utf8, blocks[..k], orders2[..k]), updates, orders2[k], loc);
    }
  }

  lemma {:induction false} IntendedHasKey(h: Digest, ops: seq<KVOp>, q: HexKey)
    requires Intended(HexOps(h, ops), q).Some?
    ensures exists op :: op in ops && q == ToHex(op.key)
  {
    var before, op := ops[..|ops| - 1], ops[|ops| - 1];
    assert ops == before + [op];
    SnocKey(HexOps(h, before), HexOp(h, op), q);
    if HexOp(h, op).key != q {
      IntendedHasKey(h, before, q);
    }
  }

  lemma SameIntended(
    h: Digest, utf8: string -> Bytes, locs: set<State.Loc>, n: nat, blocks: seq<Ledger.Block>,
    orders1: seq<seq<string>>, orders2: seq<seq<string>>, q: HexKey)
    requires Ledger.WellNumbered(blocks) && AllVisited(blocks, orders1) && AllVisited(blocks, orders2)
    requires AllWithin(blocks, locs) && Keyed(h, utf8, locs, n)
    ensures Intended(HexOps(h, TrieOps(h, utf8, blocks, orders1)), q).Some? ==>
      Intended(HexOps(h, TrieOps(h, utf8, blocks, orders1)), q) ==
        Intended(HexOps(h, TrieOps(h, utf8, blocks, orders2)), q)
  {
    var ops1, ops2 := TrieOps(h, utf8, blocks, orders1), TrieOps(h, utf8, blocks, orders2);
    if Intended(HexOps(h, ops1), q).Some? {
      IntendedHasKey(h, ops1, q);
      var op :| op in ops1 && q == ToHex(op.key);
      RunKeys(h, utf8, locs, blocks, orders1);
      var loc :| loc in locs && op.key == CompositeKey(h, utf8, loc);
      SameKept(h, utf8, locs, n, blocks, orders1, orders2, loc);
      KeptIsIntended(h, ops1, op.key);
      KeptIsIntended(h, ops2, op.key);
    }
  }

  /**
   * Applying the same blocks again with their databases in other orders, as a rebuild at start-up does with the last
   * block, gives the same trie exactly when the same tombstones are lost.
   */
  lemma RebuiltExact(
    h: Digest, utf8: string -> Bytes, locs: set<State.Loc>, n: nat, blocks: seq<Ledger.Block>,
    orders1: seq<seq<string>>, orders2: seq<seq<string>>)
    requires Ledger.WellNumbered(blocks) && AllVisited(blocks, orders1) && AllVisited(blocks, orders2)
    requires AllWithin(blocks, locs) && Keyed(h, utf8, locs, n)
    ensures
      var hex1, hex2 := HexOps(h, TrieOps(h, utf8, blocks, orders1)), HexOps(h, TrieOps(h, utf8, blocks, orders2));
      Run(hex1) == Run(hex2) <==> SameTombstonesLost(hex1, hex2)
  {
    var ops1, ops2 := TrieOps(h, utf8, blocks, orders1), TrieOps(h, utf8, blocks, orders2);
    RunLength(h, utf8, locs, n, blocks, orders1);
    RunLength(h, utf8, locs, n, blocks, orders2);
    OneLengthSound(h, ops1, n);
    OneLengthSound(h, ops2, n);
    forall q ensures Intended(HexOps(h, ops1), q) == Intended(HexOps(h, ops2), q) {
      SameIntended(h, utf8, locs, n, blocks, orders1, orders2, q);
      SameIntended(h, utf8, locs, n, blocks, orders2, orders1, q);
    }
    HistoryIndependence(HexOps(h, ops1), HexOps(h, ops2));
  }
}
