/** Whole runs of updates and deletes: which map the trie holds, and what its shape depends on. */
module TrieRuns {
  import opened Basics
  import opened TrieTree
  import opened TrieCanonical
  import opened TrieRefinesMap
  import opened TrieLookup
  import opened TrieDisplaced

  /** The root left behind by an operation; an update that fails leaves no root. */
  datatype Outcome = Outcome(ok: bool, root: Option<Tree>)

  /** `Delete`: look the key up, then update it with its own value pointer and a tombstone. */
  function DeleteOutcome(t: Tree, k: HexKey): Outcome
    requires WellFormed(t)
  {
    match GetPath(t, k)
    case Missing => Outcome(true, Some(t))
    case Impossible => Outcome(false, Some(t))
    case Node(None) => Outcome(false, Some(t))
    case Node(Some(e)) => var r := Upd(t, k, e.ptr, true); Outcome(r.Some?, r)
  }

  /** A tombstone is set on `k` when it is stored, and nothing else changes. */
  ghost predicate DeletesOnly(t: Tree, k: HexKey, o: Outcome)
    requires WellFormed(t)
  {
    && o.ok && o.root.Some? && WellFormed(o.root.value)
    && forall q :: Find(o.root.value, q) ==
         if q == k && Find(t, q).Some? then Some(Entry(Find(t, q).value.ptr, true)) else Find(t, q)
  }

  /** A delete that lands on the leaf of a longer key either fails or loses a stored key. */
  lemma {:induction false} PhantomDelete(t: Tree, k: HexKey, p: Bytes) returns (lost: HexKey)
    requires WellFormed(t) && Canonical(t)
    requires Find(t, k).None? && GetPath(t, k).Node? && GetPath(t, k).found.Some?
    ensures var r := Upd(t, k, p, true);
      r.Some? ==> Find(t, lost).Some? && Find(r.value, lost).None?
    decreases t
  {
    match t
    case Leaf(key, _) =>
      lost := key;
      assert CommonPrefix([], key) == [];
    case Ext(key, child) =>
      var q := PhantomDelete(child, k[|key|..], p);
      if Upd(child, k[|key|..], p, true).None? {
        q := HoldsKey(child);
      }
      lost := key + q;
      assert lost[|key|..] == q;
    case Branch(children, _) =>
      var q := PhantomDelete(children[k[0]], k[1..], p);
      lost := [k[0]] + q;
      assert lost[1..] == q;
  }

  /** `Delete` behaves as a map would if and only if its key is not ambiguous among the stored keys. */
  lemma DeleteExact(t: Tree, k: HexKey)
    requires CanonicalRoot(t) && k != []
    ensures DeletesOnly(t, k, DeleteOutcome(t, k)) <==> !Ambiguous(Keys(t), k)
  {
    LookupExact(t, k);
    var o := DeleteOutcome(t, k);
    if GetPath(t, k) == Answer(Find(t, k)) {
      if Find(t, k).Some? {
        var p := Find(t, k).value.ptr;
        FindTombstone(t, k, p, k);
        forall q ensures Find(o.root.value, q) == if q == k then Some(Entry(p, true)) else Find(t, q) {
          FindTombstone(t, k, p, q);
        }
      }
    } else if GetPath(t, k).Node? && GetPath(t, k).found.Some? {
      var lost := PhantomDeleteRoot(t, k, GetPath(t, k).found.value.ptr);
      assert o.root.Some? ==> Find(o.root.value, lost) != Find(t, lost) && lost != k;
    }
  }

  lemma PhantomDeleteRoot(t: Tree, k: HexKey, p: Bytes) returns (lost: HexKey)
    requires CanonicalRoot(t) && k != []
    requires GetPath(t, k).Node? && GetPath(t, k).found.Some? && GetPath(t, k) != Answer(Find(t, k))
    ensures Find(t, k).None?
    ensures Upd(t, k, p, true).Some? ==> Find(t, lost).Some? && Find(Upd(t, k, p, true).value, lost).None?
  {
    LookupRight(t.children[k[0]], k[1..]);
    var q := PhantomDelete(t.children[k[0]], k[1..], p);
    lost := [k[0]] + q;
    assert lost[1..] == q;
  }

  /** A key that is stored is always found. */
  lemma {:induction false} LookupRight(t: Tree, k: HexKey)
    requires WellFormed(t) && Canonical(t)
    ensures Find(t, k).Some? ==> GetPath(t, k) == Node(Find(t, k))
    decreases t
  {
    match t
    case Nil =>
    case Leaf(_, _) =>
    case Ext(key, child) => if key <= k { LookupRight(child, k[|key|..]); }
    case Branch(children, _) => if k != [] { LookupRight(children[k[0]], k[1..]); }
  }

  datatype Op = Put(key: HexKey, ptr: Bytes) | Del(key: HexKey)

  const EMPTY_TRIE: Tree := Branch(NO_CHILDREN, None)

  function Step(t: Tree, op: Op): (r: Option<Tree>)
    requires WellFormed(t)
    ensures r.Some? ==> WellFormed(r.value)
  {
    match op
    case Put(key, ptr) => Upd(t, key, ptr, false)
    case Del(key) => DeleteOutcome(t, key).root
  }

  function Run(ops: seq<Op>): (r: Option<Tree>)
    ensures r.Some? ==> WellFormed(r.value)
  {
    if ops == [] then Some(EMPTY_TRIE)
    else
      var r := Run(ops[..|ops| - 1]);
      if r.None? then None else Step(r.value, ops[|ops| - 1])
  }

  /** The map the operations describe: the last pointer put for a key, and whether a delete came after it. */
  function Intended(ops: seq<Op>, q: HexKey): Option<Entry> {
    if ops == [] then None
    else
      var before := Intended(ops[..|ops| - 1], q);
      match ops[|ops| - 1]
      case Put(key, ptr) => if key == q then Some(Entry(ptr, false)) else before
      case Del(key) => if key == q && before.Some? then Some(Entry(before.value.ptr, true)) else before
  }

  ghost function KeysPut(ops: seq<Op>): iset<HexKey> {
    iset q | Intended(ops, q).Some?
  }

  /** Keys are not empty, and each delete names a key that is not ambiguous among those put before it. */
  ghost predicate Sound(ops: seq<Op>) {
    ops == [] ||
    var before, op := ops[..|ops| - 1], ops[|ops| - 1];
    Sound(before) && op.key != [] && (op.Del? ==> !Ambiguous(KeysPut(before), op.key))
  }

  /** After its last own operation, a delete, another key was inserted to which `q` was the closest one. */
  ghost predicate TombstoneLost(ops: seq<Op>, q: HexKey) {
    ops != [] &&
    var before, op := ops[..|ops| - 1], ops[|ops| - 1];
    op.key != q &&
    (|| TombstoneLost(before, q)
     || (op.Put? && Closest(KeysPut(before), op.key, q)
         && Intended(before, q).Some? && Intended(before, q).value.deleted))
  }

  /** What the trie holds for `q` after the run. */
  ghost function Actual(ops: seq<Op>, q: HexKey): Option<Entry> {
    var e := Intended(ops, q);
    if TombstoneLost(ops, q) && e.Some? then Some(Entry(e.value.ptr, false)) else e
  }

  lemma {:induction false} LostWasDeleted(ops: seq<Op>, q: HexKey)
    requires TombstoneLost(ops, q)
    ensures Intended(ops, q).Some? && Intended(ops, q).value.deleted
  {
    var before := ops[..|ops| - 1];
    if TombstoneLost(before, q) { LostWasDeleted(before, q); }
  }

  ghost predicate Holds(t: Tree, ops: seq<Op>)
    requires WellFormed(t)
  {
    forall q :: Find(t, q) == Actual(ops, q)
  }

  lemma PutStep(t: Tree, before: seq<Op>, op: Op, q: HexKey)
    requires CanonicalRoot(t) && Keys(t) == KeysPut(before) && op.Put? && op.key != []
    requires Find(t, q) == Actual(before, q)
    ensures Find(Upd(t, op.key, op.ptr, false).value, q) == Actual(before + [op], q)
  {
    assert (before + [op])[..|before + [op]| - 1] == before;
    FindUpdate(t, op.key, op.ptr, q);
    DisplacedExact(t, op.key, q);
    if Displaced(t, op.key) == Some(q) { DisplacedIsStored(t, op.key); }
  }

  lemma DelStep(t: Tree, before: seq<Op>, op: Op, q: HexKey)
    requires WellFormed(t) && op.Del?
    requires DeletesOnly(t, op.key, DeleteOutcome(t, op.key))
    requires Find(t, q) == Actual(before, q)
    ensures Find(DeleteOutcome(t, op.key).root.value, q) == Actual(before + [op], q)
  {
    assert (before + [op])[..|before + [op]| - 1] == before;
  }

  lemma DeleteKeepsForm(t: Tree, k: HexKey)
    requires CanonicalRoot(t) && k != [] && !Ambiguous(Keys(t), k)
    ensures DeleteOutcome(t, k).root.Some? && CanonicalRoot(DeleteOutcome(t, k).root.value)
  {
    LookupExact(t, k);
    if Find(t, k).Some? {
      CanonicalRootUpdate(t, k, Find(t, k).value.ptr, true);
      if Displaced(t, k).Some? { DisplacedIsStored(t, k); }
    }
  }

  /** Every sound run succeeds, ends in normal form, and holds the intended map up to the lost tombstones. */
  lemma {:induction false} RunRefinesMap(ops: seq<Op>)
    requires Sound(ops)
    ensures Run(ops).Some? && CanonicalRoot(Run(ops).value) && Holds(Run(ops).value, ops)
  {
    if ops == [] {
      forall q ensures Find(EMPTY_TRIE, q) == None {
        if q != [] { assert EMPTY_TRIE.children[q[0]] == Nil; }
      }
    } else {
      var before, op := ops[..|ops| - 1], ops[|ops| - 1];
      RunRefinesMap(before);
      var t := Run(before).value;
      assert ops == before + [op];
      assert Keys(t) == KeysPut(before);
      if op.Put? {
        CanonicalRootUpdate(t, op.key, op.ptr, false);
        forall q ensures Find(Run(ops).value, q) == Actual(ops, q) { PutStep(t, before, op, q); }
      } else {
        DeleteExact(t, op.key);
        DeleteKeepsForm(t, op.key);
        forall q ensures Find(Run(ops).value, q) == Actual(ops, q) { DelStep(t, before, op, q); }
      }
    }
  }

  /** A key's pointer is the last one put for it, and its flag is right exactly when its tombstone was not lost. */
  lemma RunEntryExact(ops: seq<Op>, q: HexKey)
    requires Sound(ops)
    ensures Run(ops).Some?
    ensures var found, wanted := Find(Run(ops).value, q), Intended(ops, q);
      && (found.Some? <==> wanted.Some?)
      && (found.Some? ==> found.value.ptr == wanted.value.ptr)
      && (found == wanted <==> !TombstoneLost(ops, q))
  {
    RunRefinesMap(ops);
    if TombstoneLost(ops, q) { LostWasDeleted(ops, q); }
  }

  ghost predicate SameTombstonesLost(ops1: seq<Op>, ops2: seq<Op>) {
    forall q :: TombstoneLost(ops1, q) == TombstoneLost(ops2, q)
  }

  /** Runs that describe one map build the same trie if and only if they lost the same tombstones. */
  lemma HistoryIndependence(ops1: seq<Op>, ops2: seq<Op>)
    requires Sound(ops1) && Sound(ops2)
    requires forall q :: Intended(ops1, q) == Intended(ops2, q)
    ensures Run(ops1) == Run(ops2) <==> SameTombstonesLost(ops1, ops2)
  {
    RunRefinesMap(ops1);
    RunRefinesMap(ops2);
    var t1, t2 := Run(ops1).value, Run(ops2).value;
    if SameTombstonesLost(ops1, ops2) {
      forall q ensures Find(t1, q) == Find(t2, q) {
        assert TombstoneLost(ops1, q) == TombstoneLost(ops2, q);
      }
      BranchesAgree(t1, t2);
    } else if t1 == t2 {
      forall q ensures TombstoneLost(ops1, q) == TombstoneLost(ops2, q) {
        RunEntryExact(ops1, q);
        RunEntryExact(ops2, q);
      }
    }
  }

  ghost predicate PutsOnly(ops: seq<Op>) {
    forall i :: 0 <= i < |ops| ==> ops[i].Put? && ops[i].key != []
  }

  lemma {:induction false} PutsAreSound(ops: seq<Op>)
    requires PutsOnly(ops)
    ensures Sound(ops)
    ensures forall q :: !TombstoneLost(ops, q) && (Intended(ops, q).Some? ==> !Intended(ops, q).value.deleted)
  {
    if ops != [] {
      var before := ops[..|ops| - 1];
      PutsAreSound(before);
      forall q ensures !TombstoneLost(ops, q) && (Intended(ops, q).Some? ==> !Intended(ops, q).value.deleted) {
        assert !TombstoneLost(before, q) && (Intended(before, q).Some? ==> !Intended(before, q).value.deleted);
      }
    }
  }

  /** Without deletes the order of the updates never matters. */
  lemma UpdateOrderIndependence(ops1: seq<Op>, ops2: seq<Op>)
    requires PutsOnly(ops1) && PutsOnly(ops2)
    requires forall q :: Intended(ops1, q) == Intended(ops2, q)
    ensures Run(ops1).Some? && Run(ops1) == Run(ops2)
  {
    PutsAreSound(ops1);
    PutsAreSound(ops2);
    RunRefinesMap(ops1);
    HistoryIndependence(ops1, ops2);
  }

  lemma Snoc(before: seq<Op>, op: Op)
    ensures Run(before + [op]) == if Run(before).None? then None else Step(Run(before).value, op)
    ensures Sound(before + [op]) <==>
      Sound(before) && op.key != [] && (op.Del? ==> !Ambiguous(KeysPut(before), op.key))
  {
    assert (before + [op])[..|before + [op]| - 1] == before;
  }

  lemma SnocKey(before: seq<Op>, op: Op, q: HexKey)
    ensures Intended(before + [op], q) ==
      if op.key != q then Intended(before, q)
      else if op.Put? then Some(Entry(op.ptr, false))
      else if Intended(before, q).None? then None else Some(Entry(Intended(before, q).value.ptr, true))
    ensures op.key == q ==> !TombstoneLost(before + [op], q)
  {
    assert (before + [op])[..|before + [op]| - 1] == before;
  }

  /**
   * With deletes it matters, whatever the keys: a block that deletes one key and inserts another that shares its first
   * nibble builds two different tries, depending on which database the committer happens to visit first.
   */
  lemma OrderMattersWithDeletes(k1: HexKey, k2: HexKey, x: Bytes, y: Bytes)
    requires k1 != k2 && |k1| == |k2| > 0 && k1[0] == k2[0]
    ensures
      var deleteFirst := [] + [Put(k1, x)] + [Del(k1)] + [Put(k2, y)];
      var insertFirst := [] + [Put(k1, x)] + [Put(k2, y)] + [Del(k1)];
      && Sound(deleteFirst) && Sound(insertFirst)
      && (forall q :: Intended(deleteFirst, q) == Intended(insertFirst, q))
      && Run(deleteFirst) != Run(insertFirst)
  {
    var put, del, next := Put(k1, x), Del(k1), Put(k2, y);
    var one := [] + [put];
    forall q ensures Intended(one + [del] + [next], q) == Intended(one + [next] + [del], q) {
      SnocKey(one, del, q); SnocKey(one + [del], next, q);
      SnocKey(one, next, q); SnocKey(one + [next], del, q);
    }
    forall q ensures q in KeysPut(one + [del]) <==> q == k1 { SnocKey([], put, q); SnocKey(one, del, q); }
    SnocKey(one, next, k1); SnocKey(one + [next], del, k1);
    Snoc([], put); Snoc(one, next); Snoc(one, del); Snoc(one + [next], del); Snoc(one + [del], next);
    assert Closest(KeysPut(one + [del]), k2, k1);
    assert (one + [del] + [next])[..2] == one + [del];
    RunEntryExact(one + [del] + [next], k1);
    RunEntryExact(one + [next] + [del], k1);
  }

  lemma TwoPuts(k1: HexKey, x: Bytes, k2: HexKey, y: Bytes)
    requires k1 != [] && k2 != []
    ensures
      var ops := [] + [Put(k1, x)] + [Put(k2, y)];
      && Sound(ops) && Run(ops).Some? && CanonicalRoot(Run(ops).value)
      && forall q :: (q in KeysPut(ops) <==> q == k1 || q == k2) && (q in Keys(Run(ops).value) <==> q in KeysPut(ops))
  {
    var one := [] + [Put(k1, x)];
    Snoc([], Put(k1, x));
    Snoc(one, Put(k2, y));
    forall q ensures q in KeysPut(one + [Put(k2, y)]) <==> q == k1 || q == k2 {
      SnocKey([], Put(k1, x), q);
      SnocKey(one, Put(k2, y), q);
    }
    RunRefinesMap(one + [Put(k2, y)]);
  }

  lemma UnwrittenIsAmbiguous(keys: iset<HexKey>)
    requires forall q :: q in keys <==> q == [1, 2, 3, 4] || q == [1, 5, 6, 7]
    ensures [1, 2] !in keys && Ambiguous(keys, [1, 2])
  {
    assert [1, 2, 3, 4] in keys && [1, 2] <= [1, 2, 3, 4];
    assert [1] + [2, 3, 4] == [1, 2, 3, 4] && [1] + [5, 6, 7] == [1, 5, 6, 7];
    assert Part([2, 3, 4], [5, 6, 7]);
    assert PartAfter(keys, [1]);
    assert [1, 2][..1] == [1];
  }

  /**
   * Two written keys make a third one, never written, ambiguous: its lookup does not answer that it is missing,
   * and its delete does not leave the trie alone.
   */
  lemma UnwrittenKeyFound(x: Bytes, y: Bytes)
    ensures
      var ops := [] + [Put([1, 2, 3, 4], x)] + [Put([1, 5, 6, 7], y)];
      && Sound(ops) && Run(ops).Some? && Intended(ops, [1, 2]).None?
      && GetPath(Run(ops).value, [1, 2]) != Missing
      && !DeletesOnly(Run(ops).value, [1, 2], DeleteOutcome(Run(ops).value, [1, 2]))
  {
    TwoPuts([1, 2, 3, 4], x, [1, 5, 6, 7], y);
    var ops := [] + [Put([1, 2, 3, 4], x)] + [Put([1, 5, 6, 7], y)];
    var t := Run(ops).value;
    UnwrittenIsAmbiguous(KeysPut(ops));
    UnwrittenIsAmbiguous(Keys(t));
    LookupExact(t, [1, 2]);
    DeleteExact(t, [1, 2]);
  }

  /** The i-th operation, if it is a delete, does to the trie it finds what a map delete does. */
  ghost predicate DeletesRight(ops: seq<Op>, i: nat)
    requires i < |ops|
  {
    ops[i].Del? ==>
      && Run(ops[..i]).Some?
      && DeletesOnly(Run(ops[..i]).value, ops[i].key, DeleteOutcome(Run(ops[..i]).value, ops[i].key))
  }

  /** Every delete of a run does what a map delete does if and only if the run is sound. */
  lemma {:induction false} SoundExact(ops: seq<Op>)
    requires forall i :: 0 <= i < |ops| ==> ops[i].key != []
    ensures Sound(ops) <==> forall i :: 0 <= i < |ops| ==> DeletesRight(ops, i)
  {
    if ops != [] {
      var n := |ops| - 1;
      var before := ops[..n];
      SoundExact(before);
      forall i | 0 <= i < n ensures DeletesRight(ops, i) <==> DeletesRight(before, i) {
        assert before[..i] == ops[..i];
      }
      if Sound(before) {
        RunRefinesMap(before);
        assert Keys(Run(before).value) == KeysPut(before);
        DeleteExact(Run(before).value, ops[n].key);
        assert DeletesRight(ops, n) <==> (ops[n].Del? ==> !Ambiguous(KeysPut(before), ops[n].key));
      } else {
        var i :| 0 <= i < n && !DeletesRight(before, i);
        assert !DeletesRight(ops, i);
      }
    }
  }
}
