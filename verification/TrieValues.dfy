/** Runs of updates and deletes with values: what a lookup of the trie returns. */
module TrieValues {
  import opened Basics
  import opened TrieTree
  import opened TrieNodes
  import opened TrieLookup
  import opened TrieRuns
  import opened MPTrie

  datatype KVOp = Write(key: Bytes, value: Bytes) | Remove(key: Bytes)

  function HexOp(h: Digest, op: KVOp): Op {
    match op
    case Write(key, value) => Put(ToHex(key), KeyValueHash(h, key, value))
    case Remove(key) => Del(ToHex(key))
  }

  function HexOps(h: Digest, ops: seq<KVOp>): (r: seq<Op>)
    ensures |r| == |ops|
  {
    if ops == [] then [] else HexOps(h, ops[..|ops| - 1]) + [HexOp(h, ops[|ops| - 1])]
  }

  /** The values stored by their pointers. */
  function ValuesAfter(h: Digest, ops: seq<KVOp>): map<Bytes, Bytes> {
    if ops == [] then map[]
    else
      var before, op := ValuesAfter(h, ops[..|ops| - 1]), ops[|ops| - 1];
      if op.Write? then before[KeyValueHash(h, op.key, op.value) := op.value] else before
  }

  /** The value last written for a key, if it was not removed since. */
  function LastValue(ops: seq<KVOp>, key: Bytes): Option<Bytes> {
    if ops == [] then None
    else
      var op := ops[|ops| - 1];
      if op.key != key then LastValue(ops[..|ops| - 1], key)
      else if op.Write? then Some(op.value) else None
  }

  ghost predicate OneLength(ops: seq<KVOp>, n: nat) {
    forall op :: op in ops ==> |op.key| == n
  }

  // ----- When two writes share a pointer -----

  /** What is digested for a write: the key and the digest of the value, unless the value is empty. */
  function Preimage(h: Digest, op: KVOp): Bytes
    requires op.Write?
  {
    op.key + if op.value == [] then [] else h(op.value)
  }

  ghost function Writes(ops: seq<KVOp>): set<KVOp> {
    set op | op in ops && op.Write?
  }

  /** No two different strings digested by the writes have the same digest. */
  ghost predicate NoCollisions(h: Digest, ws: set<KVOp>) {
    && (forall a, b :: a in ws && b in ws && a.Write? && b.Write? && h(a.value) == h(b.value) ==> a.value == b.value)
    && (forall a, b :: a in ws && b in ws && a.Write? && b.Write? && h(Preimage(h, a)) == h(Preimage(h, b)) ==>
          Preimage(h, a) == Preimage(h, b))
  }

  /** The value of `a` is empty, and its key is the key of `b` followed by the digest of the value of `b`. */
  predicate Extends(h: Digest, a: KVOp, b: KVOp) {
    a.Write? && b.Write? && a.value == [] && b.value != [] && a.key == b.key + h(b.value)
  }

  predicate Confused(h: Digest, a: KVOp, b: KVOp) { Extends(h, a, b) || Extends(h, b, a) }

  /** Keys of one length, or digests of one length as those of SHA-256. */
  predicate Measured(h: Digest, a: KVOp, b: KVOp) {
    a.Write? && b.Write? && (|a.key| == |b.key| || |h(a.value)| == |h(b.value)|)
  }

  /** Two writes digest the same string exactly when they agree in key and digest, or are confused. */
  lemma PreimageExact(h: Digest, a: KVOp, b: KVOp)
    requires Measured(h, a, b)
    ensures Preimage(h, a) == Preimage(h, b) <==>
      || Confused(h, a, b)
      || (a.key == b.key && (a.value == [] <==> b.value == []) && (a.value != [] ==> h(a.value) == h(b.value)))
  {
    var p, q := Preimage(h, a), Preimage(h, b);
    if p == q {
      if |a.key| == |b.key| {
        assert a.key == p[..|a.key|] == q[..|b.key|] == b.key;
        assert p[|a.key|..] == q[|b.key|..];
      }
    }
  }

  /** Without collisions, two writes share their pointer exactly when they are one write or are confused. */
  lemma PointerExact(h: Digest, ws: set<KVOp>, a: KVOp, b: KVOp)
    requires NoCollisions(h, ws) && a in ws && b in ws && Measured(h, a, b)
    ensures KeyValueHash(h, a.key, a.value) == KeyValueHash(h, b.key, b.value) <==> a == b || Confused(h, a, b)
  {
    PreimageExact(h, a, b);
    assert KeyValueHash(h, a.key, a.value) == h(Preimage(h, a));
    assert KeyValueHash(h, b.key, b.value) == h(Preimage(h, b));
  }

  ghost predicate AllMeasured(h: Digest, ws: set<KVOp>) {
    forall a, b :: a in ws && b in ws ==> Measured(h, a, b)
  }

  /** No write can be taken for another one by its pointer. */
  ghost predicate Told(h: Digest, ws: set<KVOp>) {
    forall a, b :: a in ws && b in ws ==> Measured(h, a, b) && !Confused(h, a, b)
  }

  lemma OneLengthTold(h: Digest, ops: seq<KVOp>, n: nat)
    requires OneLength(ops, n)
    ensures Told(h, Writes(ops))
  {
  }

  // ----- The values stored -----

  ghost predicate WrittenBy(h: Digest, w: KVOp, p: Bytes, v: Bytes) {
    w.Write? && p == KeyValueHash(h, w.key, w.value) && v == w.value
  }

  /** Every value stored is that of a write, under its pointer. */
  ghost predicate AllWritten(h: Digest, ws: set<KVOp>, values: map<Bytes, Bytes>) {
    forall p :: p in values ==> exists w :: w in ws && WrittenBy(h, w, p, values[p])
  }

  lemma ValueOf(h: Digest, ws: set<KVOp>, values: map<Bytes, Bytes>, w: KVOp)
    requires NoCollisions(h, ws) && Told(h, ws) && AllWritten(h, ws, values) && w in ws && w.Write?
    requires KeyValueHash(h, w.key, w.value) in values
    ensures values[KeyValueHash(h, w.key, w.value)] == w.value
  {
    var p := KeyValueHash(h, w.key, w.value);
    var a :| a in ws && WrittenBy(h, a, p, values[p]);
    PointerExact(h, ws, a, w);
  }

  lemma AllWrittenMore(h: Digest, ws: set<KVOp>, values: map<Bytes, Bytes>, w: KVOp)
    requires AllWritten(h, ws, values) && w.Write?
    ensures AllWritten(h, ws + {w}, values)
    ensures AllWritten(h, ws + {w}, values[KeyValueHash(h, w.key, w.value) := w.value])
  {
    var q := KeyValueHash(h, w.key, w.value);
    assert WrittenBy(h, w, q, w.value) && w in ws + {w};
    forall p | p in values ensures exists a :: a in ws + {w} && WrittenBy(h, a, p, values[p]) {
      var a :| a in ws && WrittenBy(h, a, p, values[p]);
      assert a in ws + {w};
    }
  }

  lemma AllWrittenTaken(
    h: Digest, ws: set<KVOp>, values: map<Bytes, Bytes>, disk: map<Bytes, Bytes>, mem: map<Bytes, Bytes>)
    requires AllWritten(h, ws, disk) && AllWritten(h, ws, mem) && TakenFrom(values, disk, mem)
    ensures AllWritten(h, ws, values)
  {
    forall p | p in values ensures exists a :: a in ws && WrittenBy(h, a, p, values[p]) {
      if p in disk && values[p] == disk[p] {
        var a :| a in ws && WrittenBy(h, a, p, disk[p]);
      } else {
        var a :| a in ws && WrittenBy(h, a, p, mem[p]);
      }
    }
  }

  /** After the write `w`, another one came whose pointer is the same. */
  ghost predicate ReplacedAfter(h: Digest, ops: seq<KVOp>, w: KVOp) {
    ops != [] &&
    var before, op := ops[..|ops| - 1], ops[|ops| - 1];
    op != w && (Confused(h, op, w) || ReplacedAfter(h, before, w))
  }

  /** The value of a write is still the one stored exactly when it was not replaced. */
  lemma {:induction false} ValueUnder(h: Digest, ops: seq<KVOp>, ws: set<KVOp>, w: KVOp)
    requires NoCollisions(h, ws) && AllMeasured(h, ws) && Writes(ops) <= ws && w in ops && w.Write?
    ensures
      var p := KeyValueHash(h, w.key, w.value);
      p in ValuesAfter(h, ops) && (ValuesAfter(h, ops)[p] == w.value <==> !ReplacedAfter(h, ops, w))
    decreases |ops|
  {
    var before, op := ops[..|ops| - 1], ops[|ops| - 1];
    assert ops == before + [op];
    assert op.Write? ==> op in Writes(ops);
    assert w in Writes(ops);
    if op.Write? { PointerExact(h, ws, op, w); }
    if op != w {
      assert Writes(before) <= Writes(ops);
      ValueUnder(h, before, ws, w);
    }
  }

  /** The entry intended for a key: its pointer is that of a value written, and of the last one if it is live. */
  ghost predicate EntryIsLast(h: Digest, ops: seq<KVOp>, key: Bytes, e: Option<Entry>) {
    && (LastValue(ops, key).Some? <==> e.Some? && !e.value.deleted)
    && (LastValue(ops, key).Some? ==> PointsTo(h, ops, key, LastValue(ops, key).value, e))
    && (e.Some? ==> exists v :: PointsTo(h, ops, key, v, e))
  }

  ghost predicate PointsTo(h: Digest, ops: seq<KVOp>, key: Bytes, v: Bytes, e: Option<Entry>) {
    Write(key, v) in ops && e.Some? && e.value.ptr == KeyValueHash(h, key, v)
  }

  lemma SameKey(h: Digest, op: KVOp, key: Bytes)
    ensures HexOp(h, op).key == ToHex(key) <==> op.key == key
  {
    if HexOp(h, op).key == ToHex(key) { ToHexInjective(op.key, key); }
  }

  lemma EntryStep(h: Digest, before: seq<KVOp>, op: KVOp, key: Bytes, e: Option<Entry>, e': Option<Entry>)
    requires EntryIsLast(h, before, key, e)
    requires e' ==
      if op.key != key then e
      else if op.Write? then Some(Entry(KeyValueHash(h, key, op.value), false))
      else if e.None? then None else Some(Entry(e.value.ptr, true))
    ensures EntryIsLast(h, before + [op], key, e')
  {
    var ops := before + [op];
    assert ops[..|ops| - 1] == before && ops[|ops| - 1] == op;
    if op.key == key && op.Write? {
      assert PointsTo(h, ops, key, op.value, e');
    } else if e.Some? {
      var v :| PointsTo(h, before, key, v, e);
      assert PointsTo(h, ops, key, v, e');
    }
  }

  lemma {:induction false} IntendedIsLast(h: Digest, ops: seq<KVOp>, key: Bytes)
    ensures EntryIsLast(h, ops, key, Intended(HexOps(h, ops), ToHex(key)))
  {
    if ops != [] {
      var before, op := ops[..|ops| - 1], ops[|ops| - 1];
      assert ops == before + [op];
      IntendedIsLast(h, before, key);
      SnocKey(HexOps(h, before), HexOp(h, op), ToHex(key));
      SameKey(h, op, key);
      EntryStep(h, before, op, key, Intended(HexOps(h, before), ToHex(key)), Intended(HexOps(h, ops), ToHex(key)));
    }
  }

  lemma {:induction false} OneLengthKeys(h: Digest, ops: seq<KVOp>, n: nat, q: HexKey)
    requires OneLength(ops, n) && Intended(HexOps(h, ops), q).Some?
    ensures |q| == 2 * n
  {
    var before, op := ops[..|ops| - 1], ops[|ops| - 1];
    assert ops == before + [op];
    SnocKey(HexOps(h, before), HexOp(h, op), q);
    if HexOp(h, op).key != q {
      OneLengthKeys(h, before, n, q);
    }
  }

  /** Runs over keys of one length are sound. */
  lemma {:induction false} OneLengthSound(h: Digest, ops: seq<KVOp>, n: nat)
    requires OneLength(ops, n) && n > 0
    ensures Sound(HexOps(h, ops))
  {
    if ops != [] {
      var before, op := ops[..|ops| - 1], ops[|ops| - 1];
      assert ops == before + [op];
      OneLengthSound(h, before, n);
      Snoc(HexOps(h, before), HexOp(h, op));
      var k := ToHex(op.key);
      forall a | a in KeysPut(HexOps(h, before)) && k <= a ensures a == k {
        OneLengthKeys(h, before, n, a);
      }
    }
  }

  /** The last value written for the key lies under a pointer that a later write took. */
  ghost predicate Replaced(h: Digest, ops: seq<KVOp>, key: Bytes) {
    LastValue(ops, key).Some? && ReplacedAfter(h, ops, Write(key, LastValue(ops, key).value))
  }

  /** An unambiguous key is found in the trie of a run with its entry. */
  lemma FoundAfterRun(h: Digest, ops: seq<KVOp>, key: Bytes)
    requires Sound(HexOps(h, ops)) && key != [] && !Ambiguous(KeysPut(HexOps(h, ops)), ToHex(key))
    ensures Run(HexOps(h, ops)).Some?
    ensures GetPath(Run(HexOps(h, ops)).value, ToHex(key)) == Answer(Actual(HexOps(h, ops), ToHex(key)))
  {
    var hex, q := HexOps(h, ops), ToHex(key);
    RunRefinesMap(hex);
    var t := Run(hex).value;
    assert Keys(t) == KeysPut(hex);
    LookupExact(t, q);
  }

  /**
   * What `Get` answers, in any store that has the value of the entry: the last value written, if that is what lies
   * under its pointer, and something else when the tombstone was lost.
   */
  lemma AnswerAfterRun(h: Digest, ops: seq<KVOp>, key: Bytes, values: map<Bytes, Bytes>)
    requires Sound(HexOps(h, ops)) && key != [] && !Ambiguous(KeysPut(HexOps(h, ops)), ToHex(key))
    requires var e := Intended(HexOps(h, ops), ToHex(key)); e.Some? ==> e.value.ptr in values
    ensures Run(HexOps(h, ops)).Some?
    ensures LastValue(ops, key).Some? ==> KeyValueHash(h, key, LastValue(ops, key).value) in values
    ensures
      var r, v := ReplyOf(Run(HexOps(h, ops)).value, values, key), LastValue(ops, key);
      && r != Error
      && (r == Reply(v) <==>
          !TombstoneLost(HexOps(h, ops), ToHex(key)) && (v.Some? ==> values[KeyValueHash(h, key, v.value)] == v.value))
  {
    var hex, q := HexOps(h, ops), ToHex(key);
    FoundAfterRun(h, ops, key);
    IntendedIsLast(h, ops, key);
    if TombstoneLost(hex, q) { LostWasDeleted(hex, q); }
  }

  lemma IntendedIsWritten(h: Digest, ops: seq<KVOp>, key: Bytes) returns (w: KVOp)
    requires Intended(HexOps(h, ops), ToHex(key)).Some?
    ensures w in Writes(ops) && Intended(HexOps(h, ops), ToHex(key)).value.ptr == KeyValueHash(h, w.key, w.value)
  {
    IntendedIsLast(h, ops, key);
    var v :| PointsTo(h, ops, key, v, Intended(HexOps(h, ops), ToHex(key)));
    w := Write(key, v);
  }

  /**
   * `Get` returns the value last written, or nothing if there is none, exactly when the tombstone of the key was not
   * lost and no later write took the pointer of the value.
   */
  lemma LastValueRead(h: Digest, ops: seq<KVOp>, key: Bytes, base: map<Bytes, Bytes>)
    requires Sound(HexOps(h, ops)) && key != [] && !Ambiguous(KeysPut(HexOps(h, ops)), ToHex(key))
    requires NoCollisions(h, Writes(ops)) && AllMeasured(h, Writes(ops))
    ensures Run(HexOps(h, ops)).Some?
    ensures
      var r := ReplyOf(Run(HexOps(h, ops)).value, base + ValuesAfter(h, ops), key);
      && r != Error
      && (r == Reply(LastValue(ops, key)) <==>
          !TombstoneLost(HexOps(h, ops), ToHex(key)) && !Replaced(h, ops, key))
  {
    if Intended(HexOps(h, ops), ToHex(key)).Some? {
      var w := IntendedIsWritten(h, ops, key);
      ValueUnder(h, ops, Writes(ops), w);
    }
    AnswerAfterRun(h, ops, key, base + ValuesAfter(h, ops));
    if LastValue(ops, key).Some? {
      IntendedIsLast(h, ops, key);
      ValueUnder(h, ops, Writes(ops), Write(key, LastValue(ops, key).value));
    }
  }

  /** In a run of updates, of keys of any lengths, only a later write that is confused with it hides a value. */
  lemma UpdatedValueRead(h: Digest, ops: seq<KVOp>, key: Bytes, base: map<Bytes, Bytes>)
    requires PutsOnly(HexOps(h, ops)) && LastValue(ops, key).Some? && key != []
    requires NoCollisions(h, Writes(ops)) && AllMeasured(h, Writes(ops))
    ensures Run(HexOps(h, ops)).Some?
    ensures ReplyOf(Run(HexOps(h, ops)).value, base + ValuesAfter(h, ops), key) == Reply(LastValue(ops, key)) <==>
      !ReplacedAfter(h, ops, Write(key, LastValue(ops, key).value))
  {
    PutsAreSound(HexOps(h, ops));
    IntendedIsLast(h, ops, key);
    LastValueRead(h, ops, key, base);
  }

  /** Across commits, in any store that holds only values written: if no two writes are confused, none is replaced. */
  lemma ReadBack(h: Digest, ops: seq<KVOp>, ws: set<KVOp>, key: Bytes, values: map<Bytes, Bytes>)
    requires Sound(HexOps(h, ops)) && key != [] && !Ambiguous(KeysPut(HexOps(h, ops)), ToHex(key))
    requires Writes(ops) <= ws && NoCollisions(h, ws) && Told(h, ws) && AllWritten(h, ws, values)
    requires var e := Intended(HexOps(h, ops), ToHex(key)); e.Some? ==> e.value.ptr in values
    ensures Run(HexOps(h, ops)).Some?
    ensures
      var r := ReplyOf(Run(HexOps(h, ops)).value, values, key);
      r != Error && (r == Reply(LastValue(ops, key)) <==> !TombstoneLost(HexOps(h, ops), ToHex(key)))
  {
    AnswerAfterRun(h, ops, key, values);
    if LastValue(ops, key).Some? {
      IntendedIsLast(h, ops, key);
      ValueOf(h, ws, values, Write(key, LastValue(ops, key).value));
    }
  }

  /** For keys of one length, such as those of the committer, all of this holds. */
  lemma OneLengthRead(h: Digest, ops: seq<KVOp>, n: nat, key: Bytes, base: map<Bytes, Bytes>)
    requires OneLength(ops, n) && |key| == n > 0 && NoCollisions(h, Writes(ops))
    ensures Run(HexOps(h, ops)).Some?
    ensures
      var r := ReplyOf(Run(HexOps(h, ops)).value, base + ValuesAfter(h, ops), key);
      r != Error && (r == Reply(LastValue(ops, key)) <==> !TombstoneLost(HexOps(h, ops), ToHex(key)))
  {
    OneLengthSound(h, ops, n);
    OneLengthUnambiguous(h, ops, n, key);
    OneLengthTold(h, ops, n);
    LastValueRead(h, ops, key, base);
    if Replaced(h, ops, key) { ReplacedByWrite(h, ops, Write(key, LastValue(ops, key).value)); }
  }

  lemma {:induction false} ReplacedByWrite(h: Digest, ops: seq<KVOp>, w: KVOp)
    requires ReplacedAfter(h, ops, w)
    ensures exists a :: a in Writes(ops) && Confused(h, a, w)
    decreases |ops|
  {
    var before, op := ops[..|ops| - 1], ops[|ops| - 1];
    assert ops == before + [op];
    if Confused(h, op, w) {
      assert op in Writes(ops);
    } else {
      ReplacedByWrite(h, before, w);
      var a :| a in Writes(before) && Confused(h, a, w);
      assert a in Writes(ops);
    }
  }

  lemma OneLengthUnambiguous(h: Digest, ops: seq<KVOp>, n: nat, key: Bytes)
    requires OneLength(ops, n) && |key| == n
    ensures !Ambiguous(KeysPut(HexOps(h, ops)), ToHex(key))
  {
    var q := ToHex(key);
    forall a | a in KeysPut(HexOps(h, ops)) && q <= a ensures a == q {
      OneLengthKeys(h, ops, n, a);
    }
  }

  // ----- The trie of the committer -----

  /** The tree is what the history leaves, and the values in memory and in the backend are values written. */
  ghost predicate Recorded(
    h: Digest, t: Tree, ops: seq<KVOp>, written: set<KVOp>, mem: map<Bytes, Bytes>, disk: map<Bytes, Bytes>)
  {
    && Sound(HexOps(h, ops)) && Run(HexOps(h, ops)) == Some(t) && Writes(ops) <= written
    && AllWritten(h, written, mem) && AllWritten(h, written, disk)
  }

  lemma RecordedWrite(
    h: Digest, t: Tree, ops: seq<KVOp>, written: set<KVOp>, mem: map<Bytes, Bytes>, disk: map<Bytes, Bytes>,
    key: Bytes, value: Bytes)
    requires Recorded(h, t, ops, written, mem, disk) && key != [] && WellFormed(t)
    ensures
      var w, p := Write(key, value), KeyValueHash(h, key, value);
      var u := Upd(t, ToHex(key), p, false);
      u.Some? && Recorded(h, u.value, ops + [w], written + {w}, mem[p := value], disk)
  {
    var w := Write(key, value);
    AfterOp(h, ops, w);
    RunRefinesMap(HexOps(h, ops + [w]));
    AllWrittenMore(h, written, mem, w);
    AllWrittenMore(h, written, disk, w);
  }

  lemma RecordedRemove(
    h: Digest, t: Tree, ops: seq<KVOp>, written: set<KVOp>, mem: map<Bytes, Bytes>, disk: map<Bytes, Bytes>, key: Bytes)
    requires Recorded(h, t, ops, written, mem, disk) && key != [] && WellFormed(t)
    requires !Ambiguous(KeysPut(HexOps(h, ops)), ToHex(key))
    ensures !Ambiguous(Keys(t), ToHex(key))
    ensures
      var u := DeleteOutcome(t, ToHex(key)).root;
      u.Some? && Recorded(h, u.value, ops + [Remove(key)], written, mem, disk)
  {
    KeysAfterRun(h, ops);
    AfterOp(h, ops, Remove(key));
    RunRefinesMap(HexOps(h, ops + [Remove(key)]));
  }

  lemma RecordedCommit(
    h: Digest, t: Tree, ops: seq<KVOp>, written: set<KVOp>, mem: map<Bytes, Bytes>, disk: map<Bytes, Bytes>,
    values: map<Bytes, Bytes>)
    requires Recorded(h, t, ops, written, mem, disk) && TakenFrom(values, disk, mem)
    ensures AllWritten(h, written, values) && Recorded(h, t, ops, written, map[], values)
  {
    AllWrittenTaken(h, written, values, disk, mem);
  }

  /** The tree that a history leaves is among those committed. */
  ghost predicate CommittedAt(h: Digest, committed: set<Tree>, past: seq<KVOp>) {
    Sound(HexOps(h, past)) && Run(HexOps(h, past)).Some? && Run(HexOps(h, past)).value in committed
  }

  /** Each of the histories is an earlier part of this one, and was committed. */
  ghost predicate AllCommitted(h: Digest, committed: set<Tree>, ops: seq<KVOp>, commits: set<seq<KVOp>>) {
    forall past :: past in commits ==> past <= ops && CommittedAt(h, committed, past)
  }

  lemma CommitsKept(h: Digest, committed: set<Tree>, ops: seq<KVOp>, op: KVOp, commits: set<seq<KVOp>>)
    requires AllCommitted(h, committed, ops, commits)
    ensures AllCommitted(h, committed, ops + [op], commits)
  {
  }

  lemma OneMoreCommit(h: Digest, committed: set<Tree>, ops: seq<KVOp>, t: Tree, commits: set<seq<KVOp>>)
    requires AllCommitted(h, committed, ops, commits) && Sound(HexOps(h, ops)) && Run(HexOps(h, ops)) == Some(t)
    ensures AllCommitted(h, committed + {t}, ops, commits + {ops})
  {
  }

  lemma RecordedAt(
    h: Digest, t: Tree, ops: seq<KVOp>, written: set<KVOp>, mem: map<Bytes, Bytes>, disk: map<Bytes, Bytes>,
    committed: set<Tree>, commits: set<seq<KVOp>>, past: seq<KVOp>)
    requires Recorded(h, t, ops, written, mem, disk) && AllCommitted(h, committed, ops, commits) && past in commits
    ensures
      var u := Run(HexOps(h, past));
      && u.Some? && u.value in committed && Recorded(h, u.value, past, written, mem, disk)
      && AllCommitted(h, committed, past, set p | p in commits && p <= past)
  {
    assert CommittedAt(h, committed, past);
    forall w | w in Writes(past) ensures w in Writes(ops) {}
  }

  /** What was done to a trie, what was done before each of its commits, and all writes to its store. */
  datatype History = History(ops: seq<KVOp>, commits: set<seq<KVOp>>, written: set<KVOp>)

  /** The trie follows its history, and its store keeps every trie committed. */
  ghost predicate Follows(trie: Trie, past: History)
    reads trie, trie.store
  {
    && trie.Valid() && trie.store.HistoryKept()
    && Recorded(
         trie.store.digest, trie.tree, past.ops, past.written, trie.store.inMemoryValues, trie.store.backendValues)
    && AllCommitted(trie.store.digest, trie.store.committed, past.ops, past.commits)
  }

  /** An empty trie over an empty store. */
  method Start(digest: Digest) returns (trie: Trie)
    ensures fresh(trie) && fresh(trie.store) && trie.store.digest == digest && Follows(trie, History([], {}, {}))
  {
    trie := Trie.Start(digest);
  }

  method Update(trie: Trie, key: Bytes, value: Bytes, ghost past: History) returns (ghost now: History)
    requires Follows(trie, past) && key != []
    requires CollisionFree(trie.store.hash,
      trie.Universe(Upd(trie.tree, ToHex(key), KeyValueHash(trie.store.digest, key, value), false)))
    modifies trie, trie.store
    ensures Follows(trie, now)
    ensures now == History(past.ops + [Write(key, value)], past.commits, past.written + {Write(key, value)})
  {
    ghost var w := Write(key, value);
    now := History(past.ops + [w], past.commits, past.written + {w});
    RecordedWrite(trie.store.digest, trie.tree, past.ops, past.written, trie.store.inMemoryValues,
                  trie.store.backendValues, key, value);
    CommitsKept(trie.store.digest, trie.store.committed, past.ops, w, past.commits);
    var _ := trie.Update(key, value);
  }

  method Delete(trie: Trie, key: Bytes, ghost past: History) returns (ghost now: History)
    requires Follows(trie, past) && key != []
    requires !Ambiguous(KeysPut(HexOps(trie.store.digest, past.ops)), ToHex(key))
    requires CollisionFree(trie.store.hash, trie.Universe(DeleteOutcome(trie.tree, ToHex(key)).root))
    modifies trie, trie.store
    ensures Follows(trie, now) && now == past.(ops := past.ops + [Remove(key)])
  {
    now := past.(ops := past.ops + [Remove(key)]);
    RecordedRemove(trie.store.digest, trie.tree, past.ops, past.written, trie.store.inMemoryValues,
                   trie.store.backendValues, key);
    CommitsKept(trie.store.digest, trie.store.committed, past.ops, Remove(key), past.commits);
    var _ := trie.Delete(key);
  }

  /** After a block; nothing is forgotten, and the root of now can be asked for later. */
  method Commit(trie: Trie, blockNum: nat, ghost past: History) returns (ghost now: History)
    requires Follows(trie, past) && CollisionFree(trie.store.hash, trie.store.saved)
    modifies trie.store
    ensures Follows(trie, now) && now == past.(commits := past.commits + {past.ops})
    ensures trie.store.saved == old(trie.store.saved)
  {
    ghost var mem, disk := trie.store.inMemoryValues, trie.store.backendValues;
    now := past.(commits := past.commits + {past.ops});
    OneMoreCommit(trie.store.digest, trie.store.committed, past.ops, trie.tree, past.commits);
    trie.Commit(blockNum);
    RecordedCommit(trie.store.digest, trie.tree, past.ops, past.written, mem, disk, trie.store.backendValues);
  }

  /** The value last written, unless the tombstone of a removed key was lost. */
  method Get(trie: Trie, key: Bytes, ghost past: History) returns (r: Reply)
    requires Follows(trie, past) && CollisionFree(trie.store.hash, trie.store.saved)
    requires key != [] && !Ambiguous(KeysPut(HexOps(trie.store.digest, past.ops)), ToHex(key))
    requires NoCollisions(trie.store.digest, past.written) && Told(trie.store.digest, past.written)
    ensures r != Error
    ensures r == Reply(LastValue(past.ops, key)) <==>
      !TombstoneLost(HexOps(trie.store.digest, past.ops), ToHex(key))
  {
    EntryStored(trie, key, past);
    RecordedCommit(trie.store.digest, trie.tree, past.ops, past.written, trie.store.inMemoryValues,
                   trie.store.backendValues, trie.store.Values());
    ReadBack(trie.store.digest, past.ops, past.written, key, trie.store.Values());
    r := trie.Get(key);
  }

  lemma EntryStored(trie: Trie, key: Bytes, past: History)
    requires Follows(trie, past) && key != []
    requires !Ambiguous(KeysPut(HexOps(trie.store.digest, past.ops)), ToHex(key))
    ensures var e := Intended(HexOps(trie.store.digest, past.ops), ToHex(key));
      e.Some? ==> e.value.ptr in trie.store.Values()
  {
    FoundAfterRun(trie.store.digest, past.ops, key);
    if Intended(HexOps(trie.store.digest, past.ops), ToHex(key)).Some? { trie.FoundIsStored(ToHex(key)); }
  }

  /** The hash is that of the root which the operations leave. */
  ghost predicate IsRootOf(trie: Trie, rootHash: Bytes, ops: seq<KVOp>) {
    var t := Run(HexOps(trie.store.digest, ops));
    t.Some? && !t.value.Nil? && rootHash == PtrOf(trie.store.hash, t.value)
  }

  /** What the history was at one of its commits. */
  ghost function HistoryAt(past: History, ops: seq<KVOp>): History {
    History(ops, (set c | c in past.commits && c <= ops), past.written)
  }

  /** The trie as it was at a commit, opened by its root hash. */
  method OpenAt(trie: Trie, rootHash: Bytes, ghost ops: seq<KVOp>, ghost past: History) returns (earlier: Trie)
    requires Follows(trie, past) && CollisionFree(trie.store.hash, trie.store.saved)
    requires ops in past.commits && IsRootOf(trie, rootHash, ops)
    ensures fresh(earlier) && earlier.store == trie.store && Follows(earlier, HistoryAt(past, ops))
  {
    RecordedAt(trie.store.digest, trie.tree, past.ops, past.written, trie.store.inMemoryValues,
               trie.store.backendValues, trie.store.committed, past.commits, ops);
    var found := Trie.Open(rootHash, trie.store, Run(HexOps(trie.store.digest, ops)).value);
    earlier := found.value;
  }

  /** Every committed root keeps answering as the trie did then. */
  method GetAt(trie: Trie, rootHash: Bytes, key: Bytes, ghost ops: seq<KVOp>, ghost past: History) returns (r: Reply)
    requires Follows(trie, past) && CollisionFree(trie.store.hash, trie.store.saved)
    requires ops in past.commits && IsRootOf(trie, rootHash, ops)
    requires key != [] && !Ambiguous(KeysPut(HexOps(trie.store.digest, ops)), ToHex(key))
    requires NoCollisions(trie.store.digest, past.written) && Told(trie.store.digest, past.written)
    ensures r != Error
    ensures r == Reply(LastValue(ops, key)) <==> !TombstoneLost(HexOps(trie.store.digest, ops), ToHex(key))
  {
    var earlier := OpenAt(trie, rootHash, ops, past);
    r := Get(earlier, key, HistoryAt(past, ops));
  }

  lemma KeysAfterRun(h: Digest, ops: seq<KVOp>)
    requires Sound(HexOps(h, ops))
    ensures Run(HexOps(h, ops)).Some? && Keys(Run(HexOps(h, ops)).value) == KeysPut(HexOps(h, ops))
  {
    RunRefinesMap(HexOps(h, ops));
  }

  lemma AfterOp(h: Digest, ops: seq<KVOp>, op: KVOp)
    requires Sound(HexOps(h, ops)) && op.key != []
    requires op.Remove? ==> !Ambiguous(KeysPut(HexOps(h, ops)), ToHex(op.key))
    ensures
      var more := ops + [op];
      && Sound(HexOps(h, more)) && Run(HexOps(h, ops)).Some?
      && Run(HexOps(h, more)) == Step(Run(HexOps(h, ops)).value, HexOp(h, op))
      && Writes(more) == Writes(ops) + if op.Write? then {op} else {}
  {
    var more := ops + [op];
    assert more[..|more| - 1] == ops;
    RunRefinesMap(HexOps(h, ops));
    Snoc(HexOps(h, ops), HexOp(h, op));
    assert |ToHex(op.key)| == 2 * |op.key|;
  }

  lemma WriteSnoc(h: Digest, before: seq<KVOp>, w: KVOp, key: Bytes)
    requires w.Write? && w.key != [] && PutsOnly(HexOps(h, before))
    ensures
      var ops := before + [w];
      && PutsOnly(HexOps(h, ops)) && Writes(ops) == Writes(before) + {w}
      && LastValue(ops, key) == (if w.key == key then Some(w.value) else LastValue(before, key))
      && ValuesAfter(h, ops) == ValuesAfter(h, before)[KeyValueHash(h, w.key, w.value) := w.value]
  {
    var ops := before + [w];
    assert ops[..|ops| - 1] == before;
    assert |ToHex(w.key)| == 2 * |w.key|;
  }

  lemma TwoWrites(h: Digest, a: KVOp, b: KVOp)
    requires a.Write? && b.Write? && a.key != [] && b.key != [] && a.key != b.key
    ensures
      var ops := [a] + [b];
      && PutsOnly(HexOps(h, ops)) && LastValue(ops, a.key) == Some(a.value) && Writes(ops) == {a, b}
      && ValuesAfter(h, ops) ==
           map[KeyValueHash(h, a.key, a.value) := a.value][KeyValueHash(h, b.key, b.value) := b.value]
  {
    WriteSnoc(h, [], a, a.key);
    WriteSnoc(h, [a], b, a.key);
    assert [] + [a] == [a];
  }

  lemma ConfusedPair(h: Digest, key: Bytes, value: Bytes)
    requires value != []
    ensures Preimage(h, Write(key + h(value), [])) == Preimage(h, Write(key, value))
    ensures KeyValueHash(h, key + h(value), []) == KeyValueHash(h, key, value)
  {
    assert (key + h(value)) + [] == key + h(value);
  }

  lemma NoCollisionsPair(h: Digest, a: KVOp, b: KVOp)
    requires a.Write? && b.Write? && Preimage(h, a) == Preimage(h, b) && h(a.value) != h(b.value)
    ensures NoCollisions(h, {a, b})
  {
    var ws := {a, b};
    forall x, y | x in ws && y in ws
      ensures Preimage(h, x) == Preimage(h, y) && (h(x.value) == h(y.value) ==> x.value == y.value)
    {
    }
  }

  /** Without removals the pointer of the last value decides the answer, whatever is stored under it. */
  lemma PointerDecides(h: Digest, ops: seq<KVOp>, key: Bytes, values: map<Bytes, Bytes>)
    requires PutsOnly(HexOps(h, ops)) && key != [] && LastValue(ops, key).Some?
    requires KeyValueHash(h, key, LastValue(ops, key).value) in values
    ensures Run(HexOps(h, ops)).Some?
    ensures ReplyOf(Run(HexOps(h, ops)).value, values, key) ==
      Reply(Some(values[KeyValueHash(h, key, LastValue(ops, key).value)]))
  {
    PutsAreSound(HexOps(h, ops));
    IntendedIsLast(h, ops, key);
    FoundAfterRun(h, ops, key);
  }

  /** With keys of different lengths a write can replace the value of another key, without any collision. */
  lemma ValueReplaced(h: Digest, key: Bytes, value: Bytes)
    requires key != [] && value != []
    ensures
      var ops := [Write(key, value)] + [Write(key + h(value), [])];
      && LastValue(ops, key) == Some(value) && Run(HexOps(h, ops)).Some?
      && ReplyOf(Run(HexOps(h, ops)).value, ValuesAfter(h, ops), key) == Reply(Some([]))
      && (h(value) != h([]) ==> NoCollisions(h, Writes(ops)))
  {
    var a, b := Write(key, value), Write(key + h(value), []);
    assert |b.key| > |key|;
    TwoWrites(h, a, b);
    ConfusedPair(h, key, value);
    if h(value) != h([]) { NoCollisionsPair(h, a, b); }
    PointerDecides(h, [a] + [b], key, ValuesAfter(h, [a] + [b]));
  }
}
