/**
 * What a lookup answers. The walk stops as soon as the key is used up, whatever node it stands on, so a key
 * that was never written can be mistaken for a longer one. The lemmas here say exactly when.
 */
module TrieLookup {
  import opened Basics
  import opened TrieTree
  import opened TrieCanonical
  import opened TrieRefinesMap

  /** `Node(None)` is a branch without a value; `Impossible` is an error raised on an extension. */
  datatype Lookup = Missing | Node(found: Option<Entry>) | Impossible

  function GetPath(t: Tree, k: HexKey): Lookup
    requires WellFormed(t)
    decreases t
  {
    match t
    case Nil => Missing
    case Leaf(key, e) => if k == [] || k == key then Node(Some(e)) else Missing
    case Ext(key, child) =>
      if k == [] then Impossible
      else if !(key <= k) then Missing
      else if child.Nil? then Impossible else GetPath(child, k[|key|..])
    case Branch(children, entry) => if k == [] then Node(entry) else GetPath(children[k[0]], k[1..])
  }

  /** The answer a map would give. */
  function Answer(e: Option<Entry>): Lookup {
    if e.None? then Missing else Node(e)
  }

  ghost function Keys(t: Tree): iset<HexKey>
    requires WellFormed(t)
  {
    iset k | Find(t, k).Some?
  }

  ghost predicate Extends(keys: iset<HexKey>, k: HexKey) {
    exists a :: a in keys && k <= a
  }

  /** Two of the keys share the prefix `p` and part right after it. */
  ghost predicate PartAfter(keys: iset<HexKey>, p: HexKey) {
    exists a, b :: p + a in keys && p + b in keys && Part(a, b)
  }

  /**
   * The keys a lookup gets wrong, in terms of the stored keys only: `k` is not stored, a stored key extends it,
   * and stored keys part right after `k` or right after `k` without its last nibble.
   */
  ghost predicate Ambiguous(keys: iset<HexKey>, k: HexKey) {
    && k !in keys
    && Extends(keys, k)
    && (|k| <= 1 || PartAfter(keys, k) || PartAfter(keys, k[..|k| - 1]))
  }

  /** The same for a subtree, whose own first node counts as a place where keys part. */
  ghost predicate AmbiguousBelow(t: Tree, k: HexKey)
    requires WellFormed(t)
  {
    && Find(t, k).None?
    && Extends(Keys(t), k)
    && (k == [] || PartAfter(Keys(t), k) || PartAfter(Keys(t), k[..|k| - 1]))
  }

  /** `c` is what `t` holds below the prefix `p`. */
  ghost predicate Below(t: Tree, p: HexKey, c: Tree)
    requires WellFormed(t) && WellFormed(c)
  {
    forall q :: Find(t, p + q) == Find(c, q)
  }

  lemma BelowExt(key: HexKey, c: Tree)
    requires WellFormed(c)
    ensures Below(Ext(key, c), key, c)
  {
    forall q ensures Find(Ext(key, c), key + q) == Find(c, q) { assert (key + q)[|key|..] == q; }
  }

  lemma BelowBranch(t: Tree, i: Nibble)
    requires WellFormed(t) && t.Branch?
    ensures Below(t, [i], t.children[i])
  {
    forall q ensures Find(t, [i] + q) == Find(t.children[i], q) { assert ([i] + q)[1..] == q; }
  }

  lemma ExtendsBelow(t: Tree, p: HexKey, c: Tree, k: HexKey)
    requires WellFormed(t) && WellFormed(c) && Below(t, p, c)
    ensures Extends(Keys(t), p + k) <==> Extends(Keys(c), k)
  {
    if a :| a in Keys(t) && p + k <= a {
      assert p <= a by { assert p == (p + k)[..|p|] == a[..|p|]; }
      SplitAt(p, a);
      assert k <= a[|p|..] by { assert k == (p + k)[|p|..] == a[|p|..|p + k|]; }
      assert a[|p|..] in Keys(c);
    }
    if a :| a in Keys(c) && k <= a {
      assert p + a in Keys(t) && p + k <= p + a;
    }
  }

  lemma PartAfterBelow(t: Tree, p: HexKey, c: Tree, k: HexKey)
    requires WellFormed(t) && WellFormed(c) && Below(t, p, c)
    ensures PartAfter(Keys(t), p + k) <==> PartAfter(Keys(c), k)
  {
    forall a ensures Find(t, p + k + a) == Find(c, k + a) {
      assert p + k + a == p + (k + a);
    }
    if a, b :| p + k + a in Keys(t) && p + k + b in Keys(t) && Part(a, b) {
      assert k + a in Keys(c) && k + b in Keys(c);
    }
    if a, b :| k + a in Keys(c) && k + b in Keys(c) && Part(a, b) {
      assert p + k + a in Keys(t) && p + k + b in Keys(t);
    }
  }

  lemma BranchPartsAfter(t: Tree)
    requires WellFormed(t) && Canonical(t) && t.Branch?
    ensures PartAfter(Keys(t), []) && Extends(Keys(t), [])
  {
    var a, b := BranchParts(t);
    assert [] + a == a && [] + b == b;
  }

  lemma ExtendsEmpty(t: Tree)
    requires WellFormed(t) && Canonical(t) && !t.Nil?
    ensures Extends(Keys(t), [])
  {
    var a := HoldsKey(t);
    assert a in Keys(t) && [] <= a;
  }

  /** Going down by `p` moves the question to the subtree, once something is known to part at its top. */
  lemma AmbiguousDescends(t: Tree, p: HexKey, c: Tree, k: HexKey)
    requires WellFormed(t) && WellFormed(c) && Below(t, p, c) && p != []
    requires PartAfter(Keys(t), p) || PartAfter(Keys(t), p[..|p| - 1])
    ensures AmbiguousBelow(t, p + k) <==> AmbiguousBelow(c, k)
  {
    ExtendsBelow(t, p, c, k);
    PartAfterBelow(t, p, c, k);
    if k == [] {
      assert p + k == p;
    } else {
      var k' := k[..|k| - 1];
      PartAfterBelow(t, p, c, k');
      assert (p + k)[..|p + k| - 1] == p + k';
    }
  }

  lemma NoPartInsideExt(t: Tree, k: HexKey)
    requires WellFormed(t) && t.Ext? && !(t.key <= k)
    ensures !PartAfter(Keys(t), k)
  {
    var key := t.key;
    forall a, b | Find(t, k + a).Some? && Find(t, k + b).Some? ensures !Part(a, b) {
      assert key <= k + a && key <= k + b;
      assert (k + a)[|k|] == key[|k|] == (k + b)[|k|];
    }
  }

  lemma {:induction false} LookupLeaf(t: Tree, k: HexKey)
    requires t.Leaf?
    ensures GetPath(t, k) != Answer(Find(t, k)) <==> AmbiguousBelow(t, k)
  {
    if k == [] {
      assert t.key in Keys(t) && [] <= t.key;
    } else {
      forall p, a, b | Find(t, p + a).Some? && Find(t, p + b).Some? ensures !Part(a, b) {
        assert p + a == p + b;
        assert a == (p + a)[|p|..] == b;
      }
    }
  }

  /** A lookup that enters a subtree in normal form errs exactly on the ambiguous keys. */
  lemma {:induction false} LookupBelow(t: Tree, k: HexKey)
    requires WellFormed(t) && Canonical(t)
    ensures GetPath(t, k) != Answer(Find(t, k)) <==> AmbiguousBelow(t, k)
    decreases t
  {
    match t
    case Nil =>
    case Leaf(_, _) => LookupLeaf(t, k);
    case Ext(key, child) =>
      if k == [] {
        ExtendsEmpty(t);
      } else if key <= k {
        SplitAt(key, k);
        LookupBelow(child, k[|key|..]);
        BelowExt(key, child);
        BranchPartsAfter(child);
        PartAfterBelow(t, key, child, []);
        assert key + [] == key;
        AmbiguousDescends(t, key, child, k[|key|..]);
      } else {
        LookupInsideExt(t, k);
      }
    case Branch(children, entry) =>
      if k == [] {
        BranchPartsAfter(t);
      } else {
        LookupBelow(children[k[0]], k[1..]);
        BelowBranch(t, k[0]);
        BranchPartsAfter(t);
        assert k == [k[0]] + k[1..];
        AmbiguousDescends(t, [k[0]], children[k[0]], k[1..]);
      }
  }

  lemma LookupInsideExt(t: Tree, k: HexKey)
    requires WellFormed(t) && t.Ext? && k != [] && !(t.key <= k)
    ensures GetPath(t, k) == Answer(Find(t, k)) && !AmbiguousBelow(t, k)
  {
    NoPartInsideExt(t, k);
    var k' := k[..|k| - 1];
    assert k == k' + [k[|k| - 1]];
    var key := t.key;
    assert key <= k' ==> key <= k;
    NoPartInsideExt(t, k');
  }

  /** For a trie, a lookup of a non-empty key is right if and only if the key is not ambiguous. */
  lemma LookupExact(t: Tree, k: HexKey)
    requires CanonicalRoot(t) && k != []
    ensures GetPath(t, k) == Answer(Find(t, k)) <==> !Ambiguous(Keys(t), k)
  {
    var c := t.children[k[0]];
    LookupBelow(c, k[1..]);
    BelowBranch(t, k[0]);
    assert k == [k[0]] + k[1..];
    ExtendsBelow(t, [k[0]], c, k[1..]);
    PartAfterBelow(t, [k[0]], c, k[1..]);
    if |k| > 1 {
      PartAfterBelow(t, [k[0]], c, k[1..|k| - 1]);
      assert k[..|k| - 1] == [k[0]] + k[1..|k| - 1];
      assert k[1..][..|k[1..]| - 1] == k[1..|k| - 1];
    }
  }

  /** Keys of one length, such as the digests the committer uses, are never ambiguous. */
  lemma SameLengthUnambiguous(t: Tree, k: HexKey)
    requires WellFormed(t)
    requires forall a :: Find(t, a).Some? ==> |a| == |k|
    ensures !Ambiguous(Keys(t), k)
  {
    assert forall a :: a in Keys(t) && k <= a ==> a == k;
  }
}
