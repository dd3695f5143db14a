/** Which stored key an insertion displaces, in terms of the stored keys alone. */
module TrieDisplaced {
  import opened Basics
  import opened TrieTree
  import opened TrieCanonical
  import opened TrieLookup

  /** How far two keys run together. */
  function Shared(a: HexKey, b: HexKey): nat { |CommonPrefix(a, b)| }

  /** `q` is stored, `k` is not, and `k` runs along with `q` further than with any other stored key. */
  ghost predicate ClosestBelow(keys: iset<HexKey>, k: HexKey, q: HexKey) {
    k !in keys && q in keys && forall a :: a in keys && a != q ==> Shared(k, a) < Shared(k, q)
  }

  /** For a whole trie, whose root is always a branch, at least one nibble must be shared. */
  ghost predicate Closest(keys: iset<HexKey>, k: HexKey, q: HexKey) {
    ClosestBelow(keys, k, q) && Shared(k, q) > 0
  }

  lemma {:induction false} SharedBelow(p: HexKey, a: HexKey, b: HexKey)
    ensures Shared(p + a, p + b) == |p| + Shared(a, b)
  {
    if p == [] {
      assert p + a == a && p + b == b;
    } else {
      assert (p + a)[1..] == p[1..] + a && (p + b)[1..] == p[1..] + b;
      SharedBelow(p[1..], a, b);
    }
  }

  /** A key that does not start with `p` leaves it before its end. */
  lemma SharedOutside(p: HexKey, k: HexKey, a: HexKey)
    ensures p <= a || Shared(p + k, a) < |p|
  {
    var c := CommonPrefix(p + k, a);
    if |c| >= |p| {
      assert p == (p + k)[..|p|] == c[..|p|] == a[..|p|];
    }
  }

  lemma ClosestGoesDown(t: Tree, p: HexKey, c: Tree, k: HexKey, q: HexKey)
    requires WellFormed(t) && WellFormed(c) && Below(t, p, c) && ClosestBelow(Keys(t), p + k, p + q)
    ensures ClosestBelow(Keys(c), k, q)
  {
    assert Find(t, p + k) == Find(c, k) && Find(t, p + q) == Find(c, q);
    forall a | a in Keys(c) && a != q ensures Shared(k, a) < Shared(k, q) {
      assert Find(t, p + a) == Find(c, a);
      assert (p + a)[|p|..] == a && (p + q)[|p|..] == q;
      assert Shared(p + k, p + a) < Shared(p + k, p + q);
      SharedBelow(p, k, a);
      SharedBelow(p, k, q);
    }
  }

  lemma ClosestGoesUp(t: Tree, p: HexKey, c: Tree, k: HexKey, q: HexKey)
    requires WellFormed(t) && WellFormed(c) && Below(t, p, c) && ClosestBelow(Keys(c), k, q)
    ensures ClosestBelow(Keys(t), p + k, p + q)
  {
    assert Find(t, p + k) == Find(c, k) && Find(t, p + q) == Find(c, q);
    forall a | a in Keys(t) && a != p + q ensures Shared(p + k, a) < Shared(p + k, p + q) {
      SharedBelow(p, k, q);
      if p <= a {
        StaysBelow(t, p, c, a);
        SharedBelow(p, k, a[|p|..]);
      } else {
        SharedOutside(p, k, a);
      }
    }
  }

  lemma StaysBelow(t: Tree, p: HexKey, c: Tree, a: HexKey)
    requires WellFormed(t) && WellFormed(c) && Below(t, p, c) && p <= a && a in Keys(t)
    ensures a == p + a[|p|..] && a[|p|..] in Keys(c)
  {
    assert Find(t, p + a[|p|..]) == Find(c, a[|p|..]);
  }

  /** Below a prefix the question is the same. */
  lemma ClosestDescends(t: Tree, p: HexKey, c: Tree, k: HexKey, q: HexKey)
    requires WellFormed(t) && WellFormed(c) && Below(t, p, c)
    ensures ClosestBelow(Keys(t), p + k, p + q) <==> ClosestBelow(Keys(c), k, q)
  {
    if ClosestBelow(Keys(t), p + k, p + q) { ClosestGoesDown(t, p, c, k, q); }
    if ClosestBelow(Keys(c), k, q) { ClosestGoesUp(t, p, c, k, q); }
  }

  /** With two stored keys that run along with `k` equally far, none is closest. */
  lemma NoneClosest(t: Tree, k: HexKey, a: HexKey, b: HexKey, q: HexKey)
    requires WellFormed(t) && a in Keys(t) && b in Keys(t) && a != b
    requires q in Keys(t) ==> Shared(k, q) <= Shared(k, a) && Shared(k, q) <= Shared(k, b)
    ensures !ClosestBelow(Keys(t), k, q)
  {
    assert q != a || q != b;
  }

  lemma DisplacedInExt(t: Tree, k: HexKey, q: HexKey)
    requires WellFormed(t) && Canonical(t) && t.Ext? && !(t.key <= k)
    ensures !ClosestBelow(Keys(t), k, q)
  {
    var a, b := BranchParts(t.child);
    var key := t.key;
    assert (key + a)[|key|..] == a && (key + b)[|key|..] == b;
    forall c ensures Shared(k, key + c) == Shared(k, key) { SharedInside(k, key, c); }
    if q in Keys(t) { assert q == key + q[|key|..]; }
    NoneClosest(t, k, key + a, key + b, q);
  }

  lemma {:induction false} SharedInside(k: HexKey, key: HexKey, c: HexKey)
    requires !(key <= k)
    ensures Shared(k, key + c) == Shared(k, key)
  {
    assert (key + c)[1..] == key[1..] + c;
    if k != [] && k[0] == key[0] {
      assert key == [key[0]] + key[1..] && k == [k[0]] + k[1..];
      assert key[1..] <= k[1..] ==> key <= k;
      SharedInside(k[1..], key[1..], c);
    }
  }

  /** An insertion splits exactly the leaf of the closest stored key. */
  lemma {:induction false} DisplacedBelow(t: Tree, k: HexKey, q: HexKey)
    requires WellFormed(t) && Canonical(t)
    ensures Displaced(t, k) == Some(q) <==> ClosestBelow(Keys(t), k, q)
    decreases t
  {
    match t
    case Nil =>
    case Leaf(key, _) =>
    case Ext(key, child) =>
      if key <= k {
        if key <= q {
          DisplacedBelow(child, k[|key|..], q[|key|..]);
          BelowExt(key, child);
          ClosestDescends(t, key, child, k[|key|..], q[|key|..]);
          assert k == key + k[|key|..] && q == key + q[|key|..];
        }
      } else {
        DisplacedInExt(t, k, q);
      }
    case Branch(children, entry) =>
      if k != [] && q != [] && k[0] == q[0] {
        DisplacedInChild(t, k, q);
      } else {
        var a, b := BranchParts(t);
        NoneClosest(t, k, a, b, q);
      }
  }

  lemma {:induction false} DisplacedInChild(t: Tree, k: HexKey, q: HexKey)
    requires WellFormed(t) && t.Branch? && k != [] && q != [] && k[0] == q[0] && Canonical(t.children[k[0]])
    ensures Displaced(t, k) == Some(q) <==> ClosestBelow(Keys(t), k, q)
    decreases t, 0
  {
    var i := k[0];
    DisplacedBelow(t.children[i], k[1..], q[1..]);
    BelowBranch(t, i);
    ClosestDescends(t, [i], t.children[i], k[1..], q[1..]);
    assert k == [i] + k[1..] && q == [i] + q[1..];
  }

  /** The same for a trie: at least one nibble must be shared, because its root is a branch with or without keys. */
  lemma DisplacedExact(t: Tree, k: HexKey, q: HexKey)
    requires CanonicalRoot(t) && k != []
    ensures Displaced(t, k) == Some(q) <==> Closest(Keys(t), k, q)
  {
    if q != [] && k[0] == q[0] {
      DisplacedInChild(t, k, q);
    }
  }
}
