/** What a Merkle root and a proof commit to, as long as the digest does not collide on the strings it is used on. */
module MerkleBinding {
  import opened Basics
  import opened MerkleTree

  ghost predicate NoCollisions(h: Digest, strings: set<Bytes>) {
    forall s, t :: s in strings && t in strings && h(s) == h(t) ==> s == t
  }

  /** Every digest has `d` bytes. */
  ghost predicate Sized(h: Digest, d: nat) {
    d > 0 && forall s :: |h(s)| == d
  }

  /** A hash that is not the digest of one of the strings. */
  ghost predicate Apart(h: Digest, strings: set<Bytes>, x: Bytes) {
    forall s :: s in strings ==> x != h(s)
  }

  /** Hashes of `d` bytes none of which is the digest of one of the strings. */
  ghost predicate LeavesApart(h: Digest, strings: set<Bytes>, leaves: seq<Bytes>, d: nat) {
    forall i :: 0 <= i < |leaves| ==> |leaves[i]| == d && Apart(h, strings, leaves[i])
  }

  lemma SameParts(a: Bytes, b: Bytes, x: Bytes, y: Bytes)
    requires |a| == |x| && a + b == x + y
    ensures a == x && b == y
  {
    assert a == (a + b)[..|a|] && x == (x + y)[..|a|];
    assert b == (a + b)[|a|..] && y == (x + y)[|a|..];
  }

  /** What is digested for a pair of hashes. */
  ghost function Ordered(a: Bytes, b: Bytes): Bytes { if Less(a, b) then a + b else b + a }

  lemma OrderedTells(a: Bytes, b: Bytes, x: Bytes, y: Bytes)
    requires |a| == |b| == |x| == |y| && Ordered(a, b) == Ordered(x, y)
    ensures (a == x && b == y) || (a == y && b == x)
  {
    if Less(a, b) {
      if Less(x, y) { SameParts(a, b, x, y); } else { SameParts(a, b, y, x); }
    } else {
      if Less(x, y) { SameParts(b, a, x, y); } else { SameParts(b, a, y, x); }
    }
  }

  lemma CombineIsDigest(h: Digest, a: Bytes, b: Bytes)
    requires a != [] && b != []
    ensures ConcatenateHashes(h, a, b) == h(Ordered(a, b))
  {
  }

  /** Two pairs have the same combination exactly when they are the same pair, in either order. */
  lemma CombineExact(h: Digest, a: Bytes, b: Bytes, x: Bytes, y: Bytes)
    requires |a| == |b| == |x| == |y| > 0
    requires h(Ordered(a, b)) == h(Ordered(x, y)) ==> Ordered(a, b) == Ordered(x, y)
    ensures ConcatenateHashes(h, a, b) == ConcatenateHashes(h, x, y) <==> multiset{a, b} == multiset{x, y}
    ensures ConcatenateHashes(h, a, b) == ConcatenateHashes(h, x, y) ==> (a == x && b == y) || (a == y && b == x)
  {
    CombineIsDigest(h, a, b);
    CombineIsDigest(h, x, y);
    if Ordered(a, b) == Ordered(x, y) {
      OrderedTells(a, b, x, y);
    }
    if multiset{a, b} == multiset{x, y} {
      SamePair(a, b, x, y);
      ConcatenateCommutes(h, a, b);
    }
  }

  lemma SamePair(a: Bytes, b: Bytes, x: Bytes, y: Bytes)
    requires multiset{a, b} == multiset{x, y}
    ensures (a == x && b == y) || (a == y && b == x)
  {
    assert a in multiset{x, y} && x in multiset{a, b};
    if a == x {
      assert multiset{a, b} - multiset{a} == multiset{b} && multiset{x, y} - multiset{x} == multiset{y};
      assert b in multiset{y};
    } else {
      assert a == y && x == b;
    }
  }

  // ----- Trees -----

  ghost function Leaves(n: Node): multiset<Bytes> {
    match n
    case Leaf(hash, _, _) => multiset{hash}
    case Inner(l, r, _, _, _) => Leaves(l) + if r.None? then multiset{} else Leaves(r.value)
  }

  ghost predicate Holds(n: Node, x: Bytes) {
    || n.hash == x
    || (n.Inner? && (Holds(n.left, x) || (n.right.Some? && Holds(n.right.value, x))))
  }

  /** A digest of two hashes put together. */
  ghost predicate Pair(h: Digest, hash: Bytes, a: Bytes, b: Bytes, strings: set<Bytes>) {
    exists s :: s in strings && hash == h(s) && s == Ordered(a, b)
  }

  /** The hashes of the pairs come from digesting some of the strings, and those of the leaves do not. */
  ghost predicate Clean(h: Digest, n: Node, strings: set<Bytes>, d: nat) {
    && |n.hash| == d
    && match n
       case Leaf(hash, _, _) => Apart(h, strings, hash)
       case Inner(l, r, hash, _, _) =>
         && Clean(h, l, strings, d)
         && if r.None? then hash == l.hash
            else
              && Clean(h, r.value, strings, d)
              && Pair(h, hash, l.hash, r.value.hash, strings)
  }

  lemma PairBinds(h: Digest, hash: Bytes, a: Bytes, b: Bytes, x: Bytes, y: Bytes, strings: set<Bytes>)
    requires |a| == |b| == |x| == |y| && NoCollisions(h, strings)
    requires Pair(h, hash, a, b, strings) && Pair(h, hash, x, y, strings)
    ensures (a == x && b == y) || (a == y && b == x)
  {
    OrderedTells(a, b, x, y);
  }

  /** Trees with the same hash have the same leaves. */
  lemma {:induction false} TreeBinds(h: Digest, s: Node, t: Node, strings: set<Bytes>, d: nat)
    requires Clean(h, s, strings, d) && Clean(h, t, strings, d) && NoCollisions(h, strings) && s.hash == t.hash
    ensures Leaves(s) == Leaves(t)
    decreases s, t
  {
    if s.Inner? && s.right.None? {
      TreeBinds(h, s.left, t, strings, d);
    } else if t.Inner? && t.right.None? {
      TreeBinds(h, s, t.left, strings, d);
    } else if s.Inner? && t.Inner? {
      var a, b, x, y := s.left, s.right.value, t.left, t.right.value;
      PairBinds(h, s.hash, a.hash, b.hash, x.hash, y.hash, strings);
      if a.hash == x.hash && b.hash == y.hash {
        TreeBinds(h, a, x, strings, d);
        TreeBinds(h, b, y, strings, d);
      } else {
        TreeBinds(h, a, y, strings, d);
        TreeBinds(h, b, x, strings, d);
      }
      SamePairLeaves(s, t);
    } else {
      assert s.Leaf? && t.Leaf? by { LeafNotPair(h, s, t, strings, d); }
    }
  }

  lemma SamePairLeaves(s: Node, t: Node)
    requires s.Inner? && t.Inner? && s.right.Some? && t.right.Some?
    requires
      || (Leaves(s.left) == Leaves(t.left) && Leaves(s.right.value) == Leaves(t.right.value))
      || (Leaves(s.left) == Leaves(t.right.value) && Leaves(s.right.value) == Leaves(t.left))
    ensures Leaves(s) == Leaves(t)
  {
  }

  lemma LeafNotPair(h: Digest, s: Node, t: Node, strings: set<Bytes>, d: nat)
    requires Clean(h, s, strings, d) && Clean(h, t, strings, d) && s.hash == t.hash
    requires (s.Inner? ==> s.right.Some?) && (t.Inner? ==> t.right.Some?)
    ensures s.Leaf? <==> t.Leaf?
  {
  }

  // ----- Levels -----

  /** The strings digested for the pairs of one level. */
  ghost function LevelStrings(hs: seq<Bytes>): set<Bytes> {
    if |hs| < 2 then {} else {Ordered(hs[0], hs[1])} + LevelStrings(hs[2..])
  }

  /** The strings digested on the way to the root. */
  ghost function RootStrings(h: Digest, hs: seq<Bytes>): set<Bytes>
    decreases |hs|
  {
    if |hs| < 2 then {} else LevelStrings(hs) + RootStrings(h, NextLevel(h, hs))
  }

  /** A hash of some level, from the leaves to the root. */
  ghost predicate AtSomeLevel(h: Digest, hs: seq<Bytes>, x: Bytes)
    decreases |hs|
  {
    x in hs || (|hs| > 1 && AtSomeLevel(h, NextLevel(h, hs), x))
  }

  ghost predicate AllClean(h: Digest, nodes: seq<Node>, strings: set<Bytes>, d: nat) {
    forall i :: 0 <= i < |nodes| ==> Clean(h, nodes[i], strings, d)
  }

  ghost function AllLeaves(nodes: seq<Node>): multiset<Bytes> {
    if nodes == [] then multiset{} else Leaves(nodes[0]) + AllLeaves(nodes[1..])
  }

  ghost predicate AnyHolds(nodes: seq<Node>, x: Bytes) {
    exists i :: 0 <= i < |nodes| && Holds(nodes[i], x)
  }

  lemma ParentIsClean(h: Digest, l: Node, r: Node, strings: set<Bytes>, d: nat)
    requires Sized(h, d) && Clean(h, l, strings, d) && Clean(h, r, strings, d) && Ordered(l.hash, r.hash) in strings
    ensures Clean(h, Parent(h, l, Some(r)), strings, d)
  {
    CombineIsDigest(h, l.hash, r.hash);
  }

  lemma {:induction false} LevelIsClean(h: Digest, nodes: seq<Node>, strings: set<Bytes>, d: nat)
    requires Sized(h, d) && AllClean(h, nodes, strings, d) && LevelStrings(Hashes(nodes)) <= strings
    ensures AllClean(h, ParentLevel(h, nodes), strings, d)
    decreases |nodes|
  {
    if |nodes| >= 2 {
      assert Hashes(nodes)[2..] == Hashes(nodes[2..]);
      ParentIsClean(h, nodes[0], nodes[1], strings, d);
      LevelIsClean(h, nodes[2..], strings, d);
    }
  }

  lemma {:induction false} LevelLeaves(h: Digest, nodes: seq<Node>)
    ensures AllLeaves(ParentLevel(h, nodes)) == AllLeaves(nodes)
    decreases |nodes|
  {
    if |nodes| >= 2 {
      var p := Parent(h, nodes[0], Some(nodes[1]));
      assert nodes[1..][0] == nodes[1] && nodes[1..][1..] == nodes[2..];
      assert ParentLevel(h, nodes)[1..] == ParentLevel(h, nodes[2..]);
      LevelLeaves(h, nodes[2..]);
      assert Leaves(p) == Leaves(nodes[0]) + Leaves(nodes[1]);
    } else if |nodes| == 1 {
      assert Leaves(Parent(h, nodes[0], None)) == Leaves(nodes[0]);
    }
  }

  lemma {:induction false} LevelHolds(h: Digest, nodes: seq<Node>, x: Bytes, i: nat)
    requires i < |ParentLevel(h, nodes)| && Holds(ParentLevel(h, nodes)[i], x)
    ensures AnyHolds(nodes, x) || ParentLevel(h, nodes)[i].hash == x
    decreases |nodes|
  {
    if i > 0 {
      LevelHolds(h, nodes[2..], x, i - 1);
      if AnyHolds(nodes[2..], x) { LaterHolds(nodes, x); }
    } else {
      FirstHolds(h, nodes, x);
    }
  }

  lemma FirstHolds(h: Digest, nodes: seq<Node>, x: Bytes)
    requires nodes != [] && Holds(ParentLevel(h, nodes)[0], x)
    ensures AnyHolds(nodes, x) || ParentLevel(h, nodes)[0].hash == x
  {
    assert Holds(nodes[0], x) || ParentLevel(h, nodes)[0].hash == x || (|nodes| > 1 && Holds(nodes[1], x));
  }

  lemma LaterHolds(nodes: seq<Node>, x: Bytes)
    requires |nodes| >= 2 && AnyHolds(nodes[2..], x)
    ensures AnyHolds(nodes, x)
  {
    var j :| 0 <= j < |nodes| - 2 && Holds(nodes[2..][j], x);
    assert Holds(nodes[j + 2], x);
  }

  lemma AnyLevelHolds(h: Digest, nodes: seq<Node>, x: Bytes)
    requires AnyHolds(ParentLevel(h, nodes), x)
    ensures AnyHolds(nodes, x) || x in Hashes(ParentLevel(h, nodes))
  {
    var up := ParentLevel(h, nodes);
    var i :| 0 <= i < |up| && Holds(up[i], x);
    LevelHolds(h, nodes, x, i);
    assert Hashes(up)[i] == up[i].hash;
  }

  /** Building levels up to a single node gives a tree with the root hash and the same leaves. */
  lemma {:induction false} LevelTree(h: Digest, nodes: seq<Node>, strings: set<Bytes>, d: nat, x: Bytes)
    returns (root: Node)
    requires nodes != [] && Sized(h, d) && AllClean(h, nodes, strings, d)
    requires RootStrings(h, Hashes(nodes)) <= strings
    ensures Clean(h, root, strings, d) && root.hash == MerkleRoot(h, Hashes(nodes))
    ensures Leaves(root) == AllLeaves(nodes)
    ensures Holds(root, x) ==> AnyHolds(nodes, x) || AtSomeLevel(h, Hashes(nodes), x)
    decreases |nodes|
  {
    if |nodes| == 1 {
      root := nodes[0];
    } else {
      LevelIsClean(h, nodes, strings, d);
      LevelLeaves(h, nodes);
      ParentLevelHashes(h, nodes);
      root := LevelTree(h, ParentLevel(h, nodes), strings, d, x);
      if AnyHolds(ParentLevel(h, nodes), x) { AnyLevelHolds(h, nodes, x); }
    }
  }

  ghost function LeafNodes(hs: seq<Bytes>): (nodes: seq<Node>)
    ensures |nodes| == |hs| && forall i :: 0 <= i < |hs| ==> nodes[i] == Leaf(hs[i], i, i)
  {
    seq(|hs|, i requires 0 <= i < |hs| => Leaf(hs[i], i, i))
  }

  lemma {:induction false} LeavesCounted(nodes: seq<Node>, hs: seq<Bytes>)
    requires |nodes| == |hs| && forall i :: 0 <= i < |hs| ==> nodes[i].Leaf? && nodes[i].hash == hs[i]
    ensures AllLeaves(nodes) == multiset(hs)
  {
    if hs != [] {
      LeavesCounted(nodes[1..], hs[1..]);
      assert hs == [hs[0]] + hs[1..];
    }
  }

  /** The tree over a list of leaves. */
  lemma ListTree(h: Digest, hs: seq<Bytes>, strings: set<Bytes>, d: nat, x: Bytes) returns (root: Node)
    requires hs != [] && Sized(h, d) && LeavesApart(h, strings, hs, d) && RootStrings(h, hs) <= strings
    ensures Clean(h, root, strings, d) && root.hash == MerkleRoot(h, hs) && Leaves(root) == multiset(hs)
    ensures Holds(root, x) ==> AtSomeLevel(h, hs, x)
  {
    var nodes := LeafNodes(hs);
    LeavesCounted(nodes, hs);
    assert Hashes(nodes) == hs;
    root := LevelTree(h, nodes, strings, d, x);
    if AnyHolds(nodes, x) {
      var i :| 0 <= i < |nodes| && Holds(nodes[i], x);
      assert hs[i] == x;
    }
  }

  /** Lists of leaves with the same root hold the same leaves, each as often. */
  lemma RootBinds(h: Digest, hs: seq<Bytes>, ks: seq<Bytes>, strings: set<Bytes>, d: nat)
    requires hs != [] && ks != [] && Sized(h, d)
    requires RootStrings(h, hs) <= strings && RootStrings(h, ks) <= strings && NoCollisions(h, strings)
    requires LeavesApart(h, strings, hs, d) && LeavesApart(h, strings, ks, d)
    requires MerkleRoot(h, hs) == MerkleRoot(h, ks)
    ensures multiset(hs) == multiset(ks)
  {
    var s := ListTree(h, hs, strings, d, []);
    var t := ListTree(h, ks, strings, d, []);
    TreeBinds(h, s, t, strings, d);
  }

  // ----- Proofs -----

  /** The strings digested when a proof is folded. */
  ghost function FoldStrings(h: Digest, proof: seq<Bytes>): set<Bytes>
    requires proof != []
  {
    if |proof| == 1 then {}
    else
      var below, last := proof[..|proof| - 1], proof[|proof| - 1];
      FoldStrings(h, below) + {Ordered(Fold(h, below), last)}
  }

  ghost predicate AllSized(proof: seq<Bytes>, d: nat) {
    forall i :: 0 <= i < |proof| ==> |proof[i]| == d
  }

  lemma {:induction false} FoldSized(h: Digest, proof: seq<Bytes>, d: nat)
    requires proof != [] && Sized(h, d) && AllSized(proof, d)
    ensures |Fold(h, proof)| == d
  {
    if |proof| > 1 {
      FoldSized(h, proof[..|proof| - 1], d);
      CombineIsDigest(h, Fold(h, proof[..|proof| - 1]), proof[|proof| - 1]);
    }
  }

  /** One hash less: the fold of the whole proof is a pair of the fold of the others and the last. */
  lemma FoldStep(h: Digest, proof: seq<Bytes>, below: seq<Bytes>, last: Bytes, strings: set<Bytes>, d: nat)
    requires |proof| > 1 && below == proof[..|proof| - 1] && last == proof[|proof| - 1]
    requires Sized(h, d) && AllSized(proof, d) && FoldStrings(h, proof) <= strings
    ensures AllSized(below, d) && |last| == |Fold(h, below)| == d && FoldStrings(h, below) <= strings
    ensures Pair(h, Fold(h, proof), Fold(h, below), last, strings) && below[0] == proof[0]
  {
    FoldSized(h, below, d);
    CombineIsDigest(h, Fold(h, below), last);
    assert FoldStrings(h, proof) == FoldStrings(h, below) + {Ordered(Fold(h, below), last)};
    assert Ordered(Fold(h, below), last) in strings;
  }

  lemma PairNotLeaf(h: Digest, n: Node, a: Bytes, b: Bytes, strings: set<Bytes>, d: nat)
    requires Clean(h, n, strings, d) && Pair(h, n.hash, a, b, strings)
    ensures n.Inner?
  {
  }

  lemma ChildHolds(n: Node, child: Node, x: Bytes)
    requires n.Inner? && (child == n.left || n.right == Some(child)) && Holds(child, x)
    ensures Holds(n, x)
  {
  }

  /** Of two hashes whose pair has the hash of a node, the first is that of one of its children. */
  lemma ChildOfPair(h: Digest, n: Node, a: Bytes, b: Bytes, strings: set<Bytes>, d: nat) returns (child: Node)
    requires Clean(h, n, strings, d) && n.Inner? && n.right.Some? && NoCollisions(h, strings)
    requires Pair(h, n.hash, a, b, strings) && |a| == |b| == d
    ensures (child == n.left || n.right == Some(child)) && child.hash == a && Clean(h, child, strings, d)
  {
    PairBinds(h, n.hash, n.left.hash, n.right.value.hash, a, b, strings);
    child := if n.left.hash == a then n.left else n.right.value;
  }

  /** A proof that folds to the hash of a tree starts at the hash of one of its nodes. */
  lemma {:induction false} ProofInTree(h: Digest, proof: seq<Bytes>, n: Node, strings: set<Bytes>, d: nat)
    requires proof != [] && Sized(h, d) && AllSized(proof, d)
    requires Clean(h, n, strings, d) && FoldStrings(h, proof) <= strings && NoCollisions(h, strings)
    requires Fold(h, proof) == n.hash
    ensures Holds(n, proof[0])
    decreases n
  {
    if |proof| == 1 {
      assert n.hash == proof[0];
    } else {
      var below, last := proof[..|proof| - 1], proof[|proof| - 1];
      FoldStep(h, proof, below, last, strings, d);
      PairNotLeaf(h, n, Fold(h, below), last, strings, d);
      if n.right.None? {
        ProofInTree(h, proof, n.left, strings, d);
        ChildHolds(n, n.left, proof[0]);
      } else {
        var child := ChildOfPair(h, n, Fold(h, below), last, strings, d);
        ProofInTree(h, below, child, strings, d);
        ChildHolds(n, child, proof[0]);
      }
    }
  }

  lemma {:induction false} ApartIsLeaf(h: Digest, n: Node, strings: set<Bytes>, d: nat, x: Bytes)
    requires Clean(h, n, strings, d) && Holds(n, x) && Apart(h, strings, x)
    ensures x in Leaves(n)
  {
    if n.Inner? {
      if Holds(n.left, x) {
        ApartIsLeaf(h, n.left, strings, d, x);
      } else if n.right.Some? {
        ApartIsLeaf(h, n.right.value, strings, d, x);
      }
    }
  }

  /** A proof that folds to the root starts at a hash of the tree, and at a leaf unless it starts at an inner hash. */
  lemma ProofBinds(h: Digest, hs: seq<Bytes>, proof: seq<Bytes>, strings: set<Bytes>, d: nat)
    requires hs != [] && proof != [] && Sized(h, d) && AllSized(proof, d)
    requires RootStrings(h, hs) <= strings && FoldStrings(h, proof) <= strings && NoCollisions(h, strings)
    requires LeavesApart(h, strings, hs, d) && Fold(h, proof) == MerkleRoot(h, hs)
    ensures AtSomeLevel(h, hs, proof[0])
    ensures Apart(h, strings, proof[0]) ==> proof[0] in hs
  {
    var root := ListTree(h, hs, strings, d, proof[0]);
    ProofInTree(h, proof, root, strings, d);
    if Apart(h, strings, proof[0]) {
      ApartIsLeaf(h, root, strings, d, proof[0]);
      assert proof[0] in multiset(hs);
    }
  }
}
