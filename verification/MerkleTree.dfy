/** The transaction Merkle tree of a block and its inclusion proofs. */
module MerkleTree {
  import opened Basics

  function ConcatenateHashes(h: Digest, h1: Bytes, h2: Bytes): Bytes {
    if h1 == [] then h2
    else if h2 == [] then h1
    else if Less(h1, h2) then h(h1 + h2) else h(h2 + h1)
  }

  lemma ConcatenateCommutes(h: Digest, a: Bytes, b: Bytes)
    ensures ConcatenateHashes(h, a, b) == ConcatenateHashes(h, b, a)
  {
    LessIsTotal(a, b);
  }

  /** The next level up: neighbours are paired, a last one without a neighbour moves up alone. */
  function NextLevel(h: Digest, hs: seq<Bytes>): (up: seq<Bytes>)
    ensures |up| == (|hs| + 1) / 2
  {
    if hs == [] then []
    else if |hs| == 1 then [ConcatenateHashes(h, hs[0], [])]
    else [ConcatenateHashes(h, hs[0], hs[1])] + NextLevel(h, hs[2..])
  }

  /** The root hash, level by level, without any tree. */
  function MerkleRoot(h: Digest, hs: seq<Bytes>): Bytes
    requires hs != []
    decreases |hs|
  {
    if |hs| == 1 then hs[0] else MerkleRoot(h, NextLevel(h, hs))
  }

  /** What a client computes from a proof. */
  function Fold(h: Digest, proof: seq<Bytes>): Bytes
    requires proof != []
  {
    if |proof| == 1 then proof[0]
    else ConcatenateHashes(h, Fold(h, proof[..|proof| - 1]), proof[|proof| - 1])
  }

  /** A node with the range of leaf indices below it; an inner node may have no right child. */
  datatype Node =
    | Leaf(hash: Bytes, startIndex: nat, endIndex: nat)
    | Inner(left: Node, right: Option<Node>, hash: Bytes, startIndex: nat, endIndex: nat)

  function Parent(h: Digest, l: Node, r: Option<Node>): Node {
    Inner(l, r, ConcatenateHashes(h, l.hash, if r.None? then [] else r.value.hash),
          l.startIndex, if r.None? then l.endIndex else r.value.endIndex)
  }

  /** A tree over the leaves `startIndex..endIndex`. */
  ghost predicate Over(h: Digest, n: Node, leaves: seq<Bytes>) {
    && n.startIndex <= n.endIndex < |leaves|
    && match n
       case Leaf(hash, s, e) => s == e && hash == leaves[s]
       case Inner(l, r, _, _, _) =>
         && Over(h, l, leaves) && n == Parent(h, l, r)
         && (r.Some? ==> Over(h, r.value, leaves) && r.value.startIndex == l.endIndex + 1)
  }

  function Hashes(nodes: seq<Node>): (hs: seq<Bytes>)
    ensures |hs| == |nodes| && forall i :: 0 <= i < |nodes| ==> hs[i] == nodes[i].hash
  {
    seq(|nodes|, i requires 0 <= i < |nodes| => nodes[i].hash)
  }

  /** The nodes of one level, left to right, cover the leaves from `from` on without gaps. */
  ghost predicate Covers(h: Digest, nodes: seq<Node>, leaves: seq<Bytes>, from: nat) {
    if nodes == [] then from == |leaves|
    else
      && Over(h, nodes[0], leaves) && nodes[0].startIndex == from
      && Covers(h, nodes[1..], leaves, nodes[0].endIndex + 1)
  }

  /** One level of parents, as a function. */
  function ParentLevel(h: Digest, src: seq<Node>): (dst: seq<Node>)
    ensures |dst| == (|src| + 1) / 2
  {
    if src == [] then []
    else if |src| == 1 then [Parent(h, src[0], None)]
    else [Parent(h, src[0], Some(src[1]))] + ParentLevel(h, src[2..])
  }

  lemma ParentIsOver(h: Digest, l: Node, r: Option<Node>, leaves: seq<Bytes>)
    requires Over(h, l, leaves)
    requires r.Some? ==> Over(h, r.value, leaves) && r.value.startIndex == l.endIndex + 1
    ensures Over(h, Parent(h, l, r), leaves)
  {}

  lemma CoversCons(h: Digest, n: Node, rest: seq<Node>, leaves: seq<Bytes>)
    requires Over(h, n, leaves) && Covers(h, rest, leaves, n.endIndex + 1)
    ensures Covers(h, [n] + rest, leaves, n.startIndex)
  {
    assert ([n] + rest)[1..] == rest;
  }

  lemma CoversTwo(h: Digest, src: seq<Node>, leaves: seq<Bytes>, from: nat)
    requires |src| >= 2 && Covers(h, src, leaves, from)
    ensures Over(h, src[0], leaves) && Over(h, src[1], leaves) && src[0].startIndex == from
    ensures src[1].startIndex == src[0].endIndex + 1 && Covers(h, src[2..], leaves, src[1].endIndex + 1)
  {
    assert src[1..][0] == src[1] && src[1..][1..] == src[2..];
  }

  lemma {:induction false} ParentLevelCovers(h: Digest, src: seq<Node>, leaves: seq<Bytes>, from: nat)
    requires Covers(h, src, leaves, from)
    ensures Covers(h, ParentLevel(h, src), leaves, from)
    decreases |src|
  {
    if |src| >= 2 {
      CoversTwo(h, src, leaves, from);
      ParentLevelCovers(h, src[2..], leaves, src[1].endIndex + 1);
      ParentIsOver(h, src[0], Some(src[1]), leaves);
      CoversCons(h, Parent(h, src[0], Some(src[1])), ParentLevel(h, src[2..]), leaves);
    } else if |src| == 1 {
      ParentIsOver(h, src[0], None, leaves);
      assert src[1..] == [];
      CoversCons(h, Parent(h, src[0], None), [], leaves);
      assert [Parent(h, src[0], None)] + [] == ParentLevel(h, src);
    }
  }

  lemma HashesCons(n: Node, rest: seq<Node>)
    ensures Hashes([n] + rest) == [n.hash] + Hashes(rest)
  {
  }

  lemma {:induction false} ParentLevelHashes(h: Digest, src: seq<Node>)
    ensures Hashes(ParentLevel(h, src)) == NextLevel(h, Hashes(src))
    decreases |src|
  {
    if |src| >= 2 {
      ParentLevelHashes(h, src[2..]);
      assert Hashes(src)[2..] == Hashes(src[2..]);
      HashesCons(Parent(h, src[0], Some(src[1])), ParentLevel(h, src[2..]));
    } else if |src| == 1 {
      HashesCons(Parent(h, src[0], None), []);
      assert [Parent(h, src[0], None)] + [] == [Parent(h, src[0], None)];
    }
  }

  method MakeParents(h: Digest, srcNodes: seq<Node>) returns (dstNodes: seq<Node>)
    ensures dstNodes == ParentLevel(h, srcNodes)
  {
    dstNodes := [];
    var i := 0;
    while i < |srcNodes|
      invariant i <= |srcNodes| + 1
      invariant
        dstNodes + ParentLevel(h, srcNodes[if i <= |srcNodes| then i else |srcNodes|..]) == ParentLevel(h, srcNodes)
    {
      var right := if i + 1 < |srcNodes| then Some(srcNodes[i + 1]) else None;
      var n := Parent(h, srcNodes[i], right);
      ParentLevelStep(h, srcNodes, i);
      dstNodes := dstNodes + [n];
      i := i + 2;
    }
  }

  /** Levels are built until a single node is left. */
  method BuildNextTreeLevel(h: Digest, srcNodes: seq<Node>, ghost leaves: seq<Bytes>) returns (root: Option<Node>)
    requires Covers(h, srcNodes, leaves, 0)
    ensures root.None? <==> srcNodes == []
    ensures root.Some? ==> RootOver(h, root.value, leaves) && root.value.hash == MerkleRoot(h, Hashes(srcNodes))
    decreases |srcNodes|
  {
    var dstNodes := MakeParents(h, srcNodes);
    ParentLevelCovers(h, srcNodes, leaves, 0);
    ParentLevelHashes(h, srcNodes);
    if |dstNodes| == 1 {
      assert dstNodes[1..] == [];
      return Some(dstNodes[0]);
    }
    if |dstNodes| == 0 {
      return None;
    }
    root := BuildNextTreeLevel(h, dstNodes, leaves);
  }

  ghost predicate RootOver(h: Digest, root: Node, leaves: seq<Bytes>) {
    Over(h, root, leaves) && root.startIndex == 0 && root.endIndex == |leaves| - 1
  }

  lemma ParentLevelStep(h: Digest, src: seq<Node>, i: nat)
    requires i < |src|
    ensures i + 1 < |src| ==>
      ParentLevel(h, src[i..]) == [Parent(h, src[i], Some(src[i + 1]))] + ParentLevel(h, src[i + 2..])
    ensures i + 1 == |src| ==> ParentLevel(h, src[i..]) == [Parent(h, src[i], None)]
  {
    if i + 1 < |src| { assert src[i..][2..] == src[i + 2..]; }
  }

  lemma {:induction false} LeavesCover(h: Digest, nodes: seq<Node>, leaves: seq<Bytes>, from: nat)
    requires |nodes| + from == |leaves|
    requires forall i :: 0 <= i < |nodes| ==> nodes[i] == Leaf(leaves[from + i], from + i, from + i)
    ensures Covers(h, nodes, leaves, from)
  {
    if nodes != [] { LeavesCover(h, nodes[1..], leaves, from + 1); }
  }

  method PrepareAndBuildTree(h: Digest, hashes: seq<Bytes>) returns (root: Option<Node>)
    ensures root.None? <==> hashes == []
    ensures root.Some? ==> RootOver(h, root.value, hashes) && root.value.hash == MerkleRoot(h, hashes)
  {
    var srcNodes: seq<Node> := [];
    for i := 0 to |hashes|
      invariant |srcNodes| == i && forall j :: 0 <= j < i ==> srcNodes[j] == Leaf(hashes[j], j, j)
    {
      srcNodes := srcNodes + [Leaf(hashes[i], i, i)];
    }
    LeavesCover(h, srcNodes, hashes, 0);
    assert Hashes(srcNodes) == hashes;
    root := BuildNextTreeLevel(h, srcNodes, hashes);
  }

  /** The nodes from the leaf with the given index up to `n`, or `None` for an index out of range. */
  function FindPath(n: Node, leafIndex: int): Option<seq<Node>> {
    if n.Leaf? then
      if n.endIndex == n.startIndex && n.endIndex == leafIndex then Some([n]) else None
    else if n.startIndex > leafIndex || n.endIndex < leafIndex then None
    else
      var sub := if n.left.endIndex >= leafIndex then FindPath(n.left, leafIndex)
                 else if n.right.None? then None
                 else FindPath(n.right.value, leafIndex);
      if sub.None? then None else Some(sub.value + [n])
  }

  /** The other child of the parent, if there is one. */
  function Sibling(parent: Node, n: Node): Option<Node>
    requires parent.Inner?
  {
    if n == parent.left then parent.right else Some(parent.left)
  }

  /** A path leads from each node to its parent. */
  ghost predicate Upward(path: seq<Node>) {
    forall i :: 0 < i < |path| ==> path[i].Inner? && (path[i - 1] == path[i].left || path[i].right == Some(path[i - 1]))
  }

  /** The leaf hash, then the hash of every sibling on the way up that exists. */
  function ProofFrom(path: seq<Node>): (proof: seq<Bytes>)
    requires path != [] && forall i :: 0 < i < |path| ==> path[i].Inner?
    ensures proof != []
  {
    if |path| == 1 then [path[0].hash]
    else
      var below := ProofFrom(path[..|path| - 1]);
      var s := Sibling(path[|path| - 1], path[|path| - 2]);
      if s.None? then below else below + [s.value.hash]
  }

  method ComputeProofFromPath(path: seq<Node>) returns (proof: seq<Bytes>)
    requires path != [] && forall i :: 0 < i < |path| ==> path[i].Inner?
    ensures proof == ProofFrom(path)
  {
    proof := [path[0].hash];
    for i := 0 to |path| - 1
      invariant proof == ProofFrom(path[..i + 1])
    {
      var sibling := Sibling(path[i + 1], path[i]);
      assert path[..i + 2][..i + 1] == path[..i + 1];
      if sibling.Some? {
        proof := proof + [sibling.value.hash];
      }
    }
    assert path[..|path|] == path;
  }

  /** The path exists exactly for the indices in range; folding its proof gives the hash of its top node. */
  lemma {:induction false} PathFolds(h: Digest, n: Node, leaves: seq<Bytes>, leafIndex: int)
    requires Over(h, n, leaves)
    ensures FindPath(n, leafIndex).Some? <==> n.startIndex <= leafIndex <= n.endIndex
    ensures FindPath(n, leafIndex).Some? ==>
      var path := FindPath(n, leafIndex).value;
      && path != [] && path[|path| - 1] == n && Upward(path)
      && path[0] == Leaf(leaves[leafIndex], leafIndex, leafIndex)
      && Fold(h, ProofFrom(path)) == n.hash && ProofFrom(path)[0] == leaves[leafIndex]
    decreases n
  {
    if n.Inner? && n.startIndex <= leafIndex <= n.endIndex {
      var child := if n.left.endIndex >= leafIndex then n.left else n.right.value;
      PathFolds(h, child, leaves, leafIndex);
      var sub := FindPath(child, leafIndex).value;
      ExtendUpward(sub, n);
      ExtendProof(h, sub, n, child);
    }
  }

  lemma ExtendUpward(sub: seq<Node>, n: Node)
    requires sub != [] && Upward(sub) && n.Inner? && (sub[|sub| - 1] == n.left || n.right == Some(sub[|sub| - 1]))
    ensures Upward(sub + [n])
  {}

  lemma FoldSnoc(h: Digest, proof: seq<Bytes>, x: Bytes)
    requires proof != []
    ensures Fold(h, proof + [x]) == ConcatenateHashes(h, Fold(h, proof), x)
  {
    assert (proof + [x])[..|proof + [x]| - 1] == proof;
  }

  lemma ProofSnoc(sub: seq<Node>, n: Node)
    requires sub != [] && n.Inner? && forall i :: 0 < i < |sub| ==> sub[i].Inner?
    ensures var s := Sibling(n, sub[|sub| - 1]);
      ProofFrom(sub + [n]) == if s.None? then ProofFrom(sub) else ProofFrom(sub) + [s.value.hash]
  {
    assert (sub + [n])[..|sub + [n]| - 1] == sub;
  }

  lemma SiblingHash(h: Digest, n: Node, child: Node)
    requires n.Inner? && (child == n.left || n.right == Some(child)) && n == Parent(h, n.left, n.right)
    ensures var s := Sibling(n, child);
      n.hash == ConcatenateHashes(h, child.hash, if s.None? then [] else s.value.hash)
  {
    ConcatenateCommutes(h, n.left.hash, child.hash);
  }

  lemma ExtendProof(h: Digest, sub: seq<Node>, n: Node, child: Node)
    requires sub != [] && sub[|sub| - 1] == child && n.Inner? && Upward(sub) && Upward(sub + [n])
    requires child == n.left || n.right == Some(child)
    requires n == Parent(h, n.left, n.right) && Fold(h, ProofFrom(sub)) == child.hash
    ensures Fold(h, ProofFrom(sub + [n])) == n.hash && ProofFrom(sub + [n])[0] == ProofFrom(sub)[0]
  {
    var s := Sibling(n, child);
    ProofSnoc(sub, n);
    SiblingHash(h, n, child);
    if s.Some? { FoldSnoc(h, ProofFrom(sub), s.value.hash); }
  }

  datatype ProofResult = NilTree | NotFound | Proof(hashes: seq<Bytes>)

  method MakeProof(h: Digest, root: Option<Node>, leafIndex: int, ghost leaves: seq<Bytes>) returns (r: ProofResult)
    requires root.Some? ==> Over(h, root.value, leaves)
    ensures root.None? ==> r == NilTree
    ensures root.Some? ==> (r.Proof? <==> root.value.startIndex <= leafIndex <= root.value.endIndex) && r != NilTree
    ensures r.Proof? ==> r.hashes != [] && r.hashes[0] == leaves[leafIndex] && Fold(h, r.hashes) == root.value.hash
  {
    if root.None? {
      return NilTree;
    }
    PathFolds(h, root.value, leaves, leafIndex);
    var path := FindPath(root.value, leafIndex);
    if path.None? {
      return NotFound;
    }
    var hashes := ComputeProofFromPath(path.value);
    r := Proof(hashes);
  }

  /** For every block and index: a proof that folds to the root exactly when the index is in range. */
  method ProofOfTransaction(h: Digest, hashes: seq<Bytes>, leafIndex: int) returns (r: ProofResult)
    ensures hashes == [] ==> r == NilTree
    ensures hashes != [] ==> if 0 <= leafIndex < |hashes| then r.Proof? else r == NotFound
    ensures r.Proof? ==> 0 <= leafIndex < |hashes| && r.hashes != [] && r.hashes[0] == hashes[leafIndex]
    ensures r.Proof? ==> Fold(h, r.hashes) == MerkleRoot(h, hashes)
  {
    var root := PrepareAndBuildTree(h, hashes);
    r := MakeProof(h, root, leafIndex, hashes);
  }
}
