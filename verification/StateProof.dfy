/** Existence proofs: the path a trie hands out, and the client-side check of it. */
module StateProof {
  import opened Basics
  import opened TrieTree
  import opened TrieNodes
  import opened TrieLookup
  import opened MPTrie
  import opened TrieRuns
  import opened TrieCanonical

  type ProofPath = seq<seq<Bytes>>

  /** The hash reached by climbing the path from `hash`, if each hash occurs in the next element. */
  function Climb(h: Digest, path: ProofPath, hash: Bytes): Option<Bytes> {
    if path == [] then Some(hash)
    else if hash in path[0] then Climb(h, path[1..], CalcHash(h, path[0]))
    else None
  }

  predicate Accepts(h: Digest, path: ProofPath, valueHash: Bytes, rootHash: Bytes, isDeleted: bool) {
    path != [] && (isDeleted ==> DELETE_MARKER in path[0]) && Climb(h, path, valueHash) == Some(rootHash)
  }

  method Contains(hashes: seq<Bytes>, hash: Bytes) returns (found: bool)
    ensures found == (hash in hashes)
  {
    found := false;
    for i := 0 to |hashes|
      invariant found == (hash in hashes[..i])
    {
      if hashes[i] == hash {
        return true;
      }
    }
    assert hashes[..|hashes|] == hashes;
  }

  /** `Proof.Verify`; the empty path is an error. */
  method Verify(h: Digest, path: ProofPath, valueHash: Bytes, rootHash: Bytes, isDeleted: bool)
    returns (r: Option<bool>)
    ensures r == if path == [] then None else Some(Accepts(h, path, valueHash, rootHash, isDeleted))
  {
    if |path| == 0 {
      return None;
    }
    if isDeleted {
      var isDeleteFound := Contains(path[0], DELETE_MARKER);
      if !isDeleteFound {
        return Some(false);
      }
    }
    var hashToFind := valueHash;
    for i := 0 to |path|
      invariant Climb(h, path, valueHash) == Climb(h, path[i..], hashToFind)
    {
      var isHashFound := Contains(path[i], hashToFind);
      if !isHashFound {
        return Some(false);
      }
      assert path[i..][1..] == path[i + 1..];
      hashToFind := CalcHash(h, path[i]);
    }
    r := Some(rootHash == hashToFind);
  }

  /** The proof of a path of nodes, from its last node to the root. */
  function ProofOf(path: seq<Node>): ProofPath {
    if path == [] then [] else [NodeBytes(path[|path| - 1])] + ProofOf(path[..|path| - 1])
  }

  /** A linked path climbs from anything in its last node to the hash of its first node. */
  lemma {:induction false} ClimbLinked(h: Digest, path: seq<Node>, hash: Bytes)
    requires path != [] && Linked(NodeHasher(h), path) && hash in NodeBytes(path[|path| - 1])
    ensures Climb(h, ProofOf(path), hash) == Some(NodeHasher(h)(path[0]))
  {
    var last, rest := path[|path| - 1], path[..|path| - 1];
    assert ProofOf(path)[1..] == ProofOf(rest);
    if rest != [] {
      assert NodeHasher(h)(last) in NodeBytes(path[|path| - 2]);
      ClimbLinked(h, rest, NodeHasher(h)(last));
    }
  }

  datatype ProofReply = ProofError | NoProof | Proof(path: ProofPath)

  /**
   * For every key that holds a value, the proof asked for with the right deletion flag is accepted against the
   * value pointer and the current root hash.
   */
  method GetProof(trie: Trie, key: Bytes, isDeleted: bool) returns (r: ProofReply)
    requires trie.Valid() && CollisionFree(trie.store.hash, trie.store.saved)
    requires trie.store.hash == NodeHasher(trie.store.digest)
    ensures match trie.Found(ToHex(key))
      case Missing => r == NoProof
      case Impossible => r == ProofError
      case Node(None) => r.NoProof? <==> isDeleted
      case Node(Some(e)) =>
        if e.deleted != isDeleted then r == NoProof
        else r.Proof? && Accepts(trie.store.digest, r.path, e.ptr, trie.store.hash(trie.root.value), isDeleted)
  {
    var hexKey := ConvertByteToHex(key);
    var path, w := trie.GetPathNodes(hexKey);
    if w.Broken? {
      return ProofError;
    }
    if w.NotThere? || w.node.deleted != isDeleted {
      return NoProof;
    }
    var resPath := ReverseBytes(path);
    var e := trie.Found(hexKey).found;
    if e.Some? {
      trie.FoundIsStored(hexKey);
      LinkedIsAccepted(trie.store.digest, path, e.value.ptr);
    }
    r := Proof(resPath);
  }

  lemma ProofStep(before: ProofPath, path: seq<Node>, i: nat)
    requires i < |path|
    ensures before + ProofOf(path[..i + 1]) == before + [NodeBytes(path[i])] + ProofOf(path[..i])
  {
    assert path[..i + 1][..i] == path[..i];
  }

  method ReverseBytes(path: seq<Node>) returns (resPath: ProofPath)
    ensures resPath == ProofOf(path)
  {
    resPath := [];
    var i := |path|;
    assert path[..i] == path;
    while i > 0
      invariant 0 <= i <= |path| && ProofOf(path) == resPath + ProofOf(path[..i])
    {
      i := i - 1;
      ProofStep(resPath, path, i);
      resPath := resPath + [NodeBytes(path[i])];
    }
    assert path[..0] == [];
  }

  lemma LinkedIsAccepted(h: Digest, path: seq<Node>, p: Bytes)
    requires path != [] && Linked(NodeHasher(h), path)
    requires var n := path[|path| - 1]; !n.ExtensionNode? && n.valuePtr == Some(p) && p != []
    ensures Accepts(h, ProofOf(path), p, NodeHasher(h)(path[0]), path[|path| - 1].deleted)
  {
    ValueInBytes(path[|path| - 1], p);
    ClimbLinked(h, path, p);
  }

  lemma ValueInBytes(n: Node, p: Bytes)
    requires !n.ExtensionNode? && n.valuePtr == Some(p) && p != []
    ensures p in NodeBytes(n) && (n.deleted ==> DELETE_MARKER in NodeBytes(n))
  {
    assert p in NonEmpty(p);
    assert n.deleted ==> DELETE_MARKER in Marker(n.deleted);
  }

  /** Trees whose nodes do not collide are told apart by their root hash alone. */
  lemma {:induction false} RootHashBinds(h: Hasher, s: Tree, t: Tree, universe: set<Node>)
    requires WellFormed(s) && WellFormed(t)
    requires NodesOf(h, s) <= universe && NodesOf(h, t) <= universe && CollisionFree(h, universe)
    requires PtrTo(h, s) == PtrTo(h, t)
    ensures s == t
    decreases s
  {
    if s.Nil? || t.Nil? { return; }
    assert NodeOf(h, s) in NodesOf(h, s) && NodeOf(h, t) in NodesOf(h, t);
    assert NodeOf(h, s) == NodeOf(h, t);
    match s
    case Leaf(_, _) =>
    case Ext(_, child) => RootHashBinds(h, child, t.child, universe);
    case Branch(children, _) =>
      forall i | 0 <= i < 16 ensures children[i] == t.children[i] {
        NodesOfChild(h, s, i);
        NodesOfChild(h, t, i);
        assert NodeOf(h, s).children[i] == NodeOf(h, t).children[i];
        RootHashBinds(h, children[i], t.children[i], universe);
      }
  }

  /** Two histories end in the same root hash if and only if they left the same entries. */
  lemma RootHashIffSameEntries(h: Hasher, ops1: seq<Op>, ops2: seq<Op>)
    requires Sound(ops1) && Sound(ops2) && Run(ops1).Some? && Run(ops2).Some?
    requires CollisionFree(h, NodesOf(h, Run(ops1).value) + NodesOf(h, Run(ops2).value))
    ensures PtrTo(h, Run(ops1).value) == PtrTo(h, Run(ops2).value) <==> forall q :: Actual(ops1, q) == Actual(ops2, q)
  {
    RunRefinesMap(ops1);
    RunRefinesMap(ops2);
    var s, t := Run(ops1).value, Run(ops2).value;
    if PtrTo(h, s) == PtrTo(h, t) {
      RootHashBinds(h, s, t, NodesOf(h, s) + NodesOf(h, t));
      assert forall q :: Actual(ops1, q) == Find(s, q) == Actual(ops2, q);
    } else if forall q :: Actual(ops1, q) == Actual(ops2, q) {
      forall q ensures Find(s, q) == Find(t, q) { assert Actual(ops1, q) == Actual(ops2, q); }
      BranchesAgree(s, t);
    }
  }

  /** The node is a tombstone, or one of its other byte strings looks like the marker. */
  ghost predicate LooksDeleted(n: Node)
    requires !n.ExtensionNode?
  {
    || n.deleted || n.valuePtr == Some(DELETE_MARKER)
    || (n.ValueNode? && n.key == DELETE_MARKER)
    || (n.BranchNode? && Some(DELETE_MARKER) in n.children)
  }

  lemma MarkerInBytes(n: Node)
    requires !n.ExtensionNode?
    ensures DELETE_MARKER in NodeBytes(n) <==> LooksDeleted(n)
  {
    assert DELETE_MARKER in Marker(n.deleted) <==> n.deleted;
    assert DELETE_MARKER in NonEmpty(Raw(n.valuePtr)) <==> n.valuePtr == Some(DELETE_MARKER);
    match n
    case BranchNode(children, valuePtr, deleted) =>
      var raw := seq(|children|, i requires 0 <= i < |children| => Raw(children[i]));
      assert NodeBytes(n) == raw + NonEmpty(Raw(valuePtr)) + Marker(deleted);
      assert DELETE_MARKER in raw <==> Some(DELETE_MARKER) in children by {
        if i :| 0 <= i < |raw| && raw[i] == DELETE_MARKER { assert children[i] == Some(DELETE_MARKER); }
        if i :| 0 <= i < |children| && children[i] == Some(DELETE_MARKER) { assert raw[i] == DELETE_MARKER; }
      }
    case ValueNode(key, valuePtr, deleted) =>
      assert DELETE_MARKER in NonEmpty(key) <==> key == DELETE_MARKER;
  }

  /**
   * On the proof of a path of nodes that ends at the value, the claim of a deletion is accepted exactly when the last
   * node looks deleted. So it implies the tombstone unless the node's key is the single nibble of the marker, since
   * its pointers are digests and not the marker.
   */
  lemma DeletionClaimExact(h: Digest, path: seq<Node>, p: Bytes)
    requires path != [] && Linked(NodeHasher(h), path)
    requires var n := path[|path| - 1]; !n.ExtensionNode? && n.valuePtr == Some(p) && p != []
    ensures
      var n := path[|path| - 1];
      Accepts(h, ProofOf(path), p, NodeHasher(h)(path[0]), true) <==> LooksDeleted(n)
    ensures
      var n := path[|path| - 1];
      p != DELETE_MARKER && (n.BranchNode? ==> Some(DELETE_MARKER) !in n.children) ==>
        (Accepts(h, ProofOf(path), p, NodeHasher(h)(path[0]), true) <==>
         n.deleted || (n.ValueNode? && n.key == DELETE_MARKER))
  {
    var n := path[|path| - 1];
    ValueInBytes(n, p);
    ClimbLinked(h, path, p);
    MarkerInBytes(n);
    assert ProofOf(path)[0] == NodeBytes(n);
  }

  /** The trie after one update of a key of two nibbles: a leaf below the root. */
  lemma OneUpdate(c: nat, d: nat, p: Bytes)
    requires c < 16 && d < 16
    ensures
      var ops := [Put([c, d], p)];
      && Run(ops) == Some(Branch(NO_CHILDREN[c := Leaf([d], Entry(p, false))], None))
      && Intended(ops, [c, d]) == Some(Entry(p, false))
  {
    var ops := [Put([c, d], p)];
    assert ops[..0] == [] && [c, d][1..] == [d];
    assert EMPTY_TRIE.children[c] == Nil;
  }

  /** The proof of a leaf right below the root. */
  function LeafProof(h: Digest, t: Tree, c: nat): ProofPath
    requires WellFormed(t) && t.Branch? && c < 16 && !t.children[c].Nil?
  {
    ProofOf([NodeOf(NodeHasher(h), t), NodeOf(NodeHasher(h), t.children[c])])
  }

  lemma LeafLooksDeleted(h: Digest, t: Tree, c: nat, p: Bytes)
    requires WellFormed(t) && t.Branch? && c < 16 && t.children[c] == Leaf(DELETE_MARKER, Entry(p, false)) && p != []
    ensures Accepts(h, LeafProof(h, t, c), p, PtrOf(NodeHasher(h), t), true)
  {
    NodeHasherNeverEmpty(h);
    ChildInBytes(NodeHasher(h), t, c);
    DeletionClaimExact(h, [NodeOf(NodeHasher(h), t), NodeOf(NodeHasher(h), t.children[c])], p);
  }

  /**
   * After the only update of a trie, of any byte key that ends in the nibble 1, the key is live and its proof is
   * accepted as that of a deleted one: its leaf has the nibble 1 for a key.
   */
  lemma LivePassesForDeleted(h: Digest, c: nat, p: Bytes)
    requires c < 16 && p != []
    ensures
      var key: Bytes := [16 * c + 1];
      var ops := [Put(ToHex(key), p)];
      && Intended(ops, ToHex(key)) == Some(Entry(p, false)) && Run(ops).Some? && Run(ops).value.Branch?
      && var t := Run(ops).value;
         !t.children[c].Nil? && Accepts(h, LeafProof(h, t, c), p, PtrOf(NodeHasher(h), t), true)
  {
    var key: Bytes := [16 * c + 1];
    assert key[1..] == [] && ToHex(key) == [c, 1];
    OneUpdate(c, 1, p);
    LeafLooksDeleted(h, Branch(NO_CHILDREN[c := Leaf([1], Entry(p, false))], None), c, p);
  }
}
