/** The node and value store: in-memory maps, maps of what is to be persisted, and the backend database. */
module TrieStore {
  import opened Basics
  import opened TrieTree
  import opened TrieNodes

  ghost predicate AllComplete(h: Hasher, disk: map<Bytes, Node>, values: set<Bytes>, trees: set<Tree>) {
    forall t :: t in trees ==> CanonicalRoot(t) && Complete(h, disk, values, t)
  }

  lemma AllCompleteGrows(h: Hasher, disk: map<Bytes, Node>, values: set<Bytes>,
                         disk': map<Bytes, Node>, values': set<Bytes>, trees: set<Tree>)
    requires AllComplete(h, disk, values, trees)
    requires Grows(disk, disk') && values <= values'
    ensures AllComplete(h, disk', values', trees)
  {
    forall t | t in trees ensures Complete(h, disk', values', t) {
      CompleteGrows(h, disk, values, disk', values', t);
    }
  }

  lemma AddressedPut(h: Hasher, nodes: map<Bytes, Node>, universe: set<Node>, n: Node)
    requires Addressed(h, nodes, universe)
    ensures Addressed(h, nodes, universe + {n})
    ensures Addressed(h, nodes[h(n) := n], universe + {n})
  {}

  /** Two content-addressed maps without collisions never disagree. */
  lemma AddressedUnion(h: Hasher, a: map<Bytes, Node>, b: map<Bytes, Node>, universe: set<Node>)
    requires Addressed(h, a, universe) && Addressed(h, b, universe) && CollisionFree(h, universe)
    ensures Addressed(h, a + b, universe) && Grows(a, a + b) && Grows(b, a + b)
  {
    forall p | p in a ensures (a + b)[p] == a[p] {
      if p in b { assert h(a[p]) == h(b[p]); }
    }
  }

  lemma MergeMarked(h: Hasher, mem: map<Bytes, Node>, marked: map<Bytes, Node>, disk: map<Bytes, Node>,
                    values: set<Bytes>, values': set<Bytes>, saved: set<Node>, trees: set<Tree>)
    requires Addressed(h, mem, saved) && Addressed(h, disk, saved) && CollisionFree(h, saved)
    requires Grows(marked, mem) && values <= values' && AllComplete(h, disk, values, trees)
    ensures Addressed(h, disk + marked, saved) && AllComplete(h, disk + marked, values', trees)
  {
    assert Addressed(h, marked, saved);
    AddressedUnion(h, disk, marked, saved);
    AllCompleteGrows(h, disk, values, disk + marked, values', trees);
  }

  class Store {
    const digest: Digest
    const hash: Hasher
    var inMemoryNodes: map<Bytes, Node>
    var nodesToPersist: map<Bytes, Node>
    var backendNodes: map<Bytes, Node>
    var inMemoryValues: map<Bytes, Bytes>
    var valuesToPersist: map<Bytes, Bytes>
    var backendValues: map<Bytes, Bytes>
    var lastBlock: nat
    /** Every node ever put. */
    ghost var saved: set<Node>
    /** The trees of the roots that were committed. */
    ghost var committed: set<Tree>

    constructor (digest: Digest)
      ensures this.digest == digest && hash == NodeHasher(digest) && NeverEmpty(hash)
      ensures Quiet() && Valid() && HistoryKept()
      ensures inMemoryNodes == map[] && backendNodes == map[] && inMemoryValues == map[] && backendValues == map[]
      ensures saved == {} && committed == {}
    {
      this.digest := digest;
      hash := NodeHasher(digest);
      NodeHasherNeverEmpty(digest);
      inMemoryNodes, nodesToPersist, backendNodes := map[], map[], map[];
      inMemoryValues, valuesToPersist, backendValues := map[], map[], map[];
      lastBlock, saved, committed := 0, {}, {};
    }

    /** Nothing is marked to be persisted: the state between commits. */
    ghost predicate Quiet() reads this { nodesToPersist == map[] && valuesToPersist == map[] }

    ghost predicate Valid()
      reads this
    {
      && Addressed(hash, inMemoryNodes, saved)
      && Addressed(hash, backendNodes, saved)
      && Grows(nodesToPersist, inMemoryNodes)
      && Grows(valuesToPersist, inMemoryValues)
    }

    /** Every committed root can still be read from the backend alone. */
    ghost predicate HistoryKept()
      reads this`committed, this`backendNodes, this`backendValues
    {
      AllComplete(hash, backendNodes, backendValues.Keys, committed)
    }

    /** What `GetValue` answers, as a map. */
    ghost function Values(): map<Bytes, Bytes>
      reads this
    {
      backendValues + valuesToPersist + inMemoryValues
    }

    /** `t` can be read through this store; `extra` are value pointers still to be put. */
    ghost predicate Holds(t: Tree, extra: set<Bytes>)
      reads this
    {
      && WellFormed(t)
      && Layered(hash, inMemoryNodes, backendNodes, inMemoryValues.Keys + extra, backendValues.Keys, t)
    }

    method GetNode(nodePtr: Bytes) returns (r: Option<Node>)
      ensures r == if nodePtr in inMemoryNodes then Some(inMemoryNodes[nodePtr])
                   else if nodePtr in nodesToPersist then Some(nodesToPersist[nodePtr])
                   else if nodePtr in backendNodes then Some(backendNodes[nodePtr]) else None
      ensures Valid() && r.Some? ==> hash(r.value) == nodePtr
    {
      if nodePtr in inMemoryNodes {
        r := Some(inMemoryNodes[nodePtr]);
      } else if nodePtr in nodesToPersist {
        r := Some(nodesToPersist[nodePtr]);
      } else if nodePtr in backendNodes {
        r := Some(backendNodes[nodePtr]);
      } else {
        r := None;
      }
    }

    method GetValue(valuePtr: Bytes) returns (r: Option<Bytes>)
      ensures r == if valuePtr in Values() then Some(Values()[valuePtr]) else None
    {
      if valuePtr in inMemoryValues {
        r := Some(inMemoryValues[valuePtr]);
      } else if valuePtr in valuesToPersist {
        r := Some(valuesToPersist[valuePtr]);
      } else if valuePtr in backendValues {
        r := Some(backendValues[valuePtr]);
      } else {
        r := None;
      }
    }

    method PutNode(nodePtr: Bytes, node: Node)
      requires Valid() && Quiet() && nodePtr == hash(node)
      modifies this`inMemoryNodes, this`saved
      ensures Valid() && inMemoryNodes == old(inMemoryNodes)[nodePtr := node] && saved == old(saved) + {node}
    {
      AddressedPut(hash, inMemoryNodes, saved, node);
      AddressedPut(hash, backendNodes, saved, node);
      inMemoryNodes := inMemoryNodes[nodePtr := node];
      saved := saved + {node};
    }

    method PutValue(valuePtr: Bytes, value: Bytes)
      requires Valid() && Quiet()
      modifies this`inMemoryValues
      ensures Valid() && inMemoryValues == old(inMemoryValues)[valuePtr := value]
    {
      inMemoryValues := inMemoryValues[valuePtr := value];
    }

    method PersistNode(nodePtr: Bytes) returns (changed: bool)
      requires Valid()
      modifies this`nodesToPersist
      ensures Valid() && changed == (nodePtr in inMemoryNodes)
      ensures nodesToPersist ==
        if changed then old(nodesToPersist)[nodePtr := inMemoryNodes[nodePtr]] else old(nodesToPersist)
    {
      changed := nodePtr in inMemoryNodes;
      if changed {
        nodesToPersist := nodesToPersist[nodePtr := inMemoryNodes[nodePtr]];
      }
    }

    method PersistValue(valuePtr: Bytes) returns (changed: bool)
      requires Valid()
      modifies this`valuesToPersist
      ensures Valid() && changed == (valuePtr in inMemoryValues)
      ensures valuesToPersist ==
        if changed then old(valuesToPersist)[valuePtr := inMemoryValues[valuePtr]] else old(valuesToPersist)
    {
      changed := valuePtr in inMemoryValues;
      if changed {
        valuesToPersist := valuesToPersist[valuePtr := inMemoryValues[valuePtr]];
      }
    }

    /**
     * One batch moves what was marked to the backend and drops everything in memory. As long as no two saved
     * nodes collide, roots committed earlier keep their trees.
     */
    method CommitChanges(blockNum: nat)
      requires Valid() && HistoryKept() && CollisionFree(hash, saved)
      modifies this`backendNodes, this`backendValues, this`lastBlock,
               this`inMemoryNodes, this`inMemoryValues, this`nodesToPersist, this`valuesToPersist
      ensures Valid() && HistoryKept() && Quiet() && lastBlock == blockNum
      ensures inMemoryNodes == map[] && inMemoryValues == map[]
      ensures backendNodes == old(backendNodes) + old(nodesToPersist)
      ensures backendValues == old(backendValues) + old(valuesToPersist)
    {
      var nodes, values := backendNodes + nodesToPersist, backendValues + valuesToPersist;
      MergeMarked(hash, inMemoryNodes, nodesToPersist, backendNodes, backendValues.Keys, values.Keys, saved, committed);
      lastBlock, backendValues, backendNodes := blockNum, values, nodes;
      nodesToPersist, valuesToPersist, inMemoryNodes, inMemoryValues := map[], map[], map[], map[];
    }

    method RollbackChanges()
      requires Valid()
      modifies this`inMemoryNodes, this`inMemoryValues, this`nodesToPersist, this`valuesToPersist
      ensures Valid() && Quiet() && inMemoryNodes == map[] && inMemoryValues == map[]
    {
      nodesToPersist, valuesToPersist, inMemoryNodes, inMemoryValues := map[], map[], map[], map[];
    }
  }
}
