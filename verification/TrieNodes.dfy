/** Trie nodes as they are hashed and stored, and how a stored set of nodes holds a tree. */
module TrieNodes {
  import opened Basics
  import opened TrieTree

  const DELETE_MARKER: Bytes := [1]

  datatype Node =
    | BranchNode(children: seq<Option<Bytes>>, valuePtr: Option<Bytes>, deleted: bool)
    | ExtensionNode(key: HexKey, child: Option<Bytes>)
    | ValueNode(key: HexKey, valuePtr: Option<Bytes>, deleted: bool)

  /** An absent pointer is an empty byte string. */
  function Raw(p: Option<Bytes>): Bytes {
    if p.None? then [] else p.value
  }

  function NonEmpty(b: Bytes): seq<Bytes> {
    if b == [] then [] else [b]
  }

  function Marker(deleted: bool): seq<Bytes> {
    if deleted then [DELETE_MARKER] else []
  }

  /** The byte strings of a node: children of a branch without their positions, then value pointer and marker. */
  function NodeBytes(n: Node): seq<Bytes> {
    match n
    case BranchNode(children, valuePtr, deleted) =>
      seq(|children|, i requires 0 <= i < |children| => Raw(children[i])) + NonEmpty(Raw(valuePtr)) + Marker(deleted)
    case ExtensionNode(key, child) => NonEmpty(key) + NonEmpty(Raw(child))
    case ValueNode(key, valuePtr, deleted) => NonEmpty(key) + NonEmpty(Raw(valuePtr)) + Marker(deleted)
  }

  function Concat(bs: seq<Bytes>): Bytes {
    if bs == [] then [] else bs[0] + Concat(bs[1..])
  }

  function CalcHash(h: Digest, bs: seq<Bytes>): Bytes { h(Concat(bs)) }

  /** How nodes are hashed; everything about storing trees needs only that it is some function of the node. */
  type Hasher = Node -> Bytes

  function NodeHasher(h: Digest): Hasher { n => CalcHash(h, NodeBytes(n)) }

  function KeyValueHash(h: Digest, key: Bytes, value: Bytes): Bytes {
    h(key + if value == [] then [] else h(value))
  }

  ghost predicate NeverEmpty(h: Hasher) { forall n :: h(n) != [] }

  lemma NodeHasherNeverEmpty(h: Digest)
    ensures NeverEmpty(NodeHasher(h))
  {}

  /** The node that stands for the top of a tree, and the pointer to it. */
  function NodeOf(h: Hasher, t: Tree): Node
    requires WellFormed(t) && !t.Nil?
    decreases t, 0
  {
    match t
    case Leaf(key, e) => ValueNode(key, Some(e.ptr), e.deleted)
    case Ext(key, child) => ExtensionNode(key, PtrTo(h, child))
    case Branch(children, entry) =>
      BranchNode(seq(16, i requires 0 <= i < 16 => PtrTo(h, children[i])),
                 if entry.None? then None else Some(entry.value.ptr),
                 entry.Some? && entry.value.deleted)
  }

  function PtrTo(h: Hasher, t: Tree): Option<Bytes>
    requires WellFormed(t)
    decreases t, 1
  {
    if t.Nil? then None else Some(h(NodeOf(h, t)))
  }

  function PtrOf(h: Hasher, t: Tree): Bytes
    requires WellFormed(t) && !t.Nil?
  {
    h(NodeOf(h, t))
  }

  /** All nodes of a tree. */
  ghost function NodesOf(h: Hasher, t: Tree): set<Node>
    requires WellFormed(t)
    decreases t
  {
    match t
    case Nil => {}
    case Leaf(_, _) => {NodeOf(h, t)}
    case Ext(_, child) => {NodeOf(h, t)} + NodesOf(h, child)
    case Branch(children, _) =>
      {NodeOf(h, t)} + (set i, n | 0 <= i < 16 && n in NodesOf(h, children[i]) :: n)
  }

  /** No two different nodes of the set have the same hash. */
  ghost predicate CollisionFree(h: Hasher, nodes: set<Node>) {
    forall a, b :: a in nodes && b in nodes && h(a) == h(b) ==> a == b
  }

  /** A node map is content addressed, and holds only nodes of the given set. */
  ghost predicate Addressed(h: Hasher, nodes: map<Bytes, Node>, universe: set<Node>) {
    forall p :: p in nodes ==> h(nodes[p]) == p && nodes[p] in universe
  }

  ghost predicate EntryIn(entry: Option<Entry>, values: set<Bytes>) {
    entry.Some? ==> entry.value.ptr in values
  }

  /** Every node of the tree is in `disk` under its hash, and every value it points to is in `values`. */
  ghost predicate Complete(h: Hasher, disk: map<Bytes, Node>, values: set<Bytes>, t: Tree)
    requires WellFormed(t)
    decreases t
  {
    t.Nil? ||
    (&& PtrOf(h, t) in disk && disk[PtrOf(h, t)] == NodeOf(h, t)
     && match t
        case Leaf(_, e) => e.ptr in values
        case Ext(_, child) => Complete(h, disk, values, child)
        case Branch(children, entry) =>
          EntryIn(entry, values) && forall i :: 0 <= i < 16 ==> Complete(h, disk, values, children[i]))
  }

  /**
   * A tree whose upper part is in memory and whose lower parts were persisted as a whole. A value may be in
   * memory (`mv`) or on disk (`dv`).
   */
  ghost predicate Layered(h: Hasher, mem: map<Bytes, Node>, disk: map<Bytes, Node>,
                          mv: set<Bytes>, dv: set<Bytes>, t: Tree)
    requires WellFormed(t)
    decreases t
  {
    || Complete(h, disk, dv, t)
    || (&& !t.Nil? && PtrOf(h, t) in mem && mem[PtrOf(h, t)] == NodeOf(h, t)
        && match t
           case Leaf(_, e) => e.ptr in mv + dv
           case Ext(_, child) => Layered(h, mem, disk, mv, dv, child)
           case Branch(children, entry) =>
             EntryIn(entry, mv + dv) && forall i :: 0 <= i < 16 ==> Layered(h, mem, disk, mv, dv, children[i]))
  }

  /** `b` has everything `a` has. */
  ghost predicate Grows<K(!new), V>(a: map<K, V>, b: map<K, V>) {
    forall p :: p in a ==> p in b && b[p] == a[p]
  }

  lemma {:induction false} CompleteGrows(h: Hasher, disk: map<Bytes, Node>, values: set<Bytes>,
                                         disk': map<Bytes, Node>, values': set<Bytes>, t: Tree)
    requires WellFormed(t) && Complete(h, disk, values, t)
    requires Grows(disk, disk') && values <= values'
    ensures Complete(h, disk', values', t)
    decreases t
  {
    match t
    case Nil =>
    case Leaf(_, _) =>
    case Ext(_, child) => CompleteGrows(h, disk, values, disk', values', child);
    case Branch(children, _) =>
      forall i | 0 <= i < 16 ensures Complete(h, disk', values', children[i]) {
        CompleteGrows(h, disk, values, disk', values', children[i]);
      }
  }

  lemma {:induction false} LayeredGrows(h: Hasher, mem: map<Bytes, Node>, disk: map<Bytes, Node>, mv: set<Bytes>,
                                        dv: set<Bytes>, mem': map<Bytes, Node>, mv': set<Bytes>, t: Tree)
    requires WellFormed(t) && Layered(h, mem, disk, mv, dv, t)
    requires Grows(mem, mem') && mv <= mv'
    ensures Layered(h, mem', disk, mv', dv, t)
    decreases t
  {
    if !Complete(h, disk, dv, t) {
      match t
      case Leaf(_, _) =>
      case Ext(_, child) => LayeredGrows(h, mem, disk, mv, dv, mem', mv', child);
      case Branch(children, _) =>
        forall i | 0 <= i < 16 ensures Layered(h, mem', disk, mv', dv, children[i]) {
          LayeredGrows(h, mem, disk, mv, dv, mem', mv', children[i]);
        }
    }
  }

  lemma LayeredChild(h: Hasher, mem: map<Bytes, Node>, disk: map<Bytes, Node>, mv: set<Bytes>, dv: set<Bytes>, t: Tree)
    requires WellFormed(t) && Layered(h, mem, disk, mv, dv, t)
    ensures t.Ext? ==> Layered(h, mem, disk, mv, dv, t.child)
    ensures t.Branch? ==> forall i :: 0 <= i < 16 ==> Layered(h, mem, disk, mv, dv, t.children[i])
  {}
}
