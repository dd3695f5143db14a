/** The trie over its store: node objects are values here, since a node is serialised when it is put. */
module MPTrie {
  import opened Basics
  import opened TrieTree
  import opened TrieNodes
  import opened TrieStore
  import opened TrieRuns
  import opened TrieCanonical
  import opened TrieLookup

  /** What `t` needs below its top node to be held once that node is put. */
  ghost predicate PartsHeld(h: Hasher, mem: map<Bytes, Node>, disk: map<Bytes, Node>,
                            mv: set<Bytes>, dv: set<Bytes>, t: Tree)
    requires WellFormed(t)
  {
    match t
    case Nil => false
    case Leaf(_, e) => e.ptr in mv + dv
    case Ext(_, child) => Layered(h, mem, disk, mv, dv, child)
    case Branch(children, entry) =>
      EntryIn(entry, mv + dv) && forall i :: 0 <= i < 16 ==> Layered(h, mem, disk, mv, dv, children[i])
  }

  lemma PutGrows(h: Hasher, mem: map<Bytes, Node>, saved: set<Node>, n: Node, universe: set<Node>)
    requires Addressed(h, mem, saved) && saved <= universe && n in universe && CollisionFree(h, universe)
    ensures Grows(mem, mem[h(n) := n])
  {}

  lemma PartsHeldGrow(h: Hasher, mem: map<Bytes, Node>, disk: map<Bytes, Node>, mv: set<Bytes>, dv: set<Bytes>,
                      mem': map<Bytes, Node>, t: Tree)
    requires WellFormed(t) && PartsHeld(h, mem, disk, mv, dv, t) && Grows(mem, mem')
    ensures PartsHeld(h, mem', disk, mv, dv, t)
  {
    match t
    case Leaf(_, _) =>
    case Ext(_, child) => LayeredGrows(h, mem, disk, mv, dv, mem', mv, child);
    case Branch(children, _) =>
      forall i | 0 <= i < 16 ensures Layered(h, mem', disk, mv, dv, children[i]) {
        LayeredGrows(h, mem, disk, mv, dv, mem', mv, children[i]);
      }
  }

  lemma PutHolds(h: Hasher, mem: map<Bytes, Node>, disk: map<Bytes, Node>, mv: set<Bytes>, dv: set<Bytes>,
                 saved: set<Node>, universe: set<Node>, t: Tree)
    requires WellFormed(t) && PartsHeld(h, mem, disk, mv, dv, t)
    requires Addressed(h, mem, saved) && saved <= universe && NodeOf(h, t) in universe && CollisionFree(h, universe)
    ensures var mem' := mem[PtrOf(h, t) := NodeOf(h, t)];
      Grows(mem, mem') && Layered(h, mem', disk, mv, dv, t)
  {
    var mem' := mem[PtrOf(h, t) := NodeOf(h, t)];
    PutGrows(h, mem, saved, NodeOf(h, t), universe);
    PartsHeldGrow(h, mem, disk, mv, dv, mem', t);
  }

  /** A held tree is read back by its pointer. */
  lemma HeldIsRead(h: Hasher, mem: map<Bytes, Node>, disk: map<Bytes, Node>, mv: set<Bytes>, dv: set<Bytes>,
                   saved: set<Node>, universe: set<Node>, t: Tree)
    requires WellFormed(t) && !t.Nil? && Layered(h, mem, disk, mv, dv, t)
    requires Addressed(h, mem, saved) && Addressed(h, disk, saved) && saved <= universe && CollisionFree(h, universe)
    ensures var p := PtrOf(h, t);
      if p in mem then mem[p] == NodeOf(h, t) else p in disk && disk[p] == NodeOf(h, t)
  {}

  lemma NodesOfChild(h: Hasher, t: Tree, i: int)
    requires WellFormed(t) && t.Branch? && 0 <= i < 16
    ensures NodesOf(h, t.children[i]) <= NodesOf(h, t)
  {}

  lemma BranchNodeUpdate(h: Hasher, t: Tree, i: int, c: Tree)
    requires WellFormed(t) && t.Branch? && 0 <= i < 16 && WellFormed(c) && !c.Nil?
    ensures var t' := Branch(t.children[i := c], t.entry);
      WellFormed(t') && NodeOf(h, t') == NodeOf(h, t).(children := NodeOf(h, t).children[i := Some(PtrOf(h, c))])
  {
    var t' := Branch(t.children[i := c], t.entry);
    var cs := NodeOf(h, t).children[i := Some(PtrOf(h, c))];
    forall j | 0 <= j < 16 ensures NodeOf(h, t').children[j] == cs[j] {}
    assert NodeOf(h, t').children == cs;
  }

  const NO_POINTERS: seq<Option<Bytes>> :=
    [None, None, None, None, None, None, None, None, None, None, None, None, None, None, None, None]

  lemma EmptyBranchNode(h: Hasher, e: Option<Entry>)
    ensures NodeOf(h, Branch(NO_CHILDREN, e)).children == NO_POINTERS
  {}

  /** One child of a held branch was replaced while the nodes in memory grew. */
  lemma ReplacedChildParts(h: Hasher, mem: map<Bytes, Node>, disk: map<Bytes, Node>, mv: set<Bytes>, dv: set<Bytes>,
                           mem': map<Bytes, Node>, t: Tree, i: int, c: Tree)
    requires WellFormed(t) && t.Branch? && 0 <= i < 16 && WellFormed(c)
    requires Layered(h, mem, disk, mv, dv, t) && Grows(mem, mem') && Layered(h, mem', disk, mv, dv, c)
    ensures WellFormed(Branch(t.children[i := c], t.entry))
    ensures PartsHeld(h, mem', disk, mv, dv, Branch(t.children[i := c], t.entry))
  {
    var children := t.children[i := c];
    forall j | 0 <= j < 16 ensures Layered(h, mem', disk, mv, dv, children[j]) {
      LayeredChild(h, mem, disk, mv, dv, t);
      if j != i { LayeredGrows(h, mem, disk, mv, dv, mem', mv, t.children[j]); }
    }
  }

  lemma EmptyParts(h: Hasher, mem: map<Bytes, Node>, disk: map<Bytes, Node>, mv: set<Bytes>, dv: set<Bytes>,
                   e: Option<Entry>)
    requires EntryIn(e, mv + dv)
    ensures PartsHeld(h, mem, disk, mv, dv, Branch(NO_CHILDREN, e))
  {}

  lemma AddChildParts(h: Hasher, mem: map<Bytes, Node>, disk: map<Bytes, Node>, mv: set<Bytes>, dv: set<Bytes>,
                      t: Tree, i: int, c: Tree)
    requires WellFormed(t) && t.Branch? && 0 <= i < 16 && WellFormed(c)
    requires PartsHeld(h, mem, disk, mv, dv, t) && Layered(h, mem, disk, mv, dv, c)
    ensures WellFormed(Branch(t.children[i := c], t.entry))
    ensures PartsHeld(h, mem, disk, mv, dv, Branch(t.children[i := c], t.entry))
  {}

  lemma {:induction false} CommonPrefixIs(a: HexKey, b: HexKey, i: nat)
    requires i <= |a| && i <= |b| && a[..i] == b[..i]
    requires i == |a| || i == |b| || a[i] != b[i]
    ensures CommonPrefix(a, b) == a[..i]
  {
    if i > 0 {
      assert a[0] == a[..i][0] == b[..i][0] == b[0];
      assert a[1..][..i - 1] == a[..i][1..] == b[..i][1..] == b[1..][..i - 1];
      CommonPrefixIs(a[1..], b[1..], i - 1);
      assert a[..i] == [a[0]] + a[1..][..i - 1];
    }
  }

  method FindCommonPrefix(hexKey1: HexKey, hexKey2: HexKey) returns (res: HexKey)
    ensures res == CommonPrefix(hexKey1, hexKey2)
  {
    var maxPrefix := if |hexKey1| > |hexKey2| then |hexKey2| else |hexKey1|;
    res := [];
    for i := 0 to maxPrefix
      invariant res == hexKey1[..i] == hexKey2[..i]
    {
      if hexKey1[i] != hexKey2[i] {
        CommonPrefixIs(hexKey1, hexKey2, i);
        return;
      }
      res := res + [hexKey1[i]];
    }
    CommonPrefixIs(hexKey1, hexKey2, maxPrefix);
  }

  function ToHex(b: Bytes): (k: HexKey)
    ensures |k| == 2 * |b|
  {
    if b == [] then [] else [b[0] / 16, b[0] % 16] + ToHex(b[1..])
  }

  lemma {:induction false} ToHexInjective(a: Bytes, b: Bytes)
    requires ToHex(a) == ToHex(b)
    ensures a == b
  {
    if a != [] && b != [] {
      assert ToHex(a)[0] == a[0] / 16 && ToHex(a)[1] == a[0] % 16 && ToHex(a)[2..] == ToHex(a[1..]);
      assert ToHex(b)[0] == b[0] / 16 && ToHex(b)[1] == b[0] % 16 && ToHex(b)[2..] == ToHex(b[1..]);
      ToHexInjective(a[1..], b[1..]);
      assert a == [a[0]] + a[1..] && b == [b[0]] + b[1..];
    }
  }

  lemma {:induction false} ToHexAppend(a: Bytes, v: Byte)
    ensures ToHex(a + [v]) == ToHex(a) + [v / 16, v % 16]
  {
    if a == [] {
      assert a + [v] == [v] && [v][1..] == [];
    } else {
      assert (a + [v])[1..] == a[1..] + [v];
      ToHexAppend(a[1..], v);
    }
  }

  method ConvertByteToHex(b: Bytes) returns (res: HexKey)
    ensures res == ToHex(b)
  {
    res := [];
    for i := 0 to |b|
      invariant res == ToHex(b[..i])
    {
      ToHexAppend(b[..i], b[i]);
      assert b[..i + 1] == b[..i] + [b[i]];
      res := res + [b[i] / 16, b[i] % 16];
    }
    assert b[..|b|] == b;
  }

  /** What is left of a key below an extension, if its key is a prefix. */
  method StripPrefix(hexKey: HexKey, nodeHexKey: HexKey) returns (r: Option<HexKey>)
    ensures r == if nodeHexKey <= hexKey then Some(hexKey[|nodeHexKey|..]) else None
  {
    if |nodeHexKey| > |hexKey| {
      return None;
    }
    var commonKey := FindCommonPrefix(hexKey, nodeHexKey);
    if |commonKey| < |nodeHexKey| {
      return None;
    }
    r := Some(hexKey[|commonKey|..]);
  }

  /** What a walk through the nodes ends with: nothing, a node that can carry a value, or an error. */
  datatype Walk = NotThere | There(node: Node) | Broken

  /** The node found agrees with the lookup in the tree. */
  ghost predicate Agrees(w: Walk, l: Lookup) {
    match l
    case Missing => w.NotThere?
    case Impossible => w.Broken?
    case Node(e) =>
      && w.There? && !w.node.ExtensionNode?
      && w.node.valuePtr == (if e.None? then None else Some(e.value.ptr))
      && w.node.deleted == (e.Some? && e.value.deleted)
  }

  /** Each node of the path is hashed into the one before it. */
  ghost predicate Linked(h: Hasher, path: seq<Node>) {
    forall i :: 0 < i < |path| ==> h(path[i]) in NodeBytes(path[i - 1])
  }

  lemma ChildInBytes(h: Hasher, t: Tree, i: int)
    requires WellFormed(t) && NeverEmpty(h)
    requires t.Ext? ==> !t.child.Nil?
    requires t.Branch? ==> 0 <= i < 16 && !t.children[i].Nil?
    ensures
      && (t.Ext? ==> PtrOf(h, t.child) in NodeBytes(NodeOf(h, t)))
      && (t.Branch? ==> PtrOf(h, t.children[i]) in NodeBytes(NodeOf(h, t)))
  {
    if t.Branch? {
      assert NodeBytes(NodeOf(h, t))[i] == PtrOf(h, t.children[i]);
    } else if t.Ext? {
      var p := PtrOf(h, t.child);
      assert NonEmpty(p) == [p] && p in NonEmpty(p);
    }
  }

  lemma EmptyNode(h: Hasher)
    ensures NodeOf(h, EMPTY_TRIE) == BranchNode(seq(16, i => None), None, false)
  {
    assert NodeOf(h, EMPTY_TRIE).children == seq(16, i => None);
  }

  lemma LinkedSnoc(h: Hasher, path: seq<Node>, n: Node)
    requires Linked(h, path) && path != [] && h(n) in NodeBytes(path[|path| - 1])
    ensures Linked(h, path + [n])
  {
    var longer := path + [n];
    forall i | 0 <= i < |longer| - 1 ensures h(longer[i + 1]) in NodeBytes(longer[i]) {
      assert longer[i] == path[i] && (i < |path| - 1 ==> longer[i + 1] == path[i + 1]);
    }
  }

  /** Whatever a lookup finds in a held tree points to a stored value. */
  lemma {:induction false} FoundIsKnown(h: Hasher, mem: map<Bytes, Node>, disk: map<Bytes, Node>,
                                        mv: set<Bytes>, dv: set<Bytes>, t: Tree, k: HexKey)
    requires WellFormed(t) && Layered(h, mem, disk, mv, dv, t)
    requires GetPath(t, k).Node? && GetPath(t, k).found.Some?
    ensures GetPath(t, k).found.value.ptr in mv + dv
    decreases t
  {
    LayeredChild(h, mem, disk, mv, dv, t);
    match t
    case Leaf(_, _) =>
    case Ext(key, child) => FoundIsKnown(h, mem, disk, mv, dv, child, k[|key|..]);
    case Branch(children, _) => if k != [] { FoundIsKnown(h, mem, disk, mv, dv, children[k[0]], k[1..]); }
  }

  lemma PutIntoLayers(b: map<Bytes, Bytes>, v: map<Bytes, Bytes>, m: map<Bytes, Bytes>, p: Bytes, x: Bytes)
    requires p != [] && [] !in b + v + m
    ensures b + v + m[p := x] == (b + v + m)[p := x] && [] !in b + v + m[p := x]
    ensures m[p := x].Keys + {} == m.Keys + {p}
  {}

  /** What the backend will hold once the marked nodes and values are written. */
  ghost predicate Durable(h: Hasher, disk: map<Bytes, Node>, marked: map<Bytes, Node>,
                          dv: set<Bytes>, markedValues: set<Bytes>, t: Tree)
    requires WellFormed(t)
  {
    Complete(h, disk + marked, dv + markedValues, t)
  }

  lemma DurableGrows(h: Hasher, disk: map<Bytes, Node>, marked: map<Bytes, Node>, marked': map<Bytes, Node>,
                     dv: set<Bytes>, mvs: set<Bytes>, mvs': set<Bytes>, t: Tree)
    requires WellFormed(t) && Durable(h, disk, marked, dv, mvs, t)
    requires Grows(marked, marked') && mvs <= mvs' && Grows(disk, disk + marked')
    ensures Durable(h, disk, marked', dv, mvs', t)
  {
    assert Grows(disk + marked, disk + marked');
    CompleteGrows(h, disk + marked, dv + mvs, disk + marked', dv + mvs', t);
  }

  lemma CompleteIsDurable(h: Hasher, disk: map<Bytes, Node>, marked: map<Bytes, Node>,
                          dv: set<Bytes>, mvs: set<Bytes>, t: Tree)
    requires WellFormed(t) && Complete(h, disk, dv, t) && Grows(disk, disk + marked)
    ensures Durable(h, disk, marked, dv, mvs, t)
  {
    CompleteGrows(h, disk, dv, disk + marked, dv + mvs, t);
  }

  /** Marked nodes never disagree with the backend. */
  lemma MarkedAgrees(
    h: Hasher, mem: map<Bytes, Node>, marked: map<Bytes, Node>, disk: map<Bytes, Node>, saved: set<Node>)
    requires Addressed(h, mem, saved) && Addressed(h, disk, saved) && CollisionFree(h, saved) && Grows(marked, mem)
    ensures Grows(disk, disk + marked) && Grows(marked, disk + marked)
  {
    assert Addressed(h, marked, saved);
    AddressedUnion(h, disk, marked, saved);
  }

  lemma EmptyIsFree(h: Hasher)
    ensures CollisionFree(h, {} + NodesOf(h, EMPTY_TRIE))
  {
    forall n | n in NodesOf(h, EMPTY_TRIE) ensures n == NodeOf(h, EMPTY_TRIE) {
      assert forall i :: 0 <= i < 16 ==> EMPTY_TRIE.children[i] == Nil;
    }
  }

  /** Each value lies under the same pointer in one of the two maps. */
  ghost predicate TakenFrom(values: map<Bytes, Bytes>, disk: map<Bytes, Bytes>, mem: map<Bytes, Bytes>) {
    forall p :: p in values ==> (p in disk && values[p] == disk[p]) || (p in mem && values[p] == mem[p])
  }

  /** A call that fails, or yields a value if there is one. */
  datatype Reply = Error | Reply(value: Option<Bytes>)

  /** The answer for a key, by the tree and the values it points to. */
  function ReplyOf(t: Tree, values: map<Bytes, Bytes>, key: Bytes): Reply
    requires WellFormed(t)
  {
    match GetPath(t, ToHex(key))
    case Missing => Reply(None)
    case Node(Some(e)) =>
      if e.deleted then Reply(None) else if e.ptr in values then Reply(Some(values[e.ptr])) else Error
    case _ => Error
  }

  class Trie {
    const store: Store
    var root: Option<Node>
    /** The tree the root stands for. */
    ghost var tree: Tree

    /** `NewTrie` without a root hash: an empty branch, saved at once. */
    constructor Empty(store: Store)
      requires store.Valid() && store.Quiet() && NeverEmpty(store.hash) && [] !in store.Values()
      requires CollisionFree(store.hash, store.saved + NodesOf(store.hash, EMPTY_TRIE))
      modifies store`inMemoryNodes, store`saved
      ensures Valid() && this.store == store && tree == EMPTY_TRIE
      ensures store.saved <= old(store.saved) + NodesOf(store.hash, EMPTY_TRIE)
    {
      this.store := store;
      root := Some(BranchNode(seq(16, i => None), None, false));
      tree := EMPTY_TRIE;
      new;
      EmptyNode(store.hash);
      ghost var universe := store.saved + NodesOf(store.hash, EMPTY_TRIE);
      var _ := SaveNode(root.value, EMPTY_TRIE, {}, universe);
    }

    /** An empty trie over an empty store. */
    static method Start(digest: Digest) returns (trie: Trie)
      ensures fresh(trie) && fresh(trie.store) && trie.Valid() && trie.tree == EMPTY_TRIE
      ensures trie.store.digest == digest && trie.store.HistoryKept() && trie.store.committed == {}
      ensures trie.store.inMemoryValues == map[] && trie.store.backendValues == map[]
    {
      var store := new Store(digest);
      EmptyIsFree(store.hash);
      trie := new Trie.Empty(store);
    }

    /** A trie over a node read back from the store. */
    constructor Over(store: Store, node: Node, ghost t: Tree)
      ensures this.store == store && root == Some(node) && tree == t
    {
      this.store := store;
      root := Some(node);
      tree := t;
    }

    /** `NewTrie` with a root hash: any committed root can be opened again, as the tree it was committed for. */
    static method Open(rootHash: Bytes, store: Store, ghost t: Tree) returns (r: Option<Trie>)
      requires store.Valid() && store.Quiet() && store.HistoryKept() && CollisionFree(store.hash, store.saved)
      requires NeverEmpty(store.hash) && [] !in store.Values()
      ensures r.None? <==> rootHash !in store.inMemoryNodes && rootHash !in store.backendNodes
      ensures t in store.committed && rootHash == PtrOf(store.hash, t) ==>
        r.Some? && fresh(r.value) && r.value.store == store && r.value.tree == t && r.value.Valid()
    {
      var node := store.GetNode(rootHash);
      if node.None? {
        return None;
      }
      if t in store.committed && rootHash == PtrOf(store.hash, t) {
        HeldIsRead(store.hash, store.inMemoryNodes, store.backendNodes, store.inMemoryValues.Keys + {},
                   store.backendValues.Keys, store.saved, store.saved, t);
      }
      var trie := new Trie.Over(store, node.value, t);
      r := Some(trie);
    }

    ghost predicate Valid()
      reads this, store
    {
      && store.Valid() && store.Quiet() && NeverEmpty(store.hash) && [] !in store.Values()
      && CanonicalRoot(tree) && root == Some(NodeOf(store.hash, tree)) && store.Holds(tree, {})
    }

    /** The store is between commits, and the nodes it saved and may yet save do not collide. */
    ghost predicate Ready(universe: set<Node>)
      reads store
    {
      store.Valid() && store.Quiet() && store.saved <= universe && CollisionFree(store.hash, universe)
    }

    /** The value is stored, or will be before the operation ends. */
    ghost predicate Known(p: Bytes, extra: set<Bytes>)
      reads store
    {
      p in store.inMemoryValues.Keys + extra + store.backendValues.Keys
    }

    ghost predicate Parts(t: Tree, extra: set<Bytes>)
      requires WellFormed(t)
      reads store
    {
      PartsHeld(store.hash, store.inMemoryNodes, store.backendNodes,
                store.inMemoryValues.Keys + extra, store.backendValues.Keys, t)
    }

    method SaveNode(node: Node, ghost t: Tree, ghost extra: set<Bytes>, ghost universe: set<Node>)
      returns (nodePtr: Bytes)
      requires Ready(universe) && WellFormed(t) && !t.Nil? && node == NodeOf(store.hash, t) && node in universe
      requires Parts(t, extra)
      modifies store`inMemoryNodes, store`saved
      ensures Ready(universe) && nodePtr == PtrOf(store.hash, t)
      ensures Grows(old(store.inMemoryNodes), store.inMemoryNodes) && store.Holds(t, extra)
    {
      nodePtr := store.hash(node);
      PutHolds(store.hash, store.inMemoryNodes, store.backendNodes, store.inMemoryValues.Keys + extra,
               store.backendValues.Keys, store.saved, universe, t);
      store.PutNode(nodePtr, node);
    }

    method UpdateEmptyNode(hexKey: HexKey, valuePtr: Bytes, ghost extra: set<Bytes>, ghost universe: set<Node>)
      returns (newNode: Node, nodePtr: Bytes)
      requires Ready(universe) && Known(valuePtr, extra)
      requires NodesOf(store.hash, Leaf(hexKey, Entry(valuePtr, false))) <= universe
      modifies store`inMemoryNodes, store`saved
      ensures Ready(universe) && Grows(old(store.inMemoryNodes), store.inMemoryNodes)
      ensures var t := Leaf(hexKey, Entry(valuePtr, false));
        newNode == NodeOf(store.hash, t) && nodePtr == PtrOf(store.hash, t) && store.Holds(t, extra)
    {
      newNode := ValueNode(hexKey, Some(valuePtr), false);
      nodePtr := SaveNode(newNode, Leaf(hexKey, Entry(valuePtr, false)), extra, universe);
    }

    /** A new branch takes a child that is already held. */
    lemma AddChild(t: Tree, i: int, c: Tree, extra: set<Bytes>)
      requires WellFormed(t) && t.Branch? && 0 <= i < 16 && WellFormed(c) && !c.Nil?
      requires Parts(t, extra) && store.Holds(c, extra)
      ensures var t' := Branch(t.children[i := c], t.entry);
        && WellFormed(t') && Parts(t', extra)
        && NodeOf(store.hash, t') ==
             NodeOf(store.hash, t).(children := NodeOf(store.hash, t).children[i := Some(PtrOf(store.hash, c))])
    {
      AddChildParts(store.hash, store.inMemoryNodes, store.backendNodes, store.inMemoryValues.Keys + extra,
                    store.backendValues.Keys, t, i, c);
      BranchNodeUpdate(store.hash, t, i, c);
    }

    lemma NewBranch(e: Option<Entry>, extra: set<Bytes>)
      requires e.Some? ==> Known(e.value.ptr, extra)
      ensures Parts(Branch(NO_CHILDREN, e), extra)
      ensures NodeOf(store.hash, Branch(NO_CHILDREN, e)) ==
        BranchNode(NO_POINTERS, if e.None? then None else Some(e.value.ptr), e.Some? && e.value.deleted)
    {
      EmptyParts(store.hash, store.inMemoryNodes, store.backendNodes, store.inMemoryValues.Keys + extra,
                 store.backendValues.Keys, e);
      EmptyBranchNode(store.hash, e);
    }

    lemma OneChild(i: Nibble, c: Tree, p: Bytes, extra: set<Bytes>)
      requires store.Holds(c, extra) && !c.Nil? && Known(p, extra)
      ensures var t := Branch(NO_CHILDREN[i := c], Some(Entry(p, false)));
        && WellFormed(t) && Parts(t, extra)
        && NodeOf(store.hash, t) == BranchNode(NO_POINTERS[i := PtrTo(store.hash, c)], Some(p), false)
    {
      NewBranch(Some(Entry(p, false)), extra);
      AddChild(Branch(NO_CHILDREN, Some(Entry(p, false))), i, c, extra);
    }

    lemma TwoChildren(i: Nibble, c1: Tree, j: Nibble, c2: Tree, extra: set<Bytes>)
      requires i != j && store.Holds(c1, extra) && store.Holds(c2, extra) && !c1.Nil? && !c2.Nil?
      ensures var t := Branch(NO_CHILDREN[i := c1][j := c2], None);
        && WellFormed(t) && Parts(t, extra)
        && NodeOf(store.hash, t) ==
             BranchNode(NO_POINTERS[i := PtrTo(store.hash, c1)][j := PtrTo(store.hash, c2)], None, false)
    {
      NewBranch(None, extra);
      AddChild(Branch(NO_CHILDREN, None), i, c1, extra);
      AddChild(Branch(NO_CHILDREN[i := c1], None), j, c2, extra);
    }

    lemma StillHolds(mem: map<Bytes, Node>, t: Tree, extra: set<Bytes>)
      requires WellFormed(t) && Grows(mem, store.inMemoryNodes)
      requires
        Layered(store.hash, mem, store.backendNodes, store.inMemoryValues.Keys + extra, store.backendValues.Keys, t)
      ensures store.Holds(t, extra)
    {
      LayeredGrows(store.hash, mem, store.backendNodes, store.inMemoryValues.Keys + extra,
                   store.backendValues.Keys, store.inMemoryNodes, store.inMemoryValues.Keys + extra, t);
    }

    /** A branch goes below an extension with the common prefix, unless that prefix is empty. */
    method AddPrefix(
      branch: Node, commonPrefix: HexKey, ghost b: Tree, ghost extra: set<Bytes>, ghost universe: set<Node>)
      returns (newNode: Node)
      requires Ready(universe) && WellFormed(b) && b.Branch? && branch == NodeOf(store.hash, b) && Parts(b, extra)
      requires NodesOf(store.hash, WithPrefix(commonPrefix, b)) <= universe
      modifies store`inMemoryNodes, store`saved
      ensures Ready(universe) && Grows(old(store.inMemoryNodes), store.inMemoryNodes)
      ensures newNode == NodeOf(store.hash, WithPrefix(commonPrefix, b)) && Parts(WithPrefix(commonPrefix, b), extra)
    {
      newNode := branch;
      if |commonPrefix| > 0 {
        var branchPtr := SaveNode(branch, b, extra, universe);
        newNode := ExtensionNode(commonPrefix, Some(branchPtr));
      }
    }

    method SplitPathToValueNode(keyLeft: HexKey, newValuePtr: Bytes, orgValuePtr: Bytes, commonPrefix: HexKey,
                                ghost extra: set<Bytes>, ghost universe: set<Node>)
      returns (newNode: Node)
      requires Ready(universe) && keyLeft != [] && Known(newValuePtr, extra) && Known(orgValuePtr, extra)
      requires NodesOf(store.hash, WithPrefix(commonPrefix, SplitPath(keyLeft, newValuePtr, orgValuePtr))) <= universe
      modifies store`inMemoryNodes, store`saved
      ensures Ready(universe) && Grows(old(store.inMemoryNodes), store.inMemoryNodes)
      ensures var t := WithPrefix(commonPrefix, SplitPath(keyLeft, newValuePtr, orgValuePtr));
        newNode == NodeOf(store.hash, t) && Parts(t, extra)
    {
      ghost var b := SplitPath(keyLeft, newValuePtr, orgValuePtr);
      ghost var leaf := Leaf(keyLeft[1..], Entry(orgValuePtr, false));
      NodesOfChild(store.hash, b, keyLeft[0]);
      var leafNode, leafPtr := UpdateEmptyNode(keyLeft[1..], orgValuePtr, extra, universe);
      OneChild(keyLeft[0], leaf, newValuePtr, extra);
      var newBranch := BranchNode(NO_POINTERS[keyLeft[0] := Some(leafPtr)], Some(newValuePtr), false);
      newNode := AddPrefix(newBranch, commonPrefix, b, extra, universe);
    }

    /** `update`: dispatch on the kind of node; `t` is the tree below it, `Nil` for the empty node. */
    method UpdateChild(childPtr: Option<Bytes>, hexKey: HexKey, valuePtr: Bytes, isDeleted: bool,
                       ghost t: Tree, ghost extra: set<Bytes>, ghost universe: set<Node>)
      returns (r: Option<(Node, Bytes)>)
      requires Ready(universe) && store.Holds(t, extra) && Known(valuePtr, extra)
      requires childPtr == PtrTo(store.hash, t) && Canonical(t)
      requires var u := Upd(t, hexKey, valuePtr, isDeleted); u.Some? ==> NodesOf(store.hash, u.value) <= universe
      modifies store`inMemoryNodes, store`saved
      ensures Ready(universe) && Grows(old(store.inMemoryNodes), store.inMemoryNodes)
      ensures var u := Upd(t, hexKey, valuePtr, isDeleted);
        if u.None? then r.None?
        else r == Some((NodeOf(store.hash, u.value), PtrOf(store.hash, u.value))) && store.Holds(u.value, extra)
      decreases t, 2
    {
      if childPtr.None? {
        var newNode, newPtr := UpdateEmptyNode(hexKey, valuePtr, extra, universe);
        return Some((newNode, newPtr));
      }
      HeldIsRead(store.hash, store.inMemoryNodes, store.backendNodes, store.inMemoryValues.Keys + extra,
                 store.backendValues.Keys, store.saved, universe, t);
      var node := store.GetNode(childPtr.value);
      match node.value
      case BranchNode(_, _, _) => r := UpdateBranchNode(node.value, hexKey, valuePtr, isDeleted, t, extra, universe);
      case ExtensionNode(_, _) => r := UpdateExtensionNode(node.value, hexKey, valuePtr, isDeleted, t, extra, universe);
      case ValueNode(_, _, _) => r := UpdateValueNode(node.value, hexKey, valuePtr, isDeleted, t, extra, universe);
    }

    method UpdateBranchNode(node: Node, hexKey: HexKey, valuePtr: Bytes, isDeleted: bool,
                            ghost t: Tree, ghost extra: set<Bytes>, ghost universe: set<Node>)
      returns (r: Option<(Node, Bytes)>)
      requires Ready(universe) && store.Holds(t, extra) && Known(valuePtr, extra)
      requires t.Branch? && node == NodeOf(store.hash, t) && forall i :: 0 <= i < 16 ==> Canonical(t.children[i])
      requires var u := Upd(t, hexKey, valuePtr, isDeleted); u.Some? ==> NodesOf(store.hash, u.value) <= universe
      modifies store`inMemoryNodes, store`saved
      ensures Ready(universe) && Grows(old(store.inMemoryNodes), store.inMemoryNodes)
      ensures var u := Upd(t, hexKey, valuePtr, isDeleted);
        if u.None? then r.None?
        else r == Some((NodeOf(store.hash, u.value), PtrOf(store.hash, u.value))) && store.Holds(u.value, extra)
      decreases t, 0
    {
      ghost var u := Upd(t, hexKey, valuePtr, isDeleted);
      var newNode;
      if |hexKey| == 0 {
        newNode := BranchNode(node.children, Some(valuePtr), isDeleted);
        LayeredChild(store.hash, store.inMemoryNodes, store.backendNodes, store.inMemoryValues.Keys + extra,
                     store.backendValues.Keys, t);
        assert newNode.children == NodeOf(store.hash, u.value).children;
      } else {
        var i := hexKey[0];
        if u.Some? { NodesOfChild(store.hash, u.value, i); }
        LayeredChild(store.hash, store.inMemoryNodes, store.backendNodes, store.inMemoryValues.Keys + extra,
                     store.backendValues.Keys, t);
        var c := UpdateChild(node.children[i], hexKey[1..], valuePtr, isDeleted, t.children[i], extra, universe);
        if c.None? {
          return None;
        }
        newNode := node.(children := node.children[i := Some(c.value.1)]);
        ghost var child := Upd(t.children[i], hexKey[1..], valuePtr, isDeleted).value;
        BranchNodeUpdate(store.hash, t, i, child);
        ReplacedChildParts(
          store.hash, old(store.inMemoryNodes), store.backendNodes, store.inMemoryValues.Keys + extra,
          store.backendValues.Keys, store.inMemoryNodes, t, i, child);
      }
      var nodePtr := SaveNode(newNode, u.value, extra, universe);
      r := Some((newNode, nodePtr));
    }

    /** Two leaves below a new branch, which goes below the common prefix. */
    method ForkLeaves(
      nodeKeyLeft: HexKey, orgValuePtr: Bytes, valueKeyLeft: HexKey, valuePtr: Bytes, commonPrefix: HexKey,
      ghost extra: set<Bytes>, ghost universe: set<Node>)
      returns (newNode: Node)
      requires Ready(universe) && Known(orgValuePtr, extra) && Known(valuePtr, extra)
      requires nodeKeyLeft != [] && valueKeyLeft != [] && nodeKeyLeft[0] != valueKeyLeft[0]
      requires var b := Fork(nodeKeyLeft, orgValuePtr, valueKeyLeft, valuePtr);
        NodesOf(store.hash, WithPrefix(commonPrefix, b)) <= universe
      modifies store`inMemoryNodes, store`saved
      ensures Ready(universe) && Grows(old(store.inMemoryNodes), store.inMemoryNodes)
      ensures var t := WithPrefix(commonPrefix, Fork(nodeKeyLeft, orgValuePtr, valueKeyLeft, valuePtr));
        newNode == NodeOf(store.hash, t) && Parts(t, extra)
    {
      ghost var b := Fork(nodeKeyLeft, orgValuePtr, valueKeyLeft, valuePtr);
      ghost var leaf1 := Leaf(nodeKeyLeft[1..], Entry(orgValuePtr, false));
      ghost var leaf2 := Leaf(valueKeyLeft[1..], Entry(valuePtr, false));
      NodesOfChild(store.hash, b, nodeKeyLeft[0]);
      NodesOfChild(store.hash, b, valueKeyLeft[0]);
      var node1, ptr1 := UpdateEmptyNode(nodeKeyLeft[1..], orgValuePtr, extra, universe);
      ghost var mem := store.inMemoryNodes;
      var node2, ptr2 := UpdateEmptyNode(valueKeyLeft[1..], valuePtr, extra, universe);
      StillHolds(mem, leaf1, extra);
      TwoChildren(nodeKeyLeft[0], leaf1, valueKeyLeft[0], leaf2, extra);
      var children := NO_POINTERS[nodeKeyLeft[0] := Some(ptr1)][valueKeyLeft[0] := Some(ptr2)];
      var newBranch := BranchNode(children, None, false);
      newNode := AddPrefix(newBranch, commonPrefix, b, extra, universe);
    }

    method UpdateValueNode(node: Node, hexKey: HexKey, valuePtr: Bytes, isDeleted: bool,
                           ghost t: Tree, ghost extra: set<Bytes>, ghost universe: set<Node>)
      returns (r: Option<(Node, Bytes)>)
      requires Ready(universe) && store.Holds(t, extra) && Known(valuePtr, extra)
      requires t.Leaf? && node == NodeOf(store.hash, t)
      requires var u := Upd(t, hexKey, valuePtr, isDeleted); u.Some? ==> NodesOf(store.hash, u.value) <= universe
      modifies store`inMemoryNodes, store`saved
      ensures Ready(universe) && Grows(old(store.inMemoryNodes), store.inMemoryNodes)
      ensures var u := Upd(t, hexKey, valuePtr, isDeleted);
        if u.None? then r.None?
        else r == Some((NodeOf(store.hash, u.value), PtrOf(store.hash, u.value))) && store.Holds(u.value, extra)
    {
      ghost var u := Upd(t, hexKey, valuePtr, isDeleted);
      var newNode: Node;
      var commonPrefix := FindCommonPrefix(hexKey, node.key);
      var nodeKeyLeft, valueKeyLeft := node.key[|commonPrefix|..], hexKey[|commonPrefix|..];
      assert Known(node.valuePtr.value, extra);
      if |valueKeyLeft| == 0 && |nodeKeyLeft| == 0 {
        newNode := ValueNode(node.key, Some(valuePtr), isDeleted);
      } else if isDeleted {
        return None;
      } else if |valueKeyLeft| == 0 {
        newNode := SplitPathToValueNode(nodeKeyLeft, valuePtr, node.valuePtr.value, commonPrefix, extra, universe);
      } else if |nodeKeyLeft| == 0 {
        newNode := SplitPathToValueNode(valueKeyLeft, node.valuePtr.value, valuePtr, commonPrefix, extra, universe);
      } else {
        newNode := ForkLeaves(nodeKeyLeft, node.valuePtr.value, valueKeyLeft, valuePtr, commonPrefix, extra, universe);
      }
      var nodePtr := SaveNode(newNode, u.value, extra, universe);
      r := Some((newNode, nodePtr));
    }

    /** What is left of an extension below a new branch: its child, or a shorter extension. */
    method ShortenExtension(
      nodeKeyLeft: HexKey, child: Option<Bytes>, ghost c: Tree, ghost extra: set<Bytes>, ghost universe: set<Node>)
      returns (ptr: Option<Bytes>)
      requires Ready(universe) && nodeKeyLeft != [] && store.Holds(c, extra) && !c.Nil? && child == PtrTo(store.hash, c)
      requires NodesOf(store.hash, Shorten(nodeKeyLeft, c)) <= universe
      modifies store`inMemoryNodes, store`saved
      ensures Ready(universe) && Grows(old(store.inMemoryNodes), store.inMemoryNodes)
      ensures ptr == PtrTo(store.hash, Shorten(nodeKeyLeft, c)) && store.Holds(Shorten(nodeKeyLeft, c), extra)
    {
      if |nodeKeyLeft| > 1 {
        var p := SaveNode(ExtensionNode(nodeKeyLeft[1..], child), Ext(nodeKeyLeft[1..], c), extra, universe);
        ptr := Some(p);
      } else {
        ptr := child;
      }
    }

    /** The key ends inside the extension: the new branch holds the value. */
    method CutAtValue(nodeKeyLeft: HexKey, child: Option<Bytes>, valuePtr: Bytes,
                      ghost c: Tree, ghost extra: set<Bytes>, ghost universe: set<Node>)
      returns (newBranch: Node)
      requires Ready(universe) && store.Holds(c, extra) && !c.Nil? && child == PtrTo(store.hash, c)
      requires Known(valuePtr, extra)
      requires nodeKeyLeft != [] && NodesOf(store.hash, CutExtension(nodeKeyLeft, c, [], valuePtr)) <= universe
      modifies store`inMemoryNodes, store`saved
      ensures Ready(universe) && Grows(old(store.inMemoryNodes), store.inMemoryNodes)
      ensures var b := CutExtension(nodeKeyLeft, c, [], valuePtr); newBranch == NodeOf(store.hash, b) && Parts(b, extra)
    {
      NodesOfChild(store.hash, CutExtension(nodeKeyLeft, c, [], valuePtr), nodeKeyLeft[0]);
      var ptr := ShortenExtension(nodeKeyLeft, child, c, extra, universe);
      OneChild(nodeKeyLeft[0], Shorten(nodeKeyLeft, c), valuePtr, extra);
      newBranch := BranchNode(NO_POINTERS[nodeKeyLeft[0] := ptr], Some(valuePtr), false);
    }

    /** The key turns off inside the extension: the new branch leads to a leaf and to the rest of the extension. */
    method CutAtLeaf(nodeKeyLeft: HexKey, child: Option<Bytes>, valueKeyLeft: HexKey, valuePtr: Bytes,
                     ghost c: Tree, ghost extra: set<Bytes>, ghost universe: set<Node>)
      returns (newBranch: Node)
      requires Ready(universe) && store.Holds(c, extra) && !c.Nil? && child == PtrTo(store.hash, c)
      requires Known(valuePtr, extra)
      requires nodeKeyLeft != [] && valueKeyLeft != [] && nodeKeyLeft[0] != valueKeyLeft[0]
      requires NodesOf(store.hash, CutExtension(nodeKeyLeft, c, valueKeyLeft, valuePtr)) <= universe
      modifies store`inMemoryNodes, store`saved
      ensures Ready(universe) && Grows(old(store.inMemoryNodes), store.inMemoryNodes)
      ensures var b := CutExtension(nodeKeyLeft, c, valueKeyLeft, valuePtr);
        newBranch == NodeOf(store.hash, b) && Parts(b, extra)
    {
      ghost var b := CutExtension(nodeKeyLeft, c, valueKeyLeft, valuePtr);
      ghost var leaf := Leaf(valueKeyLeft[1..], Entry(valuePtr, false));
      NodesOfChild(store.hash, b, nodeKeyLeft[0]);
      NodesOfChild(store.hash, b, valueKeyLeft[0]);
      var leafNode, leafPtr := UpdateEmptyNode(valueKeyLeft[1..], valuePtr, extra, universe);
      StillHolds(old(store.inMemoryNodes), c, extra);
      ghost var mem := store.inMemoryNodes;
      var ptr := ShortenExtension(nodeKeyLeft, child, c, extra, universe);
      StillHolds(mem, leaf, extra);
      TwoChildren(nodeKeyLeft[0], Shorten(nodeKeyLeft, c), valueKeyLeft[0], leaf, extra);
      newBranch := BranchNode(NO_POINTERS[nodeKeyLeft[0] := ptr][valueKeyLeft[0] := Some(leafPtr)], None, false);
    }

    /** The key goes on below the extension. */
    method UpdateBelowExtension(node: Node, hexKey: HexKey, valuePtr: Bytes, isDeleted: bool,
                                ghost t: Tree, ghost extra: set<Bytes>, ghost universe: set<Node>)
      returns (r: Option<(Node, Bytes)>)
      requires Ready(universe) && store.Holds(t, extra) && Known(valuePtr, extra)
      requires t.Ext? && Canonical(t) && node == NodeOf(store.hash, t) && t.key <= hexKey
      requires var u := Upd(t, hexKey, valuePtr, isDeleted); u.Some? ==> NodesOf(store.hash, u.value) <= universe
      modifies store`inMemoryNodes, store`saved
      ensures Ready(universe) && Grows(old(store.inMemoryNodes), store.inMemoryNodes)
      ensures var u := Upd(t, hexKey, valuePtr, isDeleted);
        if u.None? then r.None?
        else r == Some((NodeOf(store.hash, u.value), PtrOf(store.hash, u.value))) && store.Holds(u.value, extra)
      decreases t, 0
    {
      var valueKeyLeft := hexKey[|node.key|..];
      LayeredChild(store.hash, store.inMemoryNodes, store.backendNodes, store.inMemoryValues.Keys + extra,
                   store.backendValues.Keys, t);
      var c := UpdateChild(node.child, valueKeyLeft, valuePtr, isDeleted, t.child, extra, universe);
      var newNode: Node;
      if |valueKeyLeft| == 0 {
        if c.None? {
          return None;
        }
        newNode := ExtensionNode(node.key, Some(c.value.1));
      } else {
        // the error of the child is not looked at
        newNode := ExtensionNode(node.key, if c.None? then None else Some(c.value.1));
      }
      var nodePtr := SaveNode(newNode, Upd(t, hexKey, valuePtr, isDeleted).value, extra, universe);
      r := Some((newNode, nodePtr));
    }

    method UpdateExtensionNode(node: Node, hexKey: HexKey, valuePtr: Bytes, isDeleted: bool,
                               ghost t: Tree, ghost extra: set<Bytes>, ghost universe: set<Node>)
      returns (r: Option<(Node, Bytes)>)
      requires Ready(universe) && store.Holds(t, extra) && Known(valuePtr, extra)
      requires t.Ext? && Canonical(t) && node == NodeOf(store.hash, t)
      requires var u := Upd(t, hexKey, valuePtr, isDeleted); u.Some? ==> NodesOf(store.hash, u.value) <= universe
      modifies store`inMemoryNodes, store`saved
      ensures Ready(universe) && Grows(old(store.inMemoryNodes), store.inMemoryNodes)
      ensures var u := Upd(t, hexKey, valuePtr, isDeleted);
        if u.None? then r.None?
        else r == Some((NodeOf(store.hash, u.value), PtrOf(store.hash, u.value))) && store.Holds(u.value, extra)
      decreases t, 1
    {
      var commonPrefix := FindCommonPrefix(hexKey, node.key);
      var nodeKeyLeft, valueKeyLeft := node.key[|commonPrefix|..], hexKey[|commonPrefix|..];
      if |nodeKeyLeft| == 0 {
        r := UpdateBelowExtension(node, hexKey, valuePtr, isDeleted, t, extra, universe);
        return;
      }
      LayeredChild(store.hash, store.inMemoryNodes, store.backendNodes, store.inMemoryValues.Keys + extra,
                   store.backendValues.Keys, t);
      ghost var b := CutExtension(nodeKeyLeft, t.child, valueKeyLeft, valuePtr);
      var newBranch;
      if |valueKeyLeft| == 0 {
        newBranch := CutAtValue(nodeKeyLeft, node.child, valuePtr, t.child, extra, universe);
      } else {
        newBranch := CutAtLeaf(nodeKeyLeft, node.child, valueKeyLeft, valuePtr, t.child, extra, universe);
      }
      var newNode := AddPrefix(newBranch, commonPrefix, b, extra, universe);
      var nodePtr := SaveNode(newNode, Upd(t, hexKey, valuePtr, isDeleted).value, extra, universe);
      r := Some((newNode, nodePtr));
    }

    /** The walk from the root; it stops wherever the key is used up. */
    method GetPathNodes(key: HexKey) returns (path: seq<Node>, w: Walk)
      requires Valid() && CollisionFree(store.hash, store.saved)
      ensures Agrees(w, GetPath(tree, key))
      ensures w.There? ==>
        path != [] && path[0] == root.value && path[|path| - 1] == w.node && Linked(store.hash, path)
    {
      var node, hexKey := root.value, key;
      ghost var t := tree;
      path := [];
      while true
        invariant !t.Nil? && store.Holds(t, {}) && node == NodeOf(store.hash, t)
        invariant GetPath(tree, key) == GetPath(t, hexKey)
        invariant (path + [node])[0] == root.value && Linked(store.hash, path + [node])
        decreases t
      {
        path := path + [node];
        if |hexKey| == 0 {
          w := if node.ExtensionNode? then Broken else There(node);
          return;
        }
        match node
        case BranchNode(children, _, _) =>
          var childPtr := children[hexKey[0]];
          if childPtr.None? {
            return path, NotThere;
          }
          node := ReadChild(childPtr.value, t, hexKey[0]);
          t := t.children[hexKey[0]];
          hexKey := hexKey[1..];
          LinkedSnoc(store.hash, path, node);
        case ExtensionNode(nodeHexKey, childPtr) =>
          var rest := StripPrefix(hexKey, nodeHexKey);
          if rest.None? {
            return path, NotThere;
          }
          if childPtr.None? {
            return path, Broken;
          }
          node := ReadChild(childPtr.value, t, 0);
          t, hexKey := t.child, rest.value;
          LinkedSnoc(store.hash, path, node);
        case ValueNode(nodeHexKey, _, _) =>
          w := if hexKey == nodeHexKey then There(node) else NotThere;
          return;
      }
    }

    /** A child is read by the pointer in its parent, whose bytes hold the hash of the child. */
    method ReadChild(ptr: Bytes, ghost t: Tree, ghost i: int) returns (node: Node)
      requires store.Valid() && CollisionFree(store.hash, store.saved) && NeverEmpty(store.hash) && store.Holds(t, {})
      requires t.Ext? || (t.Branch? && 0 <= i < 16)
      requires var c := if t.Ext? then t.child else t.children[i]; !c.Nil? && ptr == PtrOf(store.hash, c)
      ensures
        var c := if t.Ext? then t.child else t.children[i];
        store.Holds(c, {}) && node == NodeOf(store.hash, c) && store.hash(node) in NodeBytes(NodeOf(store.hash, t))
    {
      LayeredChild(store.hash, store.inMemoryNodes, store.backendNodes, store.inMemoryValues.Keys + {},
                   store.backendValues.Keys, t);
      ChildInBytes(store.hash, t, i);
      node := ReadNode(ptr, if t.Ext? then t.child else t.children[i]);
    }

    method ReadNode(ptr: Bytes, ghost t: Tree) returns (node: Node)
      requires store.Valid() && CollisionFree(store.hash, store.saved) && store.Holds(t, {})
      requires !t.Nil? && ptr == PtrOf(store.hash, t)
      ensures node == NodeOf(store.hash, t)
    {
      HeldIsRead(store.hash, store.inMemoryNodes, store.backendNodes, store.inMemoryValues.Keys + {},
                 store.backendValues.Keys, store.saved, store.saved, t);
      var r := store.GetNode(ptr);
      node := r.value;
    }

    /** The entry a lookup finds, if any. */
    ghost function Found(k: HexKey): Lookup
      requires WellFormed(tree)
      reads this
    {
      GetPath(tree, k)
    }

    method Get(key: Bytes) returns (r: Reply)
      requires Valid() && CollisionFree(store.hash, store.saved)
      ensures r == ReplyOf(tree, store.Values(), key)
      ensures match Found(ToHex(key))
        case Missing => r == Reply(None)
        case Impossible => r == Error
        case Node(None) => r == Error
        case Node(Some(e)) => if e.deleted then r == Reply(None)
          else e.ptr in store.Values() && r == Reply(Some(store.Values()[e.ptr]))
    {
      var hexKey := ConvertByteToHex(key);
      var path, w := GetPathNodes(hexKey);
      if w.Broken? {
        return Error;
      }
      if w.NotThere? || w.node.deleted {
        return Reply(None);
      }
      var value := store.GetValue(Raw(w.node.valuePtr));
      if Found(hexKey).found.Some? { FoundIsStored(hexKey); }
      r := if value.None? then Error else Reply(value);
    }

    lemma FoundIsStored(k: HexKey)
      requires Valid() && Found(k).Node? && Found(k).found.Some?
      ensures Found(k).found.value.ptr in store.Values()
    {
      FoundIsKnown(store.hash, store.inMemoryNodes, store.backendNodes, store.inMemoryValues.Keys + {},
                   store.backendValues.Keys, tree, k);
    }

    /** The nodes an update of the trie would save on top of those saved so far. */
    ghost function Universe(u: Option<Tree>): set<Node>
      requires u.Some? ==> WellFormed(u.value)
      reads store
    {
      store.saved + if u.Some? then NodesOf(store.hash, u.value) else {}
    }

    /** The root is replaced by what the update of the root branch returns, also when that is an error. */
    method UpdateRoot(hexKey: HexKey, valuePtr: Bytes, isDeleted: bool, ghost extra: set<Bytes>)
      returns (ok: bool)
      requires Valid() && Known(valuePtr, extra)
      requires CollisionFree(store.hash, Universe(Upd(tree, hexKey, valuePtr, isDeleted)))
      modifies this`root, this`tree, store`inMemoryNodes, store`saved
      ensures var u := Upd(old(tree), hexKey, valuePtr, isDeleted);
        && ok == u.Some? && store.Valid() && store.saved <= old(Universe(Upd(tree, hexKey, valuePtr, isDeleted)))
        && if ok then tree == u.value && root == Some(NodeOf(store.hash, tree)) && store.Holds(tree, extra)
           else tree == old(tree) && root == None
      ensures ok && extra == {} && CanonicalRoot(tree) ==> Valid()
      ensures unchanged(store`committed, store`backendNodes, store`backendValues, store`inMemoryValues)
    {
      ghost var u := Upd(tree, hexKey, valuePtr, isDeleted);
      LayeredGrows(store.hash, store.inMemoryNodes, store.backendNodes, store.inMemoryValues.Keys + {},
                   store.backendValues.Keys, store.inMemoryNodes, store.inMemoryValues.Keys + extra, tree);
      var r := UpdateBranchNode(root.value, hexKey, valuePtr, isDeleted, tree, extra, Universe(u));
      ok := r.Some?;
      if ok {
        root, tree := Some(r.value.0), u.value;
      } else {
        root := None;
      }
    }

    /** The insertion of a value that is already hashed. */
    method Insert(hexKey: HexKey, valuePtr: Bytes, value: Bytes)
      requires Valid() && hexKey != [] && valuePtr != []
      requires CollisionFree(store.hash, Universe(Upd(tree, hexKey, valuePtr, false)))
      modifies this`root, this`tree, store`inMemoryNodes, store`saved, store`inMemoryValues
      ensures Valid() && tree == Upd(old(tree), hexKey, valuePtr, false).value
      ensures store.Values() == old(store.Values())[valuePtr := value]
      ensures store.inMemoryValues == old(store.inMemoryValues)[valuePtr := value]
      ensures store.saved <= old(Universe(Upd(tree, hexKey, valuePtr, false)))
      ensures unchanged(store`committed, store`backendNodes, store`backendValues)
    {
      CanonicalRootUpdate(tree, hexKey, valuePtr, false);
      var _ := UpdateRoot(hexKey, valuePtr, false, {valuePtr});
      PutIntoLayers(store.backendValues, store.valuesToPersist, store.inMemoryValues, valuePtr, value);
      store.PutValue(valuePtr, value);
    }

    /** Provided its nodes collide with no node saved before, an update is an insertion. */
    method Update(key: Bytes, value: Bytes) returns (ok: bool)
      requires Valid()
      requires key != [] ==>
        CollisionFree(store.hash, Universe(Upd(tree, ToHex(key), KeyValueHash(store.digest, key, value), false)))
      modifies this`root, this`tree, store`inMemoryNodes, store`saved, store`inMemoryValues
      ensures ok == (key != []) && Valid()
      ensures var p := KeyValueHash(store.digest, key, value);
        && tree == (if ok then Upd(old(tree), ToHex(key), p, false).value else old(tree))
        && store.Values() == (if ok then old(store.Values())[p := value] else old(store.Values()))
        && store.inMemoryValues == (if ok then old(store.inMemoryValues)[p := value] else old(store.inMemoryValues))
      ensures unchanged(store`committed, store`backendNodes, store`backendValues)
    {
      if |key| == 0 {
        return false;
      }
      var valuePtr := KeyValueHash(store.digest, key, value);
      var hexKey := ConvertByteToHex(key);
      Insert(hexKey, valuePtr, value);
      ok := true;
    }

    /**
     * The delete of a key that is not ambiguous sets its tombstone and keeps the trie valid. For an ambiguous key
     * the outcome is still the one of `DeleteOutcome`: the root may be gone, or a child may be missing below it.
     */
    method Delete(key: Bytes) returns (r: Reply)
      requires Valid()
      requires CollisionFree(store.hash, Universe(DeleteOutcome(tree, ToHex(key)).root))
      modifies this`root, this`tree, store`inMemoryNodes, store`saved
      ensures key == [] ==> r == Error && Valid() && tree == old(tree)
      ensures key != [] ==>
        var o := DeleteOutcome(old(tree), ToHex(key));
        && (r == Error <==> !o.ok)
        && (if o.root.None? then root == None else tree == o.root.value && root == Some(NodeOf(store.hash, tree)))
      ensures key != [] && !Ambiguous(Keys(old(tree)), ToHex(key)) ==> Valid() && r != Error
      ensures unchanged(store`committed, store`backendNodes, store`backendValues, store`inMemoryValues)
    {
      if |key| == 0 {
        return Error;
      }
      var hexKey := ConvertByteToHex(key);
      assert CollisionFree(store.hash, store.saved);
      var valuePtr;
      r, valuePtr := ToDelete(hexKey);
      if !Ambiguous(Keys(tree), hexKey) { DeleteExact(tree, hexKey); DeleteKeepsForm(tree, hexKey); }
      if r.Reply? && r.value.Some? {
        var ok := UpdateRoot(hexKey, valuePtr, true, {});
        r := if ok then r else Error;
      }
    }

    /** The value to be deleted and its pointer; an error where the walk ends on a node without a value. */
    method ToDelete(hexKey: HexKey) returns (r: Reply, valuePtr: Bytes)
      requires Valid() && CollisionFree(store.hash, store.saved)
      ensures match Found(hexKey)
        case Missing => r == Reply(None)
        case Node(Some(e)) =>
          && valuePtr == e.ptr && valuePtr in store.Values() && Known(valuePtr, {})
          && r == Reply(Some(store.Values()[valuePtr]))
        case _ => r == Error
    {
      var path, w := GetPathNodes(hexKey);
      valuePtr := [];
      if w.Broken? {
        return Error, valuePtr;
      }
      if w.NotThere? {
        return Reply(None), valuePtr;
      }
      valuePtr := Raw(w.node.valuePtr);
      var value := store.GetValue(valuePtr);
      if Found(hexKey).found.Some? { FoundIsStored(hexKey); }
      r := if value.None? then Error else Reply(value);
    }

    ghost predicate Marked(t: Tree)
      requires WellFormed(t)
      reads store
    {
      Durable(
        store.hash, store.backendNodes, store.nodesToPersist, store.backendValues.Keys, store.valuesToPersist.Keys, t)
    }

    lemma StillMarked(marked: map<Bytes, Node>, values: set<Bytes>, t: Tree)
      requires store.Valid() && CollisionFree(store.hash, store.saved) && WellFormed(t)
      requires Grows(marked, store.nodesToPersist) && values <= store.valuesToPersist.Keys
      requires Durable(store.hash, store.backendNodes, marked, store.backendValues.Keys, values, t)
      ensures Marked(t)
    {
      MarkedAgrees(store.hash, store.inMemoryNodes, store.nodesToPersist, store.backendNodes, store.saved);
      DurableGrows(store.hash, store.backendNodes, marked, store.nodesToPersist, store.backendValues.Keys, values,
                   store.valuesToPersist.Keys, t);
    }

    /** Everything below the top node of `t` is marked. */
    ghost predicate PartsMarked(t: Tree)
      requires WellFormed(t)
      reads store
    {
      match t
      case Nil => true
      case Leaf(_, e) => e.ptr in store.backendValues.Keys + store.valuesToPersist.Keys
      case Ext(_, child) => Marked(child)
      case Branch(children, entry) =>
        && EntryIn(entry, store.backendValues.Keys + store.valuesToPersist.Keys)
        && forall i :: 0 <= i < 16 ==> Marked(children[i])
    }

    lemma MarkTop(t: Tree)
      requires store.Valid() && CollisionFree(store.hash, store.saved) && WellFormed(t) && !t.Nil? && PartsMarked(t)
      requires var p := PtrOf(store.hash, t);
        p in store.nodesToPersist && store.nodesToPersist[p] == NodeOf(store.hash, t)
      ensures Marked(t)
    {}

    /** Marks a subtrie for the backend; what is not in memory was persisted before, with everything below it. */
    method PersistSubtrie(nodePtr: Bytes, ghost t: Tree)
      requires store.Valid() && CollisionFree(store.hash, store.saved)
      requires store.Holds(t, {}) && !t.Nil? && nodePtr == PtrOf(store.hash, t)
      requires Canonical(t) || CanonicalRoot(t)
      modifies store`nodesToPersist, store`valuesToPersist
      ensures store.Valid() && Marked(t)
      ensures Grows(old(store.nodesToPersist), store.nodesToPersist)
      ensures old(store.valuesToPersist.Keys) <= store.valuesToPersist.Keys
      decreases t, 2
    {
      var wasChanged := store.PersistNode(nodePtr);
      if !wasChanged {
        MarkedAgrees(store.hash, store.inMemoryNodes, store.nodesToPersist, store.backendNodes, store.saved);
        CompleteIsDurable(store.hash, store.backendNodes, store.nodesToPersist, store.backendValues.Keys,
                          store.valuesToPersist.Keys, t);
        return;
      }
      var node := ReadNode(nodePtr, t);
      PersistParts(node, t);
      MarkTop(t);
    }

    method PersistParts(node: Node, ghost t: Tree)
      requires store.Valid() && CollisionFree(store.hash, store.saved)
      requires store.Holds(t, {}) && !t.Nil? && node == NodeOf(store.hash, t)
      requires Canonical(t) || CanonicalRoot(t)
      modifies store`nodesToPersist, store`valuesToPersist
      ensures store.Valid() && PartsMarked(t)
      ensures Grows(old(store.nodesToPersist), store.nodesToPersist)
      ensures old(store.valuesToPersist.Keys) <= store.valuesToPersist.Keys
      decreases t, 1
    {
      LayeredChild(store.hash, store.inMemoryNodes, store.backendNodes, store.inMemoryValues.Keys + {},
                   store.backendValues.Keys, t);
      match node
      case BranchNode(children, valuePtr, _) =>
        PersistChildren(children, t);
        ghost var marked, values := store.nodesToPersist, store.valuesToPersist.Keys;
        if valuePtr.Some? {
          var _ := store.PersistValue(valuePtr.value);
        }
        forall i | 0 <= i < 16 ensures Marked(t.children[i]) { StillMarked(marked, values, t.children[i]); }
      case ExtensionNode(_, child) => PersistSubtrie(child.value, t.child);
      case ValueNode(_, valuePtr, _) => var _ := store.PersistValue(valuePtr.value);
    }

    method PersistChildren(children: seq<Option<Bytes>>, ghost t: Tree)
      requires store.Valid() && CollisionFree(store.hash, store.saved)
      requires WellFormed(t) && t.Branch? && children == NodeOf(store.hash, t).children
      requires forall i :: 0 <= i < 16 ==> store.Holds(t.children[i], {}) && Canonical(t.children[i])
      modifies store`nodesToPersist, store`valuesToPersist
      ensures store.Valid() && forall i :: 0 <= i < 16 ==> Marked(t.children[i])
      ensures Grows(old(store.nodesToPersist), store.nodesToPersist)
      ensures old(store.valuesToPersist.Keys) <= store.valuesToPersist.Keys
      decreases t, 0
    {
      for i := 0 to 16
        invariant store.Valid() && forall j :: 0 <= j < i ==> Marked(t.children[j])
        invariant Grows(old(store.nodesToPersist), store.nodesToPersist)
        invariant old(store.valuesToPersist.Keys) <= store.valuesToPersist.Keys
      {
        ghost var marked, values := store.nodesToPersist, store.valuesToPersist.Keys;
        if children[i].Some? {
          PersistSubtrie(children[i].value, t.children[i]);
        }
        forall j | 0 <= j < i ensures Marked(t.children[j]) { StillMarked(marked, values, t.children[j]); }
      }
    }

    /**
     * After a commit the backend alone holds the whole current trie, its values included, and every trie
     * committed before it. No value is lost from the backend, and each one there was stored under its pointer before.
     */
    method Commit(blockNum: nat)
      requires Valid() && store.HistoryKept() && CollisionFree(store.hash, store.saved)
      modifies store
      ensures Valid() && tree == old(tree) && store.HistoryKept()
      ensures store.committed == old(store.committed) + {tree} && store.saved == old(store.saved)
      ensures Complete(store.hash, store.backendNodes, store.backendValues.Keys, tree)
      ensures store.lastBlock == blockNum && store.inMemoryNodes == map[] && store.inMemoryValues == map[]
      ensures old(store.backendValues.Keys) <= store.backendValues.Keys
      ensures TakenFrom(store.backendValues, old(store.backendValues), old(store.inMemoryValues))
    {
      var rootHash := store.hash(root.value);
      PersistSubtrie(rootHash, tree);
      store.CommitChanges(blockNum);
      assert store.backendValues.Keys == old(store.backendValues.Keys) + store.backendValues.Keys;
      store.committed := store.committed + {tree};
    }
  }
}
