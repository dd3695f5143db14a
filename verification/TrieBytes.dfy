/** What the bytes that are hashed tell about a trie node, when all pointers have one length. */
module TrieBytes {
  import opened Basics
  import opened TrieTree
  import opened TrieNodes

  ghost predicate SizedPtr(p: Option<Bytes>, d: nat) { p.Some? ==> |p.value| == d }

  /** All pointers of the node have `d` bytes; only a branch may be without one. */
  ghost predicate SizedNode(n: Node, d: nat) {
    match n
    case BranchNode(children, valuePtr, _) =>
      SizedPtr(valuePtr, d) && forall i :: 0 <= i < |children| ==> SizedPtr(children[i], d)
    case ExtensionNode(_, child) => child.Some? && |child.value| == d
    case ValueNode(_, valuePtr, _) => valuePtr.Some? && |valuePtr.value| == d
  }

  ghost predicate SameKind(m: Node, n: Node) {
    || (m.BranchNode? && n.BranchNode? && m.deleted == n.deleted)
    || (m.ExtensionNode? && n.ExtensionNode?)
    || (m.ValueNode? && n.ValueNode? && m.deleted == n.deleted)
  }

  /** The pointers that are there, in order. */
  ghost function Present(ps: seq<Option<Bytes>>): seq<Bytes> {
    if ps == [] then [] else (if ps[0].None? then [] else [ps[0].value]) + Present(ps[1..])
  }

  /** A branch is told by its pointers in order, without their positions; every other node by itself. */
  ghost predicate SameContent(m: Node, n: Node) {
    if m.BranchNode? && n.BranchNode? then
      Present(m.children + [m.valuePtr]) == Present(n.children + [n.valuePtr])
    else m == n
  }

  lemma {:induction false} ConcatAppend(a: seq<Bytes>, b: seq<Bytes>)
    ensures Concat(a + b) == Concat(a) + Concat(b)
  {
    if a == [] {
      assert a + b == b;
    } else {
      assert (a + b)[1..] == a[1..] + b;
      ConcatAppend(a[1..], b);
    }
  }

  lemma ConcatNonEmpty(b: Bytes)
    ensures Concat(NonEmpty(b)) == b
  {
    if b != [] { assert [b][1..] == []; }
  }

  lemma {:induction false} PresentAppend(a: seq<Option<Bytes>>, b: seq<Option<Bytes>>)
    ensures Present(a + b) == Present(a) + Present(b)
  {
    if a == [] {
      assert a + b == b;
    } else {
      assert (a + b)[1..] == a[1..] + b;
      PresentAppend(a[1..], b);
    }
  }

  lemma {:induction false} PresentSized(ps: seq<Option<Bytes>>, d: nat)
    requires forall i :: 0 <= i < |ps| ==> SizedPtr(ps[i], d)
    ensures forall x :: x in Present(ps) ==> |x| == d
  {
    if ps != [] { PresentSized(ps[1..], d); }
  }

  lemma {:induction false} ConcatRaw(ps: seq<Option<Bytes>>, bs: seq<Bytes>)
    requires |bs| == |ps| && forall i :: 0 <= i < |ps| ==> bs[i] == Raw(ps[i])
    ensures Concat(bs) == Concat(Present(ps))
  {
    if ps != [] {
      ConcatRaw(ps[1..], bs[1..]);
      ConcatAppend(if ps[0].None? then [] else [ps[0].value], Present(ps[1..]));
      if ps[0].Some? { assert [ps[0].value][1..] == []; }
    }
  }

  /** The bytes of a node, put together. */
  lemma NodeString(n: Node)
    ensures n.ExtensionNode? ==> Concat(NodeBytes(n)) == n.key + Raw(n.child)
    ensures n.ValueNode? ==> Concat(NodeBytes(n)) == n.key + Raw(n.valuePtr) + (if n.deleted then [1] else [])
    ensures n.BranchNode? ==>
      Concat(NodeBytes(n)) == Concat(Present(n.children + [n.valuePtr])) + (if n.deleted then [1] else [])
  {
    match n
    case ExtensionNode(key, child) =>
      ConcatNonEmpty(key);
      ConcatNonEmpty(Raw(child));
      ConcatAppend(NonEmpty(key), NonEmpty(Raw(child)));
    case ValueNode(key, valuePtr, deleted) =>
      ConcatNonEmpty(key);
      ConcatNonEmpty(Raw(valuePtr));
      ConcatAppend(NonEmpty(key), NonEmpty(Raw(valuePtr)));
      MarkerString(NonEmpty(key) + NonEmpty(Raw(valuePtr)), deleted);
    case BranchNode(children, valuePtr, deleted) => BranchString(n);
  }

  lemma MarkerString(bs: seq<Bytes>, deleted: bool)
    ensures Concat(bs + Marker(deleted)) == Concat(bs) + (if deleted then [1] else [])
  {
    ConcatAppend(bs, Marker(deleted));
    if deleted { assert Marker(deleted)[1..] == []; }
  }

  lemma BranchString(n: Node)
    requires n.BranchNode?
    ensures Concat(NodeBytes(n)) == Concat(Present(n.children + [n.valuePtr])) + (if n.deleted then [1] else [])
  {
    var raw := seq(|n.children|, i requires 0 <= i < |n.children| => Raw(n.children[i]));
    var value := NonEmpty(Raw(n.valuePtr));
    assert NodeBytes(n) == raw + value + Marker(n.deleted);
    MarkerString(raw + value, n.deleted);
    ConcatAppend(raw, value);
    ConcatRaw(n.children, raw);
    ConcatNonEmpty(Raw(n.valuePtr));
    ConcatRaw([n.valuePtr], [Raw(n.valuePtr)]);
    assert [Raw(n.valuePtr)][1..] == [];
    PresentAppend(n.children, [n.valuePtr]);
    ConcatAppend(Present(n.children), Present([n.valuePtr]));
  }

  lemma ConcatEmpty(a: seq<Bytes>, d: nat)
    requires d > 0 && forall x :: x in a ==> |x| == d
    ensures Concat(a) == [] <==> a == []
  {
    if a != [] { assert a[0] in a && |Concat(a)| >= |a[0]|; }
  }

  lemma {:induction false} ConcatTells(a: seq<Bytes>, b: seq<Bytes>, d: nat)
    requires d > 0 && (forall x :: x in a ==> |x| == d) && (forall x :: x in b ==> |x| == d)
    requires Concat(a) == Concat(b)
    ensures a == b
  {
    ConcatEmpty(a, d);
    ConcatEmpty(b, d);
    if a != [] {
      assert a[0] in a && b[0] in b;
      SplitTells(a[0], Concat(a[1..]), b[0], Concat(b[1..]));
      ConcatTells(a[1..], b[1..], d);
      assert a == [a[0]] + a[1..] && b == [b[0]] + b[1..];
    }
  }

  lemma SplitTells(a: Bytes, b: Bytes, x: Bytes, y: Bytes)
    requires a + b == x + y && (|a| == |x| || |b| == |y|)
    ensures a == x && b == y
  {
    assert |a + b| == |a| + |b| && |x + y| == |x| + |y|;
    assert a == (a + b)[..|a|] && x == (x + y)[..|a|];
    assert b == (a + b)[|a|..] && y == (x + y)[|a|..];
  }

  /** Nodes of one kind are hashed from the same string exactly when they have the same content. */
  lemma BytesTell(m: Node, n: Node, d: nat)
    requires d > 0 && SizedNode(m, d) && SizedNode(n, d) && SameKind(m, n)
    ensures Concat(NodeBytes(m)) == Concat(NodeBytes(n)) <==> SameContent(m, n)
  {
    NodeString(m);
    NodeString(n);
    if Concat(NodeBytes(m)) == Concat(NodeBytes(n)) {
      match m
      case ExtensionNode(key, child) => SplitTells(key, child.value, n.key, n.child.value);
      case ValueNode(key, valuePtr, deleted) =>
        var mark: Bytes := if deleted then [1] else [];
        SplitTells(key + valuePtr.value, mark, n.key + n.valuePtr.value, mark);
        SplitTells(key, valuePtr.value, n.key, n.valuePtr.value);
      case BranchNode(_, _, _) => BranchTells(m, n, d);
    }
  }

  lemma BranchTells(m: Node, n: Node, d: nat)
    requires d > 0 && SizedNode(m, d) && SizedNode(n, d)
    requires m.BranchNode? && n.BranchNode? && m.deleted == n.deleted
    requires Concat(NodeBytes(m)) == Concat(NodeBytes(n))
    ensures Present(m.children + [m.valuePtr]) == Present(n.children + [n.valuePtr])
  {
    BranchString(m);
    BranchString(n);
    BranchSized(m, d);
    BranchSized(n, d);
    MarkedTells(Present(m.children + [m.valuePtr]), Present(n.children + [n.valuePtr]),
                if m.deleted then [1] else [], d);
  }

  lemma BranchSized(n: Node, d: nat)
    requires n.BranchNode? && SizedNode(n, d)
    ensures forall x :: x in Present(n.children + [n.valuePtr]) ==> |x| == d
  {
    PresentSized(n.children + [n.valuePtr], d);
  }

  lemma MarkedTells(a: seq<Bytes>, b: seq<Bytes>, mark: Bytes, d: nat)
    requires d > 0 && (forall x :: x in a ==> |x| == d) && (forall x :: x in b ==> |x| == d)
    requires Concat(a) + mark == Concat(b) + mark
    ensures a == b
  {
    SplitTells(Concat(a), mark, Concat(b), mark);
    ConcatTells(a, b, d);
  }

  /** Extension and value nodes of one kind do not collide unless the digest does on their strings. */
  lemma KindIsCollisionFree(h: Digest, nodes: set<Node>, d: nat)
    requires d > 0 && forall n :: n in nodes ==> SizedNode(n, d) && !n.BranchNode?
    requires forall m, n :: m in nodes && n in nodes ==> SameKind(m, n)
    requires forall m, n :: m in nodes && n in nodes ==>
      h(Concat(NodeBytes(m))) == h(Concat(NodeBytes(n))) ==> Concat(NodeBytes(m)) == Concat(NodeBytes(n))
    ensures CollisionFree(NodeHasher(h), nodes)
  {
    forall m, n | m in nodes && n in nodes && NodeHasher(h)(m) == NodeHasher(h)(n) ensures m == n {
      BytesTell(m, n, d);
    }
  }
}
