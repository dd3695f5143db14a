/**
 * The Merkle-Patricia trie as an immutable tree. Node pointers are resolved, so a tree is what a root
 * pointer denotes; `Upd` follows the four update functions of the trie branch by branch.
 */
module TrieTree {
  import opened Basics

  /** A value pointer together with its tombstone flag. */
  datatype Entry = Entry(ptr: Bytes, deleted: bool)

  datatype Tree =
    | Nil
    | Leaf(key: HexKey, leaf: Entry)
    | Ext(key: HexKey, child: Tree)
    | Branch(children: seq<Tree>, entry: Option<Entry>)

  const NO_CHILDREN: seq<Tree> :=
    [Nil, Nil, Nil, Nil, Nil, Nil, Nil, Nil, Nil, Nil, Nil, Nil, Nil, Nil, Nil, Nil]

  /** Every branch has sixteen children. */
  ghost predicate WellFormed(t: Tree) {
    match t
    case Nil => true
    case Leaf(_, _) => true
    case Ext(_, child) => WellFormed(child)
    case Branch(children, _) => |children| == 16 && forall i :: 0 <= i < 16 ==> WellFormed(children[i])
  }

  function CommonPrefix(a: HexKey, b: HexKey): (c: HexKey)
    ensures c <= a && c <= b
    ensures |c| < |a| && |c| < |b| ==> a[|c|] != b[|c|]
  {
    if a == [] || b == [] || a[0] != b[0] then [] else [a[0]] + CommonPrefix(a[1..], b[1..])
  }

  /** An extension is placed above a new branch only when the common prefix is not empty. */
  function WithPrefix(prefix: HexKey, t: Tree): (r: Tree)
    ensures WellFormed(t) ==> WellFormed(r)
  {
    if prefix == [] then t else Ext(prefix, t)
  }

  /** A branch holding one value, with one leaf below it. */
  function SplitPath(keyLeft: HexKey, branchPtr: Bytes, leafPtr: Bytes): (r: Tree)
    requires keyLeft != []
    ensures WellFormed(r)
  {
    Branch(NO_CHILDREN[keyLeft[0] := Leaf(keyLeft[1..], Entry(leafPtr, false))], Some(Entry(branchPtr, false)))
  }

  /** What remains of an extension below the branch that cuts it at its first nibble. */
  function Shorten(keyLeft: HexKey, child: Tree): (r: Tree)
    requires keyLeft != []
    ensures WellFormed(child) ==> WellFormed(r)
  {
    if |keyLeft| == 1 then child else Ext(keyLeft[1..], child)
  }

  /** A branch without a value over two leaves. */
  function Fork(oldLeft: HexKey, oldPtr: Bytes, newLeft: HexKey, newPtr: Bytes): (r: Tree)
    requires oldLeft != [] && newLeft != []
    ensures WellFormed(r)
  {
    Branch(NO_CHILDREN[oldLeft[0] := Leaf(oldLeft[1..], Entry(oldPtr, false))]
                      [newLeft[0] := Leaf(newLeft[1..], Entry(newPtr, false))], None)
  }

  function UpdLeaf(nodeKey: HexKey, node: Entry, k: HexKey, p: Bytes, del: bool): (r: Option<Tree>)
    ensures !del ==> r.Some?
    ensures r.Some? ==> WellFormed(r.value) && !r.value.Nil?
  {
    var c := CommonPrefix(k, nodeKey);
    var nodeLeft, keyLeft := nodeKey[|c|..], k[|c|..];
    if nodeLeft == [] && keyLeft == [] then Some(Leaf(nodeKey, Entry(p, del)))
    else if del then None
    else if keyLeft == [] then Some(WithPrefix(c, SplitPath(nodeLeft, p, node.ptr)))
    else if nodeLeft == [] then Some(WithPrefix(c, SplitPath(keyLeft, node.ptr, p)))
    else Some(WithPrefix(c, Fork(nodeLeft, node.ptr, keyLeft, p)))
  }

  /** The branch that cuts an extension: the rest of the extension on one side, the new value on the other. */
  function CutExtension(nodeLeft: HexKey, child: Tree, keyLeft: HexKey, p: Bytes): (r: Tree)
    requires nodeLeft != []
    ensures WellFormed(child) ==> WellFormed(r)
  {
    var below := NO_CHILDREN[nodeLeft[0] := Shorten(nodeLeft, child)];
    if keyLeft == [] then Branch(below, Some(Entry(p, false)))
    else Branch(below[keyLeft[0] := Leaf(keyLeft[1..], Entry(p, false))], None)
  }

  /** An extension whose key leaves the path of `k` before its end. */
  function UpdExtSplit(nodeKey: HexKey, child: Tree, k: HexKey, p: Bytes): (r: Tree)
    requires !(nodeKey <= k)
    ensures WellFormed(child) ==> WellFormed(r)
  {
    var c := CommonPrefix(k, nodeKey);
    WithPrefix(c, CutExtension(nodeKey[|c|..], child, k[|c|..], p))
  }

  /**
   * One update. `None` is the error return. An extension whose key is a proper prefix of `k` drops the error
   * of its child and keeps no child at all.
   */
  function Upd(t: Tree, k: HexKey, p: Bytes, del: bool): (r: Option<Tree>)
    requires WellFormed(t)
    ensures !del ==> r.Some?
    ensures r.Some? ==> WellFormed(r.value) && !r.value.Nil?
    decreases t
  {
    match t
    case Nil => Some(Leaf(k, Entry(p, false)))
    case Leaf(nodeKey, node) => UpdLeaf(nodeKey, node, k, p, del)
    case Ext(nodeKey, child) =>
      if nodeKey == k then
        var r := Upd(child, [], p, del);
        if r.None? then None else Some(Ext(nodeKey, r.value))
      else if nodeKey <= k then
        var r := Upd(child, k[|nodeKey|..], p, del);
        Some(Ext(nodeKey, if r.None? then Nil else r.value))
      else Some(UpdExtSplit(nodeKey, child, k, p))
    case Branch(children, entry) =>
      if k == [] then Some(Branch(children, Some(Entry(p, del))))
      else
        var r := Upd(children[k[0]], k[1..], p, del);
        if r.None? then None else Some(Branch(children[k[0] := r.value], entry))
  }

  /** The meaning of a tree: the entry stored for each key. */
  function Find(t: Tree, k: HexKey): Option<Entry>
    requires WellFormed(t)
    decreases t
  {
    match t
    case Nil => None
    case Leaf(key, e) => if k == key then Some(e) else None
    case Ext(key, child) => if key <= k then Find(child, k[|key|..]) else None
    case Branch(children, entry) => if k == [] then entry else Find(children[k[0]], k[1..])
  }

  /** The stored key, if any, whose leaf an insertion of `k` splits. */
  function Displaced(t: Tree, k: HexKey): Option<HexKey>
    requires WellFormed(t)
    decreases t
  {
    match t
    case Nil => None
    case Leaf(key, _) => if key == k then None else Some(key)
    case Ext(key, child) =>
      if key <= k then
        var d := Displaced(child, k[|key|..]);
        if d.None? then None else Some(key + d.value)
      else None
    case Branch(children, _) =>
      if k == [] then None else
      var d := Displaced(children[k[0]], k[1..]);
      if d.None? then None else Some([k[0]] + d.value)
  }


  /**
   * The normal form: extensions carry a key and lead to a branch, and a branch below the root has at least
   * two occupants, counting its own entry.
   */
  ghost predicate Canonical(t: Tree)
    requires WellFormed(t)
  {
    match t
    case Nil => true
    case Leaf(_, _) => true
    case Ext(key, child) => key != [] && child.Branch? && Canonical(child)
    case Branch(children, entry) =>
      && (forall i :: 0 <= i < 16 ==> Canonical(children[i]))
      && Crowded(children, entry)
  }

  /** Two different keys leave the branch in different directions. */
  ghost predicate Crowded(children: seq<Tree>, entry: Option<Entry>)
    requires |children| == 16
  {
    || (exists i, j :: 0 <= i < j < 16 && !children[i].Nil? && !children[j].Nil?)
    || (entry.Some? && exists i :: 0 <= i < 16 && !children[i].Nil?)
  }

  /** The root is always a branch, possibly empty, without a value of its own. */
  ghost predicate CanonicalRoot(t: Tree) {
    && WellFormed(t)
    && t.Branch? && t.entry.None?
    && forall i :: 0 <= i < 16 ==> Canonical(t.children[i])
  }
}
