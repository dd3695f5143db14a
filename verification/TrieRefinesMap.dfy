/** The trie refines a map: what one update does to the entry of every key. */
module TrieRefinesMap {
  import opened Basics
  import opened TrieTree

  /** The entry found for `q` after `k` was set to `p`, given what was found before and the displaced key. */
  function Expected(before: Option<Entry>, q: HexKey, k: HexKey, p: Bytes, displaced: Option<HexKey>): Option<Entry> {
    if q == k then Some(Entry(p, false))
    else if displaced == Some(q) && before.Some? then Some(Entry(before.value.ptr, false))
    else before
  }

  lemma FindBelowPrefix(prefix: HexKey, t: Tree, rest: HexKey)
    requires WellFormed(t)
    ensures Find(WithPrefix(prefix, t), prefix + rest) == Find(t, rest)
  {
    assert (prefix + rest)[|prefix|..] == rest;
    assert prefix == [] ==> prefix + rest == rest;
  }

  lemma SplitAt(prefix: HexKey, q: HexKey)
    requires prefix <= q
    ensures q == prefix + q[|prefix|..]
  {}

  lemma FindSplitPath(keyLeft: HexKey, branchPtr: Bytes, leafPtr: Bytes, q: HexKey)
    requires keyLeft != []
    ensures Find(SplitPath(keyLeft, branchPtr, leafPtr), q) ==
      if q == [] then Some(Entry(branchPtr, false))
      else if q == keyLeft then Some(Entry(leafPtr, false)) else None
  {
    assert keyLeft == [keyLeft[0]] + keyLeft[1..];
    if q != [] { assert q == [q[0]] + q[1..]; }
  }

  lemma FindFork(oldLeft: HexKey, oldPtr: Bytes, newLeft: HexKey, newPtr: Bytes, q: HexKey)
    requires oldLeft != [] && newLeft != [] && oldLeft[0] != newLeft[0]
    ensures Find(Fork(oldLeft, oldPtr, newLeft, newPtr), q) ==
      if q == oldLeft then Some(Entry(oldPtr, false))
      else if q == newLeft then Some(Entry(newPtr, false)) else None
  {
    assert oldLeft == [oldLeft[0]] + oldLeft[1..];
    assert newLeft == [newLeft[0]] + newLeft[1..];
    if q != [] { assert q == [q[0]] + q[1..]; }
  }

  /** The tree that replaces a split leaf, by which of the two keys ends at the common prefix. */
  lemma FindSplitLeaf(c: HexKey, nodeLeft: HexKey, keyLeft: HexKey, ptr: Bytes, p: Bytes, rest: HexKey)
    requires nodeLeft != keyLeft
    requires nodeLeft != [] && keyLeft != [] ==> nodeLeft[0] != keyLeft[0]
    ensures var t := if keyLeft == [] then SplitPath(nodeLeft, p, ptr)
                     else if nodeLeft == [] then SplitPath(keyLeft, ptr, p)
                     else Fork(nodeLeft, ptr, keyLeft, p);
      Find(WithPrefix(c, t), c + rest) ==
        if rest == keyLeft then Some(Entry(p, false))
        else if rest == nodeLeft then Some(Entry(ptr, false)) else None
  {
    if keyLeft == [] {
      FindBelowPrefix(c, SplitPath(nodeLeft, p, ptr), rest);
      FindSplitPath(nodeLeft, p, ptr, rest);
    } else if nodeLeft == [] {
      FindBelowPrefix(c, SplitPath(keyLeft, ptr, p), rest);
      FindSplitPath(keyLeft, ptr, p, rest);
    } else {
      FindBelowPrefix(c, Fork(nodeLeft, ptr, keyLeft, p), rest);
      FindFork(nodeLeft, ptr, keyLeft, p, rest);
    }
  }

  /** A leaf that is split keeps its pointer and loses its tombstone. */
  lemma FindUpdLeaf(nodeKey: HexKey, node: Entry, k: HexKey, p: Bytes, q: HexKey)
    ensures var t := Leaf(nodeKey, node);
      Find(UpdLeaf(nodeKey, node, k, p, false).value, q) == Expected(Find(t, q), q, k, p, Displaced(t, k))
  {
    var c := CommonPrefix(k, nodeKey);
    SplitAt(c, k);
    SplitAt(c, nodeKey);
    var nodeLeft, keyLeft := nodeKey[|c|..], k[|c|..];
    if nodeLeft != keyLeft {
      if c <= q {
        SplitAt(c, q);
        FindSplitLeaf(c, nodeLeft, keyLeft, node.ptr, p, q[|c|..]);
      }
    }
  }

  lemma FindShortened(keyLeft: HexKey, child: Tree, q: HexKey)
    requires keyLeft != [] && q != [] && q[0] == keyLeft[0]
    requires WellFormed(child)
    ensures Find(Shorten(keyLeft, child), q[1..]) == Find(Ext(keyLeft, child), q)
  {
    if |keyLeft| == 1 {
      assert keyLeft <= q;
    } else {
      assert keyLeft <= q <==> keyLeft[1..] <= q[1..];
      if keyLeft <= q { assert q[1..][|keyLeft[1..]|..] == q[|keyLeft|..]; }
    }
  }

  lemma FindCut(nodeLeft: HexKey, child: Tree, keyLeft: HexKey, p: Bytes, q: HexKey)
    requires WellFormed(child) && nodeLeft != []
    requires keyLeft != [] ==> keyLeft[0] != nodeLeft[0]
    ensures Find(CutExtension(nodeLeft, child, keyLeft, p), q) ==
      if q == keyLeft then Some(Entry(p, false)) else Find(Ext(nodeLeft, child), q)
  {
    if q != [] {
      assert q == [q[0]] + q[1..];
      if keyLeft != [] { assert keyLeft == [keyLeft[0]] + keyLeft[1..]; }
      if q[0] == nodeLeft[0] { FindShortened(nodeLeft, child, q); }
    }
  }

  lemma FindUnderLongerKey(c: HexKey, left: HexKey, child: Tree, rest: HexKey)
    requires WellFormed(child)
    ensures Find(Ext(c + left, child), c + rest) == Find(Ext(left, child), rest)
  {
    assert left <= rest <==> c + left <= c + rest by {
      assert (c + left)[|c|..] == left;
      assert (c + rest)[|c|..] == rest;
      if c + left <= c + rest { assert left == (c + rest)[|c|..|c + left|]; }
    }
    if left <= rest { assert (c + rest)[|c + left|..] == rest[|left|..]; }
  }

  lemma FindUpdExtSplit(nodeKey: HexKey, child: Tree, k: HexKey, p: Bytes, q: HexKey)
    requires WellFormed(child) && !(nodeKey <= k)
    ensures Find(UpdExtSplit(nodeKey, child, k, p), q) ==
      if q == k then Some(Entry(p, false)) else Find(Ext(nodeKey, child), q)
  {
    var c := CommonPrefix(k, nodeKey);
    SplitAt(c, k);
    SplitAt(c, nodeKey);
    if c <= q {
      SplitAt(c, q);
      FindBelowPrefix(c, CutExtension(nodeKey[|c|..], child, k[|c|..], p), q[|c|..]);
      FindCut(nodeKey[|c|..], child, k[|c|..], p, q[|c|..]);
      FindUnderLongerKey(c, nodeKey[|c|..], child, q[|c|..]);
    }
  }

  lemma FindUpdateExt(key: HexKey, child: Tree, k: HexKey, p: Bytes, q: HexKey)
    requires WellFormed(child) && key <= k && key <= q
    requires Find(Upd(child, k[|key|..], p, false).value, q[|key|..])
      == Expected(Find(child, q[|key|..]), q[|key|..], k[|key|..], p, Displaced(child, k[|key|..]))
    ensures Find(Upd(Ext(key, child), k, p, false).value, q)
      == Expected(Find(Ext(key, child), q), q, k, p, Displaced(Ext(key, child), k))
  {
    SplitAt(key, k);
    SplitAt(key, q);
    var d := Displaced(child, k[|key|..]);
    if d.Some? { assert (key + d.value)[|key|..] == d.value; }
    if key == k { assert k[|key|..] == []; }
  }

  lemma FindUpdateBranch(children: seq<Tree>, entry: Option<Entry>, k: HexKey, p: Bytes, q: HexKey)
    requires WellFormed(Branch(children, entry)) && k != [] && q != [] && k[0] == q[0]
    requires Find(Upd(children[k[0]], k[1..], p, false).value, q[1..])
      == Expected(Find(children[k[0]], q[1..]), q[1..], k[1..], p, Displaced(children[k[0]], k[1..]))
    ensures var t := Branch(children, entry);
      Find(Upd(t, k, p, false).value, q) == Expected(Find(t, q), q, k, p, Displaced(t, k))
  {
    var t, n := Branch(children, entry), k[0];
    var child := Upd(children[n], k[1..], p, false).value;
    assert Upd(t, k, p, false) == Some(Branch(children[n := child], entry));
    assert Find(Upd(t, k, p, false).value, q) == Find(child, q[1..]);
    assert k == q <==> k[1..] == q[1..] by { assert k == [n] + k[1..] && q == [n] + q[1..]; }
    var d := Displaced(children[n], k[1..]);
    if d.Some? { assert [n] + d.value == q <==> d.value == q[1..] by { assert q == [n] + q[1..]; } }
  }

  /** After an insertion every key finds what a map update would give, except for the displaced tombstone. */
  lemma {:induction false} FindUpdate(t: Tree, k: HexKey, p: Bytes, q: HexKey)
    requires WellFormed(t)
    ensures Find(Upd(t, k, p, false).value, q) == Expected(Find(t, q), q, k, p, Displaced(t, k))
    decreases t
  {
    match t
    case Nil =>
    case Leaf(nodeKey, node) => FindUpdLeaf(nodeKey, node, k, p, q);
    case Ext(nodeKey, child) =>
      if !(nodeKey <= k) {
        FindUpdExtSplit(nodeKey, child, k, p, q);
      } else if nodeKey <= q {
        FindUpdate(child, k[|nodeKey|..], p, q[|nodeKey|..]);
        FindUpdateExt(nodeKey, child, k, p, q);
      } else {
        assert Displaced(t, k) != Some(q);
      }
    case Branch(children, entry) =>
      if k != [] && q != [] && k[0] == q[0] {
        FindUpdate(children[k[0]], k[1..], p, q[1..]);
        FindUpdateBranch(children, entry, k, p, q);
      }
  }

  /** The displaced key is a stored key other than the one inserted, which itself was not stored. */
  lemma {:induction false} DisplacedIsStored(t: Tree, k: HexKey)
    requires WellFormed(t) && Displaced(t, k).Some?
    ensures Find(t, Displaced(t, k).value).Some? && Displaced(t, k).value != k && Find(t, k).None?
    decreases t
  {
    match t
    case Nil =>
    case Leaf(_, _) =>
    case Ext(key, child) =>
      DisplacedIsStored(child, k[|key|..]);
      SplitAt(key, k);
      var d := Displaced(child, k[|key|..]).value;
      assert (key + d)[|key|..] == d;
    case Branch(children, _) =>
      DisplacedIsStored(children[k[0]], k[1..]);
      var d := Displaced(children[k[0]], k[1..]).value;
      assert ([k[0]] + d)[1..] == d;
  }

  /** Tombstoning a stored key succeeds and touches that key alone. */
  lemma {:induction false} FindTombstone(t: Tree, k: HexKey, p: Bytes, q: HexKey)
    requires WellFormed(t) && Find(t, k).Some?
    ensures var r := Upd(t, k, p, true);
      r.Some? && Find(r.value, q) == if q == k then Some(Entry(p, true)) else Find(t, q)
    decreases t
  {
    match t
    case Nil =>
    case Leaf(nodeKey, node) => assert |CommonPrefix(k, k)| == |k|;
    case Ext(nodeKey, child) =>
      FindTombstone(child, k[|nodeKey|..], p, if nodeKey <= q then q[|nodeKey|..] else q);
      SplitAt(nodeKey, k);
      if nodeKey <= q { SplitAt(nodeKey, q); }
      if nodeKey == k { assert k[|nodeKey|..] == []; }
    case Branch(children, entry) =>
      if k != [] {
        FindTombstone(children[k[0]], k[1..], p, if q != [] then q[1..] else q);
        assert k == [k[0]] + k[1..];
        if q != [] { assert q == [q[0]] + q[1..]; }
      }
  }
}
