/** Every reachable trie is in normal form, and the normal form is determined by the entries alone. */
module TrieCanonical {
  import opened Basics
  import opened TrieTree

  lemma CrowdedBy(children: seq<Tree>, entry: Option<Entry>, i: int, j: int)
    requires |children| == 16 && 0 <= i < 16 && 0 <= j < 16 && i != j
    requires !children[i].Nil? && !children[j].Nil?
    ensures Crowded(children, entry)
  {
    if i < j {} else { assert 0 <= j < i < 16; }
  }

  lemma CanonicalPrefix(prefix: HexKey, b: Tree)
    requires WellFormed(b) && Canonical(b) && b.Branch?
    ensures Canonical(WithPrefix(prefix, b))
  {
  }

  lemma CanonicalSplitPath(keyLeft: HexKey, branchPtr: Bytes, leafPtr: Bytes)
    requires keyLeft != []
    ensures Canonical(SplitPath(keyLeft, branchPtr, leafPtr))
  {
    assert !SplitPath(keyLeft, branchPtr, leafPtr).children[keyLeft[0]].Nil?;
  }

  lemma CanonicalFork(oldLeft: HexKey, oldPtr: Bytes, newLeft: HexKey, newPtr: Bytes)
    requires oldLeft != [] && newLeft != [] && oldLeft[0] != newLeft[0]
    ensures Canonical(Fork(oldLeft, oldPtr, newLeft, newPtr))
  {
    var b := Fork(oldLeft, oldPtr, newLeft, newPtr);
    CrowdedBy(b.children, b.entry, oldLeft[0], newLeft[0]);
  }

  lemma CanonicalLeafSplit(nodeKey: HexKey, node: Entry, k: HexKey, p: Bytes)
    ensures Canonical(UpdLeaf(nodeKey, node, k, p, false).value)
  {
    var c := CommonPrefix(k, nodeKey);
    var nodeLeft, keyLeft := nodeKey[|c|..], k[|c|..];
    if nodeLeft == [] && keyLeft == [] {
    } else if keyLeft == [] {
      CanonicalSplitPath(nodeLeft, p, node.ptr);
      CanonicalPrefix(c, SplitPath(nodeLeft, p, node.ptr));
    } else if nodeLeft == [] {
      CanonicalSplitPath(keyLeft, node.ptr, p);
      CanonicalPrefix(c, SplitPath(keyLeft, node.ptr, p));
    } else {
      CanonicalFork(nodeLeft, node.ptr, keyLeft, p);
      CanonicalPrefix(c, Fork(nodeLeft, node.ptr, keyLeft, p));
    }
  }

  lemma CanonicalCut(nodeLeft: HexKey, child: Tree, keyLeft: HexKey, p: Bytes)
    requires WellFormed(child) && Canonical(child) && child.Branch? && nodeLeft != []
    requires keyLeft != [] ==> keyLeft[0] != nodeLeft[0]
    ensures Canonical(CutExtension(nodeLeft, child, keyLeft, p))
  {
    var b := CutExtension(nodeLeft, child, keyLeft, p);
    assert Canonical(Shorten(nodeLeft, child));
    assert b.children[nodeLeft[0]] == Shorten(nodeLeft, child);
    if keyLeft != [] {
      CrowdedBy(b.children, b.entry, nodeLeft[0], keyLeft[0]);
    }
  }

  lemma CanonicalReplace(children: seq<Tree>, entry: Option<Entry>, i: int, child: Tree)
    requires |children| == 16 && 0 <= i < 16 && !child.Nil?
    requires Crowded(children, entry)
    ensures Crowded(children[i := child], entry)
  {
    var c' := children[i := child];
    if a, b :| 0 <= a < b < 16 && !children[a].Nil? && !children[b].Nil? {
      assert !c'[a].Nil? && !c'[b].Nil?;
    } else {
      var a :| 0 <= a < 16 && !children[a].Nil?;
      assert !c'[a].Nil?;
    }
  }

  ghost predicate KeepsForm(t: Tree, k: HexKey, p: Bytes, del: bool)
    requires WellFormed(t)
  {
    Upd(t, k, p, del).Some? && Canonical(Upd(t, k, p, del).value)
  }

  /** An insertion keeps the normal form, and a tombstone does exactly when it does not end in another key's leaf. */
  lemma {:induction false} CanonicalUpdate(t: Tree, k: HexKey, p: Bytes, del: bool)
    requires WellFormed(t) && Canonical(t)
    ensures KeepsForm(t, k, p, del) <==> !del || Displaced(t, k).None?
    ensures t.Branch? && Upd(t, k, p, del).Some? ==> Upd(t, k, p, del).value.Branch?
    decreases t
  {
    match t
    case Nil =>
    case Leaf(nodeKey, node) =>
      assert |CommonPrefix(k, k)| == |k|;
      if !del { CanonicalLeafSplit(nodeKey, node, k, p); }
    case Ext(nodeKey, child) =>
      if nodeKey <= k {
        if nodeKey == k { assert k[|nodeKey|..] == []; }
        CanonicalUpdate(child, k[|nodeKey|..], p, del);
      } else {
        var c := CommonPrefix(k, nodeKey);
        CanonicalCut(nodeKey[|c|..], child, k[|c|..], p);
      }
    case Branch(children, entry) =>
      if k != [] {
        CanonicalUpdate(children[k[0]], k[1..], p, del);
        var r := Upd(children[k[0]], k[1..], p, del);
        if r.Some? {
          CanonicalReplace(children, entry, k[0], r.value);
          BranchReplaced(children, entry, k[0], r.value);
        }
      }
  }

  lemma BranchReplaced(children: seq<Tree>, entry: Option<Entry>, i: int, child: Tree)
    requires WellFormed(Branch(children, entry)) && Canonical(Branch(children, entry))
    requires 0 <= i < 16 && WellFormed(child) && Crowded(children[i := child], entry)
    ensures WellFormed(Branch(children[i := child], entry))
    ensures Canonical(Branch(children[i := child], entry)) <==> Canonical(child)
  {
    assert children[i := child][i] == child;
  }

  /** The same for a whole trie. */
  lemma CanonicalRootUpdate(t: Tree, k: HexKey, p: Bytes, del: bool)
    requires CanonicalRoot(t) && k != []
    ensures
      var r := Upd(t, k, p, del);
      r.Some? && CanonicalRoot(r.value) <==> !del || Displaced(t, k).None?
  {
    CanonicalUpdate(t.children[k[0]], k[1..], p, del);
    var r := Upd(t.children[k[0]], k[1..], p, del);
    if r.Some? {
      assert t.children[k[0] := r.value][k[0]] == r.value;
    }
  }

  /** A subtree in normal form holds a key. */
  lemma {:induction false} HoldsKey(t: Tree) returns (k: HexKey)
    requires WellFormed(t) && Canonical(t) && !t.Nil?
    ensures Find(t, k).Some?
    decreases t
  {
    match t
    case Leaf(key, _) => k := key;
    case Ext(key, child) =>
      var rest := HoldsKey(child);
      k := key + rest;
      assert k[|key|..] == rest;
    case Branch(children, entry) =>
      var i :| 0 <= i < 16 && !children[i].Nil?;
      k := ChildKey(t, i);
  }

  lemma {:induction false} ChildKey(t: Tree, i: int) returns (k: HexKey)
    requires WellFormed(t) && t.Branch? && 0 <= i < 16 && !t.children[i].Nil? && Canonical(t.children[i])
    ensures k != [] && k[0] == i && Find(t, k).Some?
    decreases t, 0
  {
    var rest := HoldsKey(t.children[i]);
    k := [i] + rest;
    assert k[1..] == rest;
  }

  /** Two keys part right where they start: one is empty, or their first nibbles differ. */
  ghost predicate Part(a: HexKey, b: HexKey) {
    if a == [] || b == [] then a != b else a[0] != b[0]
  }

  lemma BranchParts(t: Tree) returns (a: HexKey, b: HexKey)
    requires WellFormed(t) && Canonical(t) && t.Branch?
    ensures Find(t, a).Some? && Find(t, b).Some? && Part(a, b)
  {
    if t.entry.Some? {
      var i :| 0 <= i < 16 && !t.children[i].Nil?;
      a := [];
      b := ChildKey(t, i);
    } else {
      var i, j :| 0 <= i < j < 16 && !t.children[i].Nil? && !t.children[j].Nil?;
      a := ChildKey(t, i);
      b := ChildKey(t, j);
    }
  }

  ghost predicate SameEntries(s: Tree, t: Tree)
    requires WellFormed(s) && WellFormed(t)
  {
    forall k :: Find(s, k) == Find(t, k)
  }

  lemma ExtKeyIsShortest(s: Tree, t: Tree)
    requires WellFormed(s) && WellFormed(t) && Canonical(s) && Canonical(t) && s.Ext? && t.Ext?
    requires SameEntries(s, t)
    ensures |t.key| <= |s.key|
  {
    var a, b := BranchParts(s.child);
    assert (s.key + a)[|s.key|..] == a && (s.key + b)[|s.key|..] == b;
    assert Find(t, s.key + a).Some? && Find(t, s.key + b).Some?;
    assert t.key <= s.key + a && t.key <= s.key + b;
  }

  lemma SameKind(s: Tree, t: Tree)
    requires WellFormed(s) && WellFormed(t) && Canonical(s) && Canonical(t)
    requires SameEntries(s, t)
    ensures s.Nil? ==> t.Nil?
    ensures s.Leaf? ==> t.Leaf?
    ensures s.Branch? ==> !t.Ext?
  {
    if !t.Nil? { var k := HoldsKey(t); assert Find(s, k).Some?; }
    if !s.Nil? { var k := HoldsKey(s); assert Find(t, k).Some?; }
    if t.Branch? {
      var a, b := BranchParts(t);
      assert Find(s, a) == Find(t, a) && Find(s, b) == Find(t, b);
    } else if t.Ext? {
      var a, b := BranchParts(t.child);
      assert (t.key + a)[|t.key|..] == a && (t.key + b)[|t.key|..] == b;
      assert Find(s, t.key + a) == Find(t, t.key + a) && Find(s, t.key + b) == Find(t, t.key + b);
    }
    if s.Branch? {
      var a, b := BranchParts(s);
      assert Find(s, a) == Find(t, a) && Find(s, b) == Find(t, b);
    }
  }

  /** Trees in normal form with the same entries are the same tree. */
  lemma {:induction false} CanonicalUnique(s: Tree, t: Tree)
    requires WellFormed(s) && WellFormed(t) && Canonical(s) && Canonical(t)
    requires SameEntries(s, t)
    ensures s == t
    decreases s
  {
    SameKind(s, t);
    SameKind(t, s);
    match s
    case Nil =>
    case Leaf(key, _) => assert Find(t, key).Some?;
    case Ext(key, child) =>
      ExtKeyIsShortest(s, t);
      ExtKeyIsShortest(t, s);
      var rest := HoldsKey(child);
      assert (key + rest)[|key|..] == rest;
      assert Find(t, key + rest).Some?;
      assert t.key == key;
      forall k ensures Find(child, k) == Find(t.child, k) {
        assert Find(s, key + k) == Find(t, key + k);
        assert (key + k)[|key|..] == k;
      }
      CanonicalUnique(child, t.child);
    case Branch(children, _) =>
      BranchesAgree(s, t);
  }

  lemma {:induction false} BranchesAgree(s: Tree, t: Tree)
    requires WellFormed(s) && WellFormed(t) && s.Branch? && t.Branch?
    requires forall i :: 0 <= i < 16 ==> Canonical(s.children[i]) && Canonical(t.children[i])
    requires SameEntries(s, t)
    ensures s == t
    decreases s, 0
  {
    assert Find(s, []) == Find(t, []);
    forall i | 0 <= i < 16 ensures s.children[i] == t.children[i] {
      forall k ensures Find(s.children[i], k) == Find(t.children[i], k) {
        assert Find(s, [i] + k) == Find(t, [i] + k);
        assert ([i] + k)[1..] == k;
      }
      CanonicalUnique(s.children[i], t.children[i]);
    }
  }
}
