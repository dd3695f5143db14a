/** What any accepted proof path shows, whoever made it: the hashes of a path are digested without their lengths. */
module ProofPaths {
  import opened Basics
  import opened TrieNodes
  import opened StateProof

  ghost predicate CutAt(v: Bytes, s: Bytes, i: nat) {
    i + |v| <= |s| && s[i..i + |v|] == v
  }

  /** The string occurs in the other one, at whatever position. */
  ghost predicate Part(v: Bytes, s: Bytes) {
    exists i: nat :: CutAt(v, s, i)
  }

  /** Both strings occur, and do not overlap unless they are one. */
  ghost predicate Apart(v: Bytes, w: Bytes, s: Bytes) {
    exists i: nat, j: nat :: CutAt(v, s, i) && CutAt(w, s, j) && (v == w || i + |v| <= j || j + |w| <= i)
  }

  /** What the lowest element of a path must hold. */
  ghost predicate Shows(s: Bytes, v: Bytes, isDeleted: bool) {
    if isDeleted then Apart(v, DELETE_MARKER, s) else Part(v, s)
  }

  /** Strings from the lowest to the highest: the first shows the value hash, the digest of each is in the next. */
  ghost predicate Chain(h: Digest, ss: seq<Bytes>, v: Bytes, isDeleted: bool) {
    ss != [] && Shows(ss[0], v, isDeleted) && forall i :: 0 <= i < |ss| - 1 ==> Part(h(ss[i]), ss[i + 1])
  }

  /** A chain of `n` strings leads from `s` down to the value hash. */
  ghost predicate Leads(h: Digest, s: Bytes, v: Bytes, n: nat, isDeleted: bool) {
    exists ss :: Chain(h, ss, v, isDeleted) && |ss| == n && ss[n - 1] == s
  }

  lemma ChainSnoc(h: Digest, ss: seq<Bytes>, s: Bytes, v: Bytes, isDeleted: bool)
    requires Chain(h, ss, v, isDeleted) && Part(h(ss[|ss| - 1]), s)
    ensures Chain(h, ss + [s], v, isDeleted)
  {
  }

  lemma ChainPrefix(h: Digest, ss: seq<Bytes>, v: Bytes, isDeleted: bool)
    requires Chain(h, ss, v, isDeleted) && |ss| > 1
    ensures Chain(h, ss[..|ss| - 1], v, isDeleted) && Part(h(ss[|ss| - 2]), ss[|ss| - 1])
  {
    var i := |ss| - 2;
    assert Part(h(ss[i]), ss[i + 1]);
  }

  // ----- Elements of a list are parts of their concatenation -----

  lemma {:induction false} ConcatSplit(a: seq<Bytes>, b: seq<Bytes>)
    ensures Concat(a + b) == Concat(a) + Concat(b)
  {
    if a == [] {
      assert a + b == b;
    } else {
      assert (a + b)[1..] == a[1..] + b;
      ConcatSplit(a[1..], b);
    }
  }

  lemma ElementAt(bs: seq<Bytes>, k: nat)
    requires k < |bs|
    ensures CutAt(bs[k], Concat(bs), |Concat(bs[..k])|)
  {
    assert bs == bs[..k] + bs[k..] && bs[k..][1..] == bs[k + 1..];
    ConcatSplit(bs[..k], bs[k..]);
    assert Concat(bs) == Concat(bs[..k]) + bs[k] + Concat(bs[k + 1..]);
  }

  lemma {:induction false} PrefixLength(bs: seq<Bytes>, k: nat, l: nat)
    requires k < l <= |bs|
    ensures |Concat(bs[..k])| + |bs[k]| <= |Concat(bs[..l])|
  {
    assert bs[..l] == bs[..k] + bs[k..l] && bs[k..l][1..] == bs[k + 1..l];
    ConcatSplit(bs[..k], bs[k..l]);
  }

  lemma ElementsShow(bs: seq<Bytes>, v: Bytes, isDeleted: bool)
    requires v in bs && (isDeleted ==> DELETE_MARKER in bs)
    ensures Shows(Concat(bs), v, isDeleted)
  {
    var k :| 0 <= k < |bs| && bs[k] == v;
    ElementAt(bs, k);
    if isDeleted {
      var l :| 0 <= l < |bs| && bs[l] == DELETE_MARKER;
      ElementAt(bs, l);
      if k < l { PrefixLength(bs, k, l); } else if l < k { PrefixLength(bs, l, k); }
    }
  }

  // ----- A string can be cut so that any part of it is an element -----

  lemma Three(a: Bytes, b: Bytes, c: Bytes)
    ensures Concat([a, b, c]) == a + b + c
  {
    assert [a, b, c][1..] == [b, c] && [b, c][1..] == [c] && [c][1..] == [];
    assert Concat([c]) == c && Concat([b, c]) == b + c;
  }

  lemma Cut(v: Bytes, s: Bytes) returns (bs: seq<Bytes>)
    requires Part(v, s)
    ensures Concat(bs) == s && v in bs
  {
    var i: nat :| CutAt(v, s, i);
    bs := [s[..i], v, s[i + |v|..]];
    Three(s[..i], v, s[i + |v|..]);
    assert bs[1] == v;
  }

  lemma CutTwice(v: Bytes, w: Bytes, s: Bytes, i: nat, j: nat) returns (bs: seq<Bytes>)
    requires CutAt(v, s, i) && CutAt(w, s, j) && i + |v| <= j
    ensures Concat(bs) == s && v in bs && w in bs
  {
    var rest := s[i + |v|..];
    assert rest[j - i - |v|..j - i - |v| + |w|] == s[j..j + |w|];
    assert CutAt(w, rest, j - i - |v|);
    var tail := Cut(w, rest);
    bs := [s[..i], v] + tail;
    ConcatSplit([s[..i], v], tail);
    assert [s[..i], v][1..] == [v] && [v][1..] == [];
    assert bs[1] == v;
  }

  lemma CutToShow(s: Bytes, v: Bytes, isDeleted: bool) returns (bs: seq<Bytes>)
    requires Shows(s, v, isDeleted)
    ensures Concat(bs) == s && v in bs && (isDeleted ==> DELETE_MARKER in bs)
  {
    if !isDeleted {
      bs := Cut(v, s);
    } else {
      var i: nat, j: nat :| CutAt(v, s, i) && CutAt(DELETE_MARKER, s, j)
        && (v == DELETE_MARKER || i + |v| <= j || j + |DELETE_MARKER| <= i);
      if v == DELETE_MARKER {
        bs := Cut(v, s);
      } else if i + |v| <= j {
        bs := CutTwice(v, DELETE_MARKER, s, i, j);
      } else {
        bs := CutTwice(DELETE_MARKER, v, s, j, i);
      }
    }
  }

  // ----- Paths -----

  lemma {:induction false} ClimbSnoc(h: Digest, path: ProofPath, top: seq<Bytes>, hash: Bytes)
    ensures Climb(h, path + [top], hash) ==
      var c := Climb(h, path, hash);
      if c.Some? && c.value in top then Some(CalcHash(h, top)) else None
  {
    if path == [] {
      assert [top][1..] == [];
    } else if hash in path[0] {
      assert (path + [top])[1..] == path[1..] + [top];
      ClimbSnoc(h, path[1..], top, CalcHash(h, path[0]));
    }
  }

  lemma {:induction false} AcceptedLeads(h: Digest, path: ProofPath, v: Bytes, rootHash: Bytes, isDeleted: bool)
    returns (ss: seq<Bytes>)
    requires Accepts(h, path, v, rootHash, isDeleted)
    ensures Chain(h, ss, v, isDeleted) && |ss| == |path| && ss[|ss| - 1] == Concat(path[|path| - 1])
    ensures h(ss[|ss| - 1]) == rootHash
  {
    var below, top := path[..|path| - 1], path[|path| - 1];
    assert path == below + [top];
    ClimbSnoc(h, below, top, v);
    if below == [] {
      ElementsShow(top, v, isDeleted);
      ss := [Concat(top)];
    } else {
      var hash := Climb(h, below, v).value;
      var lower := AcceptedLeads(h, below, v, hash, isDeleted);
      ElementsShow(top, hash, false);
      ChainSnoc(h, lower, Concat(top), v, isDeleted);
      ss := lower + [Concat(top)];
    }
  }

  lemma {:induction false} ChainAccepted(h: Digest, ss: seq<Bytes>, v: Bytes, isDeleted: bool)
    returns (path: ProofPath)
    requires Chain(h, ss, v, isDeleted)
    ensures |path| == |ss| && Accepts(h, path, v, h(ss[|ss| - 1]), isDeleted)
    ensures Concat(path[|path| - 1]) == ss[|ss| - 1]
  {
    if |ss| == 1 {
      var bs := CutToShow(ss[0], v, isDeleted);
      path := [bs];
      assert path[1..] == [];
    } else {
      ChainPrefix(h, ss, v, isDeleted);
      var lower := ChainAccepted(h, ss[..|ss| - 1], v, isDeleted);
      var bs := Cut(h(ss[|ss| - 2]), ss[|ss| - 1]);
      ClimbSnoc(h, lower, bs, v);
      path := lower + [bs];
    }
  }

  /** No other string that the path digests last has the digest of the root. */
  ghost predicate NoCollision(h: Digest, root: seq<Bytes>, path: ProofPath) {
    path != [] &&
    (CalcHash(h, path[|path| - 1]) == CalcHash(h, root) ==> Concat(path[|path| - 1]) == Concat(root))
  }

  /** A path of this length, without a collision at the root, is accepted. */
  ghost predicate Acceptable(h: Digest, root: seq<Bytes>, path: ProofPath, v: Bytes, n: nat, isDeleted: bool) {
    |path| == n && NoCollision(h, root, path) && Accepts(h, path, v, CalcHash(h, root), isDeleted)
  }

  /** A path of some length is accepted for a value hash exactly when a chain leads there from the bytes of the root. */
  lemma AcceptedExact(h: Digest, root: seq<Bytes>, v: Bytes, n: nat, isDeleted: bool)
    ensures (exists path :: Acceptable(h, root, path, v, n, isDeleted)) <==> Leads(h, Concat(root), v, n, isDeleted)
  {
    if path :| Acceptable(h, root, path, v, n, isDeleted) {
      var ss := AcceptedLeads(h, path, v, CalcHash(h, root), isDeleted);
      assert Chain(h, ss, v, isDeleted) && ss[n - 1] == Concat(root);
    }
    if ss :| Chain(h, ss, v, isDeleted) && |ss| == n && ss[n - 1] == Concat(root) {
      var path := ChainAccepted(h, ss, v, isDeleted);
      assert Acceptable(h, root, path, v, n, isDeleted);
    }
  }
}
