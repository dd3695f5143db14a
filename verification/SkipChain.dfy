/** The skip chain over block headers: link arithmetic and the greedy path between two blocks. */
module SkipChain {
  import opened Basics

  function Pow2(i: nat): (p: nat)
    ensures p >= 1
  {
    if i == 0 then 1 else 2 * Pow2(i - 1)
  }

  function SkipListHeight(blockNum: nat): (h: nat)
    requires blockNum > 0
    ensures h >= 1 && Pow2(h - 1) <= blockNum
  {
    if blockNum % 2 != 0 then 1 else 1 + SkipListHeight(blockNum / 2)
  }

  /** Block `n` links to `n - 2^i` for every `i` below the height of `n - 1`. */
  function Links(n: nat): seq<nat> {
    if n > 1 then seq(SkipListHeight(n - 1), i requires 0 <= i < SkipListHeight(n - 1) => Back(n, i)) else []
  }

  function Back(n: nat, i: nat): (l: nat)
    requires n > 1 && i < SkipListHeight(n - 1)
    ensures 1 <= l < n && l == n - Pow2(i)
  {
    Pow2Monotone(i, SkipListHeight(n - 1) - 1);
    n - Pow2(i)
  }

  lemma {:induction false} Pow2Monotone(i: nat, j: nat)
    requires i <= j
    ensures Pow2(i) <= Pow2(j)
    ensures i < j ==> 2 * Pow2(i) <= Pow2(j)
    decreases j
  {
    if i < j { Pow2Monotone(i, j - 1); }
  }

  lemma Pow2Reflects(i: nat, j: nat)
    requires Pow2(i) < Pow2(j)
    ensures i < j
  {
    if j <= i { Pow2Monotone(j, i); }
  }

  lemma DistanceDoubles(n: nat, i: nat)
    requires n > 1 && i + 1 < SkipListHeight(n - 1)
    ensures (n - Back(n, i)) * 2 == n - Back(n, i + 1)
  {
  }

  /** The loop doubles a 64-bit distance; the overflow of the last doubling is never used. */
  method CalculateSkipListLinks(blockNum: uint64) returns (links: seq<uint64>)
    ensures links == Links(blockNum)
  {
    links := [];
    if blockNum > 1 {
      var distance: uint64 := 1;
      var height := SkipListHeight(blockNum - 1);
      assert Back(blockNum, 0) == blockNum - 1;
      var i := 0;
      while i < height
        invariant i <= height && |links| == i
        invariant i < height ==> distance == blockNum - Back(blockNum, i)
        invariant forall j :: 0 <= j < i ==> links[j] == Back(blockNum, j)
      {
        var index := blockNum - distance;
        links := links + [index];
        if i + 1 < height { DistanceDoubles(blockNum, i); }
        distance := (distance * 2) % TWO64;
        i := i + 1;
      }
    }
  }

  lemma LinksBelow(n: nat)
    ensures forall i :: 0 <= i < |Links(n)| ==> 1 <= Links(n)[i] < n
  {
    forall i | 0 <= i < |Links(n)| ensures 1 <= Links(n)[i] < n {
      assert Links(n)[i] == Back(n, i);
    }
  }

  /** A path over skip links, from one block number down to another. */
  ghost predicate IsPath(p: seq<nat>, from: nat, to: nat) {
    && p != [] && p[0] == from && p[|p| - 1] == to
    && forall i :: 0 <= i < |p| - 1 ==> p[i + 1] in Links(p[i])
  }

  /** The longest link of `n` that does not jump over `to`. */
  function Longest(n: nat, to: nat, i: nat): (k: nat)
    requires n > 1 && 1 <= to < n && i < SkipListHeight(n - 1)
    ensures k <= i && Back(n, k) >= to
    ensures forall j :: k < j <= i ==> Back(n, j) < to
  {
    if Back(n, i) >= to then i else Longest(n, to, i - 1)
  }

  function Next(n: nat, to: nat): (l: nat)
    requires n > 1 && 1 <= to < n
    ensures to <= l < n
  {
    Back(n, Longest(n, to, SkipListHeight(n - 1) - 1))
  }

  function Greedy(n: nat, to: nat): (p: seq<nat>)
    requires 1 <= to <= n
    ensures p != [] && p[0] == n && p[|p| - 1] == to
    decreases n
  {
    if n == to then [n] else [n] + Greedy(Next(n, to), to)
  }

  /** Links never cross: from strictly inside a link of `n`, no link leads below its target. */
  lemma {:induction false} NoCrossing(n: nat, k: nat, x: nat, j: nat)
    requires n > 1 && k < SkipListHeight(n - 1)
    requires Back(n, k) < x < n && j < SkipListHeight(x - 1)
    ensures Back(x, j) >= Back(n, k)
    decreases n
  {
    if k > 0 && j > 0 {
      var n', x' := (n - 1) / 2 + 1, (x - 1) / 2 + 1;
      NoCrossing(n', k - 1, x', j - 1);
    }
  }

  lemma LinkIsBack(n: nat, l: nat) returns (i: nat)
    requires l in Links(n)
    ensures n > 1 && i < SkipListHeight(n - 1) && l == Back(n, i)
  {
    i :| 0 <= i < |Links(n)| && Links(n)[i] == l;
  }

  lemma {:induction false} PathDescends(p: seq<nat>, from: nat, to: nat)
    requires IsPath(p, from, to)
    ensures to <= from && (|p| > 1 ==> to < from)
  {
    if |p| > 1 {
      var i := LinkIsBack(p[0], p[1]);
      PathDescends(p[1..], p[1], to);
    }
  }

  /** A path that starts inside a link and ends at or below its target passes through the target. */
  lemma {:induction false} PassesThrough(p: seq<nat>, x: nat, to: nat, n: nat, k: nat) returns (i: nat)
    requires IsPath(p, x, to) && n > 1 && k < SkipListHeight(n - 1)
    requires to <= Back(n, k) <= x < n
    ensures i < |p| && IsPath(p[i..], Back(n, k), to)
  {
    if x == Back(n, k) {
      i := 0;
      assert p[0..] == p;
    } else {
      var j := LinkIsBack(p[0], p[1]);
      NoCrossing(n, k, x, j);
      i := PassesThrough(p[1..], p[1], to, n, k);
      assert p[1..][i..] == p[i + 1..];
      i := i + 1;
    }
  }

  /** No path over skip links is shorter than the greedy one. */
  lemma {:induction false} GreedyIsOptimal(p: seq<nat>, n: nat, to: nat)
    requires 1 <= to && IsPath(p, n, to)
    ensures to <= n && |Greedy(n, to)| <= |p|
    decreases n
  {
    PathDescends(p, n, to);
    if n != to {
      var i := LinkIsBack(p[0], p[1]);
      PathDescends(p[1..], p[1], to);
      var k := Longest(n, to, SkipListHeight(n - 1) - 1);
      assert i <= k;
      Pow2Monotone(i, k);
      var j := PassesThrough(p[1..], p[1], to, n, k);
      GreedyIsOptimal(p[1..][j..], Next(n, to), to);
    }
  }

  lemma {:induction false} GreedyIsPath(n: nat, to: nat)
    requires 1 <= to <= n
    ensures IsPath(Greedy(n, to), n, to)
    decreases n
  {
    if n != to {
      var l := Next(n, to);
      GreedyIsPath(l, to);
      assert l == Links(n)[Longest(n, to, SkipListHeight(n - 1) - 1)];
      var p, rest := Greedy(n, to), Greedy(l, to);
      forall i | 0 <= i < |p| - 1 ensures p[i + 1] in Links(p[i]) {
        if i > 0 { assert p[i] == rest[i - 1] && p[i + 1] == rest[i]; }
      }
    }
  }

  function Log2(d: nat): (l: nat)
    requires d > 0
    ensures Pow2(l) <= d < Pow2(l + 1)
  {
    if d == 1 then 0 else 1 + Log2(d / 2)
  }

  /** Hops by `2^i` keep the divisibility that a shorter hop needs. */
  lemma {:induction false} HeightAfterHop(n: nat, i: nat)
    requires n > 1 && i < SkipListHeight(n - 1)
    ensures var l := Back(n, i); l > 1 ==>
      SkipListHeight(l - 1) > i && (i == SkipListHeight(n - 1) - 1 ==> SkipListHeight(l - 1) > i + 1)
    decreases n
  {
    if i > 0 {
      HeightAfterHop((n - 1) / 2 + 1, i - 1);
    }
  }

  /** Once the rest of the way is shorter than a link at hand, hops get shorter and shorter. */
  lemma {:induction false} DescentBound(n: nat, to: nat, k: nat)
    requires 1 <= to <= n && n - to < Pow2(k)
    requires n > 1 ==> k < SkipListHeight(n - 1)
    ensures |Greedy(n, to)| - 1 <= k
    decreases n
  {
    if n != to {
      var i := Longest(n, to, SkipListHeight(n - 1) - 1);
      Pow2Reflects(i, k);
      assert Back(n, i + 1) < to;
      HeightAfterHop(n, i);
      DescentBound(Next(n, to), to, i);
    }
  }

  lemma {:induction false} AscentBound(n: nat, to: nat, l: nat)
    requires 1 <= to <= n && n - to < Pow2(l + 1)
    requires n > 1 ==> SkipListHeight(n - 1) <= l + 2
    ensures |Greedy(n, to)| - 1 <= 2 * (l + 1) - (if n > 1 then SkipListHeight(n - 1) - 1 else 0)
    decreases n
  {
    if n != to {
      var v := SkipListHeight(n - 1) - 1;
      var i := Longest(n, to, v);
      if i == v {
        HeightAfterHop(n, v);
        var m := Next(n, to);
        Pow2Reflects(v, l + 1);
        if m > 1 && SkipListHeight(m - 1) > l + 2 {
          DescentBound(m, to, l + 1);
        } else {
          AscentBound(m, to, l);
        }
      } else {
        assert Back(n, v) < to;
        DescentBound(n, to, v);
      }
    }
  }

  lemma GreedyStep(before: seq<nat>, n: nat, to: nat)
    requires 1 <= to < n
    ensures before + Greedy(n, to) == before + [n] + Greedy(Next(n, to), to)
  {
  }

  /** The path has at most `2 * (floor(log2(end - start)) + 1)` hops. */
  lemma GreedyIsLogarithmic(n: nat, to: nat)
    requires 1 <= to < n
    ensures |Greedy(n, to)| - 1 <= 2 * (Log2(n - to) + 1)
  {
    var l := Log2(n - to);
    if SkipListHeight(n - 1) <= l + 2 { AscentBound(n, to, l); } else { DescentBound(n, to, l + 1); }
  }

  /** `content` stands for the rest of the header: base header, validation info and the two Merkle roots. */
  datatype Header = Header(number: uint64, content: Bytes, skipchainHashes: seq<Bytes>)

  type HeaderHash = Header -> Bytes

  /** The block store, as far as headers go: block `n` is at position `n - 1`. */
  class BlockStore {
    const hash: HeaderHash
    var headers: seq<Header>

    constructor (hash: HeaderHash)
      ensures this.hash == hash && headers == [] && Valid()
    {
      this.hash := hash;
      headers := [];
    }

    predicate InStore(n: nat)
      reads this
    {
      1 <= n <= |headers|
    }

    /** Blocks are numbered from one without gaps, and each header carries the hashes of all blocks it links to. */
    ghost predicate Valid()
      reads this
    {
      forall n :: 1 <= n <= |headers| ==> LinkedHeader(n)
    }

    ghost predicate LinkedHeader(n: nat)
      requires 1 <= n <= |headers|
      reads this
    {
      headers[n - 1].number == n && HashesOf(headers, headers[n - 1].skipchainHashes, Links(n))
    }

    /** The hashes are those of the linked blocks. */
    ghost predicate HashesOf(stored: seq<Header>, hashes: seq<Bytes>, links: seq<nat>) {
      && |hashes| == |links|
      && forall i :: 0 <= i < |links| ==> 1 <= links[i] <= |stored| && hashes[i] == hash(stored[links[i] - 1])
    }

    lemma HashesKept(stored: seq<Header>, header: Header, hashes: seq<Bytes>, links: seq<nat>)
      requires forall i :: 0 <= i < |links| ==> 1 <= links[i] <= |stored|
      ensures HashesOf(stored + [header], hashes, links) <==> HashesOf(stored, hashes, links)
    {
      forall i | 0 <= i < |links| ensures (stored + [header])[links[i] - 1] == stored[links[i] - 1] {}
    }

    /** Fails when a linked block is not in the store. */
    method AddSkipListLinks(header: Header) returns (r: Option<Header>)
      requires Valid()
      ensures r.None? <==> exists i :: 0 <= i < |Links(header.number)| && !InStore(Links(header.number)[i])
      ensures r.Some? ==> r.value.number == header.number && r.value.content == header.content
      ensures r.Some? ==> Linked(r.value)
    {
      var links := CalculateSkipListLinks(header.number);
      var hashes: seq<Bytes> := [];
      for i := 0 to |links|
        invariant |hashes| == i
        invariant forall j :: 0 <= j < i ==> 1 <= links[j] <= |headers| && hashes[j] == hash(headers[links[j] - 1])
      {
        if links[i] < 1 || links[i] > |headers| {
          assert !InStore(Links(header.number)[i]);
          return None;
        }
        hashes := hashes + [hash(headers[links[i] - 1])];
      }
      assert header.number > 1 ==> Links(header.number)[0] == header.number - 1;
      r := Some(header.(skipchainHashes := hashes));
    }

    /** A header for the next block, or one already stored, that carries the hashes of the blocks it links to. */
    ghost predicate Linked(header: Header)
      reads this
    {
      header.number <= |headers| + 1 && HashesOf(headers, header.skipchainHashes, Links(header.number))
    }

    /** Only the next block number is accepted; the store stays linked if and only if the new header is. */
    method Commit(header: Header) returns (ok: bool)
      requires Valid()
      modifies this
      ensures ok == (header.number == old(|headers|) + 1)
      ensures headers == if ok then old(headers) + [header] else old(headers)
      ensures Valid() <==> ok ==> old(Linked(header))
    {
      if header.number != |headers| + 1 {
        return false;
      }
      ghost var before := headers;
      headers := headers + [header];
      forall n | 1 <= n <= |before| ensures LinkedHeader(n) {
        assert old(LinkedHeader(n));
        HashesKept(before, header, before[n - 1].skipchainHashes, Links(n));
      }
      LinksBelow(header.number);
      HashesKept(before, header, header.skipchainHashes, Links(header.number));
      assert LinkedHeader(header.number) <==> old(Linked(header));
      ok := true;
    }

    /**
     * How the processor stores a block: the header gets its links, then the rest of its content, then it is
     * committed. A header that cannot be linked or is not the next one is not stored.
     */
    method LinkAndCommit(header: Header, content: Bytes) returns (ok: bool)
      requires Valid()
      modifies this
      ensures Valid() && ok == (header.number == old(|headers|) + 1)
      ensures !ok ==> headers == old(headers)
      ensures ok ==>
        && |headers| == header.number && headers[..|headers| - 1] == old(headers)
        && headers[|headers| - 1].content == content
    {
      LinksBelow(header.number);
      var linked := AddSkipListLinks(header);
      if linked.None? {
        return false;
      }
      ok := Commit(linked.value.(content := content));
    }

    /** Consecutive headers are linked: the hash of the later one is in the earlier one, at the link's position. */
    ghost predicate Chained(path: seq<Header>)
      reads this
    {
      forall i :: 0 <= i < |path| - 1 ==> hash(path[i + 1]) in path[i].skipchainHashes
    }

    function Numbers(path: seq<Header>): (ns: seq<nat>)
      ensures |ns| == |path| && forall i :: 0 <= i < |path| ==> ns[i] == path[i].number
    {
      seq(|path|, i requires 0 <= i < |path| => path[i].number)
    }

    /** The inner loop: links are tried from the longest to the shortest. */
    method LongestLink(n: uint64, start: nat) returns (l: uint64)
      requires 1 <= start < n
      ensures l == Next(n, start) && l in Links(n)
    {
      var links := CalculateSkipListLinks(n);
      var i := |links| - 1;
      while links[i] < start
        invariant 0 <= i < |links| && Longest(n, start, |links| - 1) <= i
      {
        i := i - 1;
      }
      l := links[i];
    }

    /** The header is the one stored under its own number. */
    ghost predicate Genuine(h: Header)
      reads this
    {
      InStore(h.number) && h == headers[h.number - 1]
    }

    lemma LinkIsHashed(n: nat, l: nat)
      requires Valid() && 1 <= n <= |headers| && l in Links(n)
      ensures 1 <= l < n && headers[l - 1].number == l && Genuine(headers[l - 1])
      ensures hash(headers[l - 1]) in headers[n - 1].skipchainHashes
    {
      assert LinkedHeader(n);
      LinksBelow(n);
      var i :| 0 <= i < |Links(n)| && Links(n)[i] == l;
      assert headers[n - 1].skipchainHashes[i] == hash(headers[l - 1]);
      assert LinkedHeader(l);
    }

    lemma ChainedSnoc(path: seq<Header>, last: Header, h: Header)
      requires Chained(path + [last]) && hash(h) in last.skipchainHashes
      ensures Chained(path + [last] + [h])
    {
      var longer := path + [last] + [h];
      forall i | 0 <= i < |longer| - 1 ensures hash(longer[i + 1]) in longer[i].skipchainHashes {
        assert i < |path| ==> longer[i] == (path + [last])[i] && longer[i + 1] == (path + [last])[i + 1];
      }
    }

    lemma NumbersSnoc(path: seq<Header>, h: Header)
      ensures Numbers(path + [h]) == Numbers(path) + [h.number]
    {}

    /**
     * The greedy walk: from each block, the longest link that does not pass the start block. It ends at the start
     * block, no path over skip links is shorter, and its length is logarithmic in the distance.
     */
    method FindPath(end: uint64, start: nat) returns (path: seq<Header>)
      requires Valid() && 1 <= start <= end <= |headers|
      ensures IsPath(Numbers(path), end, start) && Chained(path)
      ensures AllGenuine(path)
      ensures forall p :: IsPath(p, end, start) ==> |path| <= |p|
      ensures start < end ==> |path| - 1 <= 2 * (Log2(end - start) + 1)
    {
      path := Walk(end, start);
      GreedyIsPath(end, start);
      forall p | IsPath(p, end, start) ensures |path| <= |p| { GreedyIsOptimal(p, end, start); }
      if start < end { GreedyIsLogarithmic(end, start); }
    }

    ghost predicate AllGenuine(path: seq<Header>)
      reads this
    {
      forall h :: h in path ==> Genuine(h)
    }

    /** One hop of the walk. */
    method Hop(current: Header, start: nat) returns (next: Header)
      requires Valid() && Genuine(current) && 1 <= start < current.number
      ensures Genuine(next) && next.number == Next(current.number, start)
      ensures hash(next) in current.skipchainHashes
    {
      var l := LongestLink(current.number, start);
      LinkIsHashed(current.number, l);
      next := headers[l - 1];
    }

    method Walk(end: uint64, start: nat) returns (path: seq<Header>)
      requires Valid() && 1 <= start <= end <= |headers|
      ensures Numbers(path) == Greedy(end, start) && Chained(path) && AllGenuine(path)
    {
      assert LinkedHeader(end);
      var current := headers[end - 1];
      var done: seq<Header> := [];
      while current.number > start
        invariant start <= current.number <= end && Genuine(current)
        invariant Chained(done + [current]) && AllGenuine(done)
        invariant Numbers(done) + Greedy(current.number, start) == Greedy(end, start)
        decreases current.number
      {
        var next := Hop(current, start);
        NumbersSnoc(done, current);
        GreedyStep(Numbers(done), current.number, start);
        ChainedSnoc(done, current, next);
        done := done + [current];
        current := next;
      }
      NumbersSnoc(done, current);
      path := done + [current];
    }
  }
}
