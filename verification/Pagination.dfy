/** Range queries with access control, a limit on the number of records and one on the size of the response. */
module Pagination {
  import opened Basics
  import WorldState
  import DataValidation

  /** A stored record: its key, its bytes as they are stored, and its access control. */
  datatype Record = Record(key: Bytes, raw: Bytes, acl: Option<WorldState.Acl>)

  /** The length of a Go slice is below 2^63. */
  const MAX_LENGTH := 0x8000_0000_0000_0000

  function Size(r: Record): nat { |r.key| + |r.raw| }

  /** LevelDB keeps the records in the order of their keys. */
  ghost predicate Stored(records: seq<Record>) {
    && (forall i, j :: 0 <= i < j < |records| ==> Less(records[i].key, records[j].key))
    && (forall i :: 0 <= i < |records| ==> Size(records[i]) < MAX_LENGTH)
  }

  /** An empty bound is none. */
  predicate Within(key: Bytes, startKey: Bytes, endKey: Bytes) {
    (startKey == [] || !Less(key, startKey)) && (endKey == [] || Less(key, endKey))
  }

  function Range(records: seq<Record>, startKey: Bytes, endKey: Bytes): seq<Record> {
    if records == [] then []
    else (if Within(records[0].key, startKey, endKey) then [records[0]] else []) + Range(records[1..], startKey, endKey)
  }

  predicate Readable(r: Record, user: string) {
    r.acl.None? || DataValidation.Listed(r.acl.value.readUsers, user) ||
    DataValidation.Listed(r.acl.value.readWriteUsers, user)
  }

  function Visible(records: seq<Record>, user: string): seq<Record> {
    if records == [] then []
    else IfReadable(records[0], user) + Visible(records[1..], user)
  }

  /** What one unlimited scan gives. */
  function Scan(records: seq<Record>, user: string, startKey: Bytes, endKey: Bytes): seq<Record> {
    Visible(Range(records, startKey, endKey), user)
  }

  datatype Response =
    | Page(kvs: seq<Record>, pendingResult: bool, nextStartKey: Bytes)
    | RecordTooLarge
    | PermissionDenied

  /** Sizes are summed in 64 bits. */
  function Grown(size: nat, r: Record): nat { (size + Size(r)) % TWO64 }

  lemma GrownFacts(size: nat, r: Record, sizeLimit: uint64)
    requires size <= sizeLimit && Size(r) < MAX_LENGTH
    ensures Grown(size, r) <= size + Size(r)
    ensures Grown(size, r) <= sizeLimit ==> Size(r) <= sizeLimit
  {
  }

  /** How far a page reaches that already holds the first n records, of the given size. */
  function Reach(all: seq<Record>, limit: nat, sizeLimit: nat, n: nat, size: nat): (m: nat)
    requires n <= |all|
    ensures n <= m <= |all|
    decreases |all| - n
  {
    if n == |all| || 0 < limit <= n || Grown(size, all[n]) > sizeLimit then n
    else Reach(all, limit, sizeLimit, n + 1, Grown(size, all[n]))
  }

  function FirstPage(all: seq<Record>, limit: nat, sizeLimit: nat): Response {
    var n := Reach(all, limit, sizeLimit, 0, 0);
    if n == |all| then Page(all, false, [])
    else if n == 0 then RecordTooLarge
    else Page(all[..n], true, all[n].key)
  }

  function IfReadable(r: Record, user: string): seq<Record> {
    if Readable(r, user) then [r] else []
  }

  lemma VisibleOne(r: Record, user: string)
    ensures Visible([r], user) == IfReadable(r, user)
  {
    assert [r][1..] == [] && Visible([], user) == [];
  }

  lemma {:induction false} VisibleSnoc(records: seq<Record>, r: Record, user: string)
    ensures Visible(records + [r], user) == Visible(records, user) + IfReadable(r, user)
  {
    if records == [] {
      assert records + [r] == [r];
      VisibleOne(r, user);
    } else {
      var longer := records + [r];
      assert longer[0] == records[0] && longer[1..] == records[1..] + [r];
      VisibleSnoc(records[1..], r, user);
      assert Visible(longer, user) == IfReadable(records[0], user) + Visible(longer[1..], user);
    }
  }

  lemma {:induction false} VisibleAppend(a: seq<Record>, b: seq<Record>, user: string)
    ensures Visible(a + b, user) == Visible(a, user) + Visible(b, user)
    decreases |b|
  {
    if b == [] {
      assert a + b == a;
    } else {
      assert a + b == (a + [b[0]]) + b[1..];
      VisibleAppend(a + [b[0]], b[1..], user);
      VisibleSnoc(a, b[0], user);
    }
  }

  lemma PageEnds(all: seq<Record>, limit: nat, sizeLimit: nat, n: nat)
    requires n <= |all| && Reach(all, limit, sizeLimit, 0, 0) == n
    ensures FirstPage(all, limit, sizeLimit) ==
      if n == |all| then Page(all[..n], false, [])
      else if n == 0 then RecordTooLarge
      else Page(all[..n], true, all[n].key)
  {
    assert n == |all| ==> all[..n] == all;
  }

  /** A readable item is the next of the scan. */
  lemma AtItem(items: seq<Record>, i: nat, user: string)
    requires i < |items|
    ensures Visible(items[..i + 1], user)
      == Visible(items[..i], user) + IfReadable(items[i], user)
    ensures Visible(items[..i], user) <= Visible(items[..i + 1], user) <= Visible(items, user)
    ensures Readable(items[i], user) ==>
      var n := |Visible(items[..i], user)|; n < |Visible(items, user)| && Visible(items, user)[n] == items[i]
  {
    assert items[..i + 1] == items[..i] + [items[i]];
    VisibleSnoc(items[..i], items[i], user);
    assert items == items[..i + 1] + items[i + 1..];
    VisibleAppend(items[..i + 1], items[i + 1..], user);
  }

  // ----- What a page is -----

  function Total(records: seq<Record>): nat {
    if records == [] then 0 else Total(records[..|records| - 1]) + Size(records[|records| - 1])
  }

  /** Every record on a page is small enough on its own, and the page ends where one of the limits is met. */
  lemma {:induction false} ReachMeans(all: seq<Record>, limit: nat, sizeLimit: uint64, n: nat, size: nat)
    requires n <= |all| && (limit > 0 ==> n <= limit) && size <= sizeLimit && size <= Total(all[..n])
    requires forall i :: 0 <= i < |all| ==> Size(all[i]) < MAX_LENGTH
    ensures
      var m := Reach(all, limit, sizeLimit, n, size);
      && (forall i :: n <= i < m ==> Size(all[i]) <= sizeLimit)
      && (limit > 0 ==> m <= limit)
      && (m < |all| ==> m == limit > 0 || Total(all[..m + 1]) > sizeLimit)
      && (m < |all| && m == n && !(0 < limit <= n) ==> Grown(size, all[n]) > sizeLimit)
    decreases |all| - n
  {
    if n < |all| {
      assert all[..n + 1][..n] == all[..n];
      GrownFacts(size, all[n], sizeLimit);
      if !(0 < limit <= n) && Grown(size, all[n]) <= sizeLimit {
        ReachMeans(all, limit, sizeLimit, n + 1, Grown(size, all[n]));
      }
    }
  }

  lemma NoWrap(x: nat)
    requires x < TWO64
    ensures x % TWO64 == x
  {
  }

  /** A page within the size limit, when the limit is one that sums of sizes do not pass unnoticed. */
  lemma {:induction false} ReachFits(all: seq<Record>, limit: nat, sizeLimit: uint64, n: nat)
    requires n <= |all| && sizeLimit < MAX_LENGTH && Total(all[..n]) <= sizeLimit
    requires forall i :: 0 <= i < |all| ==> Size(all[i]) < MAX_LENGTH
    ensures Total(all[..Reach(all, limit, sizeLimit, n, Total(all[..n]))]) <= sizeLimit
    decreases |all| - n
  {
    if n < |all| {
      assert all[..n + 1][..n] == all[..n];
      NoWrap(Total(all[..n + 1]));
      if !(0 < limit <= n) && Total(all[..n + 1]) <= sizeLimit {
        ReachFits(all, limit, sizeLimit, n + 1);
      }
    }
  }

  // ----- Page after page -----

  lemma ScanCons(records: seq<Record>, user: string, startKey: Bytes, endKey: Bytes)
    requires records != []
    ensures
      var first := records[0];
      Scan(records, user, startKey, endKey) ==
        (if Within(first.key, startKey, endKey) && Readable(first, user) then [first] else []) +
        Scan(records[1..], user, startKey, endKey)
  {
    var head := if Within(records[0].key, startKey, endKey) then [records[0]] else [];
    VisibleAppend(head, Range(records[1..], startKey, endKey), user);
    assert head == [records[0]] ==> head[1..] == [];
  }

  lemma {:induction false} ScanIsStored(records: seq<Record>, user: string, startKey: Bytes, endKey: Bytes)
    requires Stored(records)
    ensures Stored(Scan(records, user, startKey, endKey))
    ensures forall r :: r in Scan(records, user, startKey, endKey) ==> r in records
  {
    if records != [] {
      ScanIsStored(records[1..], user, startKey, endKey);
      ScanCons(records, user, startKey, endKey);
      var rest := Scan(records[1..], user, startKey, endKey);
      forall i | 0 <= i < |rest| ensures Less(records[0].key, rest[i].key) {
        assert rest[i] in records[1..];
      }
    }
  }

  /** Records after one that is within the range are after its start. */
  lemma {:induction false} LowerBoundGone(
    records: seq<Record>, user: string, startKey: Bytes, key: Bytes, endKey: Bytes)
    requires forall i :: 0 <= i < |records| ==> Less(key, records[i].key)
    requires startKey == [] || !Less(key, startKey)
    ensures Scan(records, user, key, endKey) == Scan(records, user, startKey, endKey)
  {
    if records != [] {
      LowerBoundGone(records[1..], user, startKey, key, endKey);
      ScanCons(records, user, key, endKey);
      ScanCons(records, user, startKey, endKey);
      var first := records[0].key;
      LessIsTotal(key, first);
      if startKey != [] && Less(first, startKey) {
        LessTransitive(key, first, startKey);
      }
    }
  }

  lemma FirstComesBefore(records: seq<Record>, user: string, startKey: Bytes, endKey: Bytes, k: nat)
    requires Stored(records) && records != [] && k < |Scan(records[1..], user, startKey, endKey)|
    ensures Less(records[0].key, Scan(records[1..], user, startKey, endKey)[k].key)
  {
    ScanIsStored(records[1..], user, startKey, endKey);
    assert Scan(records[1..], user, startKey, endKey)[k] in records[1..];
  }

  /** A scan from the key of the first record, if that is in the range, gives the same. */
  lemma ScanFromFirst(records: seq<Record>, user: string, startKey: Bytes, endKey: Bytes)
    requires Stored(records) && records != [] && Within(records[0].key, startKey, endKey) && Readable(records[0], user)
    ensures Scan(records, user, records[0].key, endKey) == Scan(records, user, startKey, endKey)
  {
    var key := records[0].key;
    ScanCons(records, user, startKey, endKey);
    ScanCons(records, user, key, endKey);
    LowerBoundGone(records[1..], user, startKey, key, endKey);
    LessIsTotal(key, key);
  }

  /** A scan from a later key does without the first record. */
  lemma ScanFromLater(records: seq<Record>, user: string, key: Bytes, endKey: Bytes)
    requires records != [] && key != [] && Less(records[0].key, key)
    ensures Scan(records, user, key, endKey) == Scan(records[1..], user, key, endKey)
  {
    ScanCons(records, user, key, endKey);
  }

  /** A scan from the key of one of its records gives that record and what follows. */
  lemma {:induction false} ScanFrom(records: seq<Record>, user: string, startKey: Bytes, endKey: Bytes, n: nat)
    requires Stored(records) && n < |Scan(records, user, startKey, endKey)|
    requires Scan(records, user, startKey, endKey)[n].key != []
    ensures
      var all := Scan(records, user, startKey, endKey);
      Scan(records, user, all[n].key, endKey) == all[n..]
    decreases |records|
  {
    ScanCons(records, user, startKey, endKey);
    var all, tail := Scan(records, user, startKey, endKey), Scan(records[1..], user, startKey, endKey);
    var taken := Within(records[0].key, startKey, endKey) && Readable(records[0], user);
    if taken && n == 0 {
      ScanFromFirst(records, user, startKey, endKey);
      assert all[0..] == all;
    } else {
      var k := if taken then n - 1 else n;
      assert all[n] == tail[k] && all[n..] == tail[k..];
      ScanFrom(records[1..], user, startKey, endKey, k);
      FirstComesBefore(records, user, startKey, endKey, k);
      ScanFromLater(records, user, all[n].key, endKey);
    }
  }

  lemma NextScan(
    records: seq<Record>, user: string, startKey: Bytes, endKey: Bytes, limit: nat, sizeLimit: nat)
    requires Stored(records)
    requires
      var page := FirstPage(Scan(records, user, startKey, endKey), limit, sizeLimit);
      page.Page? && page.pendingResult
    ensures
      var all := Scan(records, user, startKey, endKey);
      var page := FirstPage(all, limit, sizeLimit);
      && 0 < |page.kvs| < |all| && page.kvs == all[..|page.kvs|]
      && Scan(records, user, page.nextStartKey, endKey) == all[|page.kvs|..]
  {
    var all := Scan(records, user, startKey, endKey);
    var n := Reach(all, limit, sizeLimit, 0, 0);
    ScanIsStored(records, user, startKey, endKey);
    assert Less(all[0].key, all[n].key);
    ScanFrom(records, user, startKey, endKey, n);
  }

  /** The pages a client gets that asks again from each next start key; None if a query fails on the way. */
  ghost function AllPages(
    records: seq<Record>, user: string, startKey: Bytes, endKey: Bytes, limit: nat, sizeLimit: nat)
    : Option<seq<seq<Record>>>
    requires Stored(records)
    decreases |Scan(records, user, startKey, endKey)|
  {
    var page := FirstPage(Scan(records, user, startKey, endKey), limit, sizeLimit);
    if page.RecordTooLarge? then None
    else if !page.pendingResult then Some([page.kvs])
    else
      NextScan(records, user, startKey, endKey, limit, sizeLimit);
      var rest := AllPages(records, user, page.nextStartKey, endKey, limit, sizeLimit);
      if rest.None? then None else Some([page.kvs] + rest.value)
  }

  ghost function Concat(pages: seq<seq<Record>>): seq<Record> {
    if pages == [] then [] else pages[0] + Concat(pages[1..])
  }

  ghost predicate ProperPages(pages: seq<seq<Record>>, limit: nat, sizeLimit: nat) {
    && pages != []
    && (sizeLimit < MAX_LENGTH ==> forall i :: 0 <= i < |pages| ==> Total(pages[i]) <= sizeLimit)
    && (forall i :: 0 <= i < |pages| - 1 ==> pages[i] != [])
    && (limit > 0 ==> forall i :: 0 <= i < |pages| ==> |pages[i]| <= limit)
  }

  /** What the pages so far and the ones to come say about the whole. */
  lemma JoinPages(all: seq<Record>, n: nat, rest: Option<seq<seq<Record>>>, limit: nat, sizeLimit: nat)
    requires 0 < n < |all| && (limit > 0 ==> n <= limit)
    requires forall i :: 0 <= i < n ==> Size(all[i]) <= sizeLimit
    requires rest.Some? <==> forall i :: 0 <= i < |all[n..]| ==> Size(all[n..][i]) <= sizeLimit
    requires sizeLimit < MAX_LENGTH ==> Total(all[..n]) <= sizeLimit
    requires rest.Some? ==> Concat(rest.value) == all[n..] && ProperPages(rest.value, limit, sizeLimit)
    ensures rest.Some? <==> forall i :: 0 <= i < |all| ==> Size(all[i]) <= sizeLimit
    ensures rest.Some? ==>
      Concat([all[..n]] + rest.value) == all && ProperPages([all[..n]] + rest.value, limit, sizeLimit)
  {
    forall i | n <= i < |all| ensures all[i] == all[n..][i - n] {}
    if rest.Some? {
      var pages := [all[..n]] + rest.value;
      assert pages[1..] == rest.value;
      assert all == all[..n] + all[n..];
      assert forall i :: 1 <= i < |pages| ==> pages[i] == rest.value[i - 1];
    }
  }

  lemma FirstPageMeans(all: seq<Record>, limit: nat, sizeLimit: uint64)
    requires forall i :: 0 <= i < |all| ==> Size(all[i]) < MAX_LENGTH
    ensures
      match FirstPage(all, limit, sizeLimit)
      case RecordTooLarge => all != [] && Size(all[0]) > sizeLimit
      case Page(kvs, pending, _) =>
        && |kvs| <= |all| && kvs == all[..|kvs|] && (pending <==> |kvs| < |all|) && (all != [] ==> kvs != [])
        && (forall i :: 0 <= i < |kvs| ==> Size(all[i]) <= sizeLimit)
        && (limit > 0 ==> |kvs| <= limit)
        && (pending ==> |kvs| == limit > 0 || Total(all[..|kvs| + 1]) > sizeLimit)
        && (sizeLimit < MAX_LENGTH ==> Total(kvs) <= sizeLimit)
      case PermissionDenied => false
  {
    assert all[..0] == [];
    ReachMeans(all, limit, sizeLimit, 0, 0);
    if sizeLimit < MAX_LENGTH { ReachFits(all, limit, sizeLimit, 0); }
    assert all[..|all|] == all;
    if all != [] {
      NoWrap(Size(all[0]));
    }
  }

  /**
   * Asking page after page ends without an error exactly when no readable record of the range is larger than the
   * size limit, and then the pages put together are one unlimited scan: in order, nothing lost, nothing twice.
   */
  lemma {:induction false} PaginationComplete(
    records: seq<Record>, user: string, startKey: Bytes, endKey: Bytes, limit: nat, sizeLimit: uint64)
    requires Stored(records)
    ensures Complete(AllPages(records, user, startKey, endKey, limit, sizeLimit),
                     Scan(records, user, startKey, endKey), limit, sizeLimit)
    decreases |Scan(records, user, startKey, endKey)|
  {
    var all := Scan(records, user, startKey, endKey);
    ScanIsStored(records, user, startKey, endKey);
    FirstPageMeans(all, limit, sizeLimit);
    var page := FirstPage(all, limit, sizeLimit);
    if page.Page? && page.pendingResult {
      NextScan(records, user, startKey, endKey, limit, sizeLimit);
      PaginationComplete(records, user, page.nextStartKey, endKey, limit, sizeLimit);
      var rest := AllPages(records, user, page.nextStartKey, endKey, limit, sizeLimit);
      JoinPages(all, |page.kvs|, rest, limit, sizeLimit);
    } else if page.Page? {
      OnePage(all);
    }
  }

  lemma OnePage(all: seq<Record>)
    ensures Concat([all]) == all
  {
    assert [all][1..] == [];
  }

  ghost predicate Complete(pages: Option<seq<seq<Record>>>, all: seq<Record>, limit: nat, sizeLimit: nat) {
    && (pages.Some? <==> forall i :: 0 <= i < |all| ==> Size(all[i]) <= sizeLimit)
    && (pages.Some? ==> Concat(pages.value) == all && ProperPages(pages.value, limit, sizeLimit))
  }

  // ----- The query on the records themselves -----

  /** The key is in the half-open range, and the user is on one of the record's own two lists if it has them. */
  ghost predicate Wanted(r: Record, user: string, startKey: Bytes, endKey: Bytes) {
    && (startKey == [] || startKey == r.key || Less(startKey, r.key))
    && (endKey == [] || Less(r.key, endKey))
    && match r.acl
       case None => true
       case Some(acl) =>
         || (user in acl.readUsers && acl.readUsers[user] == true)
         || (user in acl.readWriteUsers && acl.readWriteUsers[user] == true)
  }

  lemma WantedExact(r: Record, user: string, startKey: Bytes, endKey: Bytes)
    ensures Wanted(r, user, startKey, endKey) <==> Within(r.key, startKey, endKey) && Readable(r, user)
  {
    LessIsTotal(startKey, r.key);
  }

  /** A scan gives exactly the records wanted. */
  lemma {:induction false} ScanExact(records: seq<Record>, user: string, startKey: Bytes, endKey: Bytes, r: Record)
    ensures r in Scan(records, user, startKey, endKey) <==> r in records && Wanted(r, user, startKey, endKey)
  {
    if records != [] {
      ScanCons(records, user, startKey, endKey);
      ScanExact(records[1..], user, startKey, endKey, r);
      WantedExact(records[0], user, startKey, endKey);
      assert records == [records[0]] + records[1..];
    }
  }

  /** The bytes of keys and values together. */
  ghost function BytesIn(kvs: seq<Record>): nat {
    if kvs == [] then 0
    else BytesIn(kvs[..|kvs| - 1]) + |kvs[|kvs| - 1].key| + |kvs[|kvs| - 1].raw|
  }

  lemma {:induction false} TotalIsBytes(kvs: seq<Record>)
    ensures Total(kvs) == BytesIn(kvs)
  {
    if kvs != [] { TotalIsBytes(kvs[..|kvs| - 1]); }
  }

  /** The next record wanted, at which a page ends. */
  ghost predicate NextWanted(
    x: Record, records: seq<Record>, kvs: seq<Record>, user: string, startKey: Bytes, endKey: Bytes)
  {
    && x in records && Wanted(x, user, startKey, endKey)
    && forall y :: y in records && Wanted(y, user, startKey, endKey) && y !in kvs ==> y == x || Less(x.key, y.key)
  }

  /** A page holds the records wanted, in order and within the limits, up to the first that a limit keeps out. */
  ghost predicate ProperPage(
    kvs: seq<Record>, pending: bool, next: Bytes, records: seq<Record>, user: string, startKey: Bytes, endKey: Bytes,
    limit: nat, sizeLimit: nat)
  {
    && (forall x :: x in kvs <==>
          x in records && Wanted(x, user, startKey, endKey) && (pending ==> Less(x.key, next)))
    && (forall i, j :: 0 <= i < j < |kvs| ==> Less(kvs[i].key, kvs[j].key))
    && (limit > 0 ==> |kvs| <= limit) && (sizeLimit < MAX_LENGTH ==> BytesIn(kvs) <= sizeLimit)
    && (if !pending then next == []
        else
          kvs != [] && exists x ::
            && NextWanted(x, records, kvs, user, startKey, endKey) && x.key == next
            && (|kvs| == limit > 0 || BytesIn(kvs + [x]) > sizeLimit))
  }

  /** What the answer to a query says about the records. */
  ghost predicate Answers(
    r: Response, records: seq<Record>, user: string, startKey: Bytes, endKey: Bytes, limit: nat, sizeLimit: nat)
  {
    match r
    case PermissionDenied => false
    case RecordTooLarge =>
      exists x :: NextWanted(x, records, [], user, startKey, endKey) && |x.key| + |x.raw| > sizeLimit
    case Page(kvs, pending, next) =>
      ProperPage(kvs, pending, next, records, user, startKey, endKey, limit, sizeLimit)
  }

  lemma PageExact(
    records: seq<Record>, user: string, startKey: Bytes, endKey: Bytes, limit: nat, sizeLimit: uint64)
    requires Stored(records)
    ensures
      var r := FirstPage(Scan(records, user, startKey, endKey), limit, sizeLimit);
      Answers(r, records, user, startKey, endKey, limit, sizeLimit)
  {
    var all := Scan(records, user, startKey, endKey);
    ScanIsStored(records, user, startKey, endKey);
    FirstPageMeans(all, limit, sizeLimit);
    match FirstPage(all, limit, sizeLimit)
    case RecordTooLarge => TooLargeExact(records, user, startKey, endKey);
    case Page(kvs, pending, next) =>
      if pending {
        PendingExact(records, user, startKey, endKey, limit, sizeLimit, |kvs|);
      } else {
        LastExact(records, user, startKey, endKey, limit, sizeLimit);
      }
    case PermissionDenied =>
  }

  lemma TooLargeExact(records: seq<Record>, user: string, startKey: Bytes, endKey: Bytes)
    requires Stored(records) && Scan(records, user, startKey, endKey) != []
    ensures
      var x := Scan(records, user, startKey, endKey)[0];
      NextWanted(x, records, [], user, startKey, endKey) && Size(x) == |x.key| + |x.raw|
  {
    NextInScan(records, user, startKey, endKey, 0);
  }

  lemma LastExact(
    records: seq<Record>, user: string, startKey: Bytes, endKey: Bytes, limit: nat, sizeLimit: nat)
    requires Stored(records)
    requires
      var kvs := Scan(records, user, startKey, endKey);
      (limit > 0 ==> |kvs| <= limit) && (sizeLimit < MAX_LENGTH ==> Total(kvs) <= sizeLimit)
    ensures
      var kvs := Scan(records, user, startKey, endKey);
      ProperPage(kvs, false, [], records, user, startKey, endKey, limit, sizeLimit)
  {
    var kvs := Scan(records, user, startKey, endKey);
    ScanIsStored(records, user, startKey, endKey);
    TotalIsBytes(kvs);
    forall x ensures x in kvs <==> x in records && Wanted(x, user, startKey, endKey) {
      ScanExact(records, user, startKey, endKey, x);
    }
  }

  lemma PendingExact(
    records: seq<Record>, user: string, startKey: Bytes, endKey: Bytes, limit: nat, sizeLimit: nat, n: nat)
    requires Stored(records) && 0 < n < |Scan(records, user, startKey, endKey)|
    requires
      var all := Scan(records, user, startKey, endKey);
      && (limit > 0 ==> n <= limit) && (sizeLimit < MAX_LENGTH ==> Total(all[..n]) <= sizeLimit)
      && (n == limit || Total(all[..n + 1]) > sizeLimit)
    ensures
      var all := Scan(records, user, startKey, endKey);
      ProperPage(all[..n], true, all[n].key, records, user, startKey, endKey, limit, sizeLimit)
  {
    var all := Scan(records, user, startKey, endKey);
    ScanIsStored(records, user, startKey, endKey);
    NextInScan(records, user, startKey, endKey, n);
    TotalIsBytes(all[..n]);
    TotalIsBytes(all[..n + 1]);
    OneMore(all, n);
    BeforeNext(all, n);
    forall x
      ensures x in all[..n] <==> x in records && Wanted(x, user, startKey, endKey) && Less(x.key, all[n].key)
    {
      ScanExact(records, user, startKey, endKey, x);
    }
  }

  lemma OneMore(all: seq<Record>, n: nat)
    requires n < |all|
    ensures all[..n + 1] == all[..n] + [all[n]]
  {
  }

  lemma BeforeNext(all: seq<Record>, n: nat)
    requires n < |all| && forall i, j :: 0 <= i < j < |all| ==> Less(all[i].key, all[j].key)
    ensures forall x :: x in all[..n] <==> x in all && Less(x.key, all[n].key)
  {
    forall x | x in all && Less(x.key, all[n].key) ensures x in all[..n] {
      var i :| 0 <= i < |all| && all[i] == x;
      LessIsTotal(all[n].key, x.key);
    }
  }

  lemma NextInScan(records: seq<Record>, user: string, startKey: Bytes, endKey: Bytes, n: nat)
    requires Stored(records) && n < |Scan(records, user, startKey, endKey)|
    ensures
      var all := Scan(records, user, startKey, endKey);
      NextWanted(all[n], records, all[..n], user, startKey, endKey)
  {
    var all := Scan(records, user, startKey, endKey);
    ScanIsStored(records, user, startKey, endKey);
    ScanExact(records, user, startKey, endKey, all[n]);
    forall i | 0 <= i < n ensures all[i] in all[..n] { assert all[..n][i] == all[i]; }
    forall y | y in records && Wanted(y, user, startKey, endKey) && y !in all[..n]
      ensures y == all[n] || Less(all[n].key, y.key)
    {
      ScanExact(records, user, startKey, endKey, y);
      var i :| 0 <= i < |all| && all[i] == y;
    }
  }

  /** One query: the readable records of the range from the start key on, until a limit is met. */
  method GetDataRange(
    isSystemDB: bool, mayReadDB: bool,
    records: seq<Record>, user: string, startKey: Bytes, endKey: Bytes, limit: uint64, sizeLimit: uint64)
    returns (r: Response)
    requires Stored(records)
    ensures r ==
      if isSystemDB || !mayReadDB then PermissionDenied
      else FirstPage(Scan(records, user, startKey, endKey), limit, sizeLimit)
    ensures !isSystemDB && mayReadDB ==> Answers(r, records, user, startKey, endKey, limit, sizeLimit)
  {
    if isSystemDB || !mayReadDB {
      return PermissionDenied;
    }
    r := FillPage(records, user, startKey, endKey, limit, sizeLimit);
    PageExact(records, user, startKey, endKey, limit, sizeLimit);
  }

  /** The loop over the iterator. */
  method FillPage(
    records: seq<Record>, user: string, startKey: Bytes, endKey: Bytes, limit: uint64, sizeLimit: uint64)
    returns (r: Response)
    ensures r == FirstPage(Scan(records, user, startKey, endKey), limit, sizeLimit)
  {
    var items := Range(records, startKey, endKey);
    ghost var all := Visible(items, user);
    var kvs: seq<Record> := [];
    var resultCount: nat, size: nat := 0, 0;
    ghost var reach := Reach(all, limit, sizeLimit, 0, 0);
    for i := 0 to |items|
      invariant kvs == Visible(items[..i], user) && kvs <= all
      invariant limit > 0 ==> resultCount == |kvs| <= limit
      invariant Reach(all, limit, sizeLimit, |kvs|, size) == reach
    {
      var item := items[i];
      AtItem(items, i, user);
      if !Readable(item, user) {
        continue;
      }
      if limit > 0 {
        resultCount := resultCount + 1;
        if resultCount > limit {
          PageEnds(all, limit, sizeLimit, |kvs|);
          return Page(kvs, true, item.key);
        }
      }
      size := Grown(size, item);
      if size > sizeLimit {
        PageEnds(all, limit, sizeLimit, |kvs|);
        if |kvs| != 0 {
          return Page(kvs, true, item.key);
        }
        return RecordTooLarge;
      }
      kvs := kvs + [item];
      assert kvs == Visible(items[..i + 1], user);
    }
    assert items[..|items|] == items;
    PageEnds(all, limit, sizeLimit, |kvs|);
    r := Page(kvs, false, []);
  }
}
