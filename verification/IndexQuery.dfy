/** Range queries over the secondary index: how conditions become a key range, and the scan that skips values. */
module IndexQuery {
  import opened Basics
  import opened OrderEncoding

  /** How a string is written in JSON. Quotes delimit it, so no written string is a prefix of another. */
  type Quoting = q: Bytes -> Bytes | forall a, b :: q(a) <= q(b) ==> a == b
    witness (DoublingIsPrefixFree(); Doubling)

  function Doubling(b: Bytes): Bytes {
    if b == [] then [0] else [1, b[0]] + Doubling(b[1..])
  }

  lemma {:induction false} DoublingPrefix(a: Bytes, b: Bytes)
    requires Doubling(a) <= Doubling(b)
    ensures a == b
  {
    assert Doubling(a)[0] == Doubling(b)[0];
    if a != [] {
      assert Doubling(a)[1] == Doubling(b)[1];
      assert Doubling(a)[2..] == Doubling(a[1..]) && Doubling(b)[2..] == Doubling(b[1..]);
      DoublingPrefix(a[1..], b[1..]);
      assert a == [a[0]] + a[1..] && b == [b[0]] + b[1..];
    }
  }

  lemma DoublingIsPrefixFree()
    ensures forall a, b :: Doubling(a) <= Doubling(b) ==> a == b
  {
    forall a, b | Doubling(a) <= Doubling(b) ensures a == b { DoublingPrefix(a, b); }
  }

  /** Positions and types as they are written, one digit each. */
  const BEGINNING: Byte := 49
  const EXISTING: Byte := 50
  const ENDING: Byte := 51
  const UNSET: Byte := 48
  const NUMBER: Byte := 48

  const QUOTE: Bytes := [34]
  const NULL: Bytes := [110, 117, 108, 108]
  const A: Bytes := [123, 34, 97, 34, 58]
  const T: Bytes := [44, 34, 116, 34, 58]
  const VP: Bytes := [44, 34, 118, 112, 34, 58]
  const V: Bytes := [44, 34, 118, 34, 58]
  const KP: Bytes := [44, 34, 107, 112, 34, 58]
  const K: Bytes := [44, 34, 107, 34, 58]
  const CLOSE: Bytes := [125]

  /** Entries of the index database; those of other types stand for their text after the type. */
  datatype Entry =
    | NumberEntry(attribute: Bytes, n: int64, key: Bytes)
    | OtherEntry(attribute: Bytes, typ: Byte, text: Bytes)

  function Head(q: Quoting, attribute: Bytes, typ: Byte): Bytes { A + q(attribute) + T + [typ] + VP }

  /** A value position, an encoded value or `null`, a key position and a key. */
  function Body(q: Quoting, vp: Byte, value: Option<Bytes>, kp: Byte, key: Bytes): Bytes {
    [vp] + (V + (if value.None? then NULL else QUOTE + value.value + QUOTE) + KP + [kp] + K + q(key) + CLOSE)
  }

  function Text(q: Quoting, e: Entry): Bytes {
    match e
    case NumberEntry(attribute, n, key) =>
      Head(q, attribute, NUMBER) + Body(q, EXISTING, Some(EncodeInt64(n)), EXISTING, key)
    case OtherEntry(attribute, typ, text) => Head(q, attribute, typ) + text
  }

  /** One end of a scan, or the place to seek to; its key is empty. */
  datatype Bound = Bound(vp: Byte, value: Option<int64>, kp: Byte)

  function BoundText(q: Quoting, attribute: Bytes, b: Bound): Bytes {
    Head(q, attribute, NUMBER) +
    Body(q, b.vp, if b.value.None? then None else Some(EncodeInt64(b.value.value)), b.kp, [])
  }

  /** Neither string is a prefix of the other. */
  ghost predicate Split(x: Bytes, y: Bytes) { !(x <= y) && !(y <= x) }

  /** Strings that split are ordered the same whatever follows. */
  lemma {:induction false} SplitDecides(x: Bytes, y: Bytes, s: Bytes, t: Bytes)
    requires Split(x, y)
    ensures Less(x + s, y + t) == Less(x, y) && Split(x + s, y + t)
  {
    if x[0] == y[0] {
      assert x == [x[0]] + x[1..] && y == [y[0]] + y[1..];
      assert Split(x[1..], y[1..]);
      SplitDecides(x[1..], y[1..], s, t);
      assert (x + s)[1..] == x[1..] + s && (y + t)[1..] == y[1..] + t;
    }
    SplitExtends(x, y, s, t);
  }

  lemma SplitExtends(x: Bytes, y: Bytes, s: Bytes, t: Bytes)
    requires Split(x, y)
    ensures Split(x + s, y + t)
  {
    var i := Difference(x, y);
    assert (x + s)[i] != (y + t)[i];
  }

  lemma {:induction false} Difference(x: Bytes, y: Bytes) returns (i: nat)
    requires Split(x, y)
    ensures i < |x| && i < |y| && x[i] != y[i]
  {
    if x[0] != y[0] {
      i := 0;
    } else {
      assert x == [x[0]] + x[1..] && y == [y[0]] + y[1..];
      i := Difference(x[1..], y[1..]);
      i := i + 1;
    }
  }

  lemma SplitAfterPrefix(p: Bytes, x: Bytes, y: Bytes)
    requires Split(x, y)
    ensures Split(p + x, p + y)
  {
    var i := Difference(x, y);
    assert (p + x)[|p| + i] != (p + y)[|p| + i];
  }

  lemma HeadParts(q: Quoting, a: Bytes, t: Byte)
    ensures Head(q, a, t) == A + (q(a) + (T + [t] + VP))
    ensures Head(q, a, t) == A + q(a) + (T + [t] + VP)
  {
  }

  /** Different attributes or types have heads that split. */
  lemma HeadsSplit(q: Quoting, a1: Bytes, t1: Byte, a2: Bytes, t2: Byte)
    requires a1 != a2 || t1 != t2
    ensures Split(Head(q, a1, t1), Head(q, a2, t2))
  {
    var r1, r2 := T + [t1] + VP, T + [t2] + VP;
    HeadParts(q, a1, t1);
    HeadParts(q, a2, t2);
    if a1 != a2 {
      SplitDecides(q(a1), q(a2), r1, r2);
      SplitAfterPrefix(A, q(a1) + r1, q(a2) + r2);
    } else {
      assert r1[5] != r2[5];
      assert Split(r1, r2);
      SplitAfterPrefix(A + q(a1), r1, r2);
    }
  }

  /** What follows the value in a body. */
  function Rest(q: Quoting, kp: Byte, key: Bytes): Bytes { QUOTE + KP + ([kp] + (K + q(key) + CLOSE)) }

  lemma BodyParts(q: Quoting, vp: Byte, value: Bytes, kp: Byte, key: Bytes)
    ensures Body(q, vp, Some(value), kp, key) == [vp] + (V + QUOTE + (value + Rest(q, kp, key)))
  {}

  lemma LessCons(c: Byte, x: Bytes, d: Byte, y: Bytes)
    ensures Less([c] + x, [d] + y) <==> c < d || (c == d && Less(x, y))
  {
    assert ([c] + x)[1..] == x && ([d] + y)[1..] == y;
  }

  /** Bodies are ordered by value position, then value, then key position. */
  lemma ValueOrder(q: Quoting, n: int64, kp1: Byte, key1: Bytes, m: int64, kp2: Byte, key2: Bytes)
    requires kp1 != kp2 || n != m
    ensures Less(EncodeInt64(n) + Rest(q, kp1, key1), EncodeInt64(m) + Rest(q, kp2, key2))
      <==> n < m || (n == m && kp1 < kp2)
  {
    EncodeInt64Order(n, m);
    EncodeInt64Order(m, n);
    if n != m {
      SplitDecides(EncodeInt64(n), EncodeInt64(m), Rest(q, kp1, key1), Rest(q, kp2, key2));
    } else {
      LessAfterPrefix(EncodeInt64(n), Rest(q, kp1, key1), Rest(q, kp2, key2));
      LessAfterPrefix(QUOTE + KP, [kp1] + (K + q(key1) + CLOSE), [kp2] + (K + q(key2) + CLOSE));
      LessCons(kp1, K + q(key1) + CLOSE, kp2, K + q(key2) + CLOSE);
    }
  }

  lemma BodyOrder(q: Quoting, n: int64, kp1: Byte, key1: Bytes, vp: Byte, m: Option<int64>, kp2: Byte, key2: Bytes)
    requires vp == EXISTING ==> m.Some? && (kp1 != kp2 || n != m.value)
    ensures Less(Body(q, EXISTING, Some(EncodeInt64(n)), kp1, key1),
                 Body(q, vp, if m.None? then None else Some(EncodeInt64(m.value)), kp2, key2))
      <==> EXISTING < vp || (EXISTING == vp && (n < m.value || (n == m.value && kp1 < kp2)))
  {
    var value := if m.None? then None else Some(EncodeInt64(m.value));
    var b1, b2 := Body(q, EXISTING, Some(EncodeInt64(n)), kp1, key1), Body(q, vp, value, kp2, key2);
    if vp == EXISTING {
      BodyParts(q, EXISTING, EncodeInt64(n), kp1, key1);
      BodyParts(q, vp, EncodeInt64(m.value), kp2, key2);
      var x, y := EncodeInt64(n) + Rest(q, kp1, key1), EncodeInt64(m.value) + Rest(q, kp2, key2);
      LessCons(EXISTING, V + QUOTE + x, vp, V + QUOTE + y);
      LessAfterPrefix(V + QUOTE, x, y);
      ValueOrder(q, n, kp1, key1, m.value, kp2, key2);
    } else {
      LessCons(EXISTING, b1[1..], vp, b2[1..]);
      assert b1 == [EXISTING] + b1[1..] && b2 == [vp] + b2[1..];
    }
  }

  /** On which side of a bound an integer lies. */
  predicate Below(n: int64, b: Bound) {
    || EXISTING < b.vp
    || (EXISTING == b.vp && b.value.Some? && (n < b.value.value || (n == b.value.value && EXISTING < b.kp)))
  }

  /** Bounds that plans use: a value with a key position before or after its entries, or no value at all. */
  predicate Proper(b: Bound) {
    b.vp == EXISTING ==> b.value.Some? && b.kp != EXISTING
  }

  /** The text order places an entry below a bound exactly when its integer lies below. */
  lemma EntryBelowBound(q: Quoting, attribute: Bytes, n: int64, key: Bytes, b: Bound)
    requires Proper(b)
    ensures Less(Text(q, NumberEntry(attribute, n, key)), BoundText(q, attribute, b)) <==> Below(n, b)
  {
    var value := if b.value.None? then None else Some(EncodeInt64(b.value.value));
    LessAfterPrefix(Head(q, attribute, NUMBER), Body(q, EXISTING, Some(EncodeInt64(n)), EXISTING, key),
                    Body(q, b.vp, value, b.kp, []));
    BodyOrder(q, n, EXISTING, key, b.vp, b.value, b.kp, []);
  }

  /** An entry of another attribute or type is on the same side of both ends. */
  lemma ForeignEntry(q: Quoting, attribute: Bytes, e: Entry, b1: Bound, b2: Bound)
    requires e.attribute != attribute || (e.OtherEntry? && e.typ != NUMBER)
    ensures Less(Text(q, e), BoundText(q, attribute, b1)) == Less(Text(q, e), BoundText(q, attribute, b2))
  {
    var typ := if e.NumberEntry? then NUMBER else e.typ;
    var h1, h2 := Head(q, e.attribute, typ), Head(q, attribute, NUMBER);
    HeadsSplit(q, e.attribute, typ, attribute, NUMBER);
    var t := Text(q, e);
    var rest := t[|h1|..];
    assert t == h1 + rest;
    SplitDecides(h1, h2, rest, BoundText(q, attribute, b1)[|h2|..]);
    SplitDecides(h1, h2, rest, BoundText(q, attribute, b2)[|h2|..]);
    assert BoundText(q, attribute, b1) == h2 + BoundText(q, attribute, b1)[|h2|..];
    assert BoundText(q, attribute, b2) == h2 + BoundText(q, attribute, b2)[|h2|..];
  }

  /** The entries of an iterator from `start`, inclusive, to `end`, exclusive. */
  predicate InRange(q: Quoting, e: Entry, start: Bytes, end: Bytes) {
    !Less(Text(q, e), start) && Less(Text(q, e), end)
  }

  ghost predicate Indexable(e: Entry) { e.OtherEntry? ==> e.typ != NUMBER }

  /** A range holds exactly the NUMBER entries of its attribute that lie between its bounds. */
  lemma RangeMeaning(q: Quoting, attribute: Bytes, e: Entry, start: Bound, end: Bound)
    requires Proper(start) && Proper(end) && Indexable(e)
    ensures InRange(q, e, BoundText(q, attribute, start), BoundText(q, attribute, end)) <==>
      e.NumberEntry? && e.attribute == attribute && !Below(e.n, start) && Below(e.n, end)
  {
    if e.NumberEntry? && e.attribute == attribute {
      EntryBelowBound(q, attribute, e.n, e.key, start);
      EntryBelowBound(q, attribute, e.n, e.key, end);
    } else {
      ForeignEntry(q, attribute, e, start, end);
    }
  }

  datatype Op = Eq | Neq | Gt | Gte | Lt | Lte

  datatype Cond = One(n: int64) | Many(ns: seq<int64>)

  /** The conditions on one attribute, by operator, as `validateAttrConditions` lets them through. */
  type Conditions = map<Op, Cond>

  predicate Validated(c: Conditions) {
    && (forall op :: op in c ==> (op == Neq <==> c[op].Many?))
    && (Neq in c ==> c[Neq].ns != [])
    && (Eq in c ==> c.Keys == {Eq})
    && !(Gt in c && Gte in c) && !(Lt in c && Lte in c)
  }

  predicate WithinBounds(n: int64, c: Conditions)
    requires Validated(c)
  {
    && (Eq in c ==> n == c[Eq].n)
    && (Gt in c ==> n > c[Gt].n) && (Gte in c ==> n >= c[Gte].n)
    && (Lt in c ==> n < c[Lt].n) && (Lte in c ==> n <= c[Lte].n)
  }

  predicate Satisfies(n: int64, c: Conditions)
    requires Validated(c)
  {
    WithinBounds(n, c) && (Neq in c ==> n !in c[Neq].ns)
  }

  datatype Plan = Plan(start: Bound, end: Bound, exclude: map<Bytes, Bound>)

  const NO_BOUND: Bound := Bound(UNSET, None, UNSET)

  /** An excluded value is skipped by seeking past the last key it can have. */
  ghost predicate Excludes(exclude: map<Bytes, Bound>, ns: seq<int64>) {
    ExcludesBy(EncodeInt64, exclude, ns)
  }

  ghost predicate ExcludesBy(code: int64 -> Bytes, exclude: map<Bytes, Bound>, ns: seq<int64>) {
    && (forall n :: code(n) in exclude <==> n in ns)
    && (forall n :: code(n) in exclude ==> exclude[code(n)] == Bound(EXISTING, Some(n), ENDING))
  }

  lemma AddExclusion(code: int64 -> Bytes, exclude: map<Bytes, Bound>, ns: seq<int64>, m: int64)
    requires ExcludesBy(code, exclude, ns) && forall n :: code(n) == code(m) ==> n == m
    ensures ExcludesBy(code, exclude[code(m) := Bound(EXISTING, Some(m), ENDING)], ns + [m])
  {
  }

  method ExcludeKeys(ns: seq<int64>) returns (exclude: map<Bytes, Bound>)
    ensures Excludes(exclude, ns)
  {
    exclude := map[];
    for i := 0 to |ns|
      invariant Excludes(exclude, ns[..i])
    {
      forall n: int64 ensures EncodeInt64(n) == EncodeInt64(ns[i]) ==> n == ns[i] {
        EncodeInt64Order(n, ns[i]);
      }
      AddExclusion(EncodeInt64, exclude, ns[..i], ns[i]);
      assert ns[..i + 1] == ns[..i] + [ns[i]];
      exclude := exclude[EncodeInt64(ns[i]) := Bound(EXISTING, Some(ns[i]), ENDING)];
    }
    assert ns[..|ns|] == ns;
  }

  /** The start and end of the scan for a single condition. */
  method SetPlanForSingleCondition(op: Op, n: int64) returns (start: Bound, end: Bound)
    requires op != Neq
    ensures Proper(start) && Proper(end)
    ensures forall m: int64 :: !Below(m, start) && Below(m, end) <==> WithinBounds(m, map[op := One(n)])
  {
    start, end := Bound(BEGINNING, None, UNSET), Bound(ENDING, None, UNSET);
    match op
    case Eq =>
      start := Bound(EXISTING, Some(n), BEGINNING);
      end := Bound(EXISTING, Some(n), ENDING);
    case Gt => start := Bound(EXISTING, Some(n), ENDING);
    case Gte => start := Bound(EXISTING, Some(n), BEGINNING);
    case Lt => end := Bound(EXISTING, Some(n), BEGINNING);
    case Lte => end := Bound(EXISTING, Some(n), ENDING);
    case Neq =>
  }

  /** Several conditions: one from below, one from above, in whichever order the map yields them. */
  method SetPlanForMultipleConditions(c: Conditions) returns (start: Bound, end: Bound)
    requires Validated(c) && Neq !in c && |c| != 1
    ensures Proper(start) && Proper(end)
    ensures forall m: int64 :: !Below(m, start) && Below(m, end) <==> c != map[] && WithinBounds(m, c)
  {
    if c != map[] { TwoConditions(c); }
    start, end := NO_BOUND, NO_BOUND;
    var todo := c.Keys;
    while todo != {}
      invariant todo <= c.Keys
      invariant todo != c.Keys ==> start.vp == EXISTING && end.vp == EXISTING
      invariant todo == c.Keys ==> start == NO_BOUND && end == NO_BOUND
      invariant forall op :: op in c && op !in todo && op in {Gt, Gte} ==>
        start.value == Some(c[op].n) && start.kp == (if op == Gt then ENDING else BEGINNING)
      invariant forall op :: op in c && op !in todo && op in {Lt, Lte} ==>
        end.value == Some(c[op].n) && end.kp == (if op == Lt then BEGINNING else ENDING)
      decreases |todo|
    {
      var op :| op in todo;
      start, end := start.(vp := EXISTING), end.(vp := EXISTING);
      match op {
        case Gt => start := start.(value := Some(c[op].n), kp := ENDING);
        case Gte => start := start.(value := Some(c[op].n), kp := BEGINNING);
        case Lt => end := end.(value := Some(c[op].n), kp := BEGINNING);
        case Lte => end := end.(value := Some(c[op].n), kp := ENDING);
        case _ =>
      }
      todo := todo - {op};
    }
  }

  lemma TwoConditions(c: Conditions)
    requires Validated(c) && Neq !in c && |c| != 1 && c != map[]
    ensures (Gt in c || Gte in c) && (Lt in c || Lte in c) && Eq !in c
  {
    assert |c| == |c.Keys|;
    var a :| a in c.Keys;
    assert c.Keys != {a};
    var b :| b in c.Keys - {a};
  }

  /**
   * The plan of a condition set: its range holds the integers within the bounds, its exclusions are the values
   * of `$neq`. Without any condition, which a lone empty `$neq` leaves, the range is empty.
   */
  method CreateQueryPlan(conds: Conditions) returns (p: Plan)
    requires Validated(conds)
    ensures Proper(p.start) && Proper(p.end)
    ensures forall m: int64 :: !Below(m, p.start) && Below(m, p.end) <==> conds != map[] && WithinBounds(m, conds)
    ensures Excludes(p.exclude, if Neq in conds then conds[Neq].ns else [])
  {
    var exclude: map<Bytes, Bound> := map[];
    var bounds := conds;
    if Neq in conds {
      exclude := ExcludeKeys(conds[Neq].ns);
      bounds := conds - {Neq};
      assert EncodeInt64(conds[Neq].ns[0]) in exclude;
    }
    WithoutNeq(conds);
    var start, end := SetPlan(bounds, |exclude| > 0);
    p := Plan(start, end, exclude);
  }

  lemma WithoutNeq(c: Conditions)
    requires Validated(c)
    ensures Validated(c - {Neq}) && forall m: int64 :: WithinBounds(m, c - {Neq}) <==> WithinBounds(m, c)
    ensures Neq !in c ==> c - {Neq} == c
  {
  }

  /** The range for the conditions other than `$neq`; with exclusions only, it is everything. */
  method SetPlan(bounds: Conditions, exclusions: bool) returns (start: Bound, end: Bound)
    requires Validated(bounds) && Neq !in bounds
    ensures Proper(start) && Proper(end)
    ensures forall m: int64 ::
      !Below(m, start) && Below(m, end) <==> (exclusions || bounds != map[]) && WithinBounds(m, bounds)
  {
    if exclusions && |bounds| == 0 {
      start, end := Bound(BEGINNING, None, UNSET), Bound(ENDING, None, UNSET);
    } else if |bounds| == 1 {
      var op :| op in bounds;
      start, end := SetPlanForSingleCondition(op, bounds[op].n);
      OneCondition(bounds, op);
    } else {
      start, end := SetPlanForMultipleConditions(bounds);
    }
  }

  lemma OneCondition(c: Conditions, op: Op)
    requires op in c && |c| == 1 && c[op].One?
    ensures c == map[op := c[op]] && c[op] == One(c[op].n)
  {
    assert |c.Keys - {op}| == 0;
  }

  /** An iterator over the entries of a range, in key order; it starts before the first one. */
  class Iterator {
    const keys: seq<Bytes>
    var pos: int

    constructor (keys: seq<Bytes>)
      ensures this.keys == keys && pos == -1
    {
      this.keys, pos := keys, -1;
    }

    method Next() returns (ok: bool)
      requires -1 <= pos <= |keys|
      modifies this
      ensures pos == (if old(pos) < |keys| then old(pos) + 1 else old(pos)) && ok == (pos < |keys|)
    {
      if pos < |keys| {
        pos := pos + 1;
      }
      ok := pos < |keys|;
    }

    method Seek(key: Bytes) returns (ok: bool)
      modifies this
      ensures 0 <= pos <= |keys| && ok == (pos < |keys|)
      ensures forall j :: 0 <= j < pos ==> Less(keys[j], key)
      ensures ok ==> !Less(keys[pos], key)
    {
      pos := 0;
      while pos < |keys| && Less(keys[pos], key)
        invariant 0 <= pos <= |keys| && forall j :: 0 <= j < pos ==> Less(keys[j], key)
      {
        pos := pos + 1;
      }
      ok := pos < |keys|;
    }
  }

  ghost predicate Sorted(q: Quoting, items: seq<Entry>) {
    forall i, j :: 0 <= i < j < |items| ==> Less(Text(q, items[i]), Text(q, items[j]))
  }

  ghost predicate Numbers(items: seq<Entry>, attribute: Bytes) {
    forall i :: 0 <= i < |items| ==> items[i].NumberEntry? && items[i].attribute == attribute
  }

  /** The keys found so far: those of the first `k` items whose value is not excluded. */
  ghost function Found(items: seq<Entry>, k: int, ns: seq<int64>): set<Bytes>
    requires 0 <= k <= |items| && forall i :: 0 <= i < |items| ==> items[i].NumberEntry?
  {
    set i | 0 <= i < k && items[i].n !in ns :: items[i].key
  }

  lemma FoundNext(items: seq<Entry>, k: int, ns: seq<int64>)
    requires 0 <= k < |items| && (forall i :: 0 <= i < |items| ==> items[i].NumberEntry?) && items[k].n !in ns
    ensures Found(items, k + 1, ns) == Found(items, k, ns) + {items[k].key}
  {
  }

  lemma FoundSkip(items: seq<Entry>, k: int, k': int, ns: seq<int64>)
    requires 0 <= k <= k' <= |items| && forall i :: 0 <= i < |items| ==> items[i].NumberEntry?
    requires forall i :: k <= i < k' ==> items[i].n in ns
    ensures Found(items, k', ns) == Found(items, k, ns)
  {
  }

  lemma BelowSeek(q: Quoting, items: seq<Entry>, attribute: Bytes, n: int64)
    requires Numbers(items, attribute)
    ensures var key := BoundText(q, attribute, Bound(EXISTING, Some(n), ENDING));
      forall j :: 0 <= j < |items| ==> (Less(Text(q, items[j]), key) <==> items[j].n <= n)
  {
    var b := Bound(EXISTING, Some(n), ENDING);
    forall j | 0 <= j < |items| ensures Less(Text(q, items[j]), BoundText(q, attribute, b)) <==> items[j].n <= n {
      EntryBelowBound(q, attribute, items[j].n, items[j].key, b);
    }
  }

  lemma ValuesSorted(q: Quoting, items: seq<Entry>, attribute: Bytes)
    requires Sorted(q, items) && Numbers(items, attribute)
    ensures forall i, j :: 0 <= i < j < |items| ==> items[i].n <= items[j].n
  {
    forall i, j | 0 <= i < j < |items| ensures items[i].n <= items[j].n { SortedByValue(q, items, attribute, i, j); }
  }

  /** Seeking past a value lands behind all its entries, and skips no entry of another value. */
  lemma SeekSkipsValue(q: Quoting, items: seq<Entry>, attribute: Bytes, p: int, p': int)
    requires Sorted(q, items) && Numbers(items, attribute) && 0 <= p < |items| && 0 <= p' <= |items|
    requires var key := BoundText(q, attribute, Bound(EXISTING, Some(items[p].n), ENDING));
      && (forall j :: 0 <= j < p' ==> Less(Text(q, items[j]), key))
      && (p' < |items| ==> !Less(Text(q, items[p']), key))
    ensures p < p'
    ensures forall j :: p <= j < p' ==> items[j].n == items[p].n
    ensures forall j :: p' <= j < |items| ==> items[j].n != items[p].n
  {
    var n := items[p].n;
    assert (forall j :: 0 <= j < p' ==> items[j].n <= n) && (p' < |items| ==> n < items[p'].n) by {
      BelowSeek(q, items, attribute, n);
    }
    ValuesSorted(q, items, attribute);
    SkipRun(items, p, p');
  }

  lemma SkipRun(items: seq<Entry>, p: int, p': int)
    requires forall i :: 0 <= i < |items| ==> items[i].NumberEntry?
    requires forall i, j :: 0 <= i < j < |items| ==> items[i].n <= items[j].n
    requires 0 <= p < |items| && 0 <= p' <= |items|
    requires (forall j :: 0 <= j < p' ==> items[j].n <= items[p].n) && (p' < |items| ==> items[p].n < items[p'].n)
    ensures p < p'
    ensures forall j :: p <= j < p' ==> items[j].n == items[p].n
    ensures forall j :: p' <= j < |items| ==> items[j].n != items[p].n
  {}

  lemma SortedByValue(q: Quoting, items: seq<Entry>, attribute: Bytes, i: int, j: int)
    requires Sorted(q, items) && Numbers(items, attribute) && 0 <= i < j < |items|
    ensures items[i].n <= items[j].n
  {
    var b := Bound(EXISTING, Some(items[j].n), ENDING);
    EntryBelowBound(q, attribute, items[i].n, items[i].key, b);
    EntryBelowBound(q, attribute, items[j].n, items[j].key, b);
    LessTransitive(Text(q, items[i]), Text(q, items[j]), BoundText(q, attribute, b));
  }

  function Texts(q: Quoting, items: seq<Entry>): (ts: seq<Bytes>)
    ensures |ts| == |items| && forall i :: 0 <= i < |items| ==> ts[i] == Text(q, items[i])
  {
    seq(|items|, i requires 0 <= i < |items| => Text(q, items[i]))
  }

  /** The exclusions still to be met: one that was dropped has no entry ahead. */
  ghost predicate Ahead(items: seq<Entry>, k: int, exclude: map<Bytes, Bound>, ns: seq<int64>)
    requires 0 <= k && forall i :: 0 <= i < |items| ==> items[i].NumberEntry?
  {
    && (forall n :: EncodeInt64(n) in exclude ==>
          n in ns && exclude[EncodeInt64(n)] == Bound(EXISTING, Some(n), ENDING))
    && (forall i :: k <= i < |items| && items[i].n in ns ==> EncodeInt64(items[i].n) in exclude)
  }

  /** The inner loop: skip excluded values until an entry counts or the range ends. */
  method SkipExcluded(q: Quoting, attribute: Bytes, iter: Iterator, items: seq<Entry>, exclude0: map<Bytes, Bound>,
                      keys0: set<Bytes>, ghost ns: seq<int64>)
    returns (exclude: map<Bytes, Bound>, keys: set<Bytes>)
    requires Sorted(q, items) && Numbers(items, attribute) && iter.keys == Texts(q, items)
    requires 0 <= iter.pos < |items| && Ahead(items, iter.pos, exclude0, ns) && keys0 == Found(items, iter.pos, ns)
    modifies iter
    ensures old(iter.pos) <= iter.pos <= |items|
    ensures iter.pos < |items| ==>
      keys == Found(items, iter.pos + 1, ns) && Ahead(items, iter.pos + 1, exclude, ns)
    ensures iter.pos == |items| ==> keys == Found(items, |items|, ns)
  {
    exclude, keys := exclude0, keys0;
    while true
      invariant old(iter.pos) <= iter.pos < |items| && Ahead(items, iter.pos, exclude, ns)
      invariant keys == Found(items, iter.pos, ns)
      decreases |items| - iter.pos
    {
      var entry := items[iter.pos];
      var value := EncodeInt64(entry.n);
      if value !in exclude {
        FoundNext(items, iter.pos, ns);
        keys := keys + {entry.key};
        break;
      }
      var seekKey := exclude[value];
      ghost var p := iter.pos;
      var itemExist := iter.Seek(BoundText(q, attribute, seekKey));
      SeekSkipsValue(q, items, attribute, p, iter.pos);
      FoundSkip(items, p, iter.pos, ns);
      if !itemExist {
        break;
      }
      exclude := exclude - {value};
    }
  }

  /** One turn of the scan: an entry that counts is added, and the iterator moves on. */
  method ScanStep(q: Quoting, attribute: Bytes, iter: Iterator, items: seq<Entry>, exclude0: map<Bytes, Bound>,
                  keys0: set<Bytes>, ghost ns: seq<int64>)
    returns (more: bool, exclude: map<Bytes, Bound>, keys: set<Bytes>)
    requires Sorted(q, items) && Numbers(items, attribute) && iter.keys == Texts(q, items)
    requires 0 <= iter.pos < |items| && Ahead(items, iter.pos, exclude0, ns) && keys0 == Found(items, iter.pos, ns)
    modifies iter
    ensures old(iter.pos) < iter.pos <= |items| && more == (iter.pos < |items|)
    ensures more ==> Ahead(items, iter.pos, exclude, ns)
    ensures keys == Found(items, iter.pos, ns)
  {
    if |exclude0| == 0 {
      assert EncodeInt64(items[iter.pos].n) !in exclude0;
      FoundNext(items, iter.pos, ns);
      exclude, keys := exclude0, keys0 + {items[iter.pos].key};
    } else {
      exclude, keys := SkipExcluded(q, attribute, iter, items, exclude0, keys0, ns);
    }
    more := iter.Next();
  }

  /** The scan returns the keys of exactly the entries of the range whose value is not excluded. */
  method Scan(
    q: Quoting, attribute: Bytes, iter: Iterator, items: seq<Entry>, exclude0: map<Bytes, Bound>, ghost ns: seq<int64>)
    returns (keys: set<Bytes>)
    requires Sorted(q, items) && Numbers(items, attribute) && iter.keys == Texts(q, items) && iter.pos == -1
    requires Excludes(exclude0, ns)
    modifies iter
    ensures keys == Found(items, |items|, ns)
  {
    var exclude := exclude0;
    keys := {};
    var more := iter.Next();
    while more
      invariant 0 <= iter.pos <= |items| && more == (iter.pos < |items|)
      invariant more ==> Ahead(items, iter.pos, exclude, ns)
      invariant keys == Found(items, iter.pos, ns)
      decreases |items| - iter.pos
    {
      more, exclude, keys := ScanStep(q, attribute, iter, items, exclude, keys, ns);
    }
  }

  /** `items` is what the database iterator yields for a range of the index. */
  ghost predicate Ranged(q: Quoting, index: set<Entry>, items: seq<Entry>, start: Bytes, end: Bytes) {
    && Sorted(q, items)
    && forall e :: e in items <==> e in index && InRange(q, e, start, end)
  }

  /** The database iterator: sorted entries of the index between two keys, for every pair of keys. */
  ghost predicate Iterates(q: Quoting, index: set<Entry>, getIterator: (Bytes, Bytes) -> seq<Entry>) {
    forall start, end :: Ranged(q, index, getIterator(start, end), start, end)
  }

  /**
   * For a NUMBER attribute, the plan and the scan together return exactly the keys that have an index entry whose
   * integer satisfies every condition. A condition set that validation left empty returns nothing.
   */
  method Execute(
    q: Quoting, attribute: Bytes, conds: Conditions, getIterator: (Bytes, Bytes) -> seq<Entry>, ghost index: set<Entry>)
    returns (keys: set<Bytes>)
    requires Validated(conds) && (forall e :: e in index ==> Indexable(e)) && Iterates(q, index, getIterator)
    ensures keys == if conds == map[] then {} else Matching(index, attribute, conds)
  {
    ghost var ns := if Neq in conds then conds[Neq].ns else [];
    var plan := CreateQueryPlan(conds);
    var startKey, endKey := BoundText(q, attribute, plan.start), BoundText(q, attribute, plan.end);
    var items := getIterator(startKey, endKey);
    assert Ranged(q, index, items, startKey, endKey);
    ItemsInBounds(q, attribute, conds, plan, items, index);
    var iter := new Iterator(Texts(q, items));
    keys := Scan(q, attribute, iter, items, plan.exclude, ns);
    if conds != map[] {
      FoundIsMatching(index, items, attribute, conds, ns);
    } else {
      assert forall i :: 0 <= i < |items| ==> items[i] in items;
    }
  }

  lemma ItemsInBounds(q: Quoting, attribute: Bytes, conds: Conditions, plan: Plan, items: seq<Entry>, index: set<Entry>)
    requires Validated(conds) && (forall e :: e in index ==> Indexable(e)) && Proper(plan.start) && Proper(plan.end)
    requires forall m: int64 ::
      !Below(m, plan.start) && Below(m, plan.end) <==> conds != map[] && WithinBounds(m, conds)
    requires Ranged(q, index, items, BoundText(q, attribute, plan.start), BoundText(q, attribute, plan.end))
    ensures Numbers(items, attribute)
    ensures forall e :: e in index ==>
      (e in items <==> e.NumberEntry? && e.attribute == attribute && conds != map[] && WithinBounds(e.n, conds))
  {
    forall e | e in index
      ensures e in items <==> e.NumberEntry? && e.attribute == attribute && conds != map[] && WithinBounds(e.n, conds)
    {
      RangeMeaning(q, attribute, e, plan.start, plan.end);
    }
    assert forall i :: 0 <= i < |items| ==> items[i] in items;
  }

  ghost function Matching(index: set<Entry>, attribute: Bytes, conds: Conditions): set<Bytes>
    requires Validated(conds)
  {
    set e | e in index && e.NumberEntry? && e.attribute == attribute && Satisfies(e.n, conds) :: e.key
  }

  lemma FoundIsMatching(index: set<Entry>, items: seq<Entry>, attribute: Bytes, conds: Conditions, ns: seq<int64>)
    requires Validated(conds) && Numbers(items, attribute) && ns == (if Neq in conds then conds[Neq].ns else [])
    requires forall e :: e in items ==> e in index
    requires forall e :: e in index ==>
      (e in items <==> e.NumberEntry? && e.attribute == attribute && WithinBounds(e.n, conds))
    ensures Found(items, |items|, ns) == Matching(index, attribute, conds)
  {
    var found, wanted := Found(items, |items|, ns), Matching(index, attribute, conds);
    forall k | k in found ensures k in wanted {
      var i :| 0 <= i < |items| && items[i].n !in ns && items[i].key == k;
      assert items[i] in items;
    }
    forall k | k in wanted ensures k in found {
      var e :| e in index && e.NumberEntry? && e.attribute == attribute && Satisfies(e.n, conds) && e.key == k;
      assert e in items;
      var i :| 0 <= i < |items| && items[i] == e;
    }
  }
}
