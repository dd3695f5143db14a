/**
 * The index kept for a database: entries of JSON values, their difference under a commit, and their agreement with
 * the data.
 */
module StateIndex {
  import opened Basics
  import opened WorldState
  import opened SerialBlock
  import OrderEncoding

  /** A decoded value; a number is given as an int64 when it is one. */
  datatype Json =
    | JNull
    | JArray
    | JBool(b: bool)
    | JNumber(n: Option<OrderEncoding.int64>)
    | JString(s: string)
    | JObject(fields: seq<(string, Json)>)

  datatype AttributeType = NUMBER | STRING | BOOLEAN

  type Index = map<string, AttributeType>

  datatype IndexValue = NumberValue(code: Bytes) | StringValue(s: string) | BooleanValue(b: bool)

  datatype Partial = Partial(attribute: string, typ: AttributeType, value: IndexValue)

  datatype IndexEntry = IndexEntry(partial: Partial, key: string)

  /** The JSON decoder, which finds no object in anything but the text of one. */
  type Decoder = d: Bytes -> Option<Json> | d([]) == None witness (b: Bytes) => None

  predicate Scalar(v: Json) { v.JBool? || v.JNumber? || v.JString? }

  /** The value under which a scalar is indexed, if it has the declared type. */
  function ValueOf(v: Json, typ: AttributeType): Option<IndexValue> {
    match (v, typ)
    case (JNumber(Some(n)), NUMBER) => Some(NumberValue(OrderEncoding.EncodeInt64(n)))
    case (JString(s), STRING) => Some(StringValue(s))
    case (JBool(b), BOOLEAN) => Some(BooleanValue(b))
    case _ => None
  }

  function ScalarEntries(name: string, v: Json, index: Index): set<Partial> {
    if name in index && ValueOf(v, index[name]).Some?
    then {Partial(name, index[name], ValueOf(v, index[name]).value)}
    else {}
  }

  /** The entries of an object: those of its scalar fields, and of the objects it holds at any depth. */
  function Partials(v: Json, index: Index): set<Partial>
    decreases v
  {
    if v.JObject? then set i, p | 0 <= i < |v.fields| && p in FieldPartials(v.fields[i], index) :: p else {}
  }

  function FieldPartials(field: (string, Json), index: Index): set<Partial>
    decreases field
  {
    if Scalar(field.1) then ScalarEntries(field.0, field.1, index) else Partials(field.1, index)
  }

  // ----- What the entries stand for -----

  /** The object, or one it holds at any depth, has this value under this name. */
  ghost predicate Has(v: Json, attribute: string, x: Json) {
    v.JObject? && exists i :: 0 <= i < |v.fields| && FieldHas(v.fields[i], attribute, x)
  }

  ghost predicate FieldHas(field: (string, Json), attribute: string, x: Json)
    decreases field
  {
    field == (attribute, x) || Has(field.1, attribute, x)
  }

  /** An entry of this type and value is the one for an integer, a string or a truth value. */
  ghost predicate StandsFor(p: Partial, x: Json) {
    match x
    case JNumber(Some(n)) => p.typ == NUMBER && p.value == NumberValue(OrderEncoding.EncodeInt64(n))
    case JString(s) => p.typ == STRING && p.value == StringValue(s)
    case JBool(b) => p.typ == BOOLEAN && p.value == BooleanValue(b)
    case _ => false
  }

  lemma ScalarExact(field: (string, Json), index: Index, p: Partial)
    requires Scalar(field.1)
    ensures p in FieldPartials(field, index) <==>
      field.0 == p.attribute && p.attribute in index && p.typ == index[p.attribute] && StandsFor(p, field.1)
  {
  }

  lemma ScalarHas(field: (string, Json), p: Partial)
    requires Scalar(field.1)
    ensures (exists x :: StandsFor(p, x) && FieldHas(field, p.attribute, x)) <==>
      field.0 == p.attribute && StandsFor(p, field.1)
  {
    if field.0 == p.attribute && StandsFor(p, field.1) { assert FieldHas(field, p.attribute, field.1); }
  }

  lemma NestedHas(field: (string, Json), p: Partial)
    requires !Scalar(field.1)
    ensures (exists x :: StandsFor(p, x) && FieldHas(field, p.attribute, x)) <==>
      (exists x :: StandsFor(p, x) && Has(field.1, p.attribute, x))
  {
    if x :| StandsFor(p, x) && Has(field.1, p.attribute, x) { assert FieldHas(field, p.attribute, x); }
  }

  lemma FieldExact(field: (string, Json), index: Index, p: Partial)
    ensures p in FieldPartials(field, index) <==>
      && p.attribute in index && p.typ == index[p.attribute]
      && exists x :: StandsFor(p, x) && FieldHas(field, p.attribute, x)
    decreases field
  {
    if Scalar(field.1) {
      ScalarExact(field, index, p);
      ScalarHas(field, p);
    } else {
      PartialsExact(field.1, index, p);
      NestedHas(field, p);
    }
  }

  /**
   * The entries are exactly those of the attributes in the index, with the type declared there, for the values of that
   * type which the object holds at some depth.
   */
  lemma {:induction false} PartialsExact(v: Json, index: Index, p: Partial)
    ensures p in Partials(v, index) <==>
      && p.attribute in index && p.typ == index[p.attribute]
      && exists x :: StandsFor(p, x) && Has(v, p.attribute, x)
    decreases v
  {
    if v.JObject? {
      forall i | 0 <= i < |v.fields|
        ensures p in FieldPartials(v.fields[i], index) <==>
          && p.attribute in index && p.typ == index[p.attribute]
          && exists x :: StandsFor(p, x) && FieldHas(v.fields[i], p.attribute, x)
      {
        FieldExact(v.fields[i], index, p);
      }
      ObjectHas(v, p);
    }
  }

  lemma ObjectHas(v: Json, p: Partial)
    requires v.JObject?
    ensures (exists x :: StandsFor(p, x) && Has(v, p.attribute, x)) <==>
      exists i :: 0 <= i < |v.fields| && exists x :: StandsFor(p, x) && FieldHas(v.fields[i], p.attribute, x)
  {
    if x :| StandsFor(p, x) && Has(v, p.attribute, x) {
      var i :| 0 <= i < |v.fields| && FieldHas(v.fields[i], p.attribute, x);
    }
    if i :| 0 <= i < |v.fields| && exists x :: StandsFor(p, x) && FieldHas(v.fields[i], p.attribute, x) {
      var x :| StandsFor(p, x) && FieldHas(v.fields[i], p.attribute, x);
      assert Has(v, p.attribute, x);
    }
  }

  /** A string is indexed exactly when the object holds it. */
  lemma IndexedStrings(v: Json, index: Index, attribute: string, s: string)
    requires attribute in index && index[attribute] == STRING
    ensures Partial(attribute, STRING, StringValue(s)) in Partials(v, index) <==> Has(v, attribute, JString(s))
  {
    var p := Partial(attribute, STRING, StringValue(s));
    PartialsExact(v, index, p);
    assert StandsFor(p, JString(s));
  }

  /** So is a truth value. */
  lemma IndexedBooleans(v: Json, index: Index, attribute: string, b: bool)
    requires attribute in index && index[attribute] == BOOLEAN
    ensures Partial(attribute, BOOLEAN, BooleanValue(b)) in Partials(v, index) <==> Has(v, attribute, JBool(b))
  {
    var p := Partial(attribute, BOOLEAN, BooleanValue(b));
    PartialsExact(v, index, p);
    assert StandsFor(p, JBool(b));
  }

  /** So is an integer; its code tells it from every other. */
  lemma IndexedNumbers(v: Json, index: Index, attribute: string, n: OrderEncoding.int64)
    requires attribute in index && index[attribute] == NUMBER
    ensures Partial(attribute, NUMBER, NumberValue(OrderEncoding.EncodeInt64(n))) in Partials(v, index) <==>
      Has(v, attribute, JNumber(Some(n)))
  {
    var p := Partial(attribute, NUMBER, NumberValue(OrderEncoding.EncodeInt64(n)));
    PartialsExact(v, index, p);
    assert StandsFor(p, JNumber(Some(n)));
    forall m | OrderEncoding.EncodeInt64(m) == OrderEncoding.EncodeInt64(n) ensures m == n {
      OrderEncoding.EncodeInt64Order(m, n);
    }
  }

  method PartialIndexEntriesForValue(v: Json, index: Index) returns (r: seq<Partial>)
    ensures forall p :: p in r <==> p in Partials(v, index)
    decreases v
  {
    r := [];
    if !v.JObject? {
      return;
    }
    for i := 0 to |v.fields|
      invariant forall p :: p in r <==> exists k :: 0 <= k < i && p in FieldPartials(v.fields[k], index)
    {
      var attr, field := v.fields[i].0, v.fields[i].1;
      ghost var before := r;
      if !Scalar(field) {
        var nested := PartialIndexEntriesForValue(field, index);
        r := r + nested;
      } else if attr in index && ValueOf(field, index[attr]).Some? {
        r := r + [Partial(attr, index[attr], ValueOf(field, index[attr]).value)];
      }
      assert forall p :: p in r <==> p in before || p in FieldPartials(v.fields[i], index);
    }
  }

  // ----- Entries of a database -----

  function EntriesFor(decode: Decoder, index: Index, key: string, value: Bytes): set<IndexEntry> {
    if decode(value).None? then {} else set p | p in Partials(decode(value).value, index) :: IndexEntry(p, key)
  }

  /** The entries of all values in a database. */
  ghost function Image(decode: Decoder, index: Index, data: Data, db: string): set<IndexEntry> {
    set loc, e | loc in data && loc.0 == db && e in EntriesFor(decode, index, loc.1, data[loc].value) :: e
  }

  ghost function NewEntries(decode: Decoder, index: Index, writes: seq<KV>): set<IndexEntry> {
    set kv, e | kv in writes && e in EntriesFor(decode, index, kv.key, kv.stored.value) :: e
  }

  ghost function OldEntries(decode: Decoder, index: Index, data: Data, db: string, keys: set<string>): set<IndexEntry> {
    set k, e | k in keys && (db, k) in data && e in EntriesFor(decode, index, k, data[(db, k)].value) :: e
  }

  ghost function WrittenKeySet(writes: seq<KV>): set<string> { set kv | kv in writes :: kv.key }

  method DecodeAndConstructIndexEntries(decode: Decoder, index: Index, key: string, value: Bytes)
    returns (r: seq<IndexEntry>)
    ensures forall e :: e in r <==> e in EntriesFor(decode, index, key, value)
  {
    r := [];
    var v := decode(value);
    if v.None? {
      return;
    }
    var partials := PartialIndexEntriesForValue(v.value, index);
    for i := 0 to |partials|
      invariant forall e :: e in r <==> exists k :: 0 <= k < i && e == IndexEntry(partials[k], key)
    {
      r := r + [IndexEntry(partials[i], key)];
    }
    forall e ensures e in r <==> e in EntriesFor(decode, index, key, value) {
      assert e.partial in partials <==> e.partial in Partials(v.value, index);
    }
  }

  method IndexEntriesForNewValues(decode: Decoder, index: Index, writes: seq<KV>) returns (r: seq<IndexEntry>)
    ensures forall e :: e in r <==> e in NewEntries(decode, index, writes)
  {
    r := [];
    for i := 0 to |writes|
      invariant forall e :: e in r <==> e in NewEntries(decode, index, writes[..i])
    {
      var more := DecodeAndConstructIndexEntries(decode, index, writes[i].key, writes[i].stored.value);
      assert writes[..i + 1] == writes[..i] + [writes[i]];
      r := r + more;
    }
    assert writes[..|writes|] == writes;
  }

  /** A missing key reads as no bytes, which hold no object. */
  method IndexEntriesOfExistingValue(decode: Decoder, index: Index, data: Data, db: string, keys: seq<string>)
    returns (r: seq<IndexEntry>)
    ensures forall e :: e in r <==> e in OldEntries(decode, index, data, db, set k | k in keys)
  {
    r := [];
    for i := 0 to |keys|
      invariant forall e :: e in r <==> e in OldEntries(decode, index, data, db, set k | k in keys[..i])
    {
      var value := if (db, keys[i]) in data then data[(db, keys[i])].value else [];
      var more := DecodeAndConstructIndexEntries(decode, index, keys[i], value);
      assert keys[..i + 1] == keys[..i] + [keys[i]];
      r := r + more;
    }
    assert keys[..|keys|] == keys;
  }

  ghost function EntrySet(s: seq<IndexEntry>): set<IndexEntry> { set e | e in s }

  /** What is in both lists is dropped from both sets. */
  method CancelCommon(indexOfNewValues: seq<IndexEntry>, indexOfExistingValues: seq<IndexEntry>)
    returns (newEntries: set<IndexEntry>, existingEntries: set<IndexEntry>)
    ensures newEntries == EntrySet(indexOfNewValues) - EntrySet(indexOfExistingValues)
    ensures existingEntries == EntrySet(indexOfExistingValues) - EntrySet(indexOfNewValues)
  {
    newEntries := set e | e in indexOfNewValues;
    existingEntries := set e | e in indexOfExistingValues;
    for i := 0 to |indexOfNewValues|
      invariant forall e :: e in newEntries <==>
        e in indexOfNewValues && !(e in indexOfExistingValues && e in indexOfNewValues[..i])
      invariant forall e :: e in existingEntries <==> e in indexOfExistingValues && e !in indexOfNewValues[..i]
    {
      var e := indexOfNewValues[i];
      assert indexOfNewValues[..i + 1] == indexOfNewValues[..i] + [e];
      if e in existingEntries {
        newEntries, existingEntries := newEntries - {e}, existingEntries - {e};
      }
    }
    assert indexOfNewValues[..|indexOfNewValues|] == indexOfNewValues;
  }

  /** Without common entries and without repetition the lists stay as they are. */
  method RemoveDuplicateIndexEntries(indexOfNewValues: seq<IndexEntry>, indexOfExistingValues: seq<IndexEntry>)
    returns (create: seq<IndexEntry>, remove: seq<IndexEntry>)
    ensures EntrySet(create) == EntrySet(indexOfNewValues) - EntrySet(indexOfExistingValues)
    ensures EntrySet(remove) == EntrySet(indexOfExistingValues) - EntrySet(indexOfNewValues)
  {
    var newEntries, existingEntries := CancelCommon(indexOfNewValues, indexOfExistingValues);
    if |indexOfNewValues| == |newEntries| {
      NoneDropped(indexOfNewValues, EntrySet(indexOfExistingValues));
      return indexOfNewValues, indexOfExistingValues;
    }
    create := Elements(newEntries);
    remove := Elements(existingEntries);
  }

  method Elements(s: set<IndexEntry>) returns (r: seq<IndexEntry>)
    ensures EntrySet(r) == s
  {
    r := [];
    var todo := s;
    while todo != {}
      invariant todo <= s && forall e :: e in r <==> e in s - todo
      decreases |todo|
    {
      var e :| e in todo;
      r, todo := r + [e], todo - {e};
    }
  }

  lemma {:induction false} DistinctAtMost(s: seq<IndexEntry>)
    ensures |EntrySet(s)| <= |s|
  {
    if s != [] {
      var n := |s| - 1;
      DistinctAtMost(s[..n]);
      assert s == s[..n] + [s[n]];
      assert EntrySet(s) == EntrySet(s[..n]) + {s[n]};
    }
  }

  /** As many entries left as listed means that none was repeated and none existed. */
  lemma NoneDropped(s: seq<IndexEntry>, existing: set<IndexEntry>)
    requires |s| == |EntrySet(s) - existing|
    ensures EntrySet(s) !! existing
  {
    DistinctAtMost(s);
    var all := EntrySet(s);
    assert all == (all - existing) + (all * existing);
    assert |all| == |all - existing| + |all * existing|;
  }

  method KeysUpdated(writes: seq<KV>) returns (r: seq<string>)
    ensures (set k | k in r) == WrittenKeySet(writes)
  {
    r := [];
    for i := 0 to |writes|
      invariant forall k :: k in r <==> exists j :: 0 <= j < i && writes[j].key == k
    {
      r := r + [writes[i].key];
    }
  }

  method ConstructIndexEntries(decode: Decoder, index: Index, data: Data, db: string, u: Updates)
    returns (create: seq<IndexEntry>, remove: seq<IndexEntry>)
    ensures EntrySet(create) == Created(decode, index, data, db, u)
    ensures EntrySet(remove) == Removed(decode, index, data, db, u)
  {
    var newEntries := IndexEntriesForNewValues(decode, index, u.writes);
    var keysUpdated := KeysUpdated(u.writes);
    var existing := IndexEntriesOfExistingValue(decode, index, data, db, keysUpdated);
    create, remove := RemoveDuplicateIndexEntries(newEntries, existing);
    var ofDeleted := IndexEntriesOfExistingValue(decode, index, data, db, u.deletes);
    assert EntrySet(remove + ofDeleted) == EntrySet(remove) + EntrySet(ofDeleted);
    remove := remove + ofDeleted;
  }

  ghost function Created(decode: Decoder, index: Index, data: Data, db: string, u: Updates): set<IndexEntry> {
    NewEntries(decode, index, u.writes) - OldEntries(decode, index, data, db, WrittenKeySet(u.writes))
  }

  ghost function Removed(decode: Decoder, index: Index, data: Data, db: string, u: Updates): set<IndexEntry> {
    (OldEntries(decode, index, data, db, WrittenKeySet(u.writes)) - NewEntries(decode, index, u.writes)) +
    OldEntries(decode, index, data, db, set k | k in u.deletes)
  }

  /** The index database takes its writes, then its deletes. */
  ghost function IndexAfter(
    decode: Decoder, index: Index, entries: set<IndexEntry>, data: Data, db: string, u: Updates): set<IndexEntry>
  {
    (entries + Created(decode, index, data, db, u)) - Removed(decode, index, data, db, u)
  }

  /** Keys are written at most once, and not also deleted. */
  ghost predicate UniqueKeys(u: Updates) {
    && (forall i, j :: 0 <= i < j < |u.writes| ==> u.writes[i].key != u.writes[j].key)
    && (forall i :: 0 <= i < |u.writes| ==> u.writes[i].key !in u.deletes)
  }

  lemma {:induction false} LastWriteOfUnique(writes: seq<KV>, i: nat)
    requires i < |writes| && forall j, k :: 0 <= j < k < |writes| ==> writes[j].key != writes[k].key
    ensures LastWrite(writes, writes[i].key) == Some(writes[i].stored)
    decreases |writes|
  {
    if i < |writes| - 1 { LastWriteOfUnique(writes[..|writes| - 1], i); }
  }

  /** Membership of one entry, by its key: the entries of different keys do not meet. */
  lemma EntryOfKey(decode: Decoder, index: Index, data: Data, db: string, e: IndexEntry)
    ensures e in Image(decode, index, data, db) <==>
      (db, e.key) in data && e in EntriesFor(decode, index, e.key, data[(db, e.key)].value)
  {
  }

  /** The entries of a database: for each of its records, what its decoded value holds under the attributes. */
  lemma ImageExact(decode: Decoder, index: Index, data: Data, db: string, e: IndexEntry)
    ensures e in Image(decode, index, data, db) <==>
      && (db, e.key) in data && decode(data[(db, e.key)].value).Some?
      && e.partial.attribute in index && e.partial.typ == index[e.partial.attribute]
      && exists x ::
           StandsFor(e.partial, x) && Has(decode(data[(db, e.key)].value).value, e.partial.attribute, x)
  {
    EntryOfKey(decode, index, data, db, e);
    if (db, e.key) in data && decode(data[(db, e.key)].value).Some? {
      PartialsExact(decode(data[(db, e.key)].value).value, index, e.partial);
    }
  }

  lemma NewEntryOfKey(decode: Decoder, index: Index, u: Updates, e: IndexEntry)
    requires UniqueKeys(u)
    ensures e in NewEntries(decode, index, u.writes) <==>
      LastWrite(u.writes, e.key).Some? && e in EntriesFor(decode, index, e.key, LastWrite(u.writes, e.key).value.value)
  {
    if kv :| kv in u.writes && kv.key == e.key {
      var i :| 0 <= i < |u.writes| && u.writes[i] == kv;
      LastWriteOfUnique(u.writes, i);
      assert forall j :: 0 <= j < |u.writes| && u.writes[j].key == e.key ==> j == i;
    } else {
      LastWriteIsListed(u.writes, e.key);
    }
  }

  lemma WrittenKeyIs(u: Updates, key: string)
    ensures key in WrittenKeySet(u.writes) <==> LastWrite(u.writes, key).Some?
  {
    LastWriteIsListed(u.writes, key);
  }

  /** An index that holds exactly the entries of the data still does after the commit of a block. */
  lemma IndexAgrees(
    decode: Decoder, index: Index, data: Data, updates: map<string, Updates>, after: Data, db: string)
    requires Batched(data, updates, after) && UniqueKeys(Of(updates, db))
    ensures
      IndexAfter(decode, index, Image(decode, index, data, db), data, db, Of(updates, db)) ==
      Image(decode, index, after, db)
  {
    var u := Of(updates, db);
    var entries := IndexAfter(decode, index, Image(decode, index, data, db), data, db, u);
    forall e ensures e in entries <==> e in Image(decode, index, after, db) {
      AgreesAt(decode, index, data, u, after, db, e);
    }
  }

  lemma AgreesAt(decode: Decoder, index: Index, data: Data, u: Updates, after: Data, db: string, e: IndexEntry)
    requires UniqueKeys(u) && Get(after, (db, e.key)) == Outcome(Get(data, (db, e.key)), u, e.key)
    ensures e in IndexAfter(decode, index, Image(decode, index, data, db), data, db, u) <==>
      e in Image(decode, index, after, db)
  {
    EntryOfKey(decode, index, data, db, e);
    EntryOfKey(decode, index, after, db, e);
    NewEntryOfKey(decode, index, u, e);
    WrittenKeyIs(u, e.key);
    LastWriteIsListed(u.writes, e.key);
    assert (db, e.key) in after <==> Get(after, (db, e.key)).Some?;
  }
}
