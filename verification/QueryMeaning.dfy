/** What a query on a NUMBER attribute answers about the data, after any run of blocks. */
module QueryMeaning {
  import opened Basics
  import opened WorldState
  import opened StateIndex
  import opened IndexRuns
  import opened OrderEncoding
  import Ledger
  import IndexQuery
  import QueryCombine

  ghost predicate HasNumber(v: Json, attribute: string, n: int64) { Has(v, attribute, JNumber(Some(n))) }

  function NumberPartial(attribute: string, n: int64): Partial {
    Partial(attribute, NUMBER, NumberValue(EncodeInt64(n)))
  }

  /** Strings as bytes; different strings have different bytes. */
  ghost predicate Injective(utf8: string -> Bytes) {
    forall a, b :: utf8(a) == utf8(b) ==> a == b
  }

  /** The code of an entry of type NUMBER is that of an integer. */
  ghost predicate Coded(e: IndexEntry) {
    e.partial.typ == NUMBER ==> exists n :: e.partial == NumberPartial(e.partial.attribute, n)
  }

  function CodeOf(e: IndexEntry): Option<int64> {
    if e.partial.typ != NUMBER || !e.partial.value.NumberValue? then None
    else
      var n := Decoded(e.partial.value.code);
      if n.Some? && MIN_INT64 <= n.value < -MIN_INT64 then Some(n.value) else None
  }

  /** An index entry as the query reads it; entries of other types keep the text after their type. */
  function QueryEntry(utf8: string -> Bytes, text: IndexEntry -> Bytes, e: IndexEntry): IndexQuery.Entry {
    var n := CodeOf(e);
    if n.Some? then IndexQuery.NumberEntry(utf8(e.partial.attribute), n.value, utf8(e.key))
    else IndexQuery.OtherEntry(utf8(e.partial.attribute), if e.partial.typ == STRING then 49 else 50, text(e))
  }

  function QueryEntries(utf8: string -> Bytes, text: IndexEntry -> Bytes, entries: set<IndexEntry>)
    : set<IndexQuery.Entry>
  {
    set e | e in entries :: QueryEntry(utf8, text, e)
  }

  lemma CodeOfNumber(attribute: string, n: int64, key: string)
    ensures CodeOf(IndexEntry(NumberPartial(attribute, n), key)) == Some(n)
  {
    DecodeEncode(n);
  }

  /** The number entries the query reads are exactly those of the index. */
  lemma NumberEntries(
    utf8: string -> Bytes, text: IndexEntry -> Bytes, entries: set<IndexEntry>,
    attribute: string, n: int64, key: string)
    requires Injective(utf8) && forall e :: e in entries ==> Coded(e)
    ensures IndexEntry(NumberPartial(attribute, n), key) in entries <==>
      IndexQuery.NumberEntry(utf8(attribute), n, utf8(key)) in QueryEntries(utf8, text, entries)
  {
    var wanted := IndexEntry(NumberPartial(attribute, n), key);
    CodeOfNumber(attribute, n, key);
    if wanted in entries {
      assert QueryEntry(utf8, text, wanted) in QueryEntries(utf8, text, entries);
    }
    if e :| e in entries && QueryEntry(utf8, text, e) == IndexQuery.NumberEntry(utf8(attribute), n, utf8(key)) {
      var m :| e.partial == NumberPartial(e.partial.attribute, m);
      CodeOfNumber(e.partial.attribute, m, e.key);
      assert e == wanted;
    }
  }

  /** Whatever number entry the query reads stands for one of the index. */
  lemma NumberEntryHasKey(
    utf8: string -> Bytes, text: IndexEntry -> Bytes, entries: set<IndexEntry>, q: IndexQuery.Entry)
    returns (key: string)
    requires q in QueryEntries(utf8, text, entries) && q.NumberEntry?
    ensures q.key == utf8(key)
  {
    var e :| e in entries && QueryEntry(utf8, text, e) == q;
    key := e.key;
  }

  lemma PartialsCoded(v: Json, index: Index, p: Partial)
    requires p in Partials(v, index) && p.typ == NUMBER
    ensures exists n :: p == NumberPartial(p.attribute, n)
  {
    PartialsExact(v, index, p);
    var x :| StandsFor(p, x) && Has(v, p.attribute, x);
    assert p == NumberPartial(p.attribute, x.n.value);
  }

  lemma ImageCoded(decode: Decoder, index: Index, data: Data, db: string, e: IndexEntry)
    requires e in Image(decode, index, data, db)
    ensures Coded(e)
  {
    EntryOfKey(decode, index, data, db, e);
    if e.partial.typ == NUMBER {
      PartialsCoded(decode(data[(db, e.key)].value).value, index, e.partial);
    }
  }

  /** A key of the database whose value holds a number under the attribute that meets the conditions. */
  ghost predicate Wanted(
    decode: Decoder, data: Data, db: string, attribute: string, conds: IndexQuery.Conditions, key: string)
    requires IndexQuery.Validated(conds)
  {
    && (db, key) in data && decode(data[(db, key)].value).Some?
    && exists n :: HasNumber(decode(data[(db, key)].value).value, attribute, n) && IndexQuery.Satisfies(n, conds)
  }

  lemma EntryMeans(
    decode: Decoder, index: Index, data: Data, db: string, attribute: string, n: int64, key: string)
    requires attribute in index && index[attribute] == NUMBER
    ensures IndexEntry(NumberPartial(attribute, n), key) in Image(decode, index, data, db) <==>
      && (db, key) in data && decode(data[(db, key)].value).Some?
      && HasNumber(decode(data[(db, key)].value).value, attribute, n)
  {
    EntryOfKey(decode, index, data, db, IndexEntry(NumberPartial(attribute, n), key));
    if (db, key) in data && decode(data[(db, key)].value).Some? {
      IndexedNumbers(decode(data[(db, key)].value).value, index, attribute, n);
    }
  }

  /** The keys with a matching entry are exactly the ones wanted. */
  lemma MatchingIsWanted(
    decode: Decoder, index: Index, data: Data, db: string, attribute: string, conds: IndexQuery.Conditions,
    utf8: string -> Bytes, text: IndexEntry -> Bytes, key: string)
    requires attribute in index && index[attribute] == NUMBER && IndexQuery.Validated(conds) && Injective(utf8)
    ensures
      var entries := QueryEntries(utf8, text, Image(decode, index, data, db));
      utf8(key) in IndexQuery.Matching(entries, utf8(attribute), conds) <==>
        Wanted(decode, data, db, attribute, conds, key)
  {
    var image := Image(decode, index, data, db);
    var entries := QueryEntries(utf8, text, image);
    forall e | e in image ensures Coded(e) { ImageCoded(decode, index, data, db, e); }
    forall n: int64
      ensures IndexQuery.NumberEntry(utf8(attribute), n, utf8(key)) in entries <==>
        && (db, key) in data && decode(data[(db, key)].value).Some?
        && HasNumber(decode(data[(db, key)].value).value, attribute, n)
    {
      EntryMeans(decode, index, data, db, attribute, n, key);
      NumberEntries(utf8, text, image, attribute, n, key);
    }
  }

  /**
   * After every run of blocks, a query on a NUMBER attribute returns exactly the keys whose current value holds, at
   * some depth, an integer under that attribute that meets all its conditions; without conditions it returns nothing.
   */
  method Query(
    q: IndexQuery.Quoting, utf8: string -> Bytes, attribute: string, conds: IndexQuery.Conditions,
    getIterator: (Bytes, Bytes) -> seq<IndexQuery.Entry>,
    ghost decode: Decoder, ghost index: Index, ghost blocks: seq<Ledger.Block>, ghost db: string,
    ghost text: IndexEntry -> Bytes)
    returns (keys: set<Bytes>)
    requires Ordinary(blocks, db) && attribute in index && index[attribute] == NUMBER
    requires IndexQuery.Validated(conds) && Injective(utf8)
    requires IndexQuery.Iterates(q, QueryEntries(utf8, text, IndexAfterRun(decode, index, blocks, db)), getIterator)
    ensures forall key :: utf8(key) in keys <==>
      conds != map[] && Wanted(decode, Ledger.StateAfter(blocks), db, attribute, conds, key)
    ensures forall k :: k in keys ==> exists key :: k == utf8(key)
  {
    ghost var data := Ledger.StateAfter(blocks);
    IndexAgreesOverRuns(decode, index, blocks, db);
    ghost var entries := QueryEntries(utf8, text, Image(decode, index, data, db));
    forall e | e in entries ensures IndexQuery.Indexable(e) {}
    keys := IndexQuery.Execute(q, utf8(attribute), conds, getIterator, entries);
    forall key ensures utf8(key) in keys <==> conds != map[] && Wanted(decode, data, db, attribute, conds, key) {
      MatchingIsWanted(decode, index, data, db, attribute, conds, utf8, text, key);
    }
    forall k | k in keys ensures exists key :: k == utf8(key) {
      var e :| e in entries && e.NumberEntry? && e.key == k;
      var key := NumberEntryHasKey(utf8, text, Image(decode, index, data, db), e);
    }
  }

  // ----- Several attributes -----

  type AttrsConds = map<string, IndexQuery.Conditions>

  /** The conditions by the bytes of their attributes. */
  function InBytes(utf8: string -> Bytes, attrsConds: AttrsConds): (r: map<Bytes, IndexQuery.Conditions>)
    requires Injective(utf8)
    ensures forall attr :: attr in attrsConds ==> utf8(attr) in r && r[utf8(attr)] == attrsConds[attr]
    ensures forall b :: b in r ==> exists attr :: attr in attrsConds && b == utf8(attr)
  {
    map attr | attr in attrsConds :: utf8(attr) := attrsConds[attr]
  }

  ghost predicate AllNumbers(index: Index, attrsConds: AttrsConds) {
    forall attr :: attr in attrsConds ==>
      attr in index && index[attr] == NUMBER && IndexQuery.Validated(attrsConds[attr])
  }

  /** The key is wanted for the conditions of one attribute; no key is for none. */
  ghost predicate Meets(
    decode: Decoder, data: Data, db: string, attribute: string, conds: IndexQuery.Conditions, key: string)
    requires IndexQuery.Validated(conds)
  {
    conds != map[] && Wanted(decode, data, db, attribute, conds, key)
  }

  lemma AnswerIsWanted(
    decode: Decoder, index: Index, data: Data, db: string, attrsConds: AttrsConds,
    utf8: string -> Bytes, text: IndexEntry -> Bytes, key: string)
    requires AllNumbers(index, attrsConds) && Injective(utf8)
    ensures forall attr :: attr in attrsConds ==>
      (utf8(key) in QueryCombine.Answer(
         QueryEntries(utf8, text, Image(decode, index, data, db)), utf8(attr), attrsConds[attr]) <==>
       Meets(decode, data, db, attr, attrsConds[attr], key))
  {
    forall attr | attr in attrsConds
      ensures utf8(key) in QueryCombine.Answer(
        QueryEntries(utf8, text, Image(decode, index, data, db)), utf8(attr), attrsConds[attr]) <==>
        Meets(decode, data, db, attr, attrsConds[attr], key)
    {
      MatchingIsWanted(decode, index, data, db, attr, attrsConds[attr], utf8, text, key);
    }
  }

  lemma AnswerHasKey(
    entries: set<IndexEntry>, attribute: Bytes, conds: IndexQuery.Conditions,
    utf8: string -> Bytes, text: IndexEntry -> Bytes, k: Bytes)
    returns (key: string)
    requires IndexQuery.Validated(conds)
    requires k in QueryCombine.Answer(QueryEntries(utf8, text, entries), attribute, conds)
    ensures k == utf8(key)
  {
    var e :| e in QueryEntries(utf8, text, entries) && e.NumberEntry? && e.key == k;
    key := NumberEntryHasKey(utf8, text, entries, e);
  }

  /** After every run of blocks, the keys whose value meets the conditions of all attributes. */
  method QueryAND(
    q: IndexQuery.Quoting, utf8: string -> Bytes, attrsConds: AttrsConds,
    getIterator: (Bytes, Bytes) -> seq<IndexQuery.Entry>,
    ghost decode: Decoder, ghost index: Index, ghost blocks: seq<Ledger.Block>, ghost db: string,
    ghost text: IndexEntry -> Bytes)
    returns (keys: set<Bytes>)
    requires Ordinary(blocks, db) && AllNumbers(index, attrsConds) && Injective(utf8)
    requires IndexQuery.Iterates(q, QueryEntries(utf8, text, IndexAfterRun(decode, index, blocks, db)), getIterator)
    ensures forall key :: utf8(key) in keys <==>
      && attrsConds != map[]
      && forall attr :: attr in attrsConds ==>
           Meets(decode, Ledger.StateAfter(blocks), db, attr, attrsConds[attr], key)
    ensures forall k :: k in keys ==> exists key :: k == utf8(key)
  {
    ghost var data := Ledger.StateAfter(blocks);
    IndexAgreesOverRuns(decode, index, blocks, db);
    ghost var image := Image(decode, index, data, db);
    forall e | e in QueryEntries(utf8, text, image) ensures IndexQuery.Indexable(e) {}
    keys := QueryCombine.ExecuteAND(q, InBytes(utf8, attrsConds), getIterator, QueryEntries(utf8, text, image));
    forall key
      ensures utf8(key) in keys <==>
        attrsConds != map[] && forall attr :: attr in attrsConds ==>
          Meets(decode, data, db, attr, attrsConds[attr], key)
    {
      AnswerIsWanted(decode, index, data, db, attrsConds, utf8, text, key);
      AllInBytes(utf8, text, image, attrsConds, key);
    }
    forall k | k in keys ensures exists key :: k == utf8(key) {
      var b :| b in InBytes(utf8, attrsConds);
      var key := AnswerHasKey(image, b, InBytes(utf8, attrsConds)[b], utf8, text, k);
    }
  }

  /** The answers for the attributes are those for their bytes. */
  lemma AllInBytes(
    utf8: string -> Bytes, text: IndexEntry -> Bytes, entries: set<IndexEntry>, attrsConds: AttrsConds, key: string)
    requires Injective(utf8) && forall attr :: attr in attrsConds ==> IndexQuery.Validated(attrsConds[attr])
    ensures InBytes(utf8, attrsConds) == map[] <==> attrsConds == map[]
    ensures
      var inBytes, es := InBytes(utf8, attrsConds), QueryEntries(utf8, text, entries);
      (forall b :: b in inBytes ==> utf8(key) in QueryCombine.Answer(es, b, inBytes[b])) <==>
      (forall attr :: attr in attrsConds ==> utf8(key) in QueryCombine.Answer(es, utf8(attr), attrsConds[attr]))
  {
    if attrsConds != map[] {
      var attr :| attr in attrsConds;
      assert utf8(attr) in InBytes(utf8, attrsConds);
    }
  }

  /** After every run of blocks, the keys whose value meets the conditions of some attribute. */
  method QueryOR(
    q: IndexQuery.Quoting, utf8: string -> Bytes, attrsConds: AttrsConds,
    getIterator: (Bytes, Bytes) -> seq<IndexQuery.Entry>,
    ghost decode: Decoder, ghost index: Index, ghost blocks: seq<Ledger.Block>, ghost db: string,
    ghost text: IndexEntry -> Bytes)
    returns (keys: set<Bytes>)
    requires Ordinary(blocks, db) && AllNumbers(index, attrsConds) && Injective(utf8)
    requires IndexQuery.Iterates(q, QueryEntries(utf8, text, IndexAfterRun(decode, index, blocks, db)), getIterator)
    ensures forall key :: utf8(key) in keys <==>
      exists attr :: attr in attrsConds && Meets(decode, Ledger.StateAfter(blocks), db, attr, attrsConds[attr], key)
    ensures forall k :: k in keys ==> exists key :: k == utf8(key)
  {
    ghost var data := Ledger.StateAfter(blocks);
    IndexAgreesOverRuns(decode, index, blocks, db);
    ghost var image := Image(decode, index, data, db);
    forall e | e in QueryEntries(utf8, text, image) ensures IndexQuery.Indexable(e) {}
    keys := QueryCombine.ExecuteOR(q, InBytes(utf8, attrsConds), getIterator, QueryEntries(utf8, text, image));
    forall key
      ensures utf8(key) in keys <==>
        exists attr :: attr in attrsConds && Meets(decode, data, db, attr, attrsConds[attr], key)
    {
      AnswerIsWanted(decode, index, data, db, attrsConds, utf8, text, key);
      SomeInBytes(utf8, text, image, attrsConds, key);
    }
    forall k | k in keys ensures exists key :: k == utf8(key) {
      var b :| b in InBytes(utf8, attrsConds)
        && k in QueryCombine.Answer(QueryEntries(utf8, text, image), b, InBytes(utf8, attrsConds)[b]);
      var key := AnswerHasKey(image, b, InBytes(utf8, attrsConds)[b], utf8, text, k);
    }
  }

  lemma SomeInBytes(
    utf8: string -> Bytes, text: IndexEntry -> Bytes, entries: set<IndexEntry>, attrsConds: AttrsConds, key: string)
    requires Injective(utf8) && forall attr :: attr in attrsConds ==> IndexQuery.Validated(attrsConds[attr])
    ensures
      var inBytes, es := InBytes(utf8, attrsConds), QueryEntries(utf8, text, entries);
      (exists b :: b in inBytes && utf8(key) in QueryCombine.Answer(es, b, inBytes[b])) <==>
      (exists attr :: attr in attrsConds && utf8(key) in QueryCombine.Answer(es, utf8(attr), attrsConds[attr]))
  {
    var inBytes, es := InBytes(utf8, attrsConds), QueryEntries(utf8, text, entries);
    if attr :| attr in attrsConds && utf8(key) in QueryCombine.Answer(es, utf8(attr), attrsConds[attr]) {
      assert utf8(attr) in inBytes && utf8(key) in QueryCombine.Answer(es, utf8(attr), inBytes[utf8(attr)]);
    }
  }
}
