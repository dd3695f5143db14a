/** Conjunctions and disjunctions of conditions on several attributes. */
module QueryCombine {
  import opened Basics
  import opened IndexQuery

  type KeySets = map<Bytes, set<Bytes>>

  ghost predicate InAll(attrToKeys: KeySets, k: Bytes) {
    forall attr :: attr in attrToKeys ==> k in attrToKeys[attr]
  }

  ghost predicate InSome(attrToKeys: KeySets, k: Bytes) {
    exists attr :: attr in attrToKeys && k in attrToKeys[attr]
  }

  /** An attribute with the fewest keys. */
  method Smallest(attrToKeys: KeySets) returns (minKeysAttr: Bytes)
    requires attrToKeys != map[]
    ensures minKeysAttr in attrToKeys
    ensures forall attr :: attr in attrToKeys ==> |attrToKeys[minKeysAttr]| <= |attrToKeys[attr]|
  {
    minKeysAttr :| minKeysAttr in attrToKeys;
    var todo := attrToKeys.Keys - {minKeysAttr};
    while todo != {}
      invariant todo <= attrToKeys.Keys && minKeysAttr in attrToKeys
      invariant forall attr :: attr in attrToKeys && attr !in todo ==>
        |attrToKeys[minKeysAttr]| <= |attrToKeys[attr]|
      decreases |todo|
    {
      var attr :| attr in todo;
      if |attrToKeys[minKeysAttr]| > |attrToKeys[attr]| {
        minKeysAttr := attr;
      }
      todo := todo - {attr};
    }
  }

  /** Whether a key of the smallest set is in all others; the inner loop goes on after the first miss. */
  method InOthers(attrToKeys: KeySets, minKeysAttr: Bytes, k: Bytes) returns (kept: bool)
    requires minKeysAttr in attrToKeys && k in attrToKeys[minKeysAttr]
    ensures kept <==> InAll(attrToKeys, k)
  {
    kept := true;
    var todo := attrToKeys.Keys;
    while todo != {}
      invariant todo <= attrToKeys.Keys
      invariant kept <==> forall attr :: attr in attrToKeys && attr !in todo ==> k in attrToKeys[attr]
      decreases |todo|
    {
      var attr :| attr in todo;
      if attr != minKeysAttr && k !in attrToKeys[attr] {
        kept := false;
      }
      todo := todo - {attr};
    }
  }

  method Intersection(attrToKeys: KeySets) returns (keys: set<Bytes>)
    ensures forall k :: k in keys <==> attrToKeys != map[] && InAll(attrToKeys, k)
  {
    if attrToKeys == map[] {
      return {};
    }
    var minKeysAttr := Smallest(attrToKeys);
    var minKeys := attrToKeys[minKeysAttr];
    keys := minKeys;
    var todo := minKeys;
    while todo != {}
      invariant todo <= keys <= minKeys
      invariant forall k :: k in minKeys && k !in todo ==> (k in keys <==> InAll(attrToKeys, k))
      decreases |todo|
    {
      var k :| k in todo;
      var kept := InOthers(attrToKeys, minKeysAttr, k);
      if !kept {
        keys := keys - {k};
      }
      todo := todo - {k};
    }
    assert forall k :: InAll(attrToKeys, k) ==> k in minKeys;
  }

  method Union(attrToKeys: KeySets) returns (keys: set<Bytes>)
    ensures forall k :: k in keys <==> InSome(attrToKeys, k)
  {
    keys := {};
    var todo := attrToKeys.Keys;
    while todo != {}
      invariant todo <= attrToKeys.Keys
      invariant forall k :: k in keys <==> exists attr :: attr in attrToKeys && attr !in todo && k in attrToKeys[attr]
      decreases |todo|
    {
      var attr :| attr in todo;
      keys := keys + attrToKeys[attr];
      todo := todo - {attr};
    }
  }

  /** The keys of one attribute's conditions; an empty condition set has none. */
  ghost function Answer(index: set<Entry>, attribute: Bytes, conds: Conditions): set<Bytes>
    requires Validated(conds)
  {
    if conds == map[] then {} else Matching(index, attribute, conds)
  }

  ghost predicate AllValidated(attrsConds: map<Bytes, Conditions>) {
    forall attr :: attr in attrsConds ==> Validated(attrsConds[attr])
  }

  /** The attributes are independent of each other, so the order in which their goroutines finish is of no matter. */
  method ExecuteAllConditions(
    q: Quoting, attrsConds: map<Bytes, Conditions>, getIterator: (Bytes, Bytes) -> seq<Entry>, ghost index: set<Entry>)
    returns (attrKeys: KeySets)
    requires AllValidated(attrsConds)
    requires (forall e :: e in index ==> Indexable(e)) && Iterates(q, index, getIterator)
    ensures attrKeys.Keys == attrsConds.Keys
    ensures forall attr :: attr in attrsConds ==> attrKeys[attr] == Answer(index, attr, attrsConds[attr])
  {
    attrKeys := map[];
    var todo := attrsConds.Keys;
    while todo != {}
      invariant todo <= attrsConds.Keys && attrKeys.Keys == attrsConds.Keys - todo
      invariant forall attr :: attr in attrKeys ==> attrKeys[attr] == Answer(index, attr, attrsConds[attr])
      decreases |todo|
    {
      var attr :| attr in todo;
      var keys := Execute(q, attr, attrsConds[attr], getIterator, index);
      attrKeys := attrKeys[attr := keys];
      todo := todo - {attr};
    }
  }

  method ExecuteAND(
    q: Quoting, attrsConds: map<Bytes, Conditions>, getIterator: (Bytes, Bytes) -> seq<Entry>, ghost index: set<Entry>)
    returns (keys: set<Bytes>)
    requires AllValidated(attrsConds)
    requires (forall e :: e in index ==> Indexable(e)) && Iterates(q, index, getIterator)
    ensures forall k :: k in keys <==>
      attrsConds != map[] && forall attr :: attr in attrsConds ==> k in Answer(index, attr, attrsConds[attr])
  {
    var attrKeys := ExecuteAllConditions(q, attrsConds, getIterator, index);
    keys := Intersection(attrKeys);
    assert attrKeys == map[] <==> attrsConds == map[] by {
      assert attrKeys == map[] <==> attrKeys.Keys == {};
      assert attrsConds == map[] <==> attrsConds.Keys == {};
    }
  }

  method ExecuteOR(
    q: Quoting, attrsConds: map<Bytes, Conditions>, getIterator: (Bytes, Bytes) -> seq<Entry>, ghost index: set<Entry>)
    returns (keys: set<Bytes>)
    requires AllValidated(attrsConds)
    requires (forall e :: e in index ==> Indexable(e)) && Iterates(q, index, getIterator)
    ensures forall k :: k in keys <==>
      exists attr :: attr in attrsConds && k in Answer(index, attr, attrsConds[attr])
  {
    var attrKeys := ExecuteAllConditions(q, attrsConds, getIterator, index);
    keys := Union(attrKeys);
  }
}
