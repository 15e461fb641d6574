/**
  The consistency of the ring's key tables (ring.go:162-167): `hashes`,
  `keysByHash`, `hashesByKey` and `contentByKey` describe the same keys, and
  Emplace (ring.go:491-553) and Remove (ring.go:583-631) keep them so.
 */
module KeyTables {
  import opened RingTypes
  import opened OrderedIndex

  /**
    Membership written as a call, as OnRing is. The table invariants below
    quantify over these, so that each fires only where a proof names the
    entry it is about, not wherever a table is mentioned.
   */
  ghost predicate Known(hashesByKey: map<string, uint64>, k: string) {
    k in hashesByKey
  }

  ghost predicate Stored(keysByHash: map<uint64, seq<InnerKey>>, h: uint64) {
    h in keysByHash
  }

  /** No two keys of a list share a name. */
  ghost predicate DistinctNames(list: seq<InnerKey>) {
    forall i, j :: 0 <= i < j < |list| ==> list[i].key != list[j].key
  }

  /** The list stored at position h: ordered, one entry per name, and every entry's key hashed to h. */
  ghost predicate ListValid(list: seq<InnerKey>, h: uint64, hashesByKey: map<string, uint64>) {
    && OrderSorted(list)
    && DistinctNames(list)
    && forall i :: 0 <= i < |list| ==> list[i].key in hashesByKey && hashesByKey[list[i].key] == h
  }

  /** Every known key is listed, under its name, at its hash position, which is a ring hash. */
  ghost predicate KeysListed(hashes: seq<uint64>, keysByHash: map<uint64, seq<InnerKey>>, hashesByKey: map<string, uint64>) {
    forall k {:trigger Known(hashesByKey, k)} :: Known(hashesByKey, k) ==>
      hashesByKey[k] in hashes && NamedIndex(Lookup(keysByHash, hashesByKey[k], []), k) != -1
  }

  /** Every stored list is valid for its position. */
  ghost predicate ListsValid(keysByHash: map<uint64, seq<InnerKey>>, hashesByKey: map<string, uint64>) {
    forall h {:trigger Stored(keysByHash, h)} :: Stored(keysByHash, h) ==> ListValid(keysByHash[h], h, hashesByKey)
  }

  /** Every ring hash holds at least one key. */
  ghost predicate PositionsHeld(hashes: seq<uint64>, keysByHash: map<uint64, seq<InnerKey>>) {
    forall h {:trigger OnRing(hashes, h)} :: OnRing(hashes, h) ==> Lookup(keysByHash, h, []) != []
  }

  /**
    The key tables agree: content and hash position are known for the same
    keys; every key is listed at its position, which is a ring hash; every
    listed entry belongs there; and every ring hash holds at least one key.
   */
  ghost predicate KeysValid<T>(
    hashes: seq<uint64>,
    keysByHash: map<uint64, seq<InnerKey>>,
    hashesByKey: map<string, uint64>,
    contentByKey: map<string, T>)
  {
    && contentByKey.Keys == hashesByKey.Keys
    && KeysListed(hashes, keysByHash, hashesByKey)
    && ListsValid(keysByHash, hashesByKey)
    && PositionsHeld(hashes, keysByHash)
  }

  /** Every known key sits at a ring hash. */
  lemma KeysOnRing<T>(
    hashes: seq<uint64>, keysByHash: map<uint64, seq<InnerKey>>,
    hashesByKey: map<string, uint64>, contentByKey: map<string, T>)
    requires KeysValid(hashes, keysByHash, hashesByKey, contentByKey)
    ensures forall k :: k in hashesByKey ==> hashesByKey[k] in hashes
  {
    forall k | k in hashesByKey
      ensures hashesByKey[k] in hashes
    {
      assert Known(hashesByKey, k);
    }
  }

  /** Emplace's new key list: the key inserted at findKeyIndex (ring.go:543-547). */
  function Inserted(list: seq<InnerKey>, k: InnerKey): seq<InnerKey> {
    InsertPreserveOrder(list, k, FindKeyIndex).0
  }

  /** Remove's new key list: the first entry with the name dropped (ring.go:597-600). */
  function Removed(list: seq<InnerKey>, name: string): seq<InnerKey> {
    RemoveIndex(list, NamedIndex(list, name)).0
  }

  /** Where Emplace's insertion puts each entry. */
  lemma InsertedIndices(list: seq<InnerKey>, k: InnerKey)
    ensures var i := FindKeyIndex(list, k);
      var r := Inserted(list, k);
      && i <= |list| && |r| == |list| + 1 && r[i] == k
      && (forall j :: 0 <= j < i ==> r[j] == list[j])
      && (forall j :: i < j < |r| ==> r[j] == list[j - 1])
  {
  }

  /** Inserting a key keeps every old entry and adds exactly the new one. */
  lemma InsertedEntries(list: seq<InnerKey>, k: InnerKey)
    ensures forall x :: x in Inserted(list, k) <==> x in list || x == k
  {
    var i := FindKeyIndex(list, k);
    var r := Inserted(list, k);
    InsertedIndices(list, k);
    forall x
      ensures x in r <==> x in list || x == k
    {
      if x in list {
        var a :| 0 <= a < |list| && list[a] == x;
        if a < i { assert r[a] == x; } else { assert r[a + 1] == x; }
      }
      if x in r {
        var a :| 0 <= a < |r| && r[a] == x;
        if a < i { assert list[a] == x; } else if a > i { assert list[a - 1] == x; }
      }
    }
  }

  /** Inserting a key under a new name keeps the names distinct. */
  lemma InsertedDistinct(list: seq<InnerKey>, k: InnerKey)
    requires DistinctNames(list) && forall x :: x in list ==> x.key != k.key
    ensures DistinctNames(Inserted(list, k))
  {
    var i := FindKeyIndex(list, k);
    var r := Inserted(list, k);
    InsertedIndices(list, k);
    forall a, b | 0 <= a < b < |r|
      ensures r[a].key != r[b].key
    {
      if a == i {
        assert r[b] == list[b - 1];
      } else if b == i {
        assert r[a] == list[a];
      } else {
        var a' := if a < i then a else a - 1;
        var b' := if b < i then b else b - 1;
        assert r[a] == list[a'] && r[b] == list[b'];
      }
    }
  }

  /** Where Remove's deletion leaves each remaining entry. */
  lemma RemovedIndices(list: seq<InnerKey>, name: string)
    requires NamedIndex(list, name) != -1
    ensures var idx := NamedIndex(list, name);
      var r := Removed(list, name);
      && 0 <= idx < |list| && list[idx].key == name && |r| == |list| - 1
      && (forall j :: 0 <= j < idx ==> r[j] == list[j])
      && (forall j :: idx <= j < |r| ==> r[j] == list[j + 1])
  {
  }

  /** Removing the entry with a name keeps every other entry and drops exactly that one. */
  lemma RemovedEntries(list: seq<InnerKey>, name: string)
    requires DistinctNames(list) && NamedIndex(list, name) != -1
    ensures forall x :: x in Removed(list, name) <==> x in list && x.key != name
  {
    var idx := NamedIndex(list, name);
    var r := Removed(list, name);
    RemovedIndices(list, name);
    forall x
      ensures x in r <==> x in list && x.key != name
    {
      if x in r {
        var a :| 0 <= a < |r| && r[a] == x;
        if a < idx { assert list[a] == x; } else { assert list[a + 1] == x; }
      }
      if x in list && x.key != name {
        var a :| 0 <= a < |list| && list[a] == x;
        if a < idx { assert r[a] == x; } else { assert r[a - 1] == x; }
      }
    }
  }

  /** Removing an entry keeps the names distinct and the list ordered. */
  lemma RemovedKeepsShape(list: seq<InnerKey>, name: string)
    requires DistinctNames(list) && OrderSorted(list) && NamedIndex(list, name) != -1
    ensures DistinctNames(Removed(list, name)) && OrderSorted(Removed(list, name))
  {
    var idx := NamedIndex(list, name);
    var r := Removed(list, name);
    RemovedIndices(list, name);
    forall i, j | 0 <= i < j < |r|
      ensures r[i].key != r[j].key && r[i].order <= r[j].order
    {
      var i' := if i < idx then i else i + 1;
      var j' := if j < idx then j else j + 1;
      assert r[i] == list[i'] && r[j] == list[j'];
    }
  }

  /** A name is found in a list exactly when some entry has it. */
  lemma NamedIndexFound(list: seq<InnerKey>, x: InnerKey)
    requires x in list
    ensures NamedIndex(list, x.key) != -1
  {
    var a :| 0 <= a < |list| && list[a] == x;
  }

  /** A list stays valid when the table learns an unrelated key. */
  lemma ListValidExtend(list: seq<InnerKey>, g: uint64, hashesByKey: map<string, uint64>, name: string, h: uint64)
    requires ListValid(list, g, hashesByKey) && name !in hashesByKey
    ensures ListValid(list, g, hashesByKey[name := h])
  {
  }

  /** A list stays valid when the table forgets a key the list does not hold. */
  lemma ListValidShrink(list: seq<InnerKey>, g: uint64, hashesByKey: map<string, uint64>, name: string)
    requires ListValid(list, g, hashesByKey) && name in hashesByKey && hashesByKey[name] != g
    ensures ListValid(list, g, hashesByKey - {name})
  {
  }

  /** Emplace's list at h is valid: ordered, with distinct names, all hashed to h. */
  lemma EmplaceListValid(list: seq<InnerKey>, k: InnerKey, h: uint64, hashesByKey: map<string, uint64>)
    requires ListValid(list, h, hashesByKey) && k.key !in hashesByKey
    ensures ListValid(Inserted(list, k), h, hashesByKey[k.key := h])
  {
    var list' := Inserted(list, k);
    var hbk' := hashesByKey[k.key := h];
    assert forall x :: x in list ==> x.key in hashesByKey && hashesByKey[x.key] == h;
    InsertedEntries(list, k);
    InsertedDistinct(list, k);
    InsertKeyOrdered(list, k);
    forall i | 0 <= i < |list'|
      ensures list'[i].key in hbk' && hbk'[list'[i].key] == h
    {
      assert list'[i] in list';
    }
  }

  /** After Emplace every stored list is still valid. */
  lemma EmplaceListsValid(keysByHash: map<uint64, seq<InnerKey>>, hashesByKey: map<string, uint64>, k: InnerKey, h: uint64)
    requires ListsValid(keysByHash, hashesByKey) && k.key !in hashesByKey
    ensures ListsValid(keysByHash[h := Inserted(Lookup(keysByHash, h, []), k)], hashesByKey[k.key := h])
  {
    var list := Lookup(keysByHash, h, []);
    var kbh' := keysByHash[h := Inserted(list, k)];
    var hbk' := hashesByKey[k.key := h];
    if h in keysByHash {
      assert Stored(keysByHash, h);
    }
    EmplaceListValid(list, k, h, hashesByKey);
    forall g | Stored(kbh', g)
      ensures ListValid(kbh'[g], g, hbk')
    {
      if g != h {
        assert Stored(keysByHash, g);
        ListValidExtend(keysByHash[g], g, hashesByKey, k.key, h);
      }
    }
  }

  /** After Emplace every key, the new one included, is listed at a ring hash. */
  lemma EmplaceKeysListed(hashes: seq<uint64>, keysByHash: map<uint64, seq<InnerKey>>, hashesByKey: map<string, uint64>, k: InnerKey, h: uint64)
    requires StrictlySorted(hashes) && KeysListed(hashes, keysByHash, hashesByKey)
    ensures KeysListed(InsertHash(hashes, h), keysByHash[h := Inserted(Lookup(keysByHash, h, []), k)], hashesByKey[k.key := h])
  {
    var list := Lookup(keysByHash, h, []);
    var list' := Inserted(list, k);
    var hashes' := InsertHash(hashes, h);
    var kbh' := keysByHash[h := list'];
    var hbk' := hashesByKey[k.key := h];
    InsertedEntries(list, k);
    forall x | Known(hbk', x)
      ensures hbk'[x] in hashes' && NamedIndex(Lookup(kbh', hbk'[x], []), x) != -1
    {
      if x != k.key {
        assert Known(hashesByKey, x);
      }
      assert hbk'[x] in Elems(hashes');
      if x == k.key {
        assert k in list';
        NamedIndexFound(list', k);
      } else if hbk'[x] == h {
        var e := list[NamedIndex(list, x)];
        assert e in list';
        NamedIndexFound(list', e);
      } else {
        assert hbk'[x] in Elems(hashes);
      }
    }
  }

  /** After Emplace every ring hash, the new one included, holds a key. */
  lemma EmplacePositionsHeld(hashes: seq<uint64>, keysByHash: map<uint64, seq<InnerKey>>, k: InnerKey, h: uint64)
    requires StrictlySorted(hashes) && PositionsHeld(hashes, keysByHash)
    ensures PositionsHeld(InsertHash(hashes, h), keysByHash[h := Inserted(Lookup(keysByHash, h, []), k)])
  {
    var list' := Inserted(Lookup(keysByHash, h, []), k);
    var hashes' := InsertHash(hashes, h);
    InsertedEntries(Lookup(keysByHash, h, []), k);
    assert k in list';
    forall x | OnRing(hashes', x)
      ensures Lookup(keysByHash[h := list'], x, []) != []
    {
      assert x in Elems(hashes');
      if x != h {
        assert x in Elems(hashes);
        assert OnRing(hashes, x);
      }
    }
  }

  /** Emplace keeps the key tables consistent (ring.go:506, 520, 543-550). */
  lemma EmplaceKeepsKeys<T>(
    hashes: seq<uint64>, keysByHash: map<uint64, seq<InnerKey>>,
    hashesByKey: map<string, uint64>, contentByKey: map<string, T>,
    k: InnerKey, value: T, h: uint64)
    requires StrictlySorted(hashes)
    requires KeysValid(hashes, keysByHash, hashesByKey, contentByKey) && k.key !in hashesByKey
    ensures KeysValid(
      InsertHash(hashes, h),
      keysByHash[h := Inserted(Lookup(keysByHash, h, []), k)],
      hashesByKey[k.key := h],
      contentByKey[k.key := value])
  {
    EmplaceListsValid(keysByHash, hashesByKey, k, h);
    EmplaceKeysListed(hashes, keysByHash, hashesByKey, k, h);
    EmplacePositionsHeld(hashes, keysByHash, k, h);
  }

  /** Remove's list at the key's position is valid once the key left. */
  lemma RemoveListValid(list: seq<InnerKey>, h: uint64, hashesByKey: map<string, uint64>, name: string)
    requires ListValid(list, h, hashesByKey) && NamedIndex(list, name) != -1
    ensures ListValid(Removed(list, name), h, hashesByKey - {name})
  {
    var rest := Removed(list, name);
    RemovedEntries(list, name);
    RemovedKeepsShape(list, name);
    forall i | 0 <= i < |rest|
      ensures rest[i].key in hashesByKey - {name} && hashesByKey[rest[i].key] == h
    {
      assert rest[i] in rest;
      var a :| 0 <= a < |list| && list[a] == rest[i];
    }
  }

  /** After Remove every stored list is still valid. */
  lemma RemoveListsValid(keysByHash: map<uint64, seq<InnerKey>>, hashesByKey: map<string, uint64>, name: string)
    requires ListsValid(keysByHash, hashesByKey) && name in hashesByKey
    requires NamedIndex(Lookup(keysByHash, hashesByKey[name], []), name) != -1
    ensures var h := hashesByKey[name];
      ListsValid(keysByHash[h := Removed(Lookup(keysByHash, h, []), name)], hashesByKey - {name})
  {
    var h := hashesByKey[name];
    var list := Lookup(keysByHash, h, []);
    var kbh' := keysByHash[h := Removed(list, name)];
    var hbk' := hashesByKey - {name};
    assert Stored(keysByHash, h);
    RemoveListValid(list, h, hashesByKey, name);
    forall g | Stored(kbh', g)
      ensures ListValid(kbh'[g], g, hbk')
    {
      if g != h {
        assert Stored(keysByHash, g);
        ListValidShrink(keysByHash[g], g, hashesByKey, name);
      }
    }
  }

  /** Removing one name from a list keeps every other name it holds. */
  lemma OtherNameKept(list: seq<InnerKey>, name: string, x: string)
    requires DistinctNames(list) && NamedIndex(list, name) != -1 && NamedIndex(list, x) != -1 && x != name
    ensures NamedIndex(Removed(list, name), x) != -1
  {
    RemovedEntries(list, name);
    var e := list[NamedIndex(list, x)];
    assert e in Removed(list, name);
    NamedIndexFound(Removed(list, name), e);
  }

  /** After Remove every remaining key is still listed at a ring hash. */
  lemma RemoveKeysListed(hashes: seq<uint64>, keysByHash: map<uint64, seq<InnerKey>>, hashesByKey: map<string, uint64>, name: string)
    requires StrictlySorted(hashes) && KeysListed(hashes, keysByHash, hashesByKey)
    requires ListsValid(keysByHash, hashesByKey) && name in hashesByKey
    ensures var h := hashesByKey[name];
      var rest := Removed(Lookup(keysByHash, h, []), name);
      KeysListed(if rest == [] then RemoveHash(hashes, h) else hashes, keysByHash[h := rest], hashesByKey - {name})
  {
    var h := hashesByKey[name];
    var list := Lookup(keysByHash, h, []);
    assert Known(hashesByKey, name);
    assert Stored(keysByHash, h);
    var rest := Removed(list, name);
    var hashes' := if rest == [] then RemoveHash(hashes, h) else hashes;
    var kbh' := keysByHash[h := rest];
    var hbk' := hashesByKey - {name};
    forall x | Known(hbk', x)
      ensures hbk'[x] in hashes' && NamedIndex(Lookup(kbh', hbk'[x], []), x) != -1
    {
      assert Known(hashesByKey, x);
      var hx := hashesByKey[x];
      if hx == h {
        OtherNameKept(list, name, x);
        assert rest != [];
      } else if rest == [] {
        assert hx in Elems(hashes) - {h};
      }
    }
  }

  /** After Remove every remaining ring hash still holds a key. */
  lemma RemovePositionsHeld(hashes: seq<uint64>, keysByHash: map<uint64, seq<InnerKey>>, h: uint64, rest: seq<InnerKey>)
    requires StrictlySorted(hashes) && PositionsHeld(hashes, keysByHash)
    ensures PositionsHeld(if rest == [] then RemoveHash(hashes, h) else hashes, keysByHash[h := rest])
  {
    var hashes' := if rest == [] then RemoveHash(hashes, h) else hashes;
    forall x | OnRing(hashes', x)
      ensures Lookup(keysByHash[h := rest], x, []) != []
    {
      assert x in Elems(hashes');
      assert x in Elems(hashes);
      assert OnRing(hashes, x);
    }
  }

  /** Remove keeps the key tables consistent, retiring the position once its last key is gone (ring.go:594-630). */
  lemma RemoveKeepsKeys<T>(
    hashes: seq<uint64>, keysByHash: map<uint64, seq<InnerKey>>,
    hashesByKey: map<string, uint64>, contentByKey: map<string, T>, name: string)
    requires StrictlySorted(hashes)
    requires KeysValid(hashes, keysByHash, hashesByKey, contentByKey) && name in hashesByKey
    ensures var h := hashesByKey[name];
      var rest := Removed(Lookup(keysByHash, h, []), name);
      KeysValid(
        if rest == [] then RemoveHash(hashes, h) else hashes,
        keysByHash[h := rest],
        hashesByKey - {name},
        contentByKey - {name})
  {
    var h := hashesByKey[name];
    assert Known(hashesByKey, name);
    RemoveListsValid(keysByHash, hashesByKey, name);
    RemoveKeysListed(hashes, keysByHash, hashesByKey, name);
    RemovePositionsHeld(hashes, keysByHash, h, Removed(Lookup(keysByHash, h, []), name));
  }
}
