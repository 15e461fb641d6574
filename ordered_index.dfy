/**
  The sorted-sequence helpers of the ring (ring.go:633-709): binary search,
  circular neighbours, insertion and removal by index, and the duplicate-free
  insert and remove used on the ring's hash positions.
 */
module OrderedIndex {
  import opened RingTypes

  /** Non-decreasing: what binary search needs. */
  ghost predicate Ascending(s: seq<uint64>) {
    forall i, j :: 0 <= i <= j < |s| ==> s[i] <= s[j]
  }

  /** Strictly ascending: the order `slices` and `hashes` are kept in. */
  ghost predicate StrictlySorted(s: seq<uint64>) {
    forall i, j :: 0 <= i < j < |s| ==> s[i] < s[j]
  }

  /** Keys at one hash position, non-decreasing by their tie-break order. */
  ghost predicate OrderSorted(keys: seq<InnerKey>) {
    forall i, j :: 0 <= i <= j < |keys| ==> keys[i].order <= keys[j].order
  }

  lemma StrictlySortedIsAscending(s: seq<uint64>)
    requires StrictlySorted(s)
    ensures Ascending(s)
  {
  }

  /**
    The library binary search behind findIndex and findKeyIndex, on [lo, hi):
    whatever `f` is, the result is an index where `f` holds (or `hi`) right
    after an index where it fails (or `lo`).
   */
  function Search(lo: nat, hi: nat, f: nat -> bool): (r: nat)
    requires lo <= hi
    ensures lo <= r <= hi
    ensures r < hi ==> f(r)
    ensures lo < r ==> !f(r - 1)
    decreases hi - lo
  {
    if lo < hi then
      var h := (lo + hi) / 2;
      if !f(h) then Search(h + 1, hi, f) else Search(lo, h, f)
    else
      lo
  }

  /** findIndex: the index of the first element not below `val`, or |arr|. */
  function FindIndex(arr: seq<uint64>, val: uint64): (i: nat)
    ensures i <= |arr|
    ensures i < |arr| ==> arr[i] >= val
    ensures 0 < i ==> arr[i - 1] < val
    ensures Ascending(arr) ==> forall j :: 0 <= j < |arr| ==> (arr[j] < val <==> j < i)
  {
    Search(0, |arr|, (j: nat) => j < |arr| && arr[j] >= val)
  }

  /** findKeyIndex: the index of the first key whose order is not below k's. */
  function FindKeyIndex(t: seq<InnerKey>, k: InnerKey): (i: nat)
    ensures i <= |t|
    ensures i < |t| ==> t[i].order >= k.order
    ensures 0 < i ==> t[i - 1].order < k.order
    ensures OrderSorted(t) ==> forall j :: 0 <= j < |t| ==> (t[j].order < k.order <==> j < i)
  {
    Search(0, |t|, (j: nat) => j < |t| && t[j].order >= k.order)
  }

  /** findPrevIndex: the circular predecessor of an index. */
  function FindPrevIndex<A>(arr: seq<A>, idx: int): (r: int)
    ensures 0 < |arr| && 0 <= idx <= |arr| ==> 0 <= r < |arr| && r == (idx - 1) % |arr|
  {
    if idx == 0 then |arr| - 1 else idx - 1
  }

  /** findNextIndex: the circular successor of an index. */
  function FindNextIndex<A>(arr: seq<A>, idx: int): (r: int)
    ensures 0 <= idx < |arr| ==> 0 <= r < |arr| && r == (idx + 1) % |arr|
  {
    if idx == |arr| - 1 then 0 else idx + 1
  }

  /** Stepping back and then forward (or forward and then back) returns to the same index. */
  lemma PrevNextInverse<A>(arr: seq<A>, i: int)
    requires 0 <= i < |arr|
    ensures FindNextIndex(arr, FindPrevIndex(arr, i)) == i
    ensures FindPrevIndex(arr, FindNextIndex(arr, i)) == i
  {
  }

  /**
    insertPreserveOrder: puts `val` at the index `find` chooses, shifting the
    rest up, and returns that index. The body follows Go's two appends.
   */
  function InsertPreserveOrder<A>(arr: seq<A>, val: A, find: (seq<A>, A) -> nat): (r: (seq<A>, nat))
    requires find(arr, val) <= |arr|
    ensures r.1 == find(arr, val)
    ensures r.0 == arr[..r.1] + [val] + arr[r.1..]
  {
    var idx := find(arr, val);
    if idx == |arr| then
      (arr + [val], idx)
    else
      ((arr[..idx + 1] + arr[idx..])[idx := val], idx)
  }

  /**
    removeIndex: drops the element at `idx`. Empty input gives an empty result
    and no error; an index outside the sequence leaves it as it is with
    OutOfBounds.
   */
  function RemoveIndex<A>(arr: seq<A>, idx: int): (r: (seq<A>, Option<Error>))
    ensures |arr| == 0 ==> r == ([], None)
    ensures 0 < |arr| && !(0 <= idx < |arr|) ==> r == (arr, Some(OutOfBounds))
    ensures 0 <= idx < |arr| ==>
      && r.1 == None
      && |r.0| == |arr| - 1
      && (forall j :: 0 <= j < idx ==> r.0[j] == arr[j])
      && (forall j :: idx <= j < |r.0| ==> r.0[j] == arr[j + 1])
  {
    if |arr| == 0 then
      ([], None)
    else if idx < 0 || idx >= |arr| then
      (arr, Some(OutOfBounds))
    else
      (arr[..idx] + arr[idx + 1..], None)
  }

  /** Removing the element just inserted gives back the original sequence. */
  lemma RemoveAfterInsert<A>(arr: seq<A>, val: A, find: (seq<A>, A) -> nat)
    requires find(arr, val) <= |arr|
    ensures var ins := InsertPreserveOrder(arr, val, find);
      RemoveIndex(ins.0, ins.1) == (arr, None)
  {
    var ins := InsertPreserveOrder(arr, val, find);
    var rem := RemoveIndex(ins.0, ins.1);
    assert rem.0 == arr by {
      forall j | 0 <= j < |arr|
        ensures rem.0[j] == arr[j]
      {
        if j < ins.1 {
          assert rem.0[j] == ins.0[j];
        } else {
          assert rem.0[j] == ins.0[j + 1];
        }
      }
    }
  }

  /** Inserting a value between the lower and the higher part keeps a sequence strictly sorted. */
  lemma InsertKeepsStrictlySorted(s: seq<uint64>, i: nat, x: uint64)
    requires StrictlySorted(s) && i <= |s|
    requires forall j :: 0 <= j < i ==> s[j] < x
    requires forall j :: i <= j < |s| ==> x < s[j]
    ensures StrictlySorted(s[..i] + [x] + s[i..])
  {
    var r := s[..i] + [x] + s[i..];
    forall a, b | 0 <= a < b < |r|
      ensures r[a] < r[b]
    {
      if b < i {
        assert r[a] == s[a] && r[b] == s[b];
      } else if b == i {
        assert r[a] == s[a];
      } else if a < i {
        assert r[a] == s[a] && r[b] == s[b - 1];
      } else if a == i {
        assert r[b] == s[b - 1];
      } else {
        assert r[a] == s[a - 1] && r[b] == s[b - 1];
      }
    }
  }

  /** Removing one element keeps a sequence strictly sorted and removes exactly that value. */
  lemma RemoveKeepsStrictlySorted(s: seq<uint64>, i: nat)
    requires StrictlySorted(s) && i < |s|
    ensures StrictlySorted(RemoveIndex(s, i).0)
    ensures Elems(RemoveIndex(s, i).0) == Elems(s) - {s[i]}
  {
    var r := RemoveIndex(s, i).0;
    forall a, b | 0 <= a < b < |r|
      ensures r[a] < r[b]
    {
      var a', b' := if a < i then a else a + 1, if b < i then b else b + 1;
      assert r[a] == s[a'] && r[b] == s[b'];
    }
    RemoveIndexElems(s, i);
  }

  /** Dropping the element at i of a sequence without duplicates drops exactly its value. */
  lemma RemoveIndexElems(s: seq<uint64>, i: nat)
    requires StrictlySorted(s) && i < |s|
    ensures Elems(RemoveIndex(s, i).0) == Elems(s) - {s[i]}
  {
    var r := RemoveIndex(s, i).0;
    forall x
      ensures x in r <==> x in s && x != s[i]
    {
      if x in r {
        var a :| 0 <= a < |r| && r[a] == x;
        if a < i { assert s[a] == x; } else { assert s[a + 1] == x; }
      }
      if x in s && x != s[i] {
        var a :| 0 <= a < |s| && s[a] == x;
        if a < i { assert r[a] == x; } else { assert r[a - 1] == x; }
      }
    }
  }

  /** In a strictly sorted sequence, findIndex of an element is that element's own index. */
  lemma FindIndexAt(arr: seq<uint64>, i: nat)
    requires StrictlySorted(arr) && i < |arr|
    ensures FindIndex(arr, arr[i]) == i
  {
    StrictlySortedIsAscending(arr);
  }

  /** insertHash: adds a hash position unless it is already present. */
  function InsertHash(hashes: seq<uint64>, h: uint64): (r: seq<uint64>)
    ensures StrictlySorted(hashes) ==> StrictlySorted(r) && Elems(r) == Elems(hashes) + {h}
    ensures StrictlySorted(hashes) && h in hashes ==> r == hashes
  {
    var idx := FindIndex(hashes, h);
    InsertHashSorted(hashes, h);
    if idx >= |hashes| || hashes[idx] != h then
      InsertPreserveOrder(hashes, h, FindIndex).0
    else
      hashes
  }

  lemma InsertHashSorted(hashes: seq<uint64>, h: uint64)
    ensures StrictlySorted(hashes) ==>
      var idx := FindIndex(hashes, h);
      (idx < |hashes| && hashes[idx] == h) || h !in hashes
    ensures StrictlySorted(hashes) && h !in hashes ==>
      var r := InsertPreserveOrder(hashes, h, FindIndex).0;
      StrictlySorted(r) && Elems(r) == Elems(hashes) + {h}
  {
    if StrictlySorted(hashes) {
      var idx := FindIndex(hashes, h);
      StrictlySortedIsAscending(hashes);
      if h !in hashes {
        var r := InsertPreserveOrder(hashes, h, FindIndex);
        assert r.1 == idx;
        assert forall j :: idx <= j < |hashes| ==> h < hashes[j];
        InsertKeepsStrictlySorted(hashes, idx, h);
        ElemsInsert(hashes, idx, h);
      }
    }
  }

  lemma ElemsInsert<A>(s: seq<A>, i: nat, x: A)
    requires i <= |s|
    ensures Elems(s[..i] + [x] + s[i..]) == Elems(s) + {x}
  {
    var r := s[..i] + [x] + s[i..];
    forall y
      ensures y in r <==> y in s || y == x
    {
      if y in s {
        var a :| 0 <= a < |s| && s[a] == y;
        if a < i { assert r[a] == y; } else { assert r[a + 1] == y; }
      }
      if y in r {
        var a :| 0 <= a < |r| && r[a] == y;
        if a < i { assert s[a] == y; } else if a > i { assert s[a - 1] == y; }
      }
    }
  }

  lemma ElemsHead<A>(s: seq<A>)
    ensures s != [] ==> s[0] in Elems(s)
  {
  }

  /** removeHash: drops a hash position if it is present. */
  function RemoveHash(hashes: seq<uint64>, h: uint64): (r: seq<uint64>)
    ensures h !in hashes ==> r == hashes
    ensures StrictlySorted(hashes) ==> StrictlySorted(r) && Elems(r) == Elems(hashes) - {h}
  {
    var idx := FindIndex(hashes, h);
    RemoveHashSorted(hashes, h);
    if idx < |hashes| && hashes[idx] == h then
      RemoveIndex(hashes, idx).0
    else
      hashes
  }

  lemma RemoveHashSorted(hashes: seq<uint64>, h: uint64)
    ensures StrictlySorted(hashes) ==>
      var idx := FindIndex(hashes, h);
      if idx < |hashes| && hashes[idx] == h then
        var r := RemoveIndex(hashes, idx).0;
        StrictlySorted(r) && Elems(r) == Elems(hashes) - {h}
      else
        h !in hashes
  {
    if StrictlySorted(hashes) {
      var idx := FindIndex(hashes, h);
      StrictlySortedIsAscending(hashes);
      if idx < |hashes| && hashes[idx] == h {
        RemoveKeepsStrictlySorted(hashes, idx);
      }
    }
  }

  /** Two strictly sorted sequences with the same elements are the same sequence. */
  lemma {:induction false} StrictlySortedUnique(a: seq<uint64>, b: seq<uint64>)
    requires StrictlySorted(a) && StrictlySorted(b)
    requires Elems(a) == Elems(b)
    ensures a == b
  {
    ElemsHead(b);
    if a == [] {
    } else {
      assert a[0] in Elems(b);
      assert b != [];
      assert b[0] in Elems(a);
      var i :| 0 <= i < |b| && b[i] == a[0];
      var j :| 0 <= j < |a| && a[j] == b[0];
      StrictlySortedIsAscending(a);
      StrictlySortedIsAscending(b);
      assert a[0] <= a[j] && b[0] <= b[i];
      assert Elems(a[1..]) == Elems(b[1..]) by {
        forall x
          ensures x in a[1..] <==> x in b[1..]
        {
          if x in a[1..] {
            var k :| 1 <= k < |a| && a[k] == x;
            assert x in Elems(a);
            assert a[0] < a[k];
          }
          if x in b[1..] {
            var k :| 1 <= k < |b| && b[k] == x;
            assert x in Elems(b);
            assert b[0] < b[k];
          }
        }
      }
      StrictlySortedUnique(a[1..], b[1..]);
      assert a == [a[0]] + a[1..] && b == [b[0]] + b[1..];
    }
  }

  /** insertHash undoes removeHash of a present value, and removeHash undoes insertHash of an absent one. */
  lemma HashRoundTrip(hashes: seq<uint64>, h: uint64)
    requires StrictlySorted(hashes)
    ensures h !in hashes ==> RemoveHash(InsertHash(hashes, h), h) == hashes
    ensures h in hashes ==> InsertHash(RemoveHash(hashes, h), h) == hashes
  {
    if h !in hashes {
      StrictlySortedUnique(RemoveHash(InsertHash(hashes, h), h), hashes);
    } else {
      StrictlySortedUnique(InsertHash(RemoveHash(hashes, h), h), hashes);
    }
  }

  /**
    Inserting a key at findKeyIndex keeps the list ordered, and the new key
    goes after every key of lower order and before every key of equal or
    higher order (ties go first).
   */
  lemma InsertKeyOrdered(t: seq<InnerKey>, k: InnerKey)
    requires OrderSorted(t)
    ensures var r := InsertPreserveOrder(t, k, FindKeyIndex);
      && OrderSorted(r.0)
      && r.0[r.1] == k
      && (forall j :: 0 <= j < r.1 ==> r.0[j].order < k.order)
      && (forall j :: r.1 < j < |r.0| ==> r.0[j].order >= k.order)
  {
    var i := FindKeyIndex(t, k);
    var r := t[..i] + [k] + t[i..];
    SpliceAt(t, k, i);
    forall j | 0 <= j < i
      ensures r[j].order < k.order
    {
      assert r[j] == t[j];
    }
    forall j | i < j < |r|
      ensures r[j].order >= k.order
    {
      assert r[j] == t[j - 1];
    }
    forall a, b | 0 <= a <= b < |r|
      ensures r[a].order <= r[b].order
    {
      if a < i && i < b {
        assert r[a].order < k.order <= r[b].order;
      } else if a != i && b != i {
        var a', b' := if a < i then a else a - 1, if b < i then b else b - 1;
        assert r[a] == t[a'] && r[b] == t[b'];
      }
    }
  }

  /** The sequence with val spliced in at i: val at i, arr's elements before it, the rest shifted up by one. */
  lemma SpliceAt<A>(arr: seq<A>, val: A, i: nat)
    requires i <= |arr|
    ensures var r := arr[..i] + [val] + arr[i..];
      && |r| == |arr| + 1 && r[i] == val
      && (forall j :: 0 <= j < i ==> r[j] == arr[j])
      && (forall j :: i < j < |r| ==> r[j] == arr[j - 1])
  {
  }

  /** The index of the first key with this name, or -1 when no key has it. */
  function NamedIndex(keys: seq<InnerKey>, name: string): (r: int)
    ensures -1 <= r < |keys|
    ensures r == -1 <==> forall j :: 0 <= j < |keys| ==> keys[j].key != name
    ensures 0 <= r ==> keys[r].key == name && forall j :: 0 <= j < r ==> keys[j].key != name
  {
    if keys == [] then -1
    else if keys[0].key == name then 0
    else
      var r := NamedIndex(keys[1..], name);
      assert forall j :: 1 <= j < |keys| ==> keys[j] == keys[1..][j - 1];
      if r == -1 then -1 else r + 1
  }

  /** findKeyByName: a front-to-back scan for the first key with this name. */
  method FindKeyByName(keys: seq<InnerKey>, name: string) returns (idx: int)
    ensures idx == NamedIndex(keys, name)
  {
    var i := 0;
    while i < |keys|
      invariant 0 <= i <= |keys|
      invariant forall j :: 0 <= j < i ==> keys[j].key != name
    {
      if keys[i].key == name {
        return i;
      }
      i := i + 1;
    }
    return -1;
  }
}
