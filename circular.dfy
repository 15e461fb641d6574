/**
  The wrapping index walk of convertHashes (ring.go:424-459) and what it
  means on the ring: the indices it visits, in visiting order, and the arc of
  hash positions those indices hold.
 */
module Circular {
  import opened RingTypes
  import opened OrderedIndex

  /** One step of the walk: the next index, wrapping to 0 at n. */
  function Step(i: nat, n: nat): nat {
    if i + 1 == n then 0 else i + 1
  }

  /** How many steps the walk from i takes to reach stop. */
  function Distance(i: nat, stop: nat, n: nat): nat
    requires i < n && stop < n
  {
    if i <= stop then stop - i else n - i + stop
  }

  /** The indices visited walking from i, wrapping at n, up to but not including stop. */
  function Walk(i: nat, stop: nat, n: nat): (w: seq<nat>)
    requires i < n && stop < n
    ensures forall k :: 0 <= k < |w| ==> w[k] < n
    decreases Distance(i, stop, n)
  {
    if i == stop then [] else [i] + Walk(Step(i, n), stop, n)
  }

  /** The two conditions under which convertHashes reassigns every hash position (ring.go:432-433). */
  predicate ConvertsAll(n: nat, start: nat, end: nat, circle: bool) {
    (circle && start == end) || (start == 0 && end == n)
  }

  /**
    The indices convertHashes visits, in visiting order: all of them for
    ConvertsAll, otherwise the walk from start to end after both are
    normalised from n to 0 (ring.go:440-448).
   */
  function VisitOrder(n: nat, start: nat, end: nat, circle: bool): (order: seq<nat>)
    requires start <= n && end <= n
    ensures forall k :: 0 <= k < |order| ==> order[k] < n
  {
    if ConvertsAll(n, start, end, circle) then
      seq(n, j => j)
    else
      var s := if start == n then 0 else start;
      var e := if end == n then 0 else end;
      Walk(s, e, n)
  }

  /** Reference definition of the circular index range [start, end) that convertHashes reassigns. */
  ghost predicate InCircularRange(n: nat, start: nat, end: nat, circle: bool, j: nat) {
    && j < n
    && (|| ConvertsAll(n, start, end, circle)
        || var s := if start == n then 0 else start;
           var e := if end == n then 0 else end;
           if s <= e then s <= j < e else s <= j || j < e)
  }

  /** j lies in the circular interval [i, stop) of the indices below n. */
  predicate InInterval(i: nat, stop: nat, n: nat, j: nat) {
    j < n && if i <= stop then i <= j < stop else i <= j || j < stop
  }

  /** The walk visits each index of the circular interval [i, stop) once and nothing else. */
  lemma {:induction false} WalkSpec(i: nat, stop: nat, n: nat)
    requires i < n && stop < n
    ensures Distinct(Walk(i, stop, n))
    ensures |Walk(i, stop, n)| == Distance(i, stop, n)
    ensures forall j :: j in Walk(i, stop, n) <==> InInterval(i, stop, n, j)
    decreases Distance(i, stop, n)
  {
    if i != stop {
      var next := Step(i, n);
      WalkSpec(next, stop, n);
      var rest := Walk(next, stop, n);
      assert i !in rest;
      assert Walk(i, stop, n) == [i] + rest;
      forall j
        ensures j in Walk(i, stop, n) <==> j == i || j in rest
      {
      }
      forall j
        ensures InInterval(i, stop, n, j) <==> j == i || InInterval(next, stop, n, j)
      {
      }
      forall a, b | 0 <= a < b < |[i] + rest|
        ensures ([i] + rest)[a] != ([i] + rest)[b]
      {
        if a == 0 {
          assert ([i] + rest)[b] == rest[b - 1];
          assert rest[b - 1] in rest;
        } else {
          assert ([i] + rest)[a] == rest[a - 1] && ([i] + rest)[b] == rest[b - 1];
        }
      }
    }
  }

  /** convertHashes visits each index of its circular range exactly once, and no other index. */
  lemma VisitOrderSpec(n: nat, start: nat, end: nat, circle: bool)
    requires start <= n && end <= n
    ensures Distinct(VisitOrder(n, start, end, circle))
    ensures forall j :: j in VisitOrder(n, start, end, circle) <==> InCircularRange(n, start, end, circle, j)
  {
    if ConvertsAll(n, start, end, circle) {
      var order := VisitOrder(n, start, end, circle);
      forall j | 0 <= j < n
        ensures j in order
      {
        assert order[j] == j;
      }
    } else {
      var s := if start == n then 0 else start;
      var e := if end == n then 0 else end;
      WalkSpec(s, e, n);
    }
  }

  /** The indices ring.go:432-437 converts when ConvertsAll holds: all of them, in ascending order. */
  lemma VisitOrderAll(n: nat, start: nat, end: nat, circle: bool)
    requires start <= n && end <= n && ConvertsAll(n, start, end, circle)
    ensures |VisitOrder(n, start, end, circle)| == n
    ensures forall j :: 0 <= j < n ==> VisitOrder(n, start, end, circle)[j] == j
  {
  }

  /** The hash positions at the indices idx, in the order of idx. */
  function At(hashes: seq<uint64>, idx: seq<nat>): (r: seq<uint64>)
    requires forall k :: 0 <= k < |idx| ==> idx[k] < |hashes|
    ensures |r| == |idx| && forall k :: 0 <= k < |idx| ==> r[k] == hashes[idx[k]]
  {
    seq(|idx|, k requires 0 <= k < |idx| => hashes[idx[k]])
  }

  /** The positions a walk visits: the one at its start, then those of the walk from the next index. */
  lemma AtWalkCons(hashes: seq<uint64>, i: nat, stop: nat)
    requires i < |hashes| && stop < |hashes| && i != stop
    ensures var r := At(hashes, Walk(i, stop, |hashes|));
      r != [] && r[0] == hashes[i] && r[1..] == At(hashes, Walk(Step(i, |hashes|), stop, |hashes|))
  {
    var n := |hashes|;
    assert Walk(i, stop, n) == [i] + Walk(Step(i, n), stop, n);
    assert At(hashes, Walk(i, stop, n))[1..] == At(hashes, Walk(Step(i, n), stop, n));
  }

  /** The hash positions at the visited indices, in visiting order. */
  function VisitedHashes(hashes: seq<uint64>, start: nat, end: nat, circle: bool): seq<uint64>
    requires start <= |hashes| && end <= |hashes|
  {
    At(hashes, VisitOrder(|hashes|, start, end, circle))
  }

  /** Does h fall in the arc from a (included) to b (excluded), wrapping past the top of the ring? */
  predicate InArc(a: uint64, b: uint64, h: uint64) {
    if a < b then a <= h < b else a <= h || h < b
  }

  /** The hash positions of the arc from a to b. */
  function ArcHashes(hashes: seq<uint64>, a: uint64, b: uint64): set<uint64> {
    set h | h in hashes && InArc(a, b, h)
  }

  /** The hash positions of the arc from a to b in the order convertHashes visits them (ring.go:366-371, 409-414). */
  function ArcVisit(hashes: seq<uint64>, a: uint64, b: uint64): seq<uint64> {
    VisitedHashes(hashes, FindIndex(hashes, a), FindIndex(hashes, b), b < a)
  }

  /**
    Starting the index range at findIndex(hashes, a) and ending it at
    findIndex(hashes, b), circling when b < a, selects exactly the hash
    positions of the arc from a to b.
   */
  lemma IndexRangeIsArc(hashes: seq<uint64>, a: uint64, b: uint64, j: nat)
    requires StrictlySorted(hashes) && a != b && j < |hashes|
    ensures InCircularRange(|hashes|, FindIndex(hashes, a), FindIndex(hashes, b), b < a, j)
      <==> InArc(a, b, hashes[j])
  {
    StrictlySortedIsAscending(hashes);
    var st := FindIndex(hashes, a);
    var en := FindIndex(hashes, b);
    assert hashes[j] < a <==> j < st;
    assert hashes[j] < b <==> j < en;
    if a < b {
      if en < |hashes| {
        assert hashes[en] >= b;
      }
    } else {
      if st < |hashes| {
        assert hashes[st] >= a;
      }
    }
  }

  /** The hash positions convertHashes visits for an arc are pairwise distinct. */
  lemma ArcVisitDistinct(hashes: seq<uint64>, a: uint64, b: uint64)
    requires StrictlySorted(hashes)
    ensures Distinct(ArcVisit(hashes, a, b))
  {
    var n := |hashes|;
    var order := VisitOrder(n, FindIndex(hashes, a), FindIndex(hashes, b), b < a);
    var hs := ArcVisit(hashes, a, b);
    VisitOrderSpec(n, FindIndex(hashes, a), FindIndex(hashes, b), b < a);
    forall x, y | 0 <= x < y < |hs|
      ensures hs[x] != hs[y]
    {
      assert hs[x] == hashes[order[x]] && hs[y] == hashes[order[y]];
      assert order[x] != order[y];
    }
  }

  /** The hash positions convertHashes visits for an arc are exactly the arc's positions. */
  lemma ArcVisitElems(hashes: seq<uint64>, a: uint64, b: uint64)
    requires StrictlySorted(hashes) && a != b
    ensures Elems(ArcVisit(hashes, a, b)) == ArcHashes(hashes, a, b)
  {
    var n := |hashes|;
    var order := VisitOrder(n, FindIndex(hashes, a), FindIndex(hashes, b), b < a);
    var hs := ArcVisit(hashes, a, b);
    VisitOrderSpec(n, FindIndex(hashes, a), FindIndex(hashes, b), b < a);
    forall h
      ensures h in hs <==> h in hashes && InArc(a, b, h)
    {
      if h in hs {
        var k :| 0 <= k < |hs| && hs[k] == h;
        assert hs[k] == hashes[order[k]];
        IndexRangeIsArc(hashes, a, b, order[k]);
      }
      if h in hashes && InArc(a, b, h) {
        var j :| 0 <= j < n && hashes[j] == h;
        IndexRangeIsArc(hashes, a, b, j);
        var k :| 0 <= k < |order| && order[k] == j;
        assert hs[k] == h;
      }
    }
  }
}
