/**
  Which slice owns which hash position. The ring never states this itself:
  `slicesByHash` is written by Emplace (ring.go:532-533) and by the range
  reassignment of insertSlice and removeSlice (ring.go:363-371, 404-414).
  This module gives the reference owner of a position, characterises the
  neighbour lookups the ring uses, and proves that slice insertion and
  removal keep every position with its reference owner.
 */
module Ownership {
  import opened RingTypes
  import opened OrderedIndex
  import opened Circular

  /**
    o owns position h among the slice positions S: o is the largest slice at
    or below h or, when every slice lies above h, the largest slice of all
    (the ring wraps past the top).
   */
  ghost predicate IsOwner(S: set<uint64>, o: uint64, h: uint64) {
    && o in S
    && (|| (o <= h && forall t :: t in S && t <= h ==> t <= o)
        || ((forall t :: t in S ==> h < t) && forall t :: t in S ==> t <= o))
  }

  /** n follows s among the slice positions S, wrapping from the largest to the smallest. */
  ghost predicate IsNext(S: set<uint64>, n: uint64, s: uint64) {
    && n in S
    && (|| (s < n && forall t :: t in S && s < t ==> n <= t)
        || ((forall t :: t in S ==> t <= s) && forall t :: t in S ==> n <= t))
  }

  /** Every listed hash position has an owner entry, and it names its reference owner. */
  ghost predicate WellOwned(S: set<uint64>, hashes: seq<uint64>, owners: map<uint64, uint64>) {
    forall h {:trigger OnRing(hashes, h)} :: OnRing(hashes, h) ==> h in owners && IsOwner(S, owners[h], h)
  }

  /** The owner table after every position in hs is handed to slice. */
  function Reassign(owners: map<uint64, uint64>, hs: set<uint64>, slice: uint64): (r: map<uint64, uint64>)
    ensures r.Keys == owners.Keys + hs
    ensures forall h :: h in hs ==> r[h] == slice
    ensures forall h :: h in owners && h !in hs ==> r[h] == owners[h]
  {
    map h | h in owners.Keys + hs :: if h in hs then slice else owners[h]
  }

  /** Handing over one more position is a single map update. */
  lemma ReassignSnoc(owners: map<uint64, uint64>, hs: seq<uint64>, h: uint64, slice: uint64)
    ensures Reassign(owners, Elems(hs + [h]), slice) == Reassign(owners, Elems(hs), slice)[h := slice]
  {
    assert Elems(hs + [h]) == Elems(hs) + {h};
  }

  /** Handing over a sequence of positions is handing over its first one, then the rest. */
  lemma ReassignCons(owners: map<uint64, uint64>, hs: seq<uint64>, slice: uint64)
    requires hs != []
    ensures Reassign(owners, Elems(hs), slice) == Reassign(owners[hs[0] := slice], Elems(hs[1..]), slice)
  {
    assert Elems(hs) == {hs[0]} + Elems(hs[1..]);
  }

  /** The owner table after the positions hs are handed to slice one at a time, in order. */
  function ReassignSeq(owners: map<uint64, uint64>, hs: seq<uint64>, slice: uint64): map<uint64, uint64>
    decreases |hs|
  {
    if hs == [] then owners else ReassignSeq(owners[hs[0] := slice], hs[1..], slice)
  }

  /** Handing positions over one at a time ends in the table that hands them all over at once. */
  lemma {:induction false} ReassignSeqIsReassign(owners: map<uint64, uint64>, hs: seq<uint64>, slice: uint64)
    ensures ReassignSeq(owners, hs, slice) == Reassign(owners, Elems(hs), slice)
    decreases |hs|
  {
    if hs == [] {
      assert Elems(hs) == {};
    } else {
      ReassignSeqIsReassign(owners[hs[0] := slice], hs[1..], slice);
      ReassignCons(owners, hs, slice);
    }
  }

  /**
    The slice before position h: `slices[findPrevIndex(slices, findIndex(slices, h))]`,
    the owner Emplace picks (ring.go:532) and the heir removeSlice picks
    (ring.go:404).
   */
  function PrevSlice(slices: seq<uint64>, h: uint64): uint64
    requires |slices| > 0
  {
    slices[FindPrevIndex(slices, FindIndex(slices, h))]
  }

  /** The slice after slice position s: `slices[findNextIndex(slices, findIndex(slices, s))]` (ring.go:363, 406). */
  function NextSlice(slices: seq<uint64>, s: uint64): uint64
    requires FindIndex(slices, s) < |slices|
  {
    slices[FindNextIndex(slices, FindIndex(slices, s))]
  }

  /** A position has at most one owner. */
  lemma OwnerUnique(S: set<uint64>, o1: uint64, o2: uint64, h: uint64)
    requires IsOwner(S, o1, h) && IsOwner(S, o2, h)
    ensures o1 == o2
  {
    assert o1 <= o2 && o2 <= o1;
  }

  /** A present slice position is found at its own index. */
  lemma FindIndexPresent(slices: seq<uint64>, s: uint64)
    requires StrictlySorted(slices) && s in slices
    ensures FindIndex(slices, s) < |slices| && slices[FindIndex(slices, s)] == s
  {
    var i :| 0 <= i < |slices| && slices[i] == s;
    FindIndexAt(slices, i);
  }

  /**
    The slice before h is h's owner once h itself is set aside: the largest
    other slice below h or, when none is below, the largest one of all.
   */
  lemma PrevSliceIsOwnerBelow(slices: seq<uint64>, h: uint64)
    requires StrictlySorted(slices) && Elems(slices) - {h} != {}
    ensures IsOwner(Elems(slices) - {h}, PrevSlice(slices, h), h)
  {
    StrictlySortedIsAscending(slices);
    var n := |slices|;
    var i := FindIndex(slices, h);
    var p := PrevSlice(slices, h);
    var S := Elems(slices) - {h};
    if i > 0 {
      assert p == slices[i - 1] && p < h;
      forall t | t in S && t <= h
        ensures t <= p
      {
        var j :| 0 <= j < n && slices[j] == t;
        assert j < i;
      }
    } else {
      assert p == slices[n - 1];
      if n > 1 {
        assert slices[0] < slices[n - 1];
      } else {
        var x :| x in S;
        assert x == slices[0];
      }
      forall t | t in S
        ensures h < t && t <= p
      {
        var j :| 0 <= j < n && slices[j] == t;
      }
    }
  }

  /** The slice after s is the next larger slice or, after the largest, the smallest. */
  lemma NextSliceSpec(slices: seq<uint64>, s: uint64)
    requires StrictlySorted(slices) && s in slices
    ensures FindIndex(slices, s) < |slices|
    ensures IsNext(Elems(slices), NextSlice(slices, s), s)
  {
    StrictlySortedIsAscending(slices);
    FindIndexPresent(slices, s);
    var n := |slices|;
    var i := FindIndex(slices, s);
    var nx := NextSlice(slices, s);
    if i < n - 1 {
      assert nx == slices[i + 1];
      forall t | t in Elems(slices) && s < t
        ensures nx <= t
      {
        var j :| 0 <= j < n && slices[j] == t;
        assert i < j;
      }
    } else {
      assert nx == slices[0];
      forall t | t in Elems(slices)
        ensures t <= s && nx <= t
      {
        var j :| 0 <= j < n && slices[j] == t;
      }
    }
  }

  /**
    The arc from a slice to the next one is exactly the set of positions
    that slice owns: the range insertSlice hands to a new slice and
    removeSlice takes from an old one is that slice's share of the ring.
   */
  lemma ArcIsOwned(slices: seq<uint64>, s: uint64, h: uint64)
    requires StrictlySorted(slices) && s in slices
    ensures FindIndex(slices, s) < |slices|
    ensures InArc(s, NextSlice(slices, s), h) <==> IsOwner(Elems(slices), s, h)
  {
    NextSliceSpec(slices, s);
    var nx := NextSlice(slices, s);
    var S := Elems(slices);
    if nx < s {
      if InArc(s, nx, h) && !(s <= h) {
        forall t | t in S
          ensures h < t
        {
          assert nx <= t;
        }
      }
    }
  }

  /** An owner other than the removed slice keeps its positions. */
  lemma OwnerSurvivesRemoval(S: set<uint64>, s: uint64, o: uint64, h: uint64)
    requires IsOwner(S, o, h) && o != s
    ensures IsOwner(S - {s}, o, h)
  {
  }

  /**
    When slice s owns h and s is removed, h goes to the owner of s's own
    position among the remaining slices.
   */
  lemma OwnerAfterRemoval(S: set<uint64>, s: uint64, p: uint64, h: uint64)
    requires IsOwner(S, s, h) && IsOwner(S - {s}, p, s)
    ensures IsOwner(S - {s}, p, h)
  {
    var R := S - {s};
    if s <= h && forall t :: t in S && t <= h ==> t <= s {
      if p <= s {
        forall t | t in R && t <= h
          ensures t <= p
        {
          assert t <= s;
        }
      } else {
        forall t | t in R
          ensures h < t
        {
          assert s < t;
        }
      }
    } else {
      assert forall t :: t in R ==> t < s;
      assert p <= s;
    }
  }

  /** Adding slice s either gives h to s or leaves h with its old owner. */
  lemma OwnerAfterInsert(S: set<uint64>, s: uint64, o: uint64, h: uint64)
    requires IsOwner(S, o, h) && s !in S && !IsOwner(S + {s}, s, h)
    ensures IsOwner(S + {s}, o, h)
  {
  }

  /** A single slice owns every position. */
  lemma FirstSliceOwnsAll(s: uint64, hashes: seq<uint64>, owners: map<uint64, uint64>)
    ensures WellOwned({s}, hashes, Reassign(owners, Elems(hashes), s))
  {
    var r := Reassign(owners, Elems(hashes), s);
    forall h | OnRing(hashes, h)
      ensures h in r && IsOwner({s}, r[h], h)
    {
      assert h in Elems(hashes);
    }
  }

  /**
    insertSlice keeps ownership: after a new slice s takes the arc from s
    to its successor (ring.go:363-371), every position is again with its
    reference owner.
   */
  lemma InsertKeepsOwnership(slices: seq<uint64>, hashes: seq<uint64>, owners: map<uint64, uint64>, s: uint64)
    requires StrictlySorted(slices) && s !in slices
    requires WellOwned(Elems(slices), hashes, owners)
    ensures s in InsertHash(slices, s)
    ensures FindIndex(InsertHash(slices, s), s) < |InsertHash(slices, s)|
    ensures var S' := InsertHash(slices, s);
      WellOwned(Elems(S'), hashes, Reassign(owners, ArcHashes(hashes, s, NextSlice(S', s)), s))
  {
    var S' := InsertHash(slices, s);
    assert s in Elems(S');
    FindIndexPresent(S', s);
    var A := ArcHashes(hashes, s, NextSlice(S', s));
    var r := Reassign(owners, A, s);
    forall h | OnRing(hashes, h)
      ensures h in r && IsOwner(Elems(S'), r[h], h)
    {
      ArcIsOwned(S', s, h);
      if h !in A {
        assert OnRing(hashes, h);
        OwnerAfterInsert(Elems(slices), s, owners[h], h);
      }
    }
  }

  /**
    removeSlice keeps ownership: when slice s leaves a ring of two or more
    slices, its arc goes to the slice before it (ring.go:404-414) and every
    position is again with its reference owner.
   */
  lemma RemoveKeepsOwnership(slices: seq<uint64>, hashes: seq<uint64>, owners: map<uint64, uint64>, s: uint64)
    requires StrictlySorted(slices) && s in slices && |slices| > 1
    requires WellOwned(Elems(slices), hashes, owners)
    ensures FindIndex(slices, s) < |slices|
    ensures WellOwned(Elems(slices) - {s}, hashes,
      Reassign(owners, ArcHashes(hashes, s, NextSlice(slices, s)), PrevSlice(slices, s)))
  {
    FindIndexPresent(slices, s);
    var S := Elems(slices);
    var other := if slices[0] != s then slices[0] else slices[1];
    assert other in S - {s};
    PrevSliceIsOwnerBelow(slices, s);
    var p := PrevSlice(slices, s);
    var A := ArcHashes(hashes, s, NextSlice(slices, s));
    var r := Reassign(owners, A, p);
    forall h | OnRing(hashes, h)
      ensures h in r && IsOwner(S - {s}, r[h], h)
    {
      assert OnRing(hashes, h);
      ArcIsOwned(slices, s, h);
      if h in A {
        OwnerAfterRemoval(S, s, p, h);
      } else {
        OwnerSurvivesRemoval(S, s, owners[h], h);
      }
    }
  }

  /**
    Every hash position is where the ring's design puts it: in the empty
    pool while there is no slice, and otherwise with the slice at or below
    it (wrapping).
   */
  ghost predicate Placed(slices: seq<uint64>, hashes: seq<uint64>, empty: set<uint64>, owners: map<uint64, uint64>) {
    && (|slices| == 0 ==> empty == Elems(hashes))
    && (|slices| > 0 ==> WellOwned(Elems(slices), hashes, owners))
  }

  /** removeSlice of a slice other than the last keeps every position placed. */
  lemma RemoveKeepsPlacement(slices: seq<uint64>, hashes: seq<uint64>, empty: set<uint64>, owners: map<uint64, uint64>, s: uint64)
    requires StrictlySorted(slices) && s in slices && |slices| > 1
    requires Placed(slices, hashes, empty, owners)
    ensures FindIndex(slices, s) < |slices|
    ensures Placed(RemoveHash(slices, s), hashes, empty,
      Reassign(owners, ArcHashes(hashes, s, NextSlice(slices, s)), PrevSlice(slices, s)))
  {
    RemoveKeepsOwnership(slices, hashes, owners, s);
    var r := RemoveHash(slices, s);
    assert Elems(r) == Elems(slices) - {s};
    var other := if slices[0] != s then slices[0] else slices[1];
    assert other in Elems(r);
  }

  /** Handing positions to s and then back to the slice that held them all restores the table. */
  lemma ReassignBack(owners: map<uint64, uint64>, A: set<uint64>, s: uint64, p: uint64)
    requires forall h :: h in A ==> h in owners && owners[h] == p
    ensures Reassign(Reassign(owners, A, s), A, p) == owners
  {
    var r := Reassign(Reassign(owners, A, s), A, p);
    assert r.Keys == owners.Keys;
    assert forall h :: h in r ==> r[h] == owners[h];
  }

  /** The arc a new slice takes was held, before the insertion, by the slice that precedes the new one. */
  lemma ArcHeldByPrev(slices: seq<uint64>, hashes: seq<uint64>, owners: map<uint64, uint64>, s: uint64)
    requires StrictlySorted(slices) && |slices| > 0 && s !in slices
    requires WellOwned(Elems(slices), hashes, owners)
    ensures s in InsertHash(slices, s)
    ensures FindIndex(InsertHash(slices, s), s) < |InsertHash(slices, s)|
    ensures var S' := InsertHash(slices, s);
      forall h :: h in ArcHashes(hashes, s, NextSlice(S', s)) ==> h in owners && owners[h] == PrevSlice(S', s)
  {
    var S' := InsertHash(slices, s);
    assert s in Elems(S');
    FindIndexPresent(S', s);
    var p := PrevSlice(S', s);
    assert Elems(S') - {s} == Elems(slices);
    assert slices[0] in Elems(slices);
    PrevSliceIsOwnerBelow(S', s);
    forall h | h in ArcHashes(hashes, s, NextSlice(S', s))
      ensures h in owners && owners[h] == p
    {
      assert OnRing(hashes, h);
      ArcIsOwned(S', s, h);
      OwnerAfterRemoval(Elems(S'), s, p, h);
      OwnerUnique(Elems(slices), owners[h], p, h);
    }
  }

  /**
    Inserting a slice and then removing it again restores the slices and
    every owner: the arc the new slice took goes back to the slice that
    owned it before.
   */
  lemma SliceRoundTrip(slices: seq<uint64>, hashes: seq<uint64>, owners: map<uint64, uint64>, s: uint64)
    requires StrictlySorted(slices) && |slices| > 0 && s !in slices
    requires WellOwned(Elems(slices), hashes, owners)
    ensures s in InsertHash(slices, s)
    ensures FindIndex(InsertHash(slices, s), s) < |InsertHash(slices, s)|
    ensures RemoveHash(InsertHash(slices, s), s) == slices
    ensures var S' := InsertHash(slices, s);
      var A := ArcHashes(hashes, s, NextSlice(S', s));
      Reassign(Reassign(owners, A, s), A, PrevSlice(S', s)) == owners
  {
    HashRoundTrip(slices, s);
    ArcHeldByPrev(slices, hashes, owners, s);
    var S' := InsertHash(slices, s);
    ReassignBack(owners, ArcHashes(hashes, s, NextSlice(S', s)), s, PrevSlice(S', s));
  }

  /**
    Away from slice positions, Emplace hands a new hash position to its
    reference owner (ring.go:532).
   */
  lemma EmplaceOwner(slices: seq<uint64>, h: uint64)
    requires StrictlySorted(slices) && |slices| > 0 && h !in slices
    ensures IsOwner(Elems(slices), PrevSlice(slices, h), h)
  {
    assert slices[0] in Elems(slices) - {h};
    PrevSliceIsOwnerBelow(slices, h);
    assert Elems(slices) - {h} == Elems(slices);
  }

  /**
    A hash position equal to a slice position is owned by that slice as far
    as insertSlice and removeSlice are concerned, but Emplace hands it to the
    slice before it whenever there are two or more slices.
   */
  lemma EmplaceAtSlicePosition(slices: seq<uint64>, h: uint64)
    requires StrictlySorted(slices) && |slices| > 1 && h in slices
    ensures IsOwner(Elems(slices), h, h)
    ensures PrevSlice(slices, h) != h
    ensures !IsOwner(Elems(slices), PrevSlice(slices, h), h)
  {
    var other := if slices[0] != h then slices[0] else slices[1];
    assert other in Elems(slices) - {h};
    PrevSliceIsOwnerBelow(slices, h);
    if IsOwner(Elems(slices), PrevSlice(slices, h), h) {
      OwnerUnique(Elems(slices), PrevSlice(slices, h), h, h);
    }
  }

  /** Emplace keeps ownership when the new position is not a slice position. */
  lemma EmplaceKeepsOwnership(slices: seq<uint64>, hashes: seq<uint64>, owners: map<uint64, uint64>, h: uint64)
    requires StrictlySorted(slices) && StrictlySorted(hashes) && |slices| > 0 && h !in slices
    requires WellOwned(Elems(slices), hashes, owners)
    ensures WellOwned(Elems(slices), InsertHash(hashes, h), owners[h := PrevSlice(slices, h)])
  {
    EmplaceOwner(slices, h);
    var hs' := InsertHash(hashes, h);
    forall x | OnRing(hs', x)
      ensures x in hs' && (x == h || OnRing(hashes, x))
    {
      assert x in Elems(hs');
    }
  }

  /** Retiring a hash position and its owner entry keeps ownership of the rest. */
  lemma RetireKeepsOwnership(S: set<uint64>, hashes: seq<uint64>, owners: map<uint64, uint64>, h: uint64)
    requires StrictlySorted(hashes) && WellOwned(S, hashes, owners)
    ensures WellOwned(S, RemoveHash(hashes, h), owners - {h})
  {
    var hs' := RemoveHash(hashes, h);
    forall x | OnRing(hs', x)
      ensures x in hs' && OnRing(hashes, x) && x != h
    {
      assert x in Elems(hs');
    }
  }

  /**
    Emplace keeps every position placed when the new position is not a slice
    position: with no slice it joins the pool, otherwise it goes to the slice
    before it (ring.go:522-534).
   */
  lemma EmplaceKeepsPlacement(slices: seq<uint64>, hashes: seq<uint64>, empty: set<uint64>, owners: map<uint64, uint64>, h: uint64)
    requires StrictlySorted(slices) && StrictlySorted(hashes) && h !in slices
    requires Placed(slices, hashes, empty, owners)
    ensures |slices| == 0 ==> Placed(slices, InsertHash(hashes, h), empty + {h}, owners)
    ensures |slices| > 0 ==> Placed(slices, InsertHash(hashes, h), empty, owners[h := PrevSlice(slices, h)])
  {
    if |slices| > 0 {
      EmplaceKeepsOwnership(slices, hashes, owners, h);
    }
  }

  /**
    With two or more slices, a key hashed onto a slice position leaves the
    ring unbalanced: Emplace gives the position to the slice before it.
   */
  lemma EmplaceAtSliceUnplaced(slices: seq<uint64>, hashes: seq<uint64>, empty: set<uint64>, owners: map<uint64, uint64>, h: uint64)
    requires StrictlySorted(slices) && StrictlySorted(hashes) && |slices| > 1 && h in slices
    ensures !Placed(slices, InsertHash(hashes, h), empty, owners[h := PrevSlice(slices, h)])
  {
    EmplaceAtSlicePosition(slices, h);
    assert h in Elems(InsertHash(hashes, h));
    assert OnRing(InsertHash(hashes, h), h);
  }

  /**
    Remove keeps every position placed while there are slices, and also
    with none once the position it empties is retired (ring.go:602-627).
   */
  lemma DropKeepsPlacement(slices: seq<uint64>, hashes: seq<uint64>, empty: set<uint64>, owners: map<uint64, uint64>,
                           h: uint64, retire: bool)
    requires StrictlySorted(hashes) && (|slices| > 0 ==> empty == {})
    requires Placed(slices, hashes, empty, owners)
    requires |slices| > 0 || retire
    ensures Placed(slices, if retire then RemoveHash(hashes, h) else hashes,
      if |empty| > 0 then empty - {h} else empty, if retire then owners - {h} else owners)
  {
    if retire && |slices| > 0 {
      RetireKeepsOwnership(Elems(slices), hashes, owners, h);
    }
  }

  /**
    With no slice, removing one of several keys at a position drops the
    position from the pool although it stays on the ring (ring.go:603-604).
   */
  lemma DropLeavesPool(slices: seq<uint64>, hashes: seq<uint64>, empty: set<uint64>, owners: map<uint64, uint64>, h: uint64)
    requires |slices| == 0 && h in hashes
    ensures !Placed(slices, hashes, if |empty| > 0 then empty - {h} else empty, owners)
  {
    assert h in Elems(hashes);
  }
}
