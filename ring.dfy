/**
  The ring itself (ring.go:154-709): a class whose fields are the Go
  struct's tables, whose methods change them in place as the Go methods do,
  and whose notifications are recorded in one log, `notices`: every op
  notify is called with, together with the channel it was handed to, if any.
 */
module RingModel {
  import opened RingTypes
  import opened OrderedIndex
  import opened Circular
  import opened Ownership
  import opened Notifications
  import opened KeyTables

  /** The slice positions are sorted and are exactly the keys of nodesBySlice. */
  ghost predicate SlicesValid(slices: seq<uint64>, nodesBySlice: map<uint64, string>) {
    && StrictlySorted(slices)
    && nodesBySlice.Keys == Elems(slices)
  }

  /** The hash positions are sorted; the empty pool holds ring hashes only, and only while there is no slice. */
  ghost predicate PoolValid(slices: seq<uint64>, hashes: seq<uint64>, empty: set<uint64>) {
    && StrictlySorted(hashes)
    && empty <= Elems(hashes)
    && (|slices| > 0 ==> empty == {})
  }

  /**
    Every registered channel was handed out, is still open and serves one
    filter value only; every closed channel was handed out.
   */
  ghost predicate WatchersValid(watchers: map<string, nat>, nextChannel: nat, closed: set<nat>) {
    && (forall f :: f in watchers ==> watchers[f] < nextChannel && watchers[f] !in closed)
    && (forall f, g :: f in watchers && g in watchers && f != g ==> watchers[f] != watchers[g])
    && (forall c :: c in closed ==> c < nextChannel)
  }

  /** The string Emplace hashes: the first optional hash key, or else the key's own name (ring.go:512-518). */
  function HashKey(name: string, hk: seq<string>): string {
    if |hk| == 0 then name else hk[0]
  }

  /** The node table after node id claimed the slice positions in S; positions already taken keep their node. */
  ghost function Claim(m: map<uint64, string>, S: set<uint64>, id: string): (r: map<uint64, string>)
    ensures r.Keys == m.Keys + S
  {
    map s | s in m.Keys + S :: if s in m then m[s] else id
  }

  /** What Emplace of key k with payload v at hash position h does to the invariants (ring.go:506-550). */
  lemma EmplaceFacts<T>(slices: seq<uint64>, hashes: seq<uint64>, empty: set<uint64>, owners: map<uint64, uint64>,
                        keysByHash: map<uint64, seq<InnerKey>>, hashesByKey: map<string, uint64>,
                        contentByKey: map<string, T>, k: InnerKey, v: T, h: uint64)
    requires StrictlySorted(slices) && PoolValid(slices, hashes, empty)
    requires KeysValid(hashes, keysByHash, hashesByKey, contentByKey) && k.key !in hashesByKey
    ensures KeysValid(InsertHash(hashes, h), keysByHash[h := Inserted(Lookup(keysByHash, h, []), k)],
      hashesByKey[k.key := h], contentByKey[k.key := v])
    ensures |slices| == 0 ==>
      && PoolValid(slices, InsertHash(hashes, h), empty + {h})
      && (Placed(slices, hashes, empty, owners) ==> Placed(slices, InsertHash(hashes, h), empty + {h}, owners))
    ensures |slices| > 0 ==>
      && PoolValid(slices, InsertHash(hashes, h), empty)
      && (Placed(slices, hashes, empty, owners) && h !in slices ==>
           Placed(slices, InsertHash(hashes, h), empty, owners[h := PrevSlice(slices, h)]))
      && (|slices| > 1 && h in slices ==> !Placed(slices, InsertHash(hashes, h), empty, owners[h := PrevSlice(slices, h)]))
  {
    EmplaceKeepsKeys(hashes, keysByHash, hashesByKey, contentByKey, k, v, h);
    if Placed(slices, hashes, empty, owners) && h !in slices {
      EmplaceKeepsPlacement(slices, hashes, empty, owners, h);
    }
    if |slices| > 1 && h in slices {
      EmplaceAtSliceUnplaced(slices, hashes, empty, owners, h);
    }
  }

  /** What Remove of the known key name does to the invariants (ring.go:594-630). */
  lemma DropFacts<T>(slices: seq<uint64>, hashes: seq<uint64>, empty: set<uint64>, owners: map<uint64, uint64>,
                     keysByHash: map<uint64, seq<InnerKey>>, hashesByKey: map<string, uint64>,
                     contentByKey: map<string, T>, name: string)
    requires PoolValid(slices, hashes, empty)
    requires KeysValid(hashes, keysByHash, hashesByKey, contentByKey) && name in hashesByKey
    ensures var h := hashesByKey[name];
      var rest := Removed(Lookup(keysByHash, h, []), name);
      var hs := if rest == [] then RemoveHash(hashes, h) else hashes;
      var pool := if |empty| > 0 then empty - {h} else empty;
      && h in hashes
      && KeysValid(hs, keysByHash[h := rest], hashesByKey - {name}, contentByKey - {name})
      && PoolValid(slices, hs, pool)
      && (Placed(slices, hashes, empty, owners) && (|slices| > 0 || rest == []) ==>
           Placed(slices, hs, pool, if rest == [] then owners - {h} else owners))
      && (|slices| == 0 && rest != [] ==> !Placed(slices, hs, pool, owners))
  {
    var h := hashesByKey[name];
    var rest := Removed(Lookup(keysByHash, h, []), name);
    KeysOnRing(hashes, keysByHash, hashesByKey, contentByKey);
    RemoveKeepsKeys(hashes, keysByHash, hashesByKey, contentByKey, name);
    if Placed(slices, hashes, empty, owners) && (|slices| > 0 || rest == []) {
      DropKeepsPlacement(slices, hashes, empty, owners, h, rest == []);
    }
    if |slices| == 0 && rest != [] {
      DropLeavesPool(slices, hashes, empty, owners, h);
    }
  }

  /** A known slice position leaves both slice tables at its findIndex, keeping them in step. */
  lemma UnplaceValid(slices: seq<uint64>, nodesBySlice: map<uint64, string>, slice: uint64)
    requires SlicesValid(slices, nodesBySlice) && slice in nodesBySlice
    ensures var r := RemoveIndex(slices, FindIndex(slices, slice)).0;
      && r == RemoveHash(slices, slice) && |r| == |slices| - 1
      && SlicesValid(r, nodesBySlice - {slice})
  {
    FindIndexPresent(slices, slice);
    var r := RemoveHash(slices, slice);
    assert (nodesBySlice - {slice}).Keys == Elems(r);
  }

  /**
    Drawing h from the pool keeps `pooled` an enumeration of what has left
    it, hands h to slice after the positions before it, and logs its ops
    after theirs.
   */
  lemma DrawFromPool<T>(pool: set<uint64>, empty: set<uint64>, pooled: seq<uint64>, h: uint64,
                        owners: map<uint64, uint64>, slice: uint64, l0: seq<Notice<T>>, t: Tables<T>, node: string,
                        watchers: map<string, nat>, filter: Op<T> -> string)
    requires empty <= pool && Elems(pooled) == pool - empty && |pooled| + |empty| == |pool| && h in empty
    ensures empty - {h} <= pool && Elems(pooled + [h]) == pool - (empty - {h})
    ensures |pooled + [h]| + |empty - {h}| == |pool|
    ensures Reassign(owners, Elems(pooled + [h]), slice) == Reassign(owners, Elems(pooled), slice)[h := slice]
    ensures l0 + Stamped(PoolOps(t, pooled, node, false), watchers, filter)
              + Stamped(RingChangeOps(t, KeysAt(t, h), node, false), watchers, filter)
            == l0 + Stamped(PoolOps(t, pooled + [h], node, false), watchers, filter)
  {
    PoolShrinks(pool, empty, pooled, h);
    ReassignSnoc(owners, pooled, h, slice);
    PoolLogSnoc(l0, t, pooled, h, node, false, watchers, filter);
  }

  /** The positions drawn so far and those still pooled partition the pool, before and after h is drawn. */
  lemma PoolShrinks(pool: set<uint64>, empty: set<uint64>, pooled: seq<uint64>, h: uint64)
    requires empty <= pool && Elems(pooled) == pool - empty && |pooled| + |empty| == |pool| && h in empty
    ensures empty - {h} <= pool && Elems(pooled + [h]) == pool - (empty - {h})
    ensures |pooled + [h]| + |empty - {h}| == |pool|
  {
    assert Elems(pooled + [h]) == Elems(pooled) + {h};
  }

  /**
    New (ring.go:178-210). The options of the Go constructor set the public
    fields; the parameters here are those fields after the options ran.
    A base vFactor below one is refused.
   */
  method New<T(!new)>(hash: string -> uint64, baseVFactor: int, toSliceName: (string, int) -> string,
                filter: Op<T> -> string, zero: T) returns (ring: Option<Ring<T>>, err: Option<Error>)
    ensures baseVFactor < 1 ==> ring == None && err == Some(InvalidBaseVFactor)
    ensures baseVFactor >= 1 ==>
      && err == None && ring.Some? && fresh(ring.value)
      && ring.value.Valid() && ring.value.Balanced() && ring.value.WatchersOk()
      && ring.value.hash == hash && ring.value.baseVFactor == baseVFactor
      && ring.value.toSliceName == toSliceName && ring.value.filter == filter
      && ring.value.slices == [] && ring.value.hashes == [] && ring.value.vFactorByNode == map[]
      && ring.value.zero == zero && ring.value.empty == {}
      && ring.value.nodesBySlice == map[] && ring.value.slicesByHash == map[]
      && ring.value.keysByHash == map[] && ring.value.hashesByKey == map[] && ring.value.contentByKey == map[]
      && ring.value.watchers == map[] && ring.value.nextChannel == 0 && ring.value.closed == {}
      && ring.value.notices == []
  {
    if baseVFactor < 1 {
      return None, Some(InvalidBaseVFactor);
    }
    var r := new Ring(hash, baseVFactor, toSliceName, filter, zero);
    return Some(r), None;
  }

  class Ring<T(!new)> {
    var slices: seq<uint64>
    var hashes: seq<uint64>
    var empty: set<uint64>
    var nodesBySlice: map<uint64, string>
    var vFactorByNode: map<string, int>
    var slicesByHash: map<uint64, uint64>
    var keysByHash: map<uint64, seq<InnerKey>>
    var contentByKey: map<string, T>
    var hashesByKey: map<string, uint64>

    /** Registered watchers: filter value to channel number. */
    var watchers: map<string, nat>
    /** The number the next registered channel gets. */
    var nextChannel: nat
    /** Channels DeregisterWatcher has closed. */
    var closed: set<nat>
    /** Every notify call, in call order, with the channel the op was handed to. */
    var notices: seq<Notice<T>>

    const hash: string -> uint64
    const baseVFactor: int
    const toSliceName: (string, int) -> string
    const filter: Op<T> -> string
    /** Go's zero value of T, the payload of ops that carry none. */
    const zero: T

    /** The invariants every exported method keeps. */
    ghost predicate Valid()
      reads this`slices, this`nodesBySlice, this`hashes, this`empty
      reads this`keysByHash, this`hashesByKey, this`contentByKey
    {
      && baseVFactor >= 1
      && SlicesValid(slices, nodesBySlice)
      && PoolValid(slices, hashes, empty)
      && KeysOk()
    }

    /** The key tables agree with each other and with the hash positions. */
    ghost predicate KeysOk()
      reads this`hashes, this`keysByHash, this`hashesByKey, this`contentByKey
    {
      KeysValid(hashes, keysByHash, hashesByKey, contentByKey)
    }

    /** The watcher registry is consistent with the channels handed out and closed. */
    ghost predicate WatchersOk()
      reads this`watchers, this`nextChannel, this`closed
    {
      WatchersValid(watchers, nextChannel, closed)
    }

    /** Valid, assembled from its parts. */
    lemma ValidOf()
      requires baseVFactor >= 1 && SlicesValid(slices, nodesBySlice) && PoolValid(slices, hashes, empty)
      requires KeysOk()
      ensures Valid()
    {
    }

    /**
      Every hash position is where the ring's design puts it: in the empty
      pool while there is no slice, and otherwise with the slice at or
      below it (wrapping).
     */
    ghost predicate Balanced()
      reads this`slices, this`hashes, this`empty, this`slicesByHash
    {
      Placed(slices, hashes, empty, slicesByHash)
    }

    /** The tables notifications are built from. */
    ghost function Snapshot(): Tables<T>
      reads this`nodesBySlice, this`keysByHash, this`contentByKey
    {
      Tables(nodesBySlice, keysByHash, contentByKey, zero)
    }

    /** Since the log was l0, notify was called with exactly ops. */
    ghost predicate Logged(l0: seq<Notice<T>>, ops: seq<Op<T>>)
      reads this`notices, this`watchers
    {
      notices == l0 + Stamped(ops, watchers, filter)
    }

    /** Since the log was l0, notify was called once, with op. */
    ghost predicate Told(l0: seq<Notice<T>>, op: Op<T>)
      reads this`notices, this`watchers
    {
      notices == l0 + [Stamp(op, watchers, filter)]
    }

    /** The position of virtual slice i of node id (ring.go:236, 262, 286, 292). */
    function SliceHash(id: string, i: int): uint64 {
      hash(toSliceName(id, i))
    }

    /** The slice positions of node id with indices lo up to hi. */
    ghost function SlicePositions(id: string, lo: int, hi: int): set<uint64> {
      set i | lo <= i < hi :: SliceHash(id, i)
    }

    /**
      Node id can claim its slices lo up to hi on top of the node table n,
      one at a time as ring.go:233-245 does: each slice's position is free in
      the table left by the slices before it.
     */
    ghost predicate Claimable(n: map<uint64, string>, id: string, lo: int, hi: int)
      decreases hi - lo
    {
      lo >= hi || (SliceHash(id, lo) !in n && Claimable(n[SliceHash(id, lo) := id], id, lo + 1, hi))
    }

    /** The positions of slices lo up to hi are all free in n, and no two of them coincide. */
    ghost predicate PositionsFree(n: map<uint64, string>, id: string, lo: int, hi: int) {
      forall i :: lo <= i < hi ==>
        && SliceHash(id, i) !in n
        && forall j :: lo <= j < i ==> SliceHash(id, j) != SliceHash(id, i)
    }

    /** Claiming the slices one at a time succeeds exactly when their positions are free and pairwise distinct. */
    lemma {:induction false} ClaimableIsFree(n: map<uint64, string>, id: string, lo: int, hi: int)
      ensures Claimable(n, id, lo, hi) <==> PositionsFree(n, id, lo, hi)
      decreases hi - lo
    {
      if lo < hi {
        var p := SliceHash(id, lo);
        ClaimableIsFree(n[p := id], id, lo + 1, hi);
        if PositionsFree(n, id, lo, hi) {
          forall i | lo + 1 <= i < hi
            ensures SliceHash(id, i) !in n[p := id]
          {
            assert SliceHash(id, lo) != SliceHash(id, i);
          }
        }
        if p !in n && PositionsFree(n[p := id], id, lo + 1, hi) {
          forall i | lo <= i < hi
            ensures SliceHash(id, i) !in n && forall j :: lo <= j < i ==> SliceHash(id, j) != SliceHash(id, i)
          {
            if i > lo {
              assert SliceHash(id, i) !in n[p := id];
            }
          }
        }
      }
    }

    lemma SlicePositionsSnoc(id: string, lo: int, hi: int)
      requires lo <= hi
      ensures SlicePositions(id, lo, hi + 1) == SlicePositions(id, lo, hi) + {SliceHash(id, hi)}
    {
    }

    /** Claiming one more slice adds its position to the node table. */
    lemma ClaimMapExtend(n0: map<uint64, string>, id: string, lo: int, idx: int)
      requires lo <= idx && SliceHash(id, idx) !in Claim(n0, SlicePositions(id, lo, idx), id)
      ensures Claim(n0, SlicePositions(id, lo, idx), id)[SliceHash(id, idx) := id]
        == Claim(n0, SlicePositions(id, lo, idx + 1), id)
    {
      SlicePositionsSnoc(id, lo, idx);
    }

    /** Slice idx's position was free in the table claimed so far, so the first idx + 1 positions are free in n0 and distinct. */
    lemma PositionsFreeSnoc(n0: map<uint64, string>, id: string, lo: int, idx: int)
      requires lo <= idx && PositionsFree(n0, id, lo, idx)
      requires SliceHash(id, idx) !in Claim(n0, SlicePositions(id, lo, idx), id)
      ensures PositionsFree(n0, id, lo, idx + 1)
    {
      forall j | lo <= j < idx
        ensures SliceHash(id, j) != SliceHash(id, idx)
      {
        assert SliceHash(id, j) in SlicePositions(id, lo, idx);
      }
    }

    /** A claim loop that ran past hi has claimed exactly the range lo up to hi (an empty one when hi < lo). */
    lemma ClaimedAll(id: string, lo: int, idx: int, hi: int)
      requires lo <= idx && (idx == hi || (idx == lo && hi < lo))
      ensures SlicePositions(id, lo, idx) == SlicePositions(id, lo, hi)
    {
    }

    constructor (hash: string -> uint64, baseVFactor: int, toSliceName: (string, int) -> string,
                 filter: Op<T> -> string, zero: T)
      requires baseVFactor >= 1
      ensures Valid() && Balanced() && WatchersOk()
      ensures this.hash == hash && this.baseVFactor == baseVFactor
      ensures this.toSliceName == toSliceName && this.filter == filter && this.zero == zero
      ensures slices == [] && hashes == [] && empty == {}
      ensures nodesBySlice == map[] && vFactorByNode == map[] && slicesByHash == map[]
      ensures keysByHash == map[] && contentByKey == map[] && hashesByKey == map[]
      ensures watchers == map[] && nextChannel == 0 && closed == {}
      ensures notices == []
    {
      this.hash := hash;
      this.baseVFactor := baseVFactor;
      this.toSliceName := toSliceName;
      this.filter := filter;
      this.zero := zero;
      slices := [];
      hashes := [];
      empty := {};
      nodesBySlice := map[];
      vFactorByNode := map[];
      slicesByHash := map[];
      keysByHash := map[];
      contentByKey := map[];
      hashesByKey := map[];
      watchers := map[];
      nextChannel := 0;
      closed := {};
      notices := [];
    }

    /** State (ring.go:212-218): the slice, owner and key tables, as a view. */
    function State(): (v: StateView)
      requires Valid()
      reads this
      ensures v.nodesBySlice.Keys == Elems(slices)
      ensures v.hashesByKey.Keys == contentByKey.Keys
      ensures forall k :: k in v.hashesByKey ==> v.hashesByKey[k] in hashes
    {
      KeysOnRing(hashes, keysByHash, hashesByKey, contentByKey);
      StateView(nodesBySlice, slicesByHash, hashesByKey)
    }

    // ---------------------------------------------------------------- watchers

    /**
      RegisterWatcher (ring.go:106-116): a new channel, registered under the
      filter value of the given op; it replaces any channel registered under
      the same value.
     */
    method RegisterWatcher(f: Op<T>) returns (ch: nat)
      modifies this`watchers, this`nextChannel
      ensures ch == old(nextChannel) && nextChannel == ch + 1
      ensures watchers == old(watchers)[filter(f) := ch]
      ensures old(WatchersOk()) ==> WatchersOk()
    {
      ch := nextChannel;
      nextChannel := nextChannel + 1;
      watchers := watchers[filter(f) := ch];
    }

    /**
      DeregisterWatcher (ring.go:120-135): a no-op when nothing is registered
      under the op's filter value; otherwise the registration goes and its
      channel is closed.
     */
    method DeregisterWatcher(op: Op<T>)
      modifies this`watchers, this`closed
      ensures filter(op) !in old(watchers) ==> unchanged(this)
      ensures filter(op) in old(watchers) ==>
        watchers == old(watchers) - {filter(op)} && closed == old(closed) + {old(watchers)[filter(op)]}
      ensures old(WatchersOk()) ==> WatchersOk()
    {
      var f := filter(op);
      if f !in watchers {
        return;
      }
      var c := watchers[f];
      watchers := watchers - {f};
      closed := closed + {c};
    }

    /** notify (ring.go:137-152): log the op with the channel registered under filter(op), if any. */
    method Notify(op: Op<T>)
      modifies this`notices
      ensures Told(old(notices), op)
    {
      var f := filter(op);
      var channel := if f in watchers then Some(watchers[f]) else None;
      notices := notices + [Notice(op, channel)];
    }

    // ------------------------------------------------------- slice reassignment

    /** The per-key notify loop of ring.go:352-359, 391-399, 465-473 and 477-484. */
    method NotifyKeys(ghost t: Tables<T>, keys: seq<InnerKey>, node: string, removed: bool)
      requires t == Snapshot()
      modifies this`notices
      ensures Logged(old(notices), RingChangeOps(t, keys, node, removed))
    {
      ghost var ops := RingChangeOps(t, keys, node, removed);
      ghost var l0 := notices;
      var i := 0;
      while i < |keys|
        invariant i <= |keys|
        invariant notices == l0 + Stamped(ops[..i], watchers, filter)
      {
        var k := keys[i];
        Notify(Op(k.key, node, Lookup(contentByKey, k.key, zero), removed, false, true));
        assert ops[..i + 1] == ops[..i] + [ops[i]];
        StampedAppend(ops[..i], [ops[i]], watchers, filter);
        assert Stamped([ops[i]], watchers, filter) == [Stamp(ops[i], watchers, filter)];
        i := i + 1;
      }
      assert ops[..i] == ops;
    }

    /** convertHash (ring.go:461-485): removals to the old owner's node, the handover, then additions to the new one. */
    method ConvertHash(ghost t: Tables<T>, slice: uint64, h: uint64)
      requires t == Snapshot()
      modifies this`slicesByHash, this`notices
      ensures slicesByHash == old(slicesByHash)[h := slice]
      ensures Logged(old(notices), ConvertHashOps(t, old(slicesByHash), h, slice))
    {
      var prev := Lookup(slicesByHash, h, 0);
      var keys := Lookup(keysByHash, h, []);
      NotifyKeys(t, keys, Lookup(nodesBySlice, prev, ""), true);
      slicesByHash := slicesByHash[h := slice];
      NotifyKeys(t, keys, Lookup(nodesBySlice, slice, ""), false);
      LogChain(old(notices), RingChangeOps(t, keys, NodeOf(t, prev), true), RingChangeOps(t, keys, NodeOf(t, slice), false),
        watchers, filter);
    }

    /**
      convertHashes (ring.go:424-459): hand the positions at the indices from
      start up to end, wrapping, to slice; all of them when ConvertsAll holds.
     */
    method ConvertHashes(ghost t: Tables<T>, slice: uint64, start: int, end: int, circle: bool)
      requires t == Snapshot() && 0 <= start <= |hashes| && 0 <= end <= |hashes|
      modifies this`slicesByHash, this`notices
      ensures slicesByHash == Reassign(old(slicesByHash), Elems(VisitedHashes(hashes, start, end, circle)), slice)
      ensures Logged(old(notices), ConvertOps(t, old(slicesByHash), VisitedHashes(hashes, start, end, circle), slice))
    {
      var n := |hashes|;
      if ConvertsAll(n, start, end, circle) {
        ConvertAll(t, slice);
        VisitOrderAll(n, start, end, circle);
        assert VisitedHashes(hashes, start, end, circle) == hashes;
      } else {
        var e := if end == n then 0 else end;
        var s := if start == n then 0 else start;
        ConvertRange(t, slice, s, e);
      }
    }

    /** The `range ring.hashes` loop of ring.go:434-436. */
    method ConvertAll(ghost t: Tables<T>, slice: uint64)
      requires t == Snapshot()
      modifies this`slicesByHash, this`notices
      ensures slicesByHash == Reassign(old(slicesByHash), Elems(hashes), slice)
      ensures Logged(old(notices), ConvertOps(t, old(slicesByHash), hashes, slice))
    {
      ghost var final := ReassignSeq(slicesByHash, hashes, slice);
      ghost var total := notices + Stamped(ConvertOps(t, slicesByHash, hashes, slice), watchers, filter);
      ReassignSeqIsReassign(slicesByHash, hashes, slice);
      var i := 0;
      while i < |hashes|
        invariant i <= |hashes| && Converting(t, final, total, slice, hashes[i..])
      {
        ConvertStep(t, final, total, hashes[i..], slice, hashes[i]);
        assert hashes[i..][1..] == hashes[i + 1..];
        i := i + 1;
      }
      assert hashes[i..] == [];
    }

    /** The wrapping loop of ring.go:445-457, from index s up to index e. */
    method ConvertRange(ghost t: Tables<T>, slice: uint64, s: nat, e: nat)
      requires t == Snapshot() && s < |hashes| && e < |hashes|
      modifies this`slicesByHash, this`notices
      ensures slicesByHash == Reassign(old(slicesByHash), Elems(At(hashes, Walk(s, e, |hashes|))), slice)
      ensures Logged(old(notices), ConvertOps(t, old(slicesByHash), At(hashes, Walk(s, e, |hashes|)), slice))
    {
      var n := |hashes|;
      ghost var final := ReassignSeq(slicesByHash, At(hashes, Walk(s, e, n)), slice);
      ReassignSeqIsReassign(slicesByHash, At(hashes, Walk(s, e, n)), slice);
      ghost var total := notices + Stamped(ConvertOps(t, slicesByHash, At(hashes, Walk(s, e, n)), slice), watchers, filter);
      var hs, i: nat := hashes, s;
      while i != e
        invariant Walking(t, final, total, slice, hs, i, e)
        decreases Distance(i, e, n)
      {
        i := ConvertNext(t, final, total, slice, hs, i, e);
      }
      assert Walk(i, e, n) == [];
    }

    /** The loop state of ConvertRange at index i: the positions of the walk from i up to e are still to visit. */
    ghost predicate Walking(t: Tables<T>, final: map<uint64, uint64>, total: seq<Notice<T>>, slice: uint64,
                            hs: seq<uint64>, i: nat, e: nat)
      reads this`nodesBySlice, this`keysByHash, this`contentByKey, this`slicesByHash, this`notices, this`watchers
    {
      i < |hs| && e < |hs| && Converting(t, final, total, slice, At(hs, Walk(i, e, |hs|)))
    }

    /** One iteration of the wrapping loop of ring.go:445-457: convert the position at i and step on. */
    method ConvertNext(ghost t: Tables<T>, ghost final: map<uint64, uint64>, ghost total: seq<Notice<T>>,
                       slice: uint64, hs: seq<uint64>, i: nat, e: nat) returns (next: nat)
      requires Walking(t, final, total, slice, hs, i, e) && i != e
      modifies this`slicesByHash, this`notices
      ensures Walking(t, final, total, slice, hs, next, e)
      ensures Distance(next, e, |hs|) < Distance(i, e, |hs|)
    {
      AtWalkCons(hs, i, e);
      ConvertStep(t, final, total, At(hs, Walk(i, e, |hs|)), slice, hs[i]);
      next := i + 1;
      if next == |hs| {
        next := 0;
      }
    }

    /**
      The loop state of convertHashes with the positions rest still to
      visit: handing them to slice and notifying their ops, in order,
      completes the owner table final and the log total.
     */
    ghost predicate Converting(t: Tables<T>, final: map<uint64, uint64>, total: seq<Notice<T>>, slice: uint64,
                               rest: seq<uint64>)
      reads this`nodesBySlice, this`keysByHash, this`contentByKey, this`slicesByHash, this`notices, this`watchers
    {
      && t == Snapshot()
      && ReassignSeq(slicesByHash, rest, slice) == final
      && notices + Stamped(ConvertOps(t, slicesByHash, rest, slice), watchers, filter) == total
    }

    /** One convertHash step of convertHashes (ring.go:435, 451): the first position still to visit goes to slice. */
    method ConvertStep(ghost t: Tables<T>, ghost final: map<uint64, uint64>, ghost total: seq<Notice<T>>,
                       ghost rest: seq<uint64>, slice: uint64, h: uint64)
      requires Converting(t, final, total, slice, rest) && rest != [] && rest[0] == h
      modifies this`slicesByHash, this`notices
      ensures Converting(t, final, total, slice, rest[1..])
    {
      ConvertHash(t, slice, h);
      LogChain(old(notices), ConvertHashOps(t, old(slicesByHash), h, slice), ConvertOps(t, slicesByHash, rest[1..], slice),
        watchers, filter);
    }

    // ------------------------------------------------------ slice insertion

    /**
      The tables after position slice of node joined slice positions s0,
      with nodesBySlice n0, slicesByHash o0, pool p0 and log l0: the first
      slice takes the whole pool, enumerated by pooled, and any other the
      arc from it up to the next slice.
     */
    ghost predicate SliceInserted(slice: uint64, node: string, pooled: seq<uint64>, s0: seq<uint64>,
                                  n0: map<uint64, string>, o0: map<uint64, uint64>, p0: set<uint64>,
                                  l0: seq<Notice<T>>)
      reads this`slices, this`nodesBySlice, this`slicesByHash, this`empty, this`hashes
      reads this`keysByHash, this`contentByKey, this`notices, this`watchers
    {
      && slices == InsertHash(s0, slice)
      && nodesBySlice == n0[slice := node]
      && FindIndex(slices, slice) < |slices|
      && (|s0| == 0 ==>
           && empty == {}
           && Distinct(pooled) && Elems(pooled) == p0
           && slicesByHash == Reassign(o0, p0, slice)
           && Logged(l0, PoolOps(Snapshot(), pooled, node, false)))
      && (|s0| > 0 ==>
           && empty == p0
           && slicesByHash == Reassign(o0, ArcHashes(hashes, slice, NextSlice(slices, slice)), slice)
           && Logged(l0, ConvertOps(Snapshot(), o0, ArcVisit(hashes, slice, NextSlice(slices, slice)), slice)))
    }

    /**
      insertSlice (ring.go:333-375): refuse a taken slice position; otherwise
      insert it in order and hand it its positions (SliceInserted).
     */
    method InsertSlice(slice: uint64, node: string) returns (err: Option<Error>, ghost pooled: seq<uint64>)
      requires Valid()
      modifies this`slices, this`nodesBySlice, this`slicesByHash, this`empty, this`notices
      ensures Valid()
      ensures old(Balanced()) ==> Balanced()
      ensures slice in old(nodesBySlice) ==> err == Some(SliceAlreadyExists) && unchanged(this)
      ensures slice !in old(nodesBySlice) ==> err == None && nodesBySlice == old(nodesBySlice)[slice := node]
      ensures slice !in old(nodesBySlice) ==>
        SliceInserted(slice, node, pooled, old(slices), old(nodesBySlice), old(slicesByHash), old(empty), old(notices))
    {
      if slice in nodesBySlice {
        return Some(SliceAlreadyExists), [];
      }
      pooled := Attach(slice, node);
      err := None;
    }

    /** insertSlice for a new slice position: the first slice or a further one (ring.go:348-372). */
    method Attach(slice: uint64, node: string) returns (ghost pooled: seq<uint64>)
      requires Valid() && slice !in nodesBySlice
      modifies this`slices, this`nodesBySlice, this`slicesByHash, this`empty, this`notices
      ensures Valid()
      ensures old(Balanced()) ==> Balanced()
      ensures SliceInserted(slice, node, pooled, old(slices), old(nodesBySlice), old(slicesByHash), old(empty), old(notices))
    {
      if |slices| == 0 {
        pooled := InsertFirstSlice(slice, node);
      } else {
        pooled := [];
        InsertLaterSlice(slice, node);
      }
    }

    /** insertSlice for the first slice (ring.go:343-361): it takes the whole pool. */
    method InsertFirstSlice(slice: uint64, node: string) returns (ghost pooled: seq<uint64>)
      requires SlicesValid(slices, nodesBySlice) && PoolValid(slices, hashes, empty) && slices == []
      modifies this`slices, this`nodesBySlice, this`slicesByHash, this`empty, this`notices
      ensures SlicesValid(slices, nodesBySlice) && PoolValid(slices, hashes, empty)
      ensures old(Balanced()) ==> Balanced()
      ensures SliceInserted(slice, node, pooled, old(slices), old(nodesBySlice), old(slicesByHash), old(empty), old(notices))
    {
      PlaceSlice(slice, node);
      pooled := PoolIn(slice);
      if old(Balanced()) {
        FirstSliceOwnsAll(slice, hashes, old(slicesByHash));
        assert Elems(slices) == {slice};
      }
    }

    /** insertSlice for a further slice (ring.go:343-346, 362-372): it takes the arc up to the next slice. */
    method InsertLaterSlice(slice: uint64, node: string)
      requires SlicesValid(slices, nodesBySlice) && StrictlySorted(hashes) && slices != [] && slice !in nodesBySlice
      modifies this`slices, this`nodesBySlice, this`slicesByHash, this`notices
      ensures SlicesValid(slices, nodesBySlice)
      ensures old(Balanced()) ==> Balanced()
      ensures SliceInserted(slice, node, [], old(slices), old(nodesBySlice), old(slicesByHash), empty, old(notices))
    {
      PlaceSlice(slice, node);
      assert |slices| > 1;
      TakeArc(slice);
      if old(Balanced()) {
        InsertKeepsOwnership(old(slices), hashes, old(slicesByHash), slice);
      }
    }

    /** ring.go:343-346: the new slice position enters `slices` in order and `nodesBySlice`. */
    method PlaceSlice(slice: uint64, node: string)
      requires SlicesValid(slices, nodesBySlice) && slice !in nodesBySlice
      modifies this`slices, this`nodesBySlice
      ensures SlicesValid(slices, nodesBySlice)
      ensures slices == InsertHash(old(slices), slice) && |slices| == |old(slices)| + 1
      ensures nodesBySlice == old(nodesBySlice)[slice := node]
      ensures FindIndex(slices, slice) < |slices| && slices[FindIndex(slices, slice)] == slice
    {
      var r := InsertPreserveOrder(slices, slice, FindIndex);
      var idx := r.1;
      assert idx < |slices| ==> slices[idx] != slice;
      slices := r.0;
      nodesBySlice := nodesBySlice[slice := node];
      assert slices == InsertHash(old(slices), slice);
      assert slices[idx] == slice;
      FindIndexAt(slices, idx);
    }

    /** ring.go:363-371: a slice that is not the first takes the arc from it up to the next slice. */
    method TakeArc(slice: uint64)
      requires StrictlySorted(slices) && StrictlySorted(hashes) && |slices| > 1
      requires FindIndex(slices, slice) < |slices| && slices[FindIndex(slices, slice)] == slice
      modifies this`slicesByHash, this`notices
      ensures slicesByHash == Reassign(old(slicesByHash), ArcHashes(hashes, slice, NextSlice(slices, slice)), slice)
      ensures Logged(old(notices), ConvertOps(Snapshot(), old(slicesByHash), ArcVisit(hashes, slice, NextSlice(slices, slice)), slice))
    {
      var idx := FindIndex(slices, slice);
      var next := slices[FindNextIndex(slices, idx)];
      assert next != slice;
      ArcVisitElems(hashes, slice, next);
      ConvertHashes(Snapshot(), slice, FindIndex(hashes, slice), FindIndex(hashes, next), next < slice);
    }

    /** The first slice takes every pooled position (ring.go:349-361), in map order. */
    method PoolIn(slice: uint64) returns (ghost pooled: seq<uint64>)
      modifies this`slicesByHash, this`empty, this`notices
      ensures empty == {} && Distinct(pooled) && Elems(pooled) == old(empty)
      ensures slicesByHash == Reassign(old(slicesByHash), old(empty), slice)
      ensures Logged(old(notices), PoolOps(Snapshot(), pooled, NodeOf(Snapshot(), slice), false))
    {
      var node := Lookup(nodesBySlice, slice, "");
      pooled := PoolLoop(Snapshot(), slice, node);
      CountedIsDistinct(pooled);
    }

    /** The loop of ring.go:350-361, with the positions in the order the map iteration yields them. */
    method PoolLoop(ghost t: Tables<T>, slice: uint64, node: string) returns (ghost pooled: seq<uint64>)
      requires t == Snapshot()
      modifies this`slicesByHash, this`empty, this`notices
      ensures empty == {} && Elems(pooled) == old(empty) && |pooled| == |old(empty)|
      ensures slicesByHash == Reassign(old(slicesByHash), Elems(pooled), slice)
      ensures Logged(old(notices), PoolOps(t, pooled, node, false))
    {
      ghost var owners, l0, pool := slicesByHash, notices, empty;
      pooled := [];
      while empty != {}
        invariant Pooling(t, owners, l0, pool, pooled, slice, node)
        decreases |empty|
      {
        var h :| h in empty;
        PoolInStep(t, owners, l0, pool, pooled, slice, node, h);
        pooled := pooled + [h];
      }
    }

    /**
      The loop state of PoolLoop after the positions pooled left the pool
      pool: they went to slice, in that order, with their ops logged since l0.
     */
    ghost predicate Pooling(t: Tables<T>, owners: map<uint64, uint64>, l0: seq<Notice<T>>, pool: set<uint64>,
                            pooled: seq<uint64>, slice: uint64, node: string)
      reads this`nodesBySlice, this`keysByHash, this`contentByKey, this`slicesByHash, this`empty
      reads this`notices, this`watchers
    {
      && t == Snapshot()
      && empty <= pool && Elems(pooled) == pool - empty && |pooled| + |empty| == |pool|
      && slicesByHash == Reassign(owners, Elems(pooled), slice)
      && notices == l0 + Stamped(PoolOps(t, pooled, node, false), watchers, filter)
    }

    /** One iteration of ring.go:350-361: position h moves from the pool to slice. */
    method PoolInStep(ghost t: Tables<T>, ghost owners: map<uint64, uint64>, ghost l0: seq<Notice<T>>,
                      ghost pool: set<uint64>, ghost pooled: seq<uint64>, slice: uint64, node: string, h: uint64)
      requires Pooling(t, owners, l0, pool, pooled, slice, node) && h in empty
      modifies this`slicesByHash, this`empty, this`notices
      ensures Pooling(t, owners, l0, pool, pooled + [h], slice, node)
      ensures |empty| < |old(empty)|
    {
      slicesByHash := slicesByHash[h := slice];
      NotifyKeys(t, Lookup(keysByHash, h, []), node, false);
      empty := empty - {h};
      DrawFromPool(pool, old(empty), pooled, h, owners, slice, l0, t, node, watchers, filter);
    }

    /** The last slice returns every position to the pool (ring.go:389-401), in ring order. */
    method PoolOut(ghost t: Tables<T>, slice: uint64)
      requires t == Snapshot()
      modifies this`empty, this`notices
      ensures empty == old(empty) + Elems(hashes)
      ensures Logged(old(notices), PoolOps(t, hashes, NodeOf(t, slice), true))
    {
      ghost var l0 := notices;
      var node := Lookup(nodesBySlice, slice, "");
      var i := 0;
      while i < |hashes|
        invariant i <= |hashes|
        invariant empty == old(empty) + Elems(hashes[..i])
        invariant notices == l0 + Stamped(PoolOps(t, hashes[..i], node, true), watchers, filter)
      {
        PoolOutStep(t, hashes[..i], l0, node, hashes[i]);
        assert hashes[..i] + [hashes[i]] == hashes[..i + 1];
        i := i + 1;
      }
      assert hashes[..i] == hashes;
    }

    /** One iteration of ring.go:390-401: position h returns to the pool. */
    method PoolOutStep(ghost t: Tables<T>, ghost done: seq<uint64>, ghost l0: seq<Notice<T>>, node: string, h: uint64)
      requires t == Snapshot()
      requires notices == l0 + Stamped(PoolOps(t, done, node, true), watchers, filter)
      modifies this`empty, this`notices
      ensures empty == old(empty) + {h}
      ensures Elems(done + [h]) == Elems(done) + {h}
      ensures notices == l0 + Stamped(PoolOps(t, done + [h], node, true), watchers, filter)
    {
      NotifyKeys(t, Lookup(keysByHash, h, []), node, true);
      empty := empty + {h};
      PoolLogSnoc(l0, t, done, h, node, true, watchers, filter);
      assert Elems(done + [h]) == Elems(done) + {h};
    }

    // -------------------------------------------------------- slice removal

    /**
      The tables after position slice left slice positions s0, with
      nodesBySlice n0, slicesByHash o0, pool p0, key tables t0 and log l0:
      it is gone from both slice tables, and the last slice returns every
      position to the pool, leaving the owner table as it was, while any
      other hands its arc to the previous slice.
     */
    ghost predicate SliceRemoved(slice: uint64, s0: seq<uint64>, n0: map<uint64, string>, o0: map<uint64, uint64>,
                                 p0: set<uint64>, t0: Tables<T>, l0: seq<Notice<T>>)
      reads this`slices, this`nodesBySlice, this`slicesByHash, this`empty, this`hashes
      reads this`notices, this`watchers
    {
      && slice in n0
      && slices == RemoveHash(s0, slice)
      && nodesBySlice == n0 - {slice}
      && (|s0| == 1 ==>
           && empty == Elems(hashes)
           && slicesByHash == o0
           && Logged(l0, PoolOps(t0, hashes, n0[slice], true)))
      && (|s0| > 1 ==>
           && FindIndex(s0, slice) < |s0|
           && empty == p0
           && slicesByHash == Reassign(o0, ArcHashes(hashes, slice, NextSlice(s0, slice)), PrevSlice(s0, slice))
           && Logged(l0, ConvertOps(t0, o0, ArcVisit(hashes, slice, NextSlice(s0, slice)), PrevSlice(s0, slice))))
    }

    /**
      removeSlice (ring.go:377-422): a no-op for an unknown position;
      otherwise the position leaves the ring (SliceRemoved).
     */
    method RemoveSlice(slice: uint64)
      requires Valid()
      modifies this`slices, this`nodesBySlice, this`slicesByHash, this`empty, this`notices
      ensures Valid()
      ensures old(Balanced()) ==> Balanced()
      ensures nodesBySlice == old(nodesBySlice) - {slice}
      ensures slice !in old(nodesBySlice) ==> unchanged(this)
      ensures slice in old(nodesBySlice) ==>
        SliceRemoved(slice, old(slices), old(nodesBySlice), old(slicesByHash), old(empty), old(Snapshot()), old(notices))
    {
      if slice !in nodesBySlice {
        return;
      }
      Detach(slice);
    }

    /** removeSlice for a known slice position: the last slice or another one (ring.go:386-421). */
    method Detach(slice: uint64)
      requires Valid() && slice in nodesBySlice
      modifies this`slices, this`nodesBySlice, this`slicesByHash, this`empty, this`notices
      ensures Valid()
      ensures old(Balanced()) ==> Balanced()
      ensures SliceRemoved(slice, old(slices), old(nodesBySlice), old(slicesByHash), old(empty), old(Snapshot()), old(notices))
    {
      ghost var placed := Balanced();
      if |slices| == 1 {
        RemoveLastSlice(slice);
      } else {
        RemoveInnerSlice(slice);
      }
      assert placed ==> Balanced();
      ValidOf();
    }

    /** removeSlice for the last slice (ring.go:389-401, 417-421): every position returns to the pool. */
    method RemoveLastSlice(slice: uint64)
      requires SlicesValid(slices, nodesBySlice) && PoolValid(slices, hashes, empty)
      requires slice in nodesBySlice && |slices| == 1
      modifies this`slices, this`nodesBySlice, this`empty, this`notices
      ensures SlicesValid(slices, nodesBySlice) && PoolValid(slices, hashes, empty)
      ensures Balanced()
      ensures SliceRemoved(slice, old(slices), old(nodesBySlice), old(slicesByHash), old(empty), old(Snapshot()), old(notices))
    {
      PoolOut(Snapshot(), slice);
      Unplace(slice);
    }

    /** removeSlice for any other slice (ring.go:402-421): its arc goes to the previous slice. */
    method RemoveInnerSlice(slice: uint64)
      requires SlicesValid(slices, nodesBySlice) && StrictlySorted(hashes)
      requires slice in nodesBySlice && |slices| > 1
      modifies this`slices, this`nodesBySlice, this`slicesByHash, this`notices
      ensures SlicesValid(slices, nodesBySlice)
      ensures old(Balanced()) ==> Balanced()
      ensures SliceRemoved(slice, old(slices), old(nodesBySlice), old(slicesByHash), old(empty), old(Snapshot()), old(notices))
    {
      ghost var placed, s0, o0, t := Balanced(), slices, slicesByHash, Snapshot();
      FindIndexPresent(slices, slice);
      GiveArc(t, slice);
      Unplace(slice);
      assert empty == old(empty) && hashes == old(hashes);
      if placed {
        RemoveKeepsPlacement(s0, hashes, empty, o0, slice);
      }
    }

    /** ring.go:403-414: a slice that is not the last hands the arc from it up to the next slice to the previous one. */
    method GiveArc(ghost t: Tables<T>, slice: uint64)
      requires t == Snapshot() && StrictlySorted(slices) && StrictlySorted(hashes) && |slices| > 1
      requires FindIndex(slices, slice) < |slices| && slices[FindIndex(slices, slice)] == slice
      modifies this`slicesByHash, this`notices
      ensures slicesByHash == Reassign(old(slicesByHash), ArcHashes(hashes, slice, NextSlice(slices, slice)), PrevSlice(slices, slice))
      ensures Logged(old(notices),
        ConvertOps(t, old(slicesByHash), ArcVisit(hashes, slice, NextSlice(slices, slice)), PrevSlice(slices, slice)))
    {
      var sliceIdx := FindIndex(slices, slice);
      var prev := slices[FindPrevIndex(slices, sliceIdx)];
      var next := slices[FindNextIndex(slices, sliceIdx)];
      assert next != slice;
      ArcVisitElems(hashes, slice, next);
      ConvertHashes(t, prev, FindIndex(hashes, slice), FindIndex(hashes, next), next < slice);
    }

    /** ring.go:417-421: the slice position leaves `slices` and `nodesBySlice`. */
    method Unplace(slice: uint64)
      requires SlicesValid(slices, nodesBySlice) && slice in nodesBySlice
      modifies this`slices, this`nodesBySlice
      ensures SlicesValid(slices, nodesBySlice)
      ensures slices == RemoveHash(old(slices), slice) && |slices| == |old(slices)| - 1
      ensures nodesBySlice == old(nodesBySlice) - {slice}
    {
      var sliceIdx := FindIndex(slices, slice);
      UnplaceValid(slices, nodesBySlice, slice);
      slices := RemoveIndex(slices, sliceIdx).0;
      nodesBySlice := nodesBySlice - {slice};
    }

    // ----------------------------------------------------------------- nodes

    /**
      The slice loop of CreateNode (ring.go:233-245) and of a growing
      UpdateNode (ring.go:285-292): insert slices lo up to hi of node id,
      stopping at the first position already taken. It succeeds exactly when
      the range is claimable; otherwise the slices before the taken one stay.
     */
    method InsertSlices(id: string, lo: int, hi: int) returns (err: Option<Error>, ghost stop: int)
      requires Valid()
      modifies this`slices, this`nodesBySlice, this`slicesByHash, this`empty, this`notices
      ensures Valid()
      ensures old(Balanced()) ==> Balanced()
      ensures err == None <==> Claimable(old(nodesBySlice), id, lo, hi)
      ensures err == None ==> nodesBySlice == Claim(old(nodesBySlice), SlicePositions(id, lo, hi), id)
      ensures err != None ==>
        && err == Some(SliceAlreadyExists) && lo <= stop < hi
        && nodesBySlice == Claim(old(nodesBySlice), SlicePositions(id, lo, stop), id)
        && PositionsFree(old(nodesBySlice), id, lo, stop)
        && SliceHash(id, stop) in nodesBySlice
    {
      ghost var n0, placed := nodesBySlice, Balanced();
      err, stop := None, lo;
      var idx := lo;
      while idx < hi
        invariant lo <= idx && (idx <= hi || idx == lo) && err == None
        invariant Claiming(n0, placed, id, lo, idx, hi)
        invariant PositionsFree(n0, id, lo, idx)
      {
        var next;
        err, next := ClaimNext(n0, placed, id, lo, idx, hi);
        if err != None {
          stop := idx;
          return;
        }
        PositionsFreeSnoc(n0, id, lo, idx);
        idx := next;
      }
      ClaimedAll(id, lo, idx, hi);
    }

    /** The ring stays valid (and balanced, if it was) while slices lo..idx-1 of node id are claimed. */
    ghost predicate Claiming(n0: map<uint64, string>, placed: bool, id: string, lo: int, idx: int, hi: int)
      reads this`slices, this`nodesBySlice, this`hashes, this`empty, this`slicesByHash
      reads this`keysByHash, this`hashesByKey, this`contentByKey
    {
      && Valid() && (placed ==> Balanced())
      && nodesBySlice == Claim(n0, SlicePositions(id, lo, idx), id)
      && Claimable(n0, id, lo, hi) == Claimable(nodesBySlice, id, idx, hi)
    }

    /** One iteration of ring.go:233-245: insert slice idx of node id, or find its position taken. */
    method ClaimNext(ghost n0: map<uint64, string>, ghost placed: bool, id: string, lo: int, idx: int, hi: int)
      returns (err: Option<Error>, next: int)
      requires Claiming(n0, placed, id, lo, idx, hi) && lo <= idx < hi
      modifies this`slices, this`nodesBySlice, this`slicesByHash, this`empty, this`notices
      ensures next == idx + 1
      ensures Valid() && (placed ==> Balanced())
      ensures err == None ==> Claiming(n0, placed, id, lo, next, hi)
      ensures err == None ==> SliceHash(id, idx) !in old(nodesBySlice)
      ensures err != None ==>
        && err == Some(SliceAlreadyExists) && !Claimable(n0, id, lo, hi)
        && nodesBySlice == old(nodesBySlice) && SliceHash(id, idx) in nodesBySlice
    {
      var slice := SliceHash(id, idx);
      ghost var pooled;
      err, pooled := InsertSlice(slice, id);
      next := idx + 1;
      if err == None {
        ClaimMapExtend(n0, id, lo, idx);
      }
    }

    /** The slice loop of DeleteNode (ring.go:261-263) and of a shrinking UpdateNode (ring.go:295-298). */
    method RemoveSlices(id: string, lo: int, hi: int)
      requires Valid()
      modifies this`slices, this`nodesBySlice, this`slicesByHash, this`empty, this`notices
      ensures Valid()
      ensures old(Balanced()) ==> Balanced()
      ensures nodesBySlice == old(nodesBySlice) - SlicePositions(id, lo, hi)
    {
      ghost var n0, placed := nodesBySlice, Balanced();
      var idx := lo;
      while idx < hi
        invariant lo <= idx && (idx <= hi || idx == lo)
        invariant Valid() && (placed ==> Balanced())
        invariant nodesBySlice == n0 - SlicePositions(id, lo, idx)
      {
        Unclaim(n0, id, lo, idx);
        idx := idx + 1;
      }
      assert SlicePositions(id, lo, idx) == SlicePositions(id, lo, hi);
    }

    /** One iteration of ring.go:261-263: remove slice idx of node id. */
    method Unclaim(ghost n0: map<uint64, string>, id: string, lo: int, idx: int)
      requires Valid() && lo <= idx && nodesBySlice == n0 - SlicePositions(id, lo, idx)
      modifies this`slices, this`nodesBySlice, this`slicesByHash, this`empty, this`notices
      ensures Valid() && (old(Balanced()) ==> Balanced())
      ensures nodesBySlice == n0 - SlicePositions(id, lo, idx + 1)
    {
      RemoveSlice(SliceHash(id, idx));
      SlicePositionsSnoc(id, lo, idx);
    }

    /**
      CreateNode (ring.go:222-248): refuse a known node; otherwise record its
      vFactor first and then insert its vFactor * baseVFactor slices, so that
      a taken slice position leaves the node recorded with the slices before
      it in place.
     */
    method CreateNode(node: Node) returns (err: Option<Error>)
      requires Valid()
      modifies this`vFactorByNode, this`slices, this`nodesBySlice, this`slicesByHash, this`empty, this`notices
      ensures Valid()
      ensures old(Balanced()) ==> Balanced()
      ensures node.identifier in old(vFactorByNode) ==> err == Some(NodeAlreadyExists) && unchanged(this)
      ensures node.identifier !in old(vFactorByNode) ==>
        && vFactorByNode == old(vFactorByNode)[node.identifier := node.vFactor]
        && (err == None <==> Claimable(old(nodesBySlice), node.identifier, 0, node.vFactor * baseVFactor))
        && (err == None ==>
             nodesBySlice == Claim(old(nodesBySlice), SlicePositions(node.identifier, 0, node.vFactor * baseVFactor), node.identifier))
        && (err != None ==>
             && err == Some(SliceAlreadyExists)
             && exists stop :: 0 <= stop < node.vFactor * baseVFactor
                  && nodesBySlice == Claim(old(nodesBySlice), SlicePositions(node.identifier, 0, stop), node.identifier)
                  && PositionsFree(old(nodesBySlice), node.identifier, 0, stop)
                  && SliceHash(node.identifier, stop) in nodesBySlice)
    {
      if node.identifier in vFactorByNode {
        return Some(NodeAlreadyExists);
      }
      vFactorByNode := vFactorByNode[node.identifier := node.vFactor];
      ghost var stop;
      err, stop := InsertSlices(node.identifier, 0, node.vFactor * baseVFactor);
    }

    /**
      DeleteNode (ring.go:252-268): a no-op for an unknown node; otherwise
      every position the node's slice names hash to leaves the ring, and so
      does the node's vFactor.
     */
    method DeleteNode(id: string)
      requires Valid()
      modifies this`vFactorByNode, this`slices, this`nodesBySlice, this`slicesByHash, this`empty, this`notices
      ensures Valid()
      ensures old(Balanced()) ==> Balanced()
      ensures id !in old(vFactorByNode) ==> unchanged(this)
      ensures id in old(vFactorByNode) ==>
        && vFactorByNode == old(vFactorByNode) - {id}
        && nodesBySlice == old(nodesBySlice) - SlicePositions(id, 0, old(vFactorByNode)[id] * baseVFactor)
    {
      if id !in vFactorByNode {
        return;
      }
      var vFactor := vFactorByNode[id];
      RemoveSlices(id, 0, vFactor * baseVFactor);
      vFactorByNode := vFactorByNode - {id};
    }

    /**
      UpdateNode (ring.go:272-303): refuse an unknown node; keep an unchanged
      vFactor; otherwise insert the slices from the old count up to the new
      one, or remove those from the new count up to the old one, and record
      the new vFactor. A taken position stops the insertion with
      SliceHashCollision, the inserted slices in place and the old vFactor
      still recorded.
     */
    method UpdateNode(node: Node) returns (err: Option<Error>)
      requires Valid()
      modifies this`vFactorByNode, this`slices, this`nodesBySlice, this`slicesByHash, this`empty, this`notices
      ensures Valid()
      ensures old(Balanced()) ==> Balanced()
      ensures node.identifier !in old(vFactorByNode) ==> err == Some(NodeNotFound) && unchanged(this)
      ensures node.identifier in old(vFactorByNode) && node.vFactor == old(vFactorByNode)[node.identifier] ==>
        err == None && unchanged(this)
      ensures node.identifier in old(vFactorByNode) && node.vFactor > old(vFactorByNode)[node.identifier] ==>
        var lo, hi := old(vFactorByNode)[node.identifier] * baseVFactor, node.vFactor * baseVFactor;
        && (err == None <==> Claimable(old(nodesBySlice), node.identifier, lo, hi))
        && (err == None ==>
             && vFactorByNode == old(vFactorByNode)[node.identifier := node.vFactor]
             && nodesBySlice == Claim(old(nodesBySlice), SlicePositions(node.identifier, lo, hi), node.identifier))
        && (err != None ==>
             && err == Some(SliceHashCollision) && vFactorByNode == old(vFactorByNode)
             && exists stop :: lo <= stop < hi
                  && nodesBySlice == Claim(old(nodesBySlice), SlicePositions(node.identifier, lo, stop), node.identifier)
                  && PositionsFree(old(nodesBySlice), node.identifier, lo, stop)
                  && SliceHash(node.identifier, stop) in nodesBySlice)
      ensures node.identifier in old(vFactorByNode) && node.vFactor < old(vFactorByNode)[node.identifier] ==>
        && err == None
        && vFactorByNode == old(vFactorByNode)[node.identifier := node.vFactor]
        && nodesBySlice == old(nodesBySlice)
             - SlicePositions(node.identifier, node.vFactor * baseVFactor, old(vFactorByNode)[node.identifier] * baseVFactor)
    {
      if node.identifier !in vFactorByNode {
        return Some(NodeNotFound);
      }
      var vFactor := vFactorByNode[node.identifier];
      if node.vFactor == vFactor {
        return None;
      }
      if node.vFactor > vFactor {
        var inserted;
        ghost var stop;
        inserted, stop := InsertSlices(node.identifier, vFactor * baseVFactor, node.vFactor * baseVFactor);
        if inserted == Some(SliceAlreadyExists) {
          return Some(SliceHashCollision);
        }
      } else {
        RemoveSlices(node.identifier, node.vFactor * baseVFactor, vFactor * baseVFactor);
      }
      vFactorByNode := vFactorByNode[node.identifier := node.vFactor];
      err := None;
    }

    /** GetNode (ring.go:306-318): the node with its vFactor, or NodeNotFound with Go's zero Node. */
    method GetNode(id: string) returns (node: Node, err: Option<Error>)
      ensures id in vFactorByNode ==> node == Node(id, vFactorByNode[id]) && err == None
      ensures id !in vFactorByNode ==> node == Node("", 0) && err == Some(NodeNotFound)
    {
      if id !in vFactorByNode {
        return Node("", 0), Some(NodeNotFound);
      }
      return Node(id, vFactorByNode[id]), None;
    }

    /** ListNodes (ring.go:321-331): every node identifier once, in map iteration order. */
    method ListNodes() returns (ids: seq<string>)
      ensures Distinct(ids) && Elems(ids) == vFactorByNode.Keys && |ids| == |vFactorByNode|
    {
      ids := [];
      var rest := vFactorByNode.Keys;
      while rest != {}
        invariant rest <= vFactorByNode.Keys
        invariant Distinct(ids) && Elems(ids) == vFactorByNode.Keys - rest
        invariant |ids| + |rest| == |vFactorByNode.Keys|
        decreases |rest|
      {
        var id :| id in rest;
        DistinctSnoc(ids, id);
        ids := ids + [id];
        rest := rest - {id};
      }
    }

    // ------------------------------------------------------------------ keys

    /**
      The tables after key k was emplaced at hash position h on top of hash
      positions hs0, pool p0, owner table o0, key tables kbh0, hbk0 and c0
      and log l0: the key is recorded everywhere and announced once, without
      a node while there is no slice and otherwise to the node of the slice
      before h, which becomes h's owner.
     */
    ghost predicate KeyPlaced(k: Key<T>, h: uint64, hs0: seq<uint64>, p0: set<uint64>, o0: map<uint64, uint64>,
                              kbh0: map<uint64, seq<InnerKey>>, hbk0: map<string, uint64>, c0: map<string, T>,
                              l0: seq<Notice<T>>)
      reads this`slices, this`nodesBySlice, this`hashes, this`empty, this`slicesByHash
      reads this`keysByHash, this`hashesByKey, this`contentByKey, this`notices, this`watchers
    {
      && contentByKey == c0[k.inner.key := k.value]
      && hashes == InsertHash(hs0, h)
      && keysByHash == kbh0[h := Inserted(Lookup(kbh0, h, []), k.inner)]
      && hashesByKey == hbk0[k.inner.key := h]
      && (|slices| == 0 ==>
           && empty == p0 + {h} && slicesByHash == o0
           && Told(l0, Op(k.inner.key, "", k.value, false, false, false)))
      && (|slices| > 0 ==>
           && empty == p0 && slicesByHash == o0[h := PrevSlice(slices, h)]
           && Told(l0, Op(k.inner.key, Lookup(nodesBySlice, PrevSlice(slices, h), ""), k.value, false, false, false)))
    }

    /**
      Emplace (ring.go:491-553): refuse a nil key and a known one; otherwise
      place it at the hash of its hash key (KeyPlaced). The ring stays
      balanced unless the hash position coincides with a slice position, in
      which case, with two or more slices, Emplace hands it to the slice
      before instead of the slice at it.
     */
    method Emplace(key: Option<Key<T>>, hk: seq<string>) returns (err: Option<Error>)
      requires Valid()
      modifies this`contentByKey, this`hashes, this`empty, this`slicesByHash, this`keysByHash, this`hashesByKey, this`notices
      ensures Valid()
      ensures key.None? ==> err == Some(NilKey) && unchanged(this)
      ensures key.Some? && key.value.inner.key in old(hashesByKey) ==> err == Some(KeyAlreadyExists) && unchanged(this)
      ensures key.Some? && key.value.inner.key !in old(hashesByKey) ==>
        && err == None
        && KeyPlaced(key.value, hash(HashKey(key.value.inner.key, hk)), old(hashes), old(empty), old(slicesByHash),
             old(keysByHash), old(hashesByKey), old(contentByKey), old(notices))
      ensures key.Some? && old(Balanced()) && hash(HashKey(key.value.inner.key, hk)) !in slices ==> Balanced()
      ensures key.Some? && key.value.inner.key !in old(hashesByKey) ==>
        |slices| > 1 && hash(HashKey(key.value.inner.key, hk)) in slices ==> !Balanced()
    {
      if key.None? {
        return Some(NilKey);
      }
      if key.value.inner.key in hashesByKey {
        return Some(KeyAlreadyExists);
      }
      PlaceKey(key.value, hash(HashKey(key.value.inner.key, hk)));
      err := None;
    }

    /** Emplace for a new key k at hash position h (ring.go:506-550). */
    method PlaceKey(k: Key<T>, h: uint64)
      requires Valid() && k.inner.key !in hashesByKey
      modifies this`contentByKey, this`hashes, this`empty, this`slicesByHash, this`keysByHash, this`hashesByKey, this`notices
      ensures Valid()
      ensures KeyPlaced(k, h, old(hashes), old(empty), old(slicesByHash), old(keysByHash), old(hashesByKey),
        old(contentByKey), old(notices))
      ensures old(Balanced()) && h !in slices ==> Balanced()
      ensures |slices| > 1 && h in slices ==> !Balanced()
    {
      EmplaceFacts(slices, hashes, empty, slicesByHash, keysByHash, hashesByKey, contentByKey, k.inner, k.value, h);
      StoreKey(k, h);
    }

    /** The table updates of ring.go:506-550, in the order Emplace makes them. */
    method StoreKey(k: Key<T>, h: uint64)
      modifies this`contentByKey, this`hashes, this`empty, this`slicesByHash, this`keysByHash, this`hashesByKey, this`notices
      ensures KeyPlaced(k, h, old(hashes), old(empty), old(slicesByHash), old(keysByHash), old(hashesByKey),
        old(contentByKey), old(notices))
    {
      EnterKey(k, h);
      ListKey(k, h);
    }

    /**
      ring.go:506-541: the payload is stored under the key's name, h joins
      the ring, and the key is announced (AnnounceKey).
     */
    method EnterKey(k: Key<T>, h: uint64)
      modifies this`contentByKey, this`hashes, this`empty, this`slicesByHash, this`notices
      ensures contentByKey == old(contentByKey)[k.inner.key := k.value] && hashes == InsertHash(old(hashes), h)
      ensures |slices| == 0 ==>
        && empty == old(empty) + {h} && slicesByHash == old(slicesByHash)
        && Told(old(notices), Op(k.inner.key, "", k.value, false, false, false))
      ensures |slices| > 0 ==>
        && empty == old(empty) && slicesByHash == old(slicesByHash)[h := PrevSlice(slices, h)]
        && Told(old(notices), Op(k.inner.key, Lookup(nodesBySlice, PrevSlice(slices, h), ""), k.value, false, false, false))
    {
      contentByKey := contentByKey[k.inner.key := k.value];
      hashes := InsertHash(hashes, h);
      AnnounceKey(k, h);
    }

    /** ring.go:543-550: the key joins the list at h in tie-break order, and its name maps to h. */
    method ListKey(k: Key<T>, h: uint64)
      modifies this`keysByHash, this`hashesByKey
      ensures keysByHash == old(keysByHash)[h := Inserted(Lookup(old(keysByHash), h, []), k.inner)]
      ensures hashesByKey == old(hashesByKey)[k.inner.key := h]
    {
      keysByHash := keysByHash[h := Inserted(Lookup(keysByHash, h, []), k.inner)];
      hashesByKey := hashesByKey[k.inner.key := h];
    }

    /**
      ring.go:522-541: with no slice the new position joins the pool and the
      key is announced without a node; otherwise the slice before it becomes
      its owner and the key is announced to that slice's node.
     */
    method AnnounceKey(k: Key<T>, h: uint64)
      modifies this`empty, this`slicesByHash, this`notices
      ensures |slices| == 0 ==>
        && empty == old(empty) + {h} && slicesByHash == old(slicesByHash)
        && Told(old(notices), Op(k.inner.key, "", k.value, false, false, false))
      ensures |slices| > 0 ==>
        && empty == old(empty) && slicesByHash == old(slicesByHash)[h := PrevSlice(slices, h)]
        && Told(old(notices), Op(k.inner.key, Lookup(nodesBySlice, PrevSlice(slices, h), ""), k.value, false, false, false))
    {
      if |slices| == 0 {
        empty := empty + {h};
        Notify(Op(k.inner.key, "", k.value, false, false, false));
      } else {
        var owner := slices[FindPrevIndex(slices, FindIndex(slices, h))];
        slicesByHash := slicesByHash[h := owner];
        Notify(Op(k.inner.key, Lookup(nodesBySlice, owner, ""), k.value, false, false, false));
      }
    }

    /**
      Update (ring.go:557-580): refuse a nil key and an unknown one;
      otherwise replace the payload and announce the update to the node the
      key's position is recorded with.
     */
    method Update(key: Option<Key<T>>) returns (err: Option<Error>)
      requires Valid()
      modifies this`contentByKey, this`notices
      ensures Valid()
      ensures key.None? ==> err == Some(NilKey) && unchanged(this)
      ensures key.Some? && key.value.inner.key !in old(contentByKey) ==> err == Some(KeyNotFound) && unchanged(this)
      ensures key.Some? && key.value.inner.key in old(contentByKey) ==>
        var name := key.value.inner.key;
        var node := Lookup(nodesBySlice, Lookup(slicesByHash, Lookup(hashesByKey, name, 0), 0), "");
        && err == None
        && contentByKey == old(contentByKey)[name := key.value.value]
        && Told(old(notices), Op(name, node, key.value.value, false, true, false))
    {
      if key.None? {
        return Some(NilKey);
      }
      var name := key.value.inner.key;
      if name !in contentByKey {
        return Some(KeyNotFound);
      }
      contentByKey := contentByKey[name := key.value.value];
      var node := Lookup(nodesBySlice, Lookup(slicesByHash, Lookup(hashesByKey, name, 0), 0), "");
      Notify(Op(name, node, key.value.value, false, true, false));
      err := None;
    }

    /**
      The tables after key name left hash position h, on top of hash
      positions hs0, pool p0, owner table o0, key tables kbh0, hbk0 and c0
      and log l0: the key is gone from every key table; the removal is
      announced without a node while the pool is not empty, and otherwise to
      the node of h's owner; the pool loses h whenever it is not empty; and h
      itself leaves the ring, with its owner entry, once its last key is gone.
     */
    ghost predicate KeyDropped(name: string, h: uint64, hs0: seq<uint64>, p0: set<uint64>, o0: map<uint64, uint64>,
                               kbh0: map<uint64, seq<InnerKey>>, hbk0: map<string, uint64>, c0: map<string, T>,
                               l0: seq<Notice<T>>)
      reads this`nodesBySlice, this`hashes, this`empty, this`slicesByHash
      reads this`keysByHash, this`hashesByKey, this`contentByKey, this`notices, this`watchers
    {
      var rest := Removed(Lookup(kbh0, h, []), name);
      && contentByKey == c0 - {name}
      && keysByHash == kbh0[h := rest]
      && hashesByKey == hbk0 - {name}
      && empty == (if |p0| > 0 then p0 - {h} else p0)
      && (|p0| > 0 ==> Told(l0, Op(name, "", zero, true, false, false)))
      && (|p0| == 0 ==> Told(l0, Op(name, Lookup(nodesBySlice, Lookup(o0, h, 0), ""), zero, true, false, false)))
      && hashes == (if rest == [] then RemoveHash(hs0, h) else hs0)
      && slicesByHash == (if rest == [] then o0 - {h} else o0)
    }

    /**
      Remove (ring.go:583-631): a no-op for an unknown key; otherwise the
      key leaves the ring (KeyDropped). The ring stays balanced while there
      are slices or once the position is retired; with no slice and other
      keys left at the position, the position leaves the pool although it
      stays on the ring.
     */
    method Remove(name: string)
      requires Valid()
      modifies this`contentByKey, this`hashes, this`empty, this`slicesByHash, this`keysByHash, this`hashesByKey, this`notices
      ensures Valid()
      ensures name !in old(hashesByKey) ==> unchanged(this)
      ensures name in old(hashesByKey) ==>
        KeyDropped(name, old(hashesByKey)[name], old(hashes), old(empty), old(slicesByHash),
          old(keysByHash), old(hashesByKey), old(contentByKey), old(notices))
      ensures name in old(hashesByKey) && old(Balanced()) && (|slices| > 0 || old(hashesByKey)[name] !in hashes) ==>
        Balanced()
      ensures name in old(hashesByKey) && old(Balanced()) && |slices| == 0 && old(hashesByKey)[name] in hashes ==>
        !Balanced()
    {
      if name !in hashesByKey {
        return;
      }
      DropKey(name);
    }

    /** Remove for a known key (ring.go:594-630). */
    method DropKey(name: string)
      requires Valid() && name in hashesByKey
      modifies this`contentByKey, this`hashes, this`empty, this`slicesByHash, this`keysByHash, this`hashesByKey, this`notices
      ensures Valid()
      ensures KeyDropped(name, old(hashesByKey)[name], old(hashes), old(empty), old(slicesByHash),
        old(keysByHash), old(hashesByKey), old(contentByKey), old(notices))
      ensures old(Balanced()) && (|slices| > 0 || old(hashesByKey)[name] !in hashes) ==> Balanced()
      ensures old(Balanced()) && |slices| == 0 && old(hashesByKey)[name] in hashes ==> !Balanced()
    {
      DropFacts(slices, hashes, empty, slicesByHash, keysByHash, hashesByKey, contentByKey, name);
      ForgetKey(name);
    }

    /** The table updates of ring.go:594-630, in the order Remove makes them. */
    method ForgetKey(name: string)
      requires name in hashesByKey
      modifies this`contentByKey, this`hashes, this`empty, this`slicesByHash, this`keysByHash, this`hashesByKey, this`notices
      ensures KeyDropped(name, old(hashesByKey)[name], old(hashes), old(empty), old(slicesByHash),
        old(keysByHash), old(hashesByKey), old(contentByKey), old(notices))
    {
      var h := hashesByKey[name];
      var rest := UnlistKey(name, h);
      AnnounceDrop(name, h);
      RetireKey(name, h, rest);
    }

    /** ring.go:594-601: the key's payload goes, and its entry leaves the list at its position. */
    method UnlistKey(name: string, h: uint64) returns (rest: seq<InnerKey>)
      modifies this`contentByKey, this`keysByHash
      ensures rest == Removed(Lookup(old(keysByHash), h, []), name)
      ensures contentByKey == old(contentByKey) - {name} && keysByHash == old(keysByHash)[h := rest]
    {
      contentByKey := contentByKey - {name};
      var list := Lookup(keysByHash, h, []);
      var idx := FindKeyByName(list, name);
      rest := RemoveIndex(list, idx).0;
      keysByHash := keysByHash[h := rest];
    }

    /** ring.go:620-630: a position left without keys leaves the ring and its owner entry; the key's hash entry goes. */
    method RetireKey(name: string, h: uint64, rest: seq<InnerKey>)
      modifies this`hashes, this`slicesByHash, this`hashesByKey
      ensures rest == [] ==> hashes == RemoveHash(old(hashes), h) && slicesByHash == old(slicesByHash) - {h}
      ensures rest != [] ==> hashes == old(hashes) && slicesByHash == old(slicesByHash)
      ensures hashesByKey == old(hashesByKey) - {name}
    {
      if |rest| == 0 {
        hashes := RemoveHash(hashes, h);
        slicesByHash := slicesByHash - {h};
      }
      hashesByKey := hashesByKey - {name};
    }

    /**
      The pool update and notification of ring.go:603-618: with a pool, h
      leaves it and the removal is announced without a node; otherwise the
      removal is announced to the node of the slice recorded for h.
     */
    method AnnounceDrop(name: string, h: uint64)
      modifies this`empty, this`notices
      ensures |old(empty)| > 0 ==> empty == old(empty) - {h} && Told(old(notices), Op(name, "", zero, true, false, false))
      ensures |old(empty)| == 0 ==>
        empty == old(empty) && Told(old(notices), Op(name, Lookup(nodesBySlice, Lookup(slicesByHash, h, 0), ""), zero, true, false, false))
    {
      if |empty| > 0 {
        empty := empty - {h};
        Notify(Op(name, "", zero, true, false, false));
      } else {
        Notify(Op(name, Lookup(nodesBySlice, Lookup(slicesByHash, h, 0), ""), zero, true, false, false));
      }
    }
  }
}
