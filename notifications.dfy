/**
  The notifications the ring emits, as sequences of ops (ring.go:137-152,
  352-359, 391-399, 461-485), and how notify routes each op to at most one
  registered watcher. The ring's methods are proved to emit exactly these
  sequences; this module proves what the sequences contain.
 */
module Notifications {
  import opened RingTypes
  import opened Ownership
  import opened OrderedIndex
  import opened KeyTables

  /** The ring tables an op is built from; none of them changes while ops are emitted. */
  datatype Tables<T> = Tables(
    nodesBySlice: map<uint64, string>,
    keysByHash: map<uint64, seq<InnerKey>>,
    contentByKey: map<string, T>,
    zero: T)

  /** The keys stored at hash position h (nil, i.e. none, when absent). */
  function KeysAt<T>(t: Tables<T>, h: uint64): seq<InnerKey> {
    Lookup(t.keysByHash, h, [])
  }

  /** The node of a slice position ("" when absent). */
  function NodeOf<T>(t: Tables<T>, slice: uint64): string {
    Lookup(t.nodesBySlice, slice, "")
  }

  /** The ring-change op for one key arriving on (removed false) or leaving (removed true) a node. */
  function ChangeOp<T>(t: Tables<T>, k: InnerKey, node: string, removed: bool): Op<T> {
    Op(k.key, node, Lookup(t.contentByKey, k.key, t.zero), removed, false, true)
  }

  /** The per-key notify loop: one ring-change op per key, in list order. */
  function RingChangeOps<T>(t: Tables<T>, keys: seq<InnerKey>, node: string, removed: bool): (ops: seq<Op<T>>)
    ensures |ops| == |keys|
    ensures forall i :: 0 <= i < |keys| ==> ops[i] == ChangeOp(t, keys[i], node, removed)
  {
    seq(|keys|, i requires 0 <= i < |keys| => ChangeOp(t, keys[i], node, removed))
  }

  /** convertHash(slice, h) with owner table `owners`: removals naming the old owner's node, then additions naming slice's node. */
  function ConvertHashOps<T>(t: Tables<T>, owners: map<uint64, uint64>, h: uint64, slice: uint64): seq<Op<T>> {
    RingChangeOps(t, KeysAt(t, h), NodeOf(t, Lookup(owners, h, 0)), true)
      + RingChangeOps(t, KeysAt(t, h), NodeOf(t, slice), false)
  }

  /** convertHashes over the positions hs in visiting order; each step sees the owners the earlier steps left. */
  function ConvertOps<T>(t: Tables<T>, owners: map<uint64, uint64>, hs: seq<uint64>, slice: uint64): seq<Op<T>>
    decreases |hs|
  {
    if hs == [] then []
    else ConvertHashOps(t, owners, hs[0], slice) + ConvertOps(t, owners[hs[0] := slice], hs[1..], slice)
  }

  /** The pool transitions: every key of every position in hs moved onto (or off) one node, position by position. */
  function PoolOps<T>(t: Tables<T>, hs: seq<uint64>, node: string, removed: bool): seq<Op<T>>
    decreases |hs|
  {
    if hs == [] then []
    else RingChangeOps(t, KeysAt(t, hs[0]), node, removed) + PoolOps(t, hs[1..], node, removed)
  }

  /** The names of a key list, in list order. */
  function Names(keys: seq<InnerKey>): (names: seq<string>)
    ensures |names| == |keys|
    ensures forall i :: 0 <= i < |keys| ==> names[i] == keys[i].key
  {
    seq(|keys|, i requires 0 <= i < |keys| => keys[i].key)
  }

  /** The names of the keys stored at the positions hs, position by position in the order of hs. */
  function KeysOf<T>(t: Tables<T>, hs: seq<uint64>): seq<string>
    decreases |hs|
  {
    if hs == [] then [] else Names(KeysAt(t, hs[0])) + KeysOf(t, hs[1..])
  }

  /** The keys that removal ops name, in emission order. */
  function RemovedKeys<T>(ops: seq<Op<T>>): seq<string>
    decreases |ops|
  {
    if ops == [] then [] else (if ops[0].removed then [ops[0].key] else []) + RemovedKeys(ops[1..])
  }

  /** The keys that non-removal ops name, in emission order. */
  function AddedKeys<T>(ops: seq<Op<T>>): seq<string>
    decreases |ops|
  {
    if ops == [] then [] else (if ops[0].removed then [] else [ops[0].key]) + AddedKeys(ops[1..])
  }

  /**
    One notify call as the ring records it: the op, and the channel it was
    handed to, or None when it was dropped for want of a registered watcher.
   */
  datatype Notice<T> = Notice(op: Op<T>, channel: Option<nat>)

  /** notify's routing (ring.go:139-151): the channel registered under filter(op), if there is one. */
  function Stamp<T>(op: Op<T>, watchers: map<string, nat>, filter: Op<T> -> string): Notice<T> {
    Notice(op, if filter(op) in watchers then Some(watchers[filter(op)]) else None)
  }

  /** A sequence of notify calls with one registry. */
  function Stamped<T>(ops: seq<Op<T>>, watchers: map<string, nat>, filter: Op<T> -> string): (r: seq<Notice<T>>)
    ensures |r| == |ops|
    ensures forall i :: 0 <= i < |ops| ==> r[i] == Stamp(ops[i], watchers, filter)
  {
    seq(|ops|, i requires 0 <= i < |ops| => Stamp(ops[i], watchers, filter))
  }

  /** The ops of a log, in call order. */
  function Emitted<T>(log: seq<Notice<T>>): (ops: seq<Op<T>>)
    ensures |ops| == |log|
    ensures forall i :: 0 <= i < |log| ==> ops[i] == log[i].op
  {
    seq(|log|, i requires 0 <= i < |log| => log[i].op)
  }

  /** The deliveries of a log: each op handed to a channel, with that channel, in call order. */
  function Delivered<T>(log: seq<Notice<T>>): seq<Delivery<T>>
    decreases |log|
  {
    if log == [] then []
    else
      (if log[0].channel.Some? then [Delivery(log[0].channel.value, log[0].op)] else [])
        + Delivered(log[1..])
  }

  /** Stamping a concatenation stamps each part. */
  lemma StampedAppend<T>(a: seq<Op<T>>, b: seq<Op<T>>, watchers: map<string, nat>, filter: Op<T> -> string)
    ensures Stamped(a + b, watchers, filter) == Stamped(a, watchers, filter) + Stamped(b, watchers, filter)
  {
    var l, r := Stamped(a + b, watchers, filter), Stamped(a, watchers, filter) + Stamped(b, watchers, filter);
    assert |l| == |r|;
    forall i | 0 <= i < |l|
      ensures l[i] == r[i]
    {
      if i < |a| {
        assert (a + b)[i] == a[i];
      } else {
        assert (a + b)[i] == b[i - |a|];
      }
    }
  }

  /** Logging a then b leaves the log that logging a + b does. */
  lemma LogChain<T>(l0: seq<Notice<T>>, a: seq<Op<T>>, b: seq<Op<T>>, watchers: map<string, nat>, filter: Op<T> -> string)
    ensures l0 + Stamped(a, watchers, filter) + Stamped(b, watchers, filter) == l0 + Stamped(a + b, watchers, filter)
  {
    StampedAppend(a, b, watchers, filter);
  }

  /** The log records exactly the ops notify was called with. */
  lemma EmittedStamped<T>(ops: seq<Op<T>>, watchers: map<string, nat>, filter: Op<T> -> string)
    ensures Emitted(Stamped(ops, watchers, filter)) == ops
  {
  }

  /**
    notify delivers exactly the ops whose filter key is registered, each to
    the channel registered under that key, and drops every other op.
   */
  lemma {:induction false} DeliveredStamped<T>(ops: seq<Op<T>>, watchers: map<string, nat>, filter: Op<T> -> string)
    ensures |Delivered(Stamped(ops, watchers, filter))| <= |ops|
    ensures forall d :: d in Delivered(Stamped(ops, watchers, filter)) <==>
      exists i :: 0 <= i < |ops| && filter(ops[i]) in watchers && d == Delivery(watchers[filter(ops[i])], ops[i])
    decreases |ops|
  {
    if ops != [] {
      var log := Stamped(ops, watchers, filter);
      var rest := ops[1..];
      assert log[1..] == Stamped(rest, watchers, filter);
      DeliveredStamped(rest, watchers, filter);
      var head := if filter(ops[0]) in watchers then [Delivery(watchers[filter(ops[0])], ops[0])] else [];
      assert Delivered(log) == head + Delivered(Stamped(rest, watchers, filter));
      forall d
        ensures d in Delivered(log) <==>
          exists i :: 0 <= i < |ops| && filter(ops[i]) in watchers && d == Delivery(watchers[filter(ops[i])], ops[i])
      {
        if d in Delivered(Stamped(rest, watchers, filter)) {
          var i :| 0 <= i < |rest| && filter(rest[i]) in watchers && d == Delivery(watchers[filter(rest[i])], rest[i]);
          assert ops[i + 1] == rest[i];
        }
        if exists i :: 0 <= i < |ops| && filter(ops[i]) in watchers && d == Delivery(watchers[filter(ops[i])], ops[i]) {
          var i :| 0 <= i < |ops| && filter(ops[i]) in watchers && d == Delivery(watchers[filter(ops[i])], ops[i]);
          if i > 0 {
            assert rest[i - 1] == ops[i];
          }
        }
      }
    }
  }

  /**
    convertHash emits, for every key at h in list order, a removal naming
    the old owner's node and then, for every key again in the same order,
    an addition naming the new slice's node.
   */
  lemma ConvertHashOpsShape<T>(t: Tables<T>, owners: map<uint64, uint64>, h: uint64, slice: uint64)
    ensures |ConvertHashOps(t, owners, h, slice)| == 2 * |KeysAt(t, h)|
    ensures forall i :: 0 <= i < |KeysAt(t, h)| ==>
      ConvertHashOps(t, owners, h, slice)[i] == ChangeOp(t, KeysAt(t, h)[i], NodeOf(t, Lookup(owners, h, 0)), true)
    ensures forall i :: 0 <= i < |KeysAt(t, h)| ==>
      ConvertHashOps(t, owners, h, slice)[|KeysAt(t, h)| + i] == ChangeOp(t, KeysAt(t, h)[i], NodeOf(t, slice), false)
  {
  }

  /**
    With valid key lists, convertHash names the keys at h in ascending
    Order: the list is ordered, and the i-th removal and the i-th addition
    both name its i-th key.
   */
  lemma ConvertHashOpsOrdered<T>(t: Tables<T>, owners: map<uint64, uint64>, h: uint64, slice: uint64,
                                 hashesByKey: map<string, uint64>)
    requires ListsValid(t.keysByHash, hashesByKey)
    ensures OrderSorted(KeysAt(t, h))
    ensures var keys, ops := KeysAt(t, h), ConvertHashOps(t, owners, h, slice);
      && |ops| == 2 * |keys|
      && (forall i :: 0 <= i < |keys| ==> ops[i].key == keys[i].key && ops[i].removed)
      && (forall i :: 0 <= i < |keys| ==> ops[|keys| + i].key == keys[i].key && !ops[|keys| + i].removed)
  {
    if h in t.keysByHash {
      assert Stored(t.keysByHash, h);
    }
    ConvertHashOpsShape(t, owners, h, slice);
  }

  /** The removals and the additions of two op sequences in a row are those of the first, then those of the second. */
  lemma RemovedAppend<T>(a: seq<Op<T>>, b: seq<Op<T>>)
    ensures RemovedKeys(a + b) == RemovedKeys(a) + RemovedKeys(b)
    ensures AddedKeys(a + b) == AddedKeys(a) + AddedKeys(b)
  {
    RemovedKeysAppend(a, b);
    AddedKeysAppend(a, b);
  }

  lemma {:induction false} RemovedKeysAppend<T>(a: seq<Op<T>>, b: seq<Op<T>>)
    ensures RemovedKeys(a + b) == RemovedKeys(a) + RemovedKeys(b)
    decreases |a|
  {
    if a == [] {
      assert a + b == b;
    } else {
      RemovedKeysAppend(a[1..], b);
      var h := if a[0].removed then [a[0].key] else [];
      assert (a + b)[0] == a[0];
      assert (a + b)[1..] == a[1..] + b;
      assert RemovedKeys(a + b) == h + (RemovedKeys(a[1..]) + RemovedKeys(b));
      assert h + (RemovedKeys(a[1..]) + RemovedKeys(b)) == (h + RemovedKeys(a[1..])) + RemovedKeys(b);
    }
  }

  lemma {:induction false} AddedKeysAppend<T>(a: seq<Op<T>>, b: seq<Op<T>>)
    ensures AddedKeys(a + b) == AddedKeys(a) + AddedKeys(b)
    decreases |a|
  {
    if a == [] {
      assert a + b == b;
    } else {
      AddedKeysAppend(a[1..], b);
      var h := if a[0].removed then [] else [a[0].key];
      assert (a + b)[0] == a[0];
      assert (a + b)[1..] == a[1..] + b;
      assert AddedKeys(a + b) == h + (AddedKeys(a[1..]) + AddedKeys(b));
      assert h + (AddedKeys(a[1..]) + AddedKeys(b)) == (h + AddedKeys(a[1..])) + AddedKeys(b);
    }
  }

  /** The per-key loop names every key of the list once, all as removals or all as additions. */
  lemma {:induction false} RingChangeOpsKeys<T>(t: Tables<T>, keys: seq<InnerKey>, node: string, removed: bool)
    ensures RemovedKeys(RingChangeOps(t, keys, node, removed)) == (if removed then Names(keys) else [])
    ensures AddedKeys(RingChangeOps(t, keys, node, removed)) == (if removed then [] else Names(keys))
    decreases |keys|
  {
    if keys != [] {
      var ops := RingChangeOps(t, keys, node, removed);
      RingChangeOpsKeys(t, keys[1..], node, removed);
      assert ops[1..] == RingChangeOps(t, keys[1..], node, removed);
      assert Names(keys) == [keys[0].key] + Names(keys[1..]);
    }
  }

  /** One convertHash names every key at h once as a removal and once as an addition. */
  lemma ConvertHashOpsKeys<T>(t: Tables<T>, owners: map<uint64, uint64>, h: uint64, slice: uint64)
    ensures RemovedKeys(ConvertHashOps(t, owners, h, slice)) == Names(KeysAt(t, h))
    ensures AddedKeys(ConvertHashOps(t, owners, h, slice)) == Names(KeysAt(t, h))
  {
    var a := RingChangeOps(t, KeysAt(t, h), NodeOf(t, Lookup(owners, h, 0)), true);
    var b := RingChangeOps(t, KeysAt(t, h), NodeOf(t, slice), false);
    RingChangeOpsKeys(t, KeysAt(t, h), NodeOf(t, Lookup(owners, h, 0)), true);
    RingChangeOpsKeys(t, KeysAt(t, h), NodeOf(t, slice), false);
    RemovedAppend(a, b);
  }

  /**
    Reassignment is balanced: over the positions convertHashes visits, every
    key is announced removed exactly once and added exactly once, position
    by position in visiting order.
   */
  lemma {:induction false} ConvertOpsBalanced<T>(t: Tables<T>, owners: map<uint64, uint64>, hs: seq<uint64>, slice: uint64)
    ensures RemovedKeys(ConvertOps(t, owners, hs, slice)) == KeysOf(t, hs)
    ensures AddedKeys(ConvertOps(t, owners, hs, slice)) == KeysOf(t, hs)
    decreases |hs|
  {
    if hs != [] {
      var o := owners[hs[0] := slice];
      ConvertOpsBalanced(t, o, hs[1..], slice);
      ConvertHashOpsKeys(t, owners, hs[0], slice);
      RemovedAppend(ConvertHashOps(t, owners, hs[0], slice), ConvertOps(t, o, hs[1..], slice));
    }
  }

  /** Every op of one convertHash is a ring change, and every addition names the new slice's node. */
  lemma ConvertHashOpsTarget<T>(t: Tables<T>, owners: map<uint64, uint64>, h: uint64, slice: uint64)
    ensures forall op :: op in ConvertHashOps(t, owners, h, slice) ==>
      op.ringChange && !op.updated && (!op.removed ==> op.node == NodeOf(t, slice))
  {
    var keys := KeysAt(t, h);
    var ops := ConvertHashOps(t, owners, h, slice);
    ConvertHashOpsShape(t, owners, h, slice);
    forall op | op in ops
      ensures op.ringChange && !op.updated && (!op.removed ==> op.node == NodeOf(t, slice))
    {
      var i :| 0 <= i < |ops| && ops[i] == op;
      if i >= |keys| {
        assert ops[|keys| + (i - |keys|)] == op;
      }
    }
  }

  /**
    Every op of a reassignment is a ring change, never an update, and every
    addition names the node of the slice that takes the positions.
   */
  lemma {:induction false} ConvertOpsTarget<T>(t: Tables<T>, owners: map<uint64, uint64>, hs: seq<uint64>, slice: uint64)
    ensures forall op :: op in ConvertOps(t, owners, hs, slice) ==>
      op.ringChange && !op.updated && (!op.removed ==> op.node == NodeOf(t, slice))
    decreases |hs|
  {
    if hs != [] {
      var o := owners[hs[0] := slice];
      ConvertOpsTarget(t, o, hs[1..], slice);
      ConvertHashOpsTarget(t, owners, hs[0], slice);
    }
  }

  /**
    The pool transitions name every key of the pooled positions once, all as
    removals or all as additions, and every op names the given node.
   */
  lemma {:induction false} PoolOpsSpec<T>(t: Tables<T>, hs: seq<uint64>, node: string, removed: bool)
    ensures RemovedKeys(PoolOps(t, hs, node, removed)) == (if removed then KeysOf(t, hs) else [])
    ensures AddedKeys(PoolOps(t, hs, node, removed)) == (if removed then [] else KeysOf(t, hs))
    ensures forall op :: op in PoolOps(t, hs, node, removed) ==>
      op.node == node && op.removed == removed && op.ringChange && !op.updated
    decreases |hs|
  {
    if hs != [] {
      var keys := KeysAt(t, hs[0]);
      PoolOpsSpec(t, hs[1..], node, removed);
      RingChangeOpsKeys(t, keys, node, removed);
      RemovedAppend(RingChangeOps(t, keys, node, removed), PoolOps(t, hs[1..], node, removed));
    }
  }

  /** One more pooled position appends its keys' ops. */
  lemma {:induction false} PoolOpsSnoc<T>(t: Tables<T>, hs: seq<uint64>, h: uint64, node: string, removed: bool)
    ensures PoolOps(t, hs + [h], node, removed) == PoolOps(t, hs, node, removed) + RingChangeOps(t, KeysAt(t, h), node, removed)
    decreases |hs|
  {
    if hs == [] {
      assert [h][1..] == [];
    } else {
      assert (hs + [h])[1..] == hs[1..] + [h];
      PoolOpsSnoc(t, hs[1..], h, node, removed);
    }
  }

  /** Logging one more position's ops after the pool ops of hs leaves the log of the pool ops of hs + [h]. */
  lemma PoolLogSnoc<T>(l0: seq<Notice<T>>, t: Tables<T>, hs: seq<uint64>, h: uint64, node: string, removed: bool,
                       watchers: map<string, nat>, filter: Op<T> -> string)
    ensures l0 + Stamped(PoolOps(t, hs, node, removed), watchers, filter)
              + Stamped(RingChangeOps(t, KeysAt(t, h), node, removed), watchers, filter)
            == l0 + Stamped(PoolOps(t, hs + [h], node, removed), watchers, filter)
  {
    PoolOpsSnoc(t, hs, h, node, removed);
    LogChain(l0, PoolOps(t, hs, node, removed), RingChangeOps(t, KeysAt(t, h), node, removed), watchers, filter);
  }
}
