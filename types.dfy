/**
  Values shared by the ring: 64-bit positions, the closed set of errors the
  ring returns, the notification record and the node and key records.
 */
module RingTypes {

  const UINT64_LIMIT: int := 0x1_0000_0000_0000_0000

  /** A position on the ring: a slice position or a key's hash position. */
  type uint64 = x: int | 0 <= x < UINT64_LIMIT

  /** The ring's error values (errors.go), one constructor per variable. */
  datatype Error =
    | InvalidBaseVFactor
    | NodeNotFound
    | SliceHashCollision
    | OutOfBounds
    | KeyAlreadyExists
    | NilKey
    | KeyNotFound
    | NodeAlreadyExists
    | SliceAlreadyExists

  /** The text each error carries (errors.go:7-35). */
  function Message(e: Error): string {
    match e
    case InvalidBaseVFactor => "base vFactor for ring hash cannot be less than one"
    case NodeNotFound => "the node with this identifier could not be found"
    case SliceHashCollision => "a slice hash collision occurred"
    case OutOfBounds => "attempted to remove index out of bounds"
    case KeyAlreadyExists => "key with this identifier already exists"
    case NilKey => "key cannot be nil"
    case KeyNotFound => "key with this identifier could not be found"
    case NodeAlreadyExists => "node with this identifier already exists"
    case SliceAlreadyExists => "slice with this identifier already exists"
  }

  /** An optional value; `None` stands for a Go nil `*Key` or a nil error. */
  datatype Option<+A> = None | Some(value: A)

  /** A change notification: a key moving to, leaving or being updated on a node. */
  datatype Op<T> = Op(
    key: string,
    node: string,
    payload: T,
    removed: bool,
    updated: bool,
    ringChange: bool)

  /** A ring member and its virtual-slice multiplier. */
  datatype Node = Node(identifier: string, vFactor: int)

  /** A key's identity and its tie-break among keys sharing a hash position. */
  datatype InnerKey = InnerKey(key: string, order: int)

  /** A key with its payload; the ring stores the payload and never looks inside it. */
  datatype Key<T> = Key(inner: InnerKey, value: T)

  /** One handed-over notification: the channel it went to and the op itself. */
  datatype Delivery<T> = Delivery(channel: nat, op: Op<T>)

  /** The read-only view the ring exposes for introspection. */
  datatype StateView = StateView(
    nodesBySlice: map<uint64, string>,
    slicesByHash: map<uint64, uint64>,
    hashesByKey: map<string, uint64>)

  /** Go's map index expression: the stored value, or the zero value when absent. */
  function Lookup<K, V>(m: map<K, V>, k: K, zero: V): V {
    if k in m then m[k] else zero
  }

  /** The elements of a sequence, as a set. */
  function Elems<A>(s: seq<A>): set<A> {
    set x | x in s
  }

  /**
    h is one of the hash positions: membership written as a call, so that
    an invariant quantifying over it fires only where a proof names the
    position it is about.
   */
  ghost predicate OnRing(hashes: seq<uint64>, h: uint64) {
    h in hashes
  }

  /** No element occurs twice. */
  ghost predicate Distinct<A>(s: seq<A>) {
    forall i, j :: 0 <= i < j < |s| ==> s[i] != s[j]
  }

  /** Appending an element not yet present keeps a sequence duplicate-free. */
  lemma DistinctSnoc<A>(s: seq<A>, x: A)
    requires Distinct(s) && x !in Elems(s)
    ensures Distinct(s + [x]) && Elems(s + [x]) == Elems(s) + {x}
  {
    assert forall i :: 0 <= i < |s| ==> (s + [x])[i] == s[i];
  }

  /** A sequence has at least as many elements as distinct values, and exactly as many only without repetition. */
  lemma {:induction false} CountedIsDistinct<A>(s: seq<A>)
    ensures |Elems(s)| <= |s|
    ensures |Elems(s)| == |s| ==> Distinct(s)
  {
    if s != [] {
      var init, x := s[..|s| - 1], s[|s| - 1];
      CountedIsDistinct(init);
      assert s == init + [x];
      assert Elems(s) == Elems(init) + {x};
      if x !in Elems(init) && |Elems(s)| == |s| {
        assert forall i :: 0 <= i < |init| ==> s[i] == init[i];
      }
    }
  }
}
