# ringhash: a verified model of the consistent-hash ring

This project models the `Ring[T]` of the ringhash Go package (`ring.go`, with the
error values of `errors.go`) and proves properties of the model.

## The model

In the ring, nodes own virtual *slices*: positions on a 64-bit circle, at
`Hash(ToSliceName(node, i))` for `i < vFactor * BaseVFactor`. Keys sit at
*hash positions* on the same circle. A hash position belongs to a slice,
and through it to a node. When slices come and go, the positions they cover
move between slices. Every move is announced to the watchers registered for
the node concerned.

The modules are:

- `RingTypes` (`types.dfy`) holds the values:
  - positions, as the subset type `uint64`;
  - the closed set of errors, as the datatype `Error`, with the text each one carries;
  - the records `Op`, `Node`, `InnerKey` and `Key`, and the `State` view.
- `OrderedIndex` (`ordered_index.dfy`) holds the pure helpers on sorted sequences:
  - `findIndex`, `findKeyIndex`, `findPrevIndex`, `findNextIndex`,
    `insertPreserveOrder`, `removeIndex`, `insertHash`, `removeHash`, `findKeyByName`;
  - `sort.Search`, as a binary-search function.
- `Circular` (`circular.dfy`) holds the wrapping index walk of `convertHashes`
  and its reference definition, the circular range `[start, end)`.
- `Ownership` (`ownership.dfy`) holds the reference definition of ownership and
  the lemmas that `insertSlice`, `removeSlice`, `Emplace` and `Remove` keep it.
  The owner of a position is the largest slice position at or below it, wrapping
  around past the top.
- `KeyTables` (`key_tables.dfy`) holds the consistency invariant of the key
  tables (`keysByHash`, `hashesByKey`, `contentByKey`, `hashes`) and the lemmas
  that `Emplace` and `Remove` keep it.
- `Notifications` (`notifications.dfy`) describes, as functions, the sequence of
  ops that each loop of `notify` calls produces. It also describes how `notify`
  routes an op through the watcher registry.
- `RingModel` (`ring.dfy`) holds the class `Ring` itself. Its fields are those
  of the Go struct and are updated in place by methods with loop invariants:
  - the sorted `slices` and `hashes` sequences;
  - the `empty` pool, as a set;
  - the node, owner and key tables, as maps.

The injected functions `Hash`, `ToSliceName` and `Filter` are constant fields of
arbitrary function type, fixed at construction.

The watcher registry maps each filter value to a channel number. Every `notify`
call is appended to a log, `notices`. Each entry records the op and the channel
it is handed to; the channel is absent when nobody is registered under
`Filter(op)`.

`Valid()` is the invariant every exported method keeps:

- slices are sorted and match `nodesBySlice`;
- hashes are sorted;
- the pool holds ring hashes, and only while there are no slices;
- the key tables agree.

`Balanced()` is the stronger invariant that every ring hash is owned by its
reference owner. It holds while there are no slices, with all positions in the
pool instead. Every slice operation keeps it. Two quirks of the source break it,
and the model reproduces both and exhibits them as lemmas:

- `Emplace` at a position that coincides with a slice position, when there are
  at least two slices (with one slice, the previous slice is that slice itself);
- `Remove` while the pool is in use, when other keys still share the removed
  key's position (the position leaves the pool although it stays on the ring).

## Model

| member | source | states |
|---|---|---|
| OrderedIndex.Search | ring.go:664-667 | `sort.Search`: the result lies in `[lo, hi]`; the predicate holds there (unless it is `hi`) and fails just before (unless it is `lo`), so for a predicate that stays true once true it is the first index where it holds |
| OrderedIndex.FindIndex | ring.go:664-667 | the index of the first element at or above `val`, or `len(arr)`; on a sorted array, exactly the elements below `val` lie before it |
| OrderedIndex.FindKeyIndex | ring.go:647-652 | the index of the first key whose `Order` is at or above the new key's; on an ordered list, exactly the keys with a smaller `Order` lie before it |
| OrderedIndex.FindPrevIndex | ring.go:669-676 | for a valid index, the circular predecessor, `(idx - 1) mod len` |
| OrderedIndex.FindNextIndex | ring.go:678-684 | for a valid index, the circular successor, `(idx + 1) mod len` |
| OrderedIndex.PrevNextInverse | ring.go:669-684 | the circular predecessor and successor undo each other |
| OrderedIndex.InsertPreserveOrder | ring.go:686-699 | returns the index the finder chose, and the array with `val` spliced in there and every other element kept in order |
| OrderedIndex.RemoveIndex | ring.go:701-709 | empty input gives an empty result and no error; an index outside `[0, len)` gives the input unchanged with `OutOfBounds`; otherwise the element at `idx` is dropped and the rest shift down |
| OrderedIndex.RemoveAfterInsert | ring.go:686-709 | removing at the index where `insertPreserveOrder` inserted gives back the original array, with no error |
| OrderedIndex.InsertKeepsStrictlySorted | ring.go:633-638 | splicing a value in between the smaller and the larger elements keeps a sequence strictly ascending |
| OrderedIndex.RemoveKeepsStrictlySorted | ring.go:640-645 | removing any index of a strictly ascending sequence keeps it strictly ascending and drops exactly that value |
| OrderedIndex.FindIndexAt | ring.go:664-667 | in a strictly ascending sequence, `findIndex` of a member is that member's own index |
| OrderedIndex.InsertHash | ring.go:633-638 | keeps `hashes` strictly ascending and adds exactly `h`; inserting a present hash is a no-op |
| OrderedIndex.RemoveHash | ring.go:640-645 | keeps `hashes` strictly ascending and removes exactly `h`; removing an absent hash is a no-op |
| OrderedIndex.HashRoundTrip | ring.go:633-645 | removing a freshly inserted hash, or re-inserting a removed one, restores the sequence |
| OrderedIndex.StrictlySortedUnique | ring.go:633-645 | a strictly ascending sequence is determined by its set of elements |
| OrderedIndex.InsertKeyOrdered | ring.go:543-547 | inserting a key keeps the list ordered by `Order`; all keys before it have a smaller `Order`, so it goes before existing keys with an equal one |
| OrderedIndex.NamedIndex | ring.go:654-662 | `-1` exactly when no key has the name; otherwise the first index whose key has it |
| OrderedIndex.FindKeyByName | ring.go:654-662 | the front-to-back scan returns the index of the first key with the name, or `-1` |
| Circular.WalkSpec | ring.go:445-457 | the wrapping walk from `i` to `stop` visits every index of the circular interval `[i, stop)` exactly once and nothing else, in `Distance(i, stop)` steps, so it terminates |
| Circular.VisitOrderSpec | ring.go:424-459 | `convertHashes` visits each index of the circular range `[start, end)` (normalised from `len` to 0) exactly once and no other index; it visits all of them when `circle && start == end` or `start == 0 && end == len` |
| Circular.VisitOrderAll | ring.go:431-437 | in the convert-everything case, the indices are visited in ascending order, each once |
| Circular.IndexRangeIsArc | ring.go:365-371 | on a sorted hash array, the index range `[findIndex(a), findIndex(b))`, circular when `b < a`, holds exactly the hashes of the arc from `a` (included) up to `b` (excluded) |
| Circular.ArcVisitDistinct | ring.go:408-414 | the hash positions `convertHashes` visits for an arc are pairwise distinct |
| Circular.ArcVisitElems | ring.go:365-371 | the hash positions `convertHashes` visits for an arc are exactly the arc's positions |
| Ownership.ReassignSeqIsReassign | ring.go:445-457 | handing positions to a slice one at a time, in visiting order, ends in the table that hands them all over at once, whatever the order |
| Ownership.PrevSliceIsOwnerBelow | ring.go:404 | `slices[findPrevIndex(findIndex(slices, h))]` owns `h` among the slice positions other than `h`, which is the slice that inherits a removed slice's arc |
| Ownership.NextSliceSpec | ring.go:363 | the slice after `s` is the next larger slice position or, after the largest, the smallest |
| Ownership.ArcIsOwned | ring.go:362-371 | a slice owns exactly the hash positions in the arc from it up to the next slice |
| Ownership.FirstSliceOwnsAll | ring.go:349-361 | the only slice owns every hash position once they are all handed to it |
| Ownership.InsertKeepsOwnership | ring.go:362-372 | if every hash had its reference owner before, it still does after the new slice takes the arc up to the next slice |
| Ownership.RemoveKeepsOwnership | ring.go:402-414 | if every hash had its reference owner before, it still does after the previous slice takes over the removed slice's arc |
| Ownership.RemoveKeepsPlacement | ring.go:402-421 | removing a slice other than the last keeps every ring hash placed |
| Ownership.ArcHeldByPrev | ring.go:362-372 | the arc a new slice takes was held, before the insertion, by the slice that precedes it |
| Ownership.SliceRoundTrip | ring.go:333-422 | inserting a slice and then removing it restores `slices`, and restores the owner table, because the predecessor gets the arc back |
| Ownership.EmplaceOwner | ring.go:532 | for a hash that is not a slice position, `slices[findPrevIndex(findIndex(slices, h))]` is its reference owner |
| Ownership.EmplaceAtSlicePosition | ring.go:532 | quirk: for a hash equal to a slice position, the reference owner is that slice, yet `Emplace` picks the previous, different slice |
| Ownership.EmplaceKeepsOwnership | ring.go:520-533 | adding a hash that is not a slice position, owned by the slice `Emplace` picks, keeps every hash with its reference owner |
| Ownership.RetireKeepsOwnership | ring.go:620-627 | retiring a hash position and its owner entry keeps every other hash with its reference owner |
| Ownership.EmplaceKeepsPlacement | ring.go:520-540 | `Emplace` keeps every hash placed: pooled while there is no slice, with its reference owner otherwise, provided it is not a slice position |
| Ownership.EmplaceAtSliceUnplaced | ring.go:530-533 | quirk: with two or more slices, `Emplace` at a slice position leaves that hash with a wrong owner |
| Ownership.DropKeepsPlacement | ring.go:603-627 | `Remove` keeps every hash placed when there are slices, or when the position is retired |
| Ownership.DropLeavesPool | ring.go:603-604 | quirk: with no slices, removing one of several keys at a position drops that position from the pool although it stays on the ring |
| KeyTables.KeysOnRing | ring.go:520-550 | under the key-table invariant, every known key's hash is a ring hash |
| KeyTables.InsertedIndices | ring.go:543-547 | the new key sits at `findKeyIndex`; the entries before it are kept and those after it shift up by one |
| KeyTables.InsertedEntries | ring.go:543-547 | inserting a key keeps every old entry and adds exactly the new one |
| KeyTables.InsertedDistinct | ring.go:543-547 | inserting a key under a new name keeps the names at a position distinct |
| KeyTables.RemovedIndices | ring.go:597-600 | the removed entry is the first with the name; the entries before it are kept and those after it shift down |
| KeyTables.RemovedEntries | ring.go:597-600 | removing a name keeps every other entry and drops exactly that one |
| KeyTables.RemovedKeepsShape | ring.go:597-600 | removing an entry keeps the list ordered and its names distinct |
| KeyTables.EmplaceListValid | ring.go:543-550 | the list at the new key's position stays ordered, with distinct names, all hashed there |
| KeyTables.EmplaceListsValid | ring.go:543-550 | after `Emplace` every stored key list is valid for its position |
| KeyTables.EmplaceKeysListed | ring.go:520-550 | after `Emplace` every key, the new one included, is listed at its hash, which is a ring hash |
| KeyTables.EmplacePositionsHeld | ring.go:520-547 | after `Emplace` every ring hash, the new one included, holds a key |
| KeyTables.EmplaceKeepsKeys | ring.go:506-550 | `Emplace` keeps the key tables consistent |
| KeyTables.RemoveListValid | ring.go:597-600 | the list at the removed key's position stays valid once the key has left |
| KeyTables.RemoveListsValid | ring.go:597-600 | after `Remove` every stored key list is valid |
| KeyTables.RemoveKeysListed | ring.go:597-630 | after `Remove` every remaining key is still listed at a ring hash, whether or not the position was retired |
| KeyTables.RemovePositionsHeld | ring.go:620-627 | a position whose list became empty is retired, so every remaining ring hash holds a key |
| KeyTables.RemoveKeepsKeys | ring.go:594-630 | `Remove` keeps the key tables consistent, retiring the position once its last key is gone |
| Notifications.EmittedStamped | ring.go:137-152 | the log records exactly the ops `notify` was called with, in order |
| Notifications.DeliveredStamped | ring.go:137-152 | an op is delivered exactly when `Filter(op)` is registered, and then to that channel; unregistered ops are dropped |
| Notifications.ConvertHashOpsShape | ring.go:461-485 | `convertHash` emits one removal per key, in list order, naming the old owner's node, and then one addition per key naming the new slice's node, even when both nodes are the same |
| Notifications.RingChangeOpsKeys | ring.go:464-484 | the per-key loop names every key of the list once, all as removals or all as additions |
| Notifications.ConvertHashOpsOrdered | ring.go:461-485 | with valid key lists, the keys at the position are in ascending `Order`, and the i-th removal and the i-th addition of `convertHash` both name the i-th key, so both halves name the keys in ascending `Order` |
| Notifications.ConvertHashOpsKeys | ring.go:461-485 | one `convertHash` names every key at the position once as a removal and once as an addition |
| Notifications.ConvertOpsBalanced | ring.go:424-459 | across `convertHashes`, the keys removed and the keys added are the same, position by position in visiting order |
| Notifications.ConvertHashOpsTarget | ring.go:461-485 | every op of `convertHash` is a ring change and not an update, and every addition names the new slice's node |
| Notifications.ConvertOpsTarget | ring.go:424-459 | every op of `convertHashes` is a ring change, and every addition names the receiving slice's node |
| Notifications.PoolOpsSpec | ring.go:349-401 | the pool loops name every key of every position once, all as additions (first slice) or all as removals (last slice), all naming the one node |
| RingModel.EmplaceFacts | ring.go:506-550 | `Emplace`'s table updates keep the key tables and the pool valid; they keep every hash placed unless the hash is a slice position, and in that case they break placement |
| RingModel.DropFacts | ring.go:594-630 | `Remove`'s table updates keep the key tables and the pool valid; they keep every hash placed unless, with no slices, the position still holds other keys |
| RingModel.UnplaceValid | ring.go:417-421 | removing a slice at its `findIndex` keeps `slices` and `nodesBySlice` in step |
| RingModel.New | ring.go:178-210 | rejects `BaseVFactor < 1` with `InvalidBaseVFactor`; otherwise returns a valid and balanced ring with the given options, every table, the pool, the registry and the log empty, and no channel handed out |
| RingModel.Ring.constructor | ring.go:179-197 | a fresh ring has empty tables, no watchers and an empty log |
| RingModel.Ring.State | ring.go:212-218 | the view's node table covers exactly the slice positions, its key table exactly the stored keys, and every key's hash is a ring hash |
| RingModel.Ring.RegisterWatcher | ring.go:106-116 | a new channel is registered under `Filter(template)`, overwriting any earlier entry; the registry stays consistent |
| RingModel.Ring.DeregisterWatcher | ring.go:120-135 | a no-op without a registration; otherwise the entry goes and its channel is closed |
| RingModel.Ring.Notify | ring.go:137-152 | appends the op to the log with the channel registered under `Filter(op)`, if any |
| RingModel.Ring.NotifyKeys | ring.go:464-473 | the per-key loop logs exactly the ring-change ops of the list, in order |
| RingModel.Ring.ConvertHash | ring.go:461-485 | the position's owner becomes `slice`; the log gains the removals for the old owner's node and then the additions for the new one |
| RingModel.Ring.ConvertHashes | ring.go:424-459 | exactly the hashes at the visited indices change owner, to `slice`; the log gains the ops of their `convertHash` calls in visiting order |
| RingModel.Ring.ConvertAll | ring.go:431-437 | every ring hash goes to `slice`, in ascending order |
| RingModel.Ring.ConvertRange | ring.go:440-457 | the hashes of the wrapping walk from `s` to `e` go to `slice`, in walk order |
| RingModel.Ring.ConvertNext | ring.go:445-457 | one iteration keeps the loop invariant and brings the walk closer to its end |
| RingModel.Ring.ConvertStep | ring.go:451-455 | the first position still to visit goes to `slice`, and the rest still remain |
| RingModel.Ring.InsertSlice | ring.go:333-375 | a known position gives `SliceAlreadyExists` and changes nothing; otherwise the slice enters `slices` in order and `nodesBySlice`. The first slice takes the whole pool; a later slice takes the arc up to the next slice. Validity and balance are kept |
| RingModel.Ring.Attach | ring.go:343-372 | inserting a new position keeps the ring valid and balanced |
| RingModel.Ring.InsertFirstSlice | ring.go:343-361 | the first slice takes every pooled position, the pool empties, and each key is announced as added to the slice's node |
| RingModel.Ring.InsertLaterSlice | ring.go:362-372 | a later slice takes exactly the arc from it up to the next slice, with `convertHashes`' ops in visiting order |
| RingModel.Ring.PlaceSlice | ring.go:343-346 | the position enters `slices` at its sorted place and `nodesBySlice` names the node |
| RingModel.Ring.TakeArc | ring.go:362-371 | the arc from the new slice up to the next slice goes to the new slice |
| RingModel.Ring.PoolIn | ring.go:349-361 | every pooled position goes to the slice, each once, in some map order, with its keys announced |
| RingModel.Ring.PoolLoop | ring.go:350-361 | the loop drains the pool into the slice, position by position |
| RingModel.Ring.PoolInStep | ring.go:350-360 | one position moves from the pool to the slice, and its keys are announced |
| RingModel.Ring.PoolOut | ring.go:389-401 | every ring hash returns to the pool, with each key announced as removed from the node, in ring order |
| RingModel.Ring.PoolOutStep | ring.go:390-400 | one hash returns to the pool, and its keys are announced as removed |
| RingModel.Ring.RemoveSlice | ring.go:377-422 | a no-op for an unknown position; otherwise the slice leaves `slices` and `nodesBySlice`. The last slice pools every hash and leaves the owner table stale; another slice hands its arc to the previous slice. Validity and balance are kept |
| RingModel.Ring.Detach | ring.go:386-421 | removing a known position keeps the ring valid and balanced |
| RingModel.Ring.RemoveLastSlice | ring.go:389-421 | the last slice pools every hash, with removals announced, and the old owner entries stay |
| RingModel.Ring.RemoveInnerSlice | ring.go:402-421 | the previous slice takes over the arc from the removed slice up to the next one |
| RingModel.Ring.GiveArc | ring.go:402-414 | the arc from the slice up to the next slice goes to the previous slice |
| RingModel.Ring.Unplace | ring.go:417-421 | the position leaves `slices` and `nodesBySlice` |
| RingModel.Ring.ClaimableIsFree | ring.go:233-245 | inserting slices one at a time succeeds exactly when all their positions are free and pairwise distinct |
| RingModel.Ring.InsertSlices | ring.go:233-245 | all of a node's slices in a range enter the table exactly when each position is free when its turn comes; otherwise it stops at the first taken one with `SliceAlreadyExists`: every position before it was free and distinct and is now the node's, and nothing after it was inserted |
| RingModel.Ring.ClaimNext | ring.go:235-244 | one iteration inserts the next slice, whose position was free, or reports that its position is taken and changes nothing |
| RingModel.Ring.RemoveSlices | ring.go:261-263 | every position of the node's slices in the range leaves the table |
| RingModel.Ring.Unclaim | ring.go:262 | one more slice position leaves the table |
| RingModel.Ring.CreateNode | ring.go:222-248 | a known node gives `NodeAlreadyExists` and changes nothing. Otherwise the vFactor is recorded first; the slices enter exactly when all their positions are claimable, else the error comes at the first taken position, leaving the slices before it (all free until then) and the vFactor in place |
| RingModel.Ring.DeleteNode | ring.go:252-268 | a no-op for an unknown node; otherwise the node's slice positions and its vFactor leave the ring |
| RingModel.Ring.UpdateNode | ring.go:272-303 | an unknown node gives `NodeNotFound`; an equal vFactor changes nothing. A larger one inserts the new slices, and a clash gives `SliceHashCollision` at the first taken position, with the slices before it in place and the old vFactor kept. A smaller one removes the slices above the new count |
| RingModel.Ring.GetNode | ring.go:306-318 | the node with its vFactor, or `NodeNotFound` with the zero node |
| RingModel.Ring.ListNodes | ring.go:321-331 | every node identifier exactly once |
| RingModel.Ring.Emplace | ring.go:491-553 | nil gives `NilKey`, a known name gives `KeyAlreadyExists`, both before any change. Otherwise the key is stored at the hash of its token, or else of its name: pooled with an empty-node op when there is no slice, else owned by the previous slice, whose node the op names. Balance is kept unless the hash is a slice position |
| RingModel.Ring.PlaceKey | ring.go:506-550 | a new key's placement keeps the ring valid; it keeps balance except at a slice position |
| RingModel.Ring.StoreKey | ring.go:506-550 | the table updates of `Emplace`, in its order |
| RingModel.Ring.EnterKey | ring.go:506-540 | payload stored, hash inserted, then pooled or owned by the previous slice, with the op |
| RingModel.Ring.ListKey | ring.go:543-550 | the key joins its position's list at `findKeyIndex`, and its name maps to the hash |
| RingModel.Ring.AnnounceKey | ring.go:522-540 | with no slices the hash is pooled and the op names no node; otherwise the previous slice owns it and the op names that slice's node |
| RingModel.Ring.Update | ring.go:557-580 | nil gives `NilKey` and an unknown key `KeyNotFound`, with no change; otherwise only the payload changes, and an `Updated` op names the key's current node |
| RingModel.Ring.Remove | ring.go:583-631 | a no-op for an unknown key. Otherwise the key leaves `contentByKey`, `hashesByKey` and its position's list, and a `Removed` op is logged. The position is retired once its list is empty. The pool loses the position whenever it is non-empty |
| RingModel.Ring.DropKey | ring.go:588-630 | removing a known key keeps the ring valid; it keeps balance except when, with no slices, the position still holds other keys |
| RingModel.Ring.ForgetKey | ring.go:594-630 | the table updates of `Remove`, in its order |
| RingModel.Ring.UnlistKey | ring.go:594-600 | the payload goes, and the key leaves its position's list |
| RingModel.Ring.RetireKey | ring.go:620-630 | an emptied position leaves `hashes` and the owner table; the key's hash entry goes |
| RingModel.Ring.AnnounceDrop | ring.go:603-618 | with a non-empty pool the position leaves it and the op names no node; otherwise the op names the owner's node |

## Left out

- The hash function (MD5 in `algorithms.go`) and the default slice-name formatter (`fmt.Sprintf`) are not modelled. `Hash`, `ToSliceName` and `Filter` are arbitrary functions fixed at construction. The options mechanism of `New` becomes its parameters, so its defaults (MD5, the formatter, a `BaseVFactor` of 1, a filter by `op.Node`) are the caller's to pass.
- Concurrency is not modelled: the mutexes, the per-watcher `done` channel and `WaitGroup`, and the blocking hand-over of `notify`. Delivery is an append to the log `notices`, recording the op and the channel it is handed to. Closing a channel is recorded in `closed`.
- RingModel.Ring.RegisterWatcher: the channel of an overwritten registration is left open and unrecorded, as in the source.
- Go's `int` overflow in `vFactor * BaseVFactor` is not modelled; the product is an unbounded integer.
- A `Key` is a value here, so a nil `InnerKey` inside a non-nil `Key` is not modelled; a nil `*Key` is `None`.
- Map iteration order in the first-slice loop and in `ListNodes` is not modelled. The model takes positions and names in an arbitrary order, so the order of the first slice's notifications and of `ListNodes` is not fixed.
- RingModel.Ring.State: returns a copy of the three tables as a value, so the aliasing of the live maps is not modelled.
- RingModel.Ring.CreateNode: the log entries of its slice insertions are not stated, nor are the individual owner changes; they follow from `InsertSlice`'s contract one slice at a time. The same holds for `RingModel.Ring.InsertSlices`.
- RingModel.Ring.DeleteNode: the log entries and owner changes of its slice removals are not stated, only the node table, the vFactor table, validity and balance. The same holds for `RingModel.Ring.RemoveSlices` and the shrinking branch of `RingModel.Ring.UpdateNode`.
- RingModel.Ring.UpdateNode: the log entries of its slice insertions are not stated.
- Error values are compared by identity; their texts are kept in `RingTypes.Message`, which states nothing further. The error wrapping of callers outside the package is not modelled.
- The payload type must be one without object references (`T(!new)`); the ring never inspects the payload.
- `mock.go` (test doubles) and the test file are not modelled.
