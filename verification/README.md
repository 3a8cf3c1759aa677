# OpenSM component library and RMPP vendor layer: a verified model

A Dafny model of the parts of OpenSM in which most can go wrong: the intrusive red-black map and
what is built on it, the RMPP transfer protocol, the indexed d-ary heap, and the concurrent
services (message dispatcher with its thread pool, event wheel with its timer provider, request
transactions). `dafny verify dfyconfig.toml` checks all of it.

## How it is built

Code that changes things in place is modelled by classes, arrays and loops. Each such method is
proved equal to a function on values; lemmas about those functions, and invariants over all runs,
are the results.

- **Ordered map.** `MapItem.dfy` holds the items with their seven fields; `RbTree.dfy` the trees
  and zipper contexts they represent; `RbLinks.dfy`, `RbSteps.dfy` and `RbEdit.dfy` say what each
  group of link writes does to the represented tree; `RbBalance.dfy` what each rebalancing case
  does to the red-black invariants; `ThreadList.dfy` treats the linked list through the same items.
  `QMap.dfy` is the class on live objects. `QMap.Valid` is the invariant of every sequence of
  operations: the links spell a red-black tree with consistent parent pointers, black root and nil;
  the thread is exactly the tree's in-order walk; keys ascend; `count` is the walk's length. Keys
  are integers under any total preorder, so the same proofs serve the comparator-based fleximap,
  whose code is the same algorithm (complib/cl_map.c:1045-1622). `QMapBulk.dfy` and
  `QMapDelta.dfy` are merge and delta; `Pool.dfy`, `ObjMap.dfy`, `ObjMapBulk.dfy` and
  `ObjMapDelta.dfy` the pool-backed map and how its delta undoes itself, `ObjMapLinks.dfy` its
  agreement with the linked map.
- **RMPP.** `RmppSizes.dfy` (uint32_t arithmetic with its wrap-around), `RmppSar.dfy` (byte arrays),
  `RmppHeader.dfy` (the header bytes written on the way), `RmppMessage.dfy` (segments, round trip),
  `RmppReceive.dfy` (the receive context), `RmppRun.dfy` (all runs of a node), `RmppDispatch.dfy` (the
  same steps on live objects), `RmppSend.dfy` (the send context), `RmppTransfer.dfy` (sender, channel
  and receiver together), `RmppControl.dfy` (the sender against any peer), `RmppServe.dfy` (runs that complete), `RmppStale.dfy` and `RmppLossy.dfy` (what
  the networks that `RmppTransfer.dfy` excludes can do, exactly). The receive window is a parameter of at least one; the source's is 16
  (include/vendor/osm_vendor_mlx_defs.h:54). A transport send is one atomic step.
- **Heap.** `HeapOrder.dfy` and `HeapOps.dfy` on sequences, `Heap.dfy` on the array.
- **Services.** `Dispatch.dfy`, `DispatchLog.dfy` (what the dispatcher makes of its users' wishes, over
  whole runs) and `Dispatcher.dfy`; `EventWheel.dfy`, `Wheel.dfy`, `Timer.dfy` and `WheelTimer.dfy`;
  `Requests.dfy` and `TxnManager.dfy`. Threads are interleavings of the steps that the source makes
  atomic by a lock or an atomic decrement.

Memory, the transport and the clock are parameters; only the object maps' loops choose per item whether
memory is there.

## What the code does not guarantee

Where a natural claim is false of the code, the model keeps the code, shows an input, and proves
when the claim holds.

- Merging pool-backed maps can lose a NULL object: `MergeLosesNull`; exactly when: `MergeLoses`, and as
  a caller can tell beforehand: `MergeMayLose`. A NULL object also makes a delta report failure, but it
  is still undone completely (`Delta`).
- For a message of one bare non-SA header the receiver computes size 0: `BareHeader`; every other
  message has its exact size: `SizesAgree`. Joining such a message leaves the buffers, and of what a
  sender can cut up only that: `BareHeaderOverruns`; for blocks in general: `OverrunExactly`.
- Reassembly does not restore the caller's own RMPP fields and transaction id: `HeaderChanges`,
  `DeliveredBytes`; exactly when nothing changes: `UnchangedExactly`.
- FIRST and LAST flags in the caller's own header end up in every segment: `FlagsLeak`; exactly when:
  `FlagsExact`.
- An acknowledgement says which segment arrived, not that all before it did. Over a network that
  loses or reorders segments the sender can therefore succeed although the receiver never held the
  whole message: with a window of three or more, exactly for messages of three segments or more
  (`LossFoolsSender`, which also settles smaller windows).
- An acknowledgement that comes late or a second time can abort a transfer that loses nothing: exactly
  for messages with at least two segments more than the window, 18 with the source's 16
  (`StaleAckAborts`). `SuccessMeansComplete` and `NeverShrinks` are the claims under the assumptions that exclude these.
- A callback that keeps answering with the current time keeps the wheel's expiry loop running for
  ever: `NeverEnds`; exactly when it ends: `EndsExactly`.
- The documentation of the event wheel calls the aging time a delta in milliseconds
  (include/complib/cl_event_wheel.h:205); the code uses an absolute time in microseconds, and so does
  the model.

## Model

| member | source | states |
|---|---|---|
| RbLinks.RotLeftRep | complib/cl_map.c:127-156 | a left rotation, written as link writes through parent pointers and the shared nil, turns the represented subtree (w a (b x z)) into ((w a b) x z) in any surroundings, touches nil not at all, and keeps parent, child and root links consistent |
| RbLinks.RotRightRep | complib/cl_map.c:173-201 | the mirror image for a right rotation |
| QMaps.QMap.RotateLeft | complib/cl_map.c:127-156 | the method on live objects performs exactly the link writes that RotLeftRep reasons about |
| QMaps.QMap.RotateRight | complib/cl_map.c:173-201 | the same for the right rotation |
| QMaps.QMap.constructor | complib/cl_map.c:203-224 | an initialised map satisfies the whole invariant with an empty walk |
| RbTree.HeightBound | complib/cl_map.c:226-247 | a red-black tree of height h holds n items with 2^((h+1)/2) <= n + 1, that is, h is at most 2 log2(n + 1) |
| QMaps.QMap.Get | complib/cl_map.c:226-247 | returns an item with an equal key, or nil exactly when no item has one, after a number of steps that is at most 2 log2(count + 1) |
| QMaps.QMap.GetNext | complib/cl_map.c:249-271 | returns the item with the least key greater than the given one, or nil exactly when there is none |
| RbSteps.InsUncleRep | complib/cl_map.c:294-342 | red uncle: the three recolourings, on links, give the tree recoloured at grandparent level with the focus moved up two |
| RbBalance.InsUncleInv | complib/cl_map.c:294-342 | red uncle: the round keeps every insertion invariant except the one red edge, now two levels up, and the in-order walk |
| RbSteps.InsInnerLeft | complib/cl_map.c:294-342 | inner grandchild: the first rotation on links yields the outer case |
| RbBalance.InsInnerLeftInv | complib/cl_map.c:294-342 | inner grandchild: that rotation keeps the insertion invariant and the walk |
| RbBalance.InsOuterLeftInv | complib/cl_map.c:294-342 | outer grandchild: recolouring and rotating removes the red edge, keeps black heights and the walk |
| RbBalance.InsOuterRightInv | complib/cl_map.c:294-342 | the mirror image of the outer case |
| QMaps.QMap.InsBalRound | complib/cl_map.c:294-342 | one round of the rebalance loop keeps the representation, the insertion invariant and the walk, and moves strictly closer to the root |
| QMaps.QMap.InsBal | complib/cl_map.c:294-342 | the rebalance loop terminates and leaves a red-black tree (its root still to be blackened) with the same walk |
| RbEdit.AttachRep | complib/cl_map.c:344-433 | hanging a red leaf item into an empty slot, by links, gives the tree with that item in that slot |
| ThreadList.InsertThreaded | complib/cl_map.c:382-410 | inserting before a neighbour in the doubly linked thread extends the listed sequence at that position and keeps both directions consistent |
| QMaps.QMap.InsertAt | complib/cl_map.c:344-433 | linking a new item into the slot its key searches to keeps the whole invariant and puts it between the slot's predecessors and successors |
| QMaps.QMap.Insert | complib/cl_map.c:344-433 | a duplicate key changes nothing and returns the item already there; a new key adds exactly that item at one position of the order; every other item keeps its identity and key; order, colours, black heights, parent links, thread and count all hold again |
| RbSteps.DelRedLeft | complib/cl_map.c:435-498 | red sibling: recolouring and rotating, on links, gives the item a black sibling one level deeper |
| RbBalance.DelRedLeftInv | complib/cl_map.c:435-498 | red sibling: that move keeps the deletion invariant (one black missing below the focus) and the walk |
| RbSteps.DelPushUp | complib/cl_map.c:435-498 | black sibling with black nephews: reddening the sibling, on links, moves the focus up one level |
| RbBalance.DelPushUpInv | complib/cl_map.c:435-498 | black sibling with black nephews: the missing black moves up one level, the walk stays |
| RbBalance.DelInnerLeftInv | complib/cl_map.c:435-498 | red inner nephew only: the first rotation makes the outer nephew red and keeps the deletion invariant |
| RbSteps.DelOuterLeft | complib/cl_map.c:435-498 | red outer nephew: the recolourings and the last rotation, on links, give the expected tree |
| RbBalance.DelOuterLeftInv | complib/cl_map.c:435-498 | red outer nephew: the result is red-black outright, with the same walk |
| RbBalance.DelOuterRightInv | complib/cl_map.c:435-498 | the mirror image |
| QMaps.QMap.DelSinkLeft | complib/cl_map.c:435-498 | the red-sibling case leaves a black sibling and, when it moved the item deeper, a red parent, so that it happens at most once in a row |
| QMaps.QMap.DelBalRound | complib/cl_map.c:435-498 | one round either finishes with a red-black tree or decreases a measure, the walk unchanged |
| QMaps.QMap.DelBal | complib/cl_map.c:435-498 | the rebalance loop terminates, the red-sibling case included, and leaves a red-black tree with the same walk |
| RbEdit.SpliceRep | complib/cl_map.c:500-578 | splicing out an item with at most one child, by links, puts that child (or nil, whose parent pointer is borrowed) in its place |
| RbEdit.ReplaceRep | complib/cl_map.c:549-575 | relinking another item into a place, children and parent included, renames that place in the represented tree and nothing else; no key is copied |
| RbEdit.SuccessorContext | complib/cl_map.c:516-530 | the first item of the right subtree has no left child, and everything before it is the left side and the removed item |
| QMaps.QMap.Successor | complib/cl_map.c:516-547 | for a two-child delete the list successor is that item, and splicing it out leaves the walk without it |
| QMaps.QMap.RemoveSimple | complib/cl_map.c:500-578 | removing an item with at most one child leaves a red-black tree without exactly that item |
| QMaps.QMap.RemoveInner | complib/cl_map.c:500-578 | removing an item with two children, by splicing its successor, rebalancing and relinking the successor into its place, leaves a red-black tree without exactly that item |
| ThreadList.UnlinkThreaded | complib/cl_map.c:505-515 | unlinking an item from the thread leaves the sequence without it, and its next pointer still names its successor |
| QMaps.QMap.RemoveItem | complib/cl_map.c:500-578 | removes exactly that item, or nothing for the end item; every other item keeps its identity, key and relative order, and the whole invariant holds |
| QMaps.QMap.RemoveKey | complib/cl_map.c:580-593 | removes and returns the item with an equal key, or reports that there is none and changes nothing |
| QMaps.QMap.Iterate | include/complib/cl_qmap.h:596-601 | in every valid map, following next from nil or from any item gives the next item of the tree's in-order walk, ending at nil |
| QMapBulk.MergeStep | complib/cl_map.c:595-623 | one iteration moves the item to its place in the destination, or on a key clash returns it to its old place in the source, identity and key unchanged |
| QMapBulk.Merge | complib/cl_map.c:595-623 | an item of the source stays there if and only if the destination had an item with an equal key, and is otherwise in the destination, which keeps all of its own; order, keys and identities are kept; no item is lost or duplicated although nodes move during the iteration |
| QMapBulk.PickExactly | complib/cl_map.c:595-644 | which items a walk keeps: by index, exactly those whose key occurs, or does not occur, among the other map's |
| QMapDelta.SplitMove | complib/cl_map.c:625-644 | an unmatched item leaves its map for the end of the destination, and the iterator taken before the move is still valid after it |
| QMapDelta.Delta | complib/cl_map.c:646-685 | an item stays in its map if and only if the other map had an item with an equal key, and is otherwise in old, or in new; all in order, every item in exactly one place and with its key |
| Pools.Pool.Init | complib/cl_pool.c:67-162 | fails with CL_INVALID_SETTING exactly for several components without initializer or a maximum below the minimum, and otherwise exactly when memory or the initializer fails; a pool that is ready has exactly the minimum of free objects, and a maximum of 0 means 2^64 - 1; any failure leaves it unusable |
| Pools.Pool.Grow | complib/cl_pool.c:207-312 | growth is capped by the maximum, happens at the head of the free list, and stops at the object the initializer refuses, keeping those already made: which status and how many objects, exactly |
| Pools.Pool.Get | complib/cl_pool.c:314-343 | takes the head of the free list; an empty one grows by as much as memory, maximum and initializer allow; none is returned exactly when that is nothing; every object is free or handed out, never both |
| Pools.Pool.Put | include/complib/cl_qcomppool.h:607-619 | the object put back is the next one to be handed out |
| Pools.CreatedAt | complib/cl_pool.c:257-309 | objects made by one growth are handed out in the reverse order of their creation |
| ObjMaps.ObjMap.Spare | complib/cl_map.c:727-750 | every item the map's pool ever made is either linked in the map or free, item by item, and never both |
| ObjMaps.ObjMap.Insert | complib/cl_map.c:727-750 | NULL and no change exactly when no item can be had, that is, none is free and the pool cannot grow; the object already there and no change for a duplicate; otherwise the pair is linked at its place and the object returned |
| ObjMaps.ObjMap.RemoveItem | complib/cl_map.c:780-790 | unlinks exactly that item and makes it the next one its pool hands out |
| ObjMapLinks.InsertMirrors | complib/cl_map.c:727-750 | when the linked map has put the new item anywhere that leaves its walk ascending, it is the place the object map used, and the two still agree item by item |
| ObjMapLinks.HitMirrors | complib/cl_map.c:727-750 | when the linked map finds an item at the key, it is the one whose object the object map answers |
| ObjMapLinks.RemoveMirrors | complib/cl_map.c:780-790 | when the linked map has unlinked an item, the two still agree item by item |
| ObjMapBulk.PutBack | complib/cl_map.c:851-856 | re-inserting a pair that was just taken out always succeeds, on the same item and in the same position |
| ObjMapBulk.HoldsInjective | complib/cl_map.c:727-750 | only one ascending sequence of pairs has a given content, so contents determine the map |
| ObjMapBulk.Merge | complib/cl_map.c:830-867 | the final maps are the fold of single moves; the loop stops early only at a non-NULL object that found neither a free item nor memory, or met a NULL at its key; the first moves are served from the free list |
| ObjMapBulk.MergeKeeps | complib/cl_map.c:830-867 | the source keeps exactly the pairs for which the destination answered with another object |
| ObjMapBulk.MergeContent | complib/cl_map.c:830-867 | the destination keeps its own pairs and gains exactly those that obtained an item for a key it did not have |
| ObjMapBulk.MergeAll | complib/cl_map.c:830-867 | with memory for every pair: the source keeps exactly the pairs whose key the destination had with another object, and every other key ends in the destination |
| ObjMapBulk.MergeLoses | complib/cl_map.c:845-861 | a pair vanishes from both maps if and only if its object is NULL, no item could be had for it, and the destination has no NULL of its own at that key |
| ObjMapBulk.MergeMayLose | complib/cl_map.c:830-867 | what a caller can tell beforehand: some behaviour of the allocator loses a pair if and only if its object is NULL, as many pairs as there are free items come before it, and the destination has no NULL at its key |
| ObjMapBulk.MergeLosesNull | complib/cl_map.c:845-861 | a concrete loss: one NULL object, an empty destination without memory |
| ObjMapDelta.DeltaMove | complib/cl_map.c:883-913 | the pair moves, or, without memory or with a NULL object, is back in its source on its old item; a NULL object may then also be in the destination |
| ObjMapDelta.RevertKeeps | complib/cl_map.c:869-881 | merging back what had moved is served entirely by the items those moves freed, so it keeps nothing in the old or new map |
| ObjMapDelta.Restore | complib/cl_map.c:869-881 | after a failed move, merging back restores the source exactly, keys, objects and order, and empties the destination, whatever the allocator does |
| ObjMapDelta.Revert | complib/cl_map.c:869-881 | both sources are restored exactly and old and new are empty |
| ObjMapDelta.Delta | complib/cl_map.c:915-986 | success: the exact split into common, old and new pairs; failure: all four maps as they were, and only because a pair that had to move has a NULL object or there are more of them than free items |
| ObjMapDelta.PartIn | complib/cl_map.c:915-986 | the parts of that split: a pair is in one exactly when the other map has, or has not, its key |
| RmppSizes.NumSegsCeil | libvendor/osm_vendor_mlx_rmpp_ctx.c:92-112 | the number of segments is the data length over the data size, rounded up, and at least one |
| RmppSizes.Paylens | libvendor/osm_vendor_mlx_rmpp_ctx.c:142-174 | the length fields of first and last segment as exact arithmetic, no uint32_t wrap for sizes that fit |
| RmppSizes.LastTestExact | libvendor/osm_vendor_mlx_rmpp_ctx.c:267-307 | after k of n segments the accumulated length reaches the advertised one if and only if k = n, for every size and both classes, although the SA formula uses the count so far |
| RmppSizes.SizesAgree | libvendor/osm_vendor_mlx_rmpp_ctx.c:279-338 | at the last segment the size from the first segment equals the size from the last, and both equal the original size if and only if the message is SA or carries data |
| RmppSizes.BareHeader | libvendor/osm_vendor_mlx_rmpp_ctx.c:279-338 | the exception: for a non-SA message of one bare header the receiver computes size 0 |
| RmppSar.Sar.constructor | libvendor/osm_vendor_mlx_sar.c:45-61 | header size, data size and data length for SA and other classes |
| RmppSar.Sar.GetMadSeg | libvendor/osm_vendor_mlx_sar.c:69-106 | a segment number is refused, without a write, exactly when no data is left for it (number 1 excepted); else the 256-byte block is the header, its part of the data, and zeros, all copies in bounds |
| RmppSar.Sar.Reassemble | libvendor/osm_vendor_mlx_sar.c:110-154 | the list is drained and the buffer holds the first block's header and the data parts of all blocks, all copies in bounds |
| RmppSar.HoldableExactly | libvendor/osm_vendor_mlx_sar.c:110-154 | blocks of full size join within their bounds if and only if the size wanted needs all of them and no more than they hold |
| RmppHeader.PutFields | libvendor/osm_vendor_mlx_rmpp_ctx.c:133-176 | writing version, type, flags, status, segment number and length changes bytes 24 to 35 and no others |
| RmppHeader.PutTid | libvendor/osm_vendor_mlx_sender.c:337-342 | writing the transaction id changes bytes 8 to 15 and no others |
| RmppHeader.FlagBits | libvendor/osm_vendor_mlx_rmpp_ctx.c:135-157 | ACTIVE is always set; FIRST and LAST exactly when asked for or already there, whatever the response timeout or-s in |
| RmppHeader.TimeoutBits | libvendor/osm_vendor_mlx_rmpp_ctx.c:135-138 | the upper five bits of the flags byte are those already there or-ed with the low five of the response timeout |
| RmppHeader.BeAt | libvendor/osm_vendor_mlx_rmpp_ctx.c:173-176 | the bytes of a number on the wire, most significant first |
| RmppMessages.SegEncodes | libvendor/osm_vendor_mlx_rmpp_ctx.c:133-176 | the block's header bytes, read in network order, are the segment's transaction id, number, length and flags |
| RmppMessages.SegmentersAgree | libvendor/osm_vendor_mlx_sar.c:78-85 | the segmenter's own count accepts exactly the segments the send context counts |
| RmppMessages.FlagsExact | libvendor/osm_vendor_mlx_rmpp_ctx.c:136-176 | only segment 1 carries FIRST, and only segment n LAST, if and only if the caller's header carried no such flag or there is one segment |
| RmppMessages.FlagsLeak | libvendor/osm_vendor_mlx_rmpp_ctx.c:136-176 | a 300-byte message whose own flags byte says FIRST: its second segment says so too |
| RmppMessages.BlockIs | libvendor/osm_vendor_mlx_sar.c:87-103 | behind its header every segment's block holds exactly its slice of the data; all but the last are full, and what the last does not fill is zero |
| RmppMessages.RoundTrip | libvendor/osm_vendor_mlx_sar.c:69-154 | joining all segments of any message restores it, within the buffers, under segment 1's header: every byte but the transaction id and the RMPP fields |
| RmppMessages.DeliveredBytes | libvendor/osm_vendor_mlx_dispatcher.c:603-630 | what the client is handed: every byte of the message outside bytes 8 to 15 and 24 to 35; there its own transaction id in network order and segment 1's RMPP fields; everything behind the header unchanged |
| RmppMessages.UnchangedExactly | libvendor/osm_vendor_mlx_dispatcher.c:603-630 | the message comes back unchanged if and only if its own bytes already were the request's transaction id and segment 1's RMPP fields |
| RmppMessages.HeaderChanges | libvendor/osm_vendor_mlx_dispatcher.c:603-630 | a 37-byte message that does not come back unchanged, whatever the transaction id |
| RmppReceive.RecvCtx.constructor | libvendor/osm_vendor_mlx_rmpp_ctx.c:185-205 | a fresh context expects segment 1 and holds nothing |
| RmppReceive.RecvCtx.StoreMadSeg | libvendor/osm_vendor_mlx_rmpp_ctx.c:232-265 | the segment is appended, or nothing changes, exactly for want of memory |
| RmppReceive.RecvCtx.AcceptSeg | libvendor/osm_vendor_mlx_dispatcher.c:646-679 | only the expected segment is stored, and only then does the expectation advance |
| RmppReceive.RecvCtx.Receive | libvendor/osm_vendor_mlx_dispatcher.c:483-637 | on the live context the code does what the value function Received says: same context, same reply (the ACK echoes the number just received), same status, same delivered bytes |
| RmppReceive.RecvCtx.Reassemble | libvendor/osm_vendor_mlx_rmpp_ctx.c:340-361 | the new buffer holds the joined message and the list is empty |
| RmppReceive.ReceiveStep | libvendor/osm_vendor_mlx_dispatcher.c:483-637 | for a context holding segments 1..e-1 and any segment of its message: BAD_LEN is never raised, nothing but segment e changes it, delivery happens only at the last segment and delivers the message as DeliveredBytes says, and with memory the last expected segment is delivered |
| RmppReceive.ControlVerdict | libvendor/osm_vendor_mlx_dispatcher.c:500-514 | a stray ACK changes nothing, an ABORT or STOP ends the transfer with a remote error; neither is answered |
| RmppReceive.MemoryFails | libvendor/osm_vendor_mlx_dispatcher.c:557-600 | without memory for the expected segment the sender is told to STOP and the context is as before; without memory for the whole message the transfer fails |
| RmppReceive.BadLength | libvendor/osm_vendor_mlx_dispatcher.c:519-541 | a LAST flag on a segment that is not the last, or none on the last: ABORT with BAD_LEN, and the transfer fails |
| RmppReceive.Delivers | libvendor/osm_vendor_mlx_dispatcher.c:582-609 | with all segments stored, the computed size is the message's and joining them restores it, with the request's transaction id put back |
| RmppReceive.OverrunExactly | libvendor/osm_vendor_mlx_sar.c:110-154 | joining stored blocks leaves its buffers if and only if the size worked out is short of a header or does not need exactly the blocks there are |
| RmppReceive.BareHeaderOverruns | libvendor/osm_vendor_mlx_rmpp_ctx.c:279-361 | of the messages a sender can cut up, with all segments stored, exactly the bare non-SA header makes the join leave its buffers |
| RmppReceive.BareArrival | libvendor/osm_vendor_mlx_dispatcher.c:552-609 | such a message does so on arrival |
| RmppRun.RunSafe | libvendor/osm_vendor_mlx_dispatcher.c:297-679 | in every run over any number of transfers with loss, duplication, reordering, memory failures and timeouts: each receive context holds exactly segments 1..expected-1 in order, delivers at most once, only when the last segment has been accepted, and delivers the message that was sent, under segment 1's header and the transaction id its client knows; BAD_LEN is never sent |
| RmppRun.RunLedger | libvendor/osm_vendor_mlx_dispatcher.c:297-378 | in every run, whatever arrives: each request of this node and each transfer of the peer is in progress under one key or has ended exactly once |
| RmppRun.OneCallback | libvendor/osm_vendor_mlx_dispatcher.c:346-366 | a request that is no longer in progress has had a delivery, for the transaction id it was made with, or one error callback, never both; a transfer of the peer never gets an error callback |
| RmppRun.AskStarts | libvendor/osm_vendor_mlx_txn.c:66-108 | a request starts one transaction under its key, unless the key is in use |
| RmppRun.ControlMads | libvendor/osm_vendor_mlx_dispatcher.c:297-378 | a control MAD starts nothing; a stray ACK ends nothing; an ABORT or STOP removes exactly the transaction it meets and hands nothing over: error callback for this node's request, none for the peer's transfer |
| RmppRun.StoppedStays | libvendor/osm_vendor_mlx_dispatcher.c:507-514 | over whole runs: what an ABORT or STOP has ended is never handed over, before or after |
| RmppRun.ExpiryEnds | libvendor/osm_vendor_mlx_txn.c:644-659 | a receiver whose time is up ends in the same way, with the error callback exactly for a request of this node |
| RmppRun.OneMore | libvendor/osm_vendor_mlx_dispatcher.c:297-679 | the next segment in turn advances the transfer by one, opening it at the first and delivering at the last |
| RmppRun.InTurnDelivers | libvendor/osm_vendor_mlx_dispatcher.c:297-679 | segments that all arrive in turn are delivered as soon as the last one is in |
| RmppDispatch.RmppNode.Open | libvendor/osm_vendor_mlx_dispatcher.c:190-340 | a context is created by the first DATA segment of a transfer of the peer, or by any RMPP answer to a request of this node, and by nothing else |
| RmppDispatch.RmppNode.Ask | libvendor/osm_vendor_mlx_txn.c:66-108 | a request enters the transaction map unless its key is in use |
| RmppDispatch.RmppNode.Expire | libvendor/osm_vendor_mlx_txn.c:644-670 | on the live map, an expiry is the step of the run, error callback included |
| RmppDispatch.RmppNode.Take | libvendor/osm_vendor_mlx_dispatcher.c:483-637 | the context takes the MAD in place; delivery and failure both end its transaction; no other context is touched |
| RmppDispatch.RmppNode.Dispatch | libvendor/osm_vendor_mlx_dispatcher.c:297-378 | on the live transaction map and contexts, one RMPP MAD is exactly one step of the run that RunSafe speaks about, error callback included |
| RmppSend.SendCtx.constructor | libvendor/osm_vendor_mlx_rmpp_ctx.c:48-82 | the window starts as segment 1 alone, for the given message and transaction |
| RmppSend.SendCtx.GetSeg | libvendor/osm_vendor_mlx_rmpp_ctx.c:114-183 | builds segment k of the message, header bytes included, in place in the 256-byte block |
| RmppSend.SendCtx.HandleMad | libvendor/osm_vendor_mlx_dispatcher.c:386-475 | ABORT and STOP end the transfer, a stray DATA segment is dropped; an ACK beyond the window and a shrinking window are errors; an ACK of the whole window opens the next one, capped by the total; who is woken and who gets an ABORT |
| RmppSend.SendCtx.Turn | libvendor/osm_vendor_mlx_sender.c:154-219 | one turn of the loop fails, succeeds, or puts exactly the segments of the window on the wire, in order, up to where the transport refuses |
| RmppControl.FailsExactly | libvendor/osm_vendor_mlx_dispatcher.c:386-475 | over whole runs against any peer: the sender has an error if and only if an ABORT, a STOP, an ACK beyond the window or of a smaller one reached it, its retries ran out, or the transport refused a segment |
| RmppControl.FatalEnds | libvendor/osm_vendor_mlx_dispatcher.c:404-448 | once such a MAD has reached a running sender, no further segment goes on the wire, it never succeeds, and it has failed as soon as it wakes |
| RmppControl.FatalReason | libvendor/osm_vendor_mlx_dispatcher.c:404-448 | which error is recorded |
| RmppControl.StrayData | libvendor/osm_vendor_mlx_dispatcher.c:413-419 | a run with a stray DATA segment ends in the same state as the run without it |
| RmppControl.AckInWindow | libvendor/osm_vendor_mlx_dispatcher.c:450-471 | an ACK of the window's last segment opens the next window, up to the offered one or the end; any other in the window changes nothing |
| RmppTransfer.GaplessBurst | libvendor/osm_vendor_mlx_sender.c:162-171 | on a channel that keeps order, a burst that starts no later than the expected segment leaves no gap |
| RmppTransfer.WakeKeeps | libvendor/osm_vendor_mlx_sender.c:154-219 | starting, resending after a timeout and going on after an ACK keep the invariant of sender, channel, receiver and replies |
| RmppTransfer.ReplyKeeps | libvendor/osm_vendor_mlx_dispatcher.c:386-475 | any reply ever sent, arriving at any time and any number of times, keeps that invariant |
| RmppTransfer.BringKeeps | libvendor/osm_vendor_mlx_dispatcher.c:483-710 | the arrival of the oldest segment, with any memory failure, keeps that invariant |
| RmppTransfer.SuccessMeansComplete | libvendor/osm_vendor_mlx_sender.c:154-219 | with an in-order, loss-free data channel, any behaviour of the ACKs, any resends, memory failures and receiver timeouts: success implies that every segment has been accepted in order; an ACK for an unsent segment never occurs; after a fully acknowledged window the next one is not empty until done |
| RmppTransfer.SuccessMeansDelivered | libvendor/osm_vendor_mlx_sender.c:154-219 | if in addition the receiver never runs out of memory or time, success implies that the message has been handed over, as DeliveredBytes says |
| RmppTransfer.NeverShrinks | libvendor/osm_vendor_mlx_dispatcher.c:437-448 | with ACKs in order as well (lost or repeated ones allowed), the smaller-window abort never occurs |
| RmppStale.StaleAckAborts | libvendor/osm_vendor_mlx_dispatcher.c:437-448 | over an in-order, loss-free data channel with ACKs that may come late or repeatedly: for every window there is a run in which the sender sees its window shrink, and fails for that alone, if and only if the message has at least two segments more than the window |
| RmppServe.CanComplete | libvendor/osm_vendor_mlx_sender.c:154-219 | for every message and every window there is a run in which the sender succeeds and the message has been handed over |
| RmppServe.ServeWindow | libvendor/osm_vendor_mlx_sender.c:154-219 | after any whole window but the last, the next one can be sent, received in turn and acknowledged |
| RmppLossy.LossyKeeps | libvendor/osm_vendor_mlx_sender.c:154-219 | in every run over a network that loses, repeats and reorders segments and replies: an ACK for a segment that has not been accepted offers at most its number plus the window less two, a receive context holds segments in order only, nothing is handed over before all are accepted, and no ACK is for a segment that has not been sent |
| RmppLossy.Embed | libvendor/osm_vendor_mlx_sender.c:154-219 | every run of the in-order network is a run of the lossy one |
| RmppLossy.LossFoolsSender | libvendor/osm_vendor_mlx_dispatcher.c:552-556 | because an out-of-order segment is acknowledged by its own number: there is a run in which the sender succeeds with segments missing, and nothing handed over, if and only if the window is at least two and the message has at least three segments; for an answer with a window of exactly two, their number must also be odd |
| HeapOrder.Children | complib/cl_heap.c:162-169 | position j is a child of p if and only if p*d + 1 <= j <= p*d + d, for every d >= 1 |
| HeapOrder.UpStep | complib/cl_heap.c:208-224 | one swap with a greater parent keeps order everywhere but above the moved element |
| HeapOrder.UpOrdered | complib/cl_heap.c:196-231 | sifting up restores the heap order and keeps the multiset of elements |
| HeapOrder.MinChildLeast | complib/cl_heap.c:163-170 | the inner loop's choice is a child that is no greater than any other child |
| HeapOrder.DownStep | complib/cl_heap.c:172-184 | one swap with the least child keeps order everywhere but below the moved element |
| HeapOrder.DownOrdered | complib/cl_heap.c:154-194 | sifting down restores the heap order and keeps the multiset of elements |
| HeapOps.ModifiedOrdered | complib/cl_heap.c:233-255 | changing a key keeps the heap order and changes only that pair |
| HeapOps.InsertedOrdered | complib/cl_heap.c:257-276 | inserting keeps the heap order and adds only that pair |
| HeapOps.UnlinkedOrdered | complib/cl_heap.c:289-320 | with the last element in the removed one's place, the comparison with the parent picks a direction that repairs the order, and equality needs no repair |
| HeapOps.DeletedOrdered | complib/cl_heap.c:278-323 | deleting at any index keeps the heap order and removes only that pair |
| HeapOps.ModifiedTracked | complib/cl_heap.c:233-255 | with distinct contexts, after a key change every stored context was last told the index where it is |
| HeapOps.InsertedTracked | complib/cl_heap.c:257-276 | the same after an insert of a new context |
| HeapOps.DeletedTracked | complib/cl_heap.c:278-338 | the same after a delete, and the removed context was last told an index at which it is not stored |
| HeapOps.RootLeast | complib/cl_heap.c:325-328 | the root is no greater than any element |
| HeapOps.DrainedSorted | complib/cl_heap.c:325-328 | extracting the root until the heap is empty yields a sorted permutation of its elements |
| DaryHeap.Init | complib/cl_heap.c:77-112 | which parameters are refused, the default comparison, and the empty heap otherwise |
| DaryHeap.DHeap.HeapUp | complib/cl_heap.c:196-231 | the hole-based loop in the array computes the swap-based sifting up, notifications included, and touches nothing beyond the heap |
| DaryHeap.DHeap.LeastChild | complib/cl_heap.c:163-170 | the inner loop computes the last of the least children |
| DaryHeap.DHeap.HeapDown | complib/cl_heap.c:154-194 | the hole-based loop in the array computes the swap-based sifting down, notifications included |
| DaryHeap.DHeap.ModifyKey | complib/cl_heap.c:233-255 | the array operation is the one on values, or CL_INVALID_PARAMETER for an index outside the heap |
| DaryHeap.DHeap.Insert | complib/cl_heap.c:257-276 | the array operation is the one on values; a NULL context and a full heap are refused unchanged |
| DaryHeap.DHeap.Delete | complib/cl_heap.c:278-323 | the array operation is the one on values and returns the removed context; NULL and no change outside the heap |
| DaryHeap.DHeap.ExtractRoot | complib/cl_heap.c:325-328 | deletes index 0, or returns NULL from an empty heap |
| DaryHeap.DHeap.IsStored | complib/cl_heap.c:330-338 | true exactly when that index is in the heap and holds that context |
| DaryHeap.DHeap.VerifyHeapProperty | complib/cl_heap.c:340-364 | decides the heap order |
| Dispatch.PostKeeps | complib/cl_dispatcher.c:287-347 | a post adds one reference to the receiver, and one to a sender that wants a completion, together with the message that owes them |
| DispatchLog.LogExplains | complib/cl_dispatcher.c:75-347 | a log of what the users asked for, kept apart from the dispatcher's state, explains that state in every run: registrants, message ids, queue and callbacks |
| DispatchLog.PickedInOrder | complib/cl_dispatcher.c:82-101 | the messages picked up, followed by the FIFO, are exactly the accepted posts in order, each with its source, destination and completion wish |
| DispatchLog.AllDelivered | complib/cl_dispatcher.c:82-119 | at rest every accepted post has been picked up in order, received once, and completed once if its sender wanted that |
| DispatchLog.HoldersExact | complib/cl_dispatcher.c:198-285 | a message id leads to the one registrant that asked for it and has not begun to leave; a registrant is freed exactly when it has left and an unregister found nothing that would still touch it |
| Dispatch.TakeKeeps | complib/cl_dispatcher.c:82-101 | a worker that takes the head of the FIFO, or goes back to sleep on an empty one, changes no obligation |
| Dispatch.CallbackKeeps | complib/cl_dispatcher.c:101-111 | after each callback one reference goes together with one obligation |
| Dispatch.RegistryKeeps | complib/cl_dispatcher.c:198-285 | registering and unregistering keep the counts exact and the vector pointing at live registrants only |
| Dispatch.ReachesKeeps | complib/cl_dispatcher.c:75-347 | the invariant holds in every reachable state, for any number of threads and registrants |
| Dispatch.ZeroMeansUntouched | complib/cl_dispatcher.c:275-281 | a registrant's count is 0 if and only if no queued message and no message in a worker's hands will touch it |
| Dispatch.NothingDangles | complib/cl_dispatcher.c:75-119 | in every reachable state the count is exactly the undelivered incoming messages plus the posted ones still owing a completion, and no message will touch a registrant that unregister has freed |
| Dispatch.NothingStranded | complib/cl_dispatcher.c:83-118 | in every reachable state with a non-empty FIFO a poster is still to signal, an event is counted, or some worker will look at the FIFO again |
| Dispatch.OwnStepsEnd | complib/cl_threadpool.c:56-73 | every step of the threads themselves decreases a measure, so between posts they come to rest |
| Dispatch.RestMeansDone | complib/cl_dispatcher.c:275-281 | at rest, with at least one thread, the FIFO is empty and all counts are 0, so a waiting unregister gets through |
| Dispatcher.Dispatcher.Register | complib/cl_dispatcher.c:198-250 | the locked section is that step and keeps the whole invariant; a taken message id is refused |
| Dispatcher.Dispatcher.UnregisterFirst | complib/cl_dispatcher.c:252-274 | clearing the vector entry, so that further posts to the id fail, keeps the invariant |
| Dispatcher.Dispatcher.UnregisterPoll | complib/cl_dispatcher.c:275-284 | freeing only at count 0 |
| Dispatcher.Dispatcher.Post | complib/cl_dispatcher.c:287-342 | the locked section is that step, with its three outcomes, and keeps the invariant |
| Dispatcher.Dispatcher.SignalPool | complib/cl_threadpool.c:141-150 | one more event |
| Dispatcher.Dispatcher.WakeUp | complib/cl_threadpool.c:60-66 | a worker takes one event |
| Dispatcher.Dispatcher.TakeMessage | complib/cl_dispatcher.c:80-101 | the head of the worker's loop |
| Dispatcher.Dispatcher.AfterReceive | complib/cl_dispatcher.c:101-105 | the receiver's reference is given up |
| Dispatcher.Dispatcher.AfterComplete | complib/cl_dispatcher.c:107-111 | the sender's reference is given up |
| EventWheel.PlacedWheel | complib/cl_event_wheel.c:385-395 | inserting behind the last event that ages earlier keeps the list sorted and its keys distinct, and adds only that event |
| EventWheel.RegisteredWheel | complib/cl_event_wheel.c:287-403 | registering an existing key moves its event, counts one more registration, and touches no other event; a new key starts at one |
| EventWheel.UnregisteredWheel | complib/cl_event_wheel.c:405-439 | unregistering removes exactly that key |
| EventWheel.TurnWheel | complib/cl_event_wheel.c:97-149 | one turn of the expiry loop works on the list head and keeps sorting and keys |
| EventWheel.TurnCalls | complib/cl_event_wheel.c:105-149 | the callback is asked with the event's key and its registration count, and its answer is the new aging time; an event without callback is retired |
| EventWheel.TurnOutcomes | complib/cl_event_wheel.c:97-149 | one turn changes the final outcome of no event and uses up one of the turns left |
| EventWheel.EndsExactly | complib/cl_event_wheel.c:97-160 | the expiry loop ends if and only if every aged event's callback sooner or later answers something other than the current time |
| EventWheel.NeverEnds | complib/cl_event_wheel.c:97-160 | one aged event whose callback always answers the current time: the loop does not end after any number of turns |
| EventWheel.Leaves | complib/cl_event_wheel.c:97-160 | when it ends the list holds exactly the outcomes of the events it found, all with aging time after the current time |
| WheelObject.EventWheelObj.FindFromTail | complib/cl_event_wheel.c:50-63 | the search from the tail finds the last event that ages earlier |
| WheelObject.EventWheelObj.Reg | complib/cl_event_wheel.c:287-403 | list and map change together as RegisteredWheel says, and the timer is started exactly when the event is the only one |
| WheelObject.EventWheelObj.Unreg | complib/cl_event_wheel.c:405-439 | list and map lose exactly that key |
| WheelObject.EventWheelObj.NumRegs | complib/cl_event_wheel.c:441-464 | the registrations counted for the key, 0 if it is not there |
| WheelObject.EventWheelObj.Expire | complib/cl_event_wheel.c:65-181 | the loop terminates under that condition and leaves exactly the outcomes, none aged, list sorted and in agreement with the map; the timer is restarted exactly when events are left |
| WheelObject.EventWheelObj.Serve | complib/cl_event_wheel.c:97-149 | the loop body is one turn |
| Timers.Leaves | complib/cl_timer.c:123-206 | taking a timer out of the queue keeps expiration order and the rule that a timer is queued, once, exactly while its state is QUEUED |
| Timers.Enters | complib/cl_timer.c:315-353 | so does putting one in at its time |
| Timers.EarlierExactly | complib/cl_timer.c:261-268 | one time is earlier exactly when its nanosecond count is less |
| Timers.HeadEarliest | complib/cl_timer.c:123-148 | the head of the queue, for which the provider waits, expires no later than any other |
| Timers.Provider.Init | complib/cl_timer.c:215-240 | a new timer is idle and not queued |
| Timers.Provider.Start | complib/cl_timer.c:315-353 | in any state the timer ends queued once, at its new time, all others where they were |
| Timers.Provider.StopFirst | complib/cl_timer.c:355-366 | a queued timer leaves the queue, an idle one is left alone, a running one must be waited for |
| Timers.Provider.StopAgain | complib/cl_timer.c:363-377 | after that wait a timer queued meanwhile leaves the queue, and no other moves |
| Timers.Provider.Expire | complib/cl_timer.c:149-182 | a timer whose wait ran out fires only if it is still queued, and leaves the queue wherever it stands by then |
| Timers.Provider.Done | complib/cl_timer.c:184-200 | after its callback a timer is idle unless it was started again |
| WheelTimer.NextWatched | complib/cl_event_wheel.c:164-181 | each step of wheel, timer and callback keeps pending events waited for |
| WheelTimer.NeverSleeps | complib/cl_event_wheel.c:344-384 | in every run, while the wheel is not closing: if events are pending, the timer is queued or its callback has yet to take the wheel's lock |
| WheelTimer.QuietMeansEmpty | complib/cl_event_wheel.c:164-181 | a running timer whose callback is done with the wheel leaves no event behind |
| WheelTimer.WorkGetsDone | complib/cl_event_wheel.c:65-181 | while events are pending the callback can be entered and then leaves nothing that has aged |
| WheelTimer.RegistersTimer | complib/cl_event_wheel.c:344-384 | registering starts the timer exactly when the event is the only one |
| WheelTimer.UnregistersOnly | complib/cl_event_wheel.c:405-439 | unregistering takes out that key and leaves the timer alone |
| Requests.SentKeeps | libvendor/osm_vendor_mlx.c:454-505 | sending starts a transaction with its timeout, or ends it at once with the error callback, and keeps map, wheel and counts in agreement |
| Requests.SendStarts | libvendor/osm_vendor_mlx.c:454-505 | a send that works puts one MAD on the wire, starts a transaction and arms one timeout at the deadline; one that fails makes one error callback and leaves nothing behind; a key in use and a lack of memory change nothing |
| Requests.ArrivedKeeps | libvendor/osm_vendor_mlx_dispatcher.c:190-289 | a response completes its request, cancels its timeout and keeps that agreement |
| Requests.ResponseCompletes | libvendor/osm_vendor_mlx_dispatcher.c:190-289 | a response to a request under way ends that request as answered, takes it out of map and wheel and touches no other; anything else that arrives changes nothing |
| Requests.AnsweredEnds | libvendor/osm_vendor_mlx_dispatcher.c:266-285 | over whole runs: a request whose response arrived with memory while it was under way ends as answered and in no other way |
| Requests.ExpiredKeeps | libvendor/osm_vendor_mlx_txn.c:527-680 | a timeout resends and arms again, or ends the request, and keeps that agreement |
| Requests.TimeoutServes | libvendor/osm_vendor_mlx_txn.c:560-616 | the earliest timeout is served: one more MAD and the next timeout while retries last, else one error callback and the end |
| Requests.ReachesKeeps | libvendor/osm_vendor_mlx_txn.c:225-266 | in every run: a key is in the transaction map exactly when it is in the wheel, the event counts the sends, and each request is under way or ended, never both |
| Requests.AtMostOneCallback | libvendor/osm_vendor_mlx_txn.c:527-680 | a request gets at most one callback, receive or error, and is then gone from map and wheel |
| Requests.UnansweredEnds | libvendor/osm_vendor_mlx_txn.c:560-615 | a request never answered and without failed sends has been sent 1 + k times after k timeouts; the timeout after OSM_DEFAULT_RETRY_COUNT retries ends it with one error callback and 1 + OSM_DEFAULT_RETRY_COUNT sends |
| TxnManager.Manager.Finish | libvendor/osm_vendor_mlx_txn.c:225-266 | cancels the timeout and forgets the transaction |
| TxnManager.Manager.SendRequest | libvendor/osm_vendor_mlx.c:415-505 | on the live map and wheel the request path is that step: non-unique key and memory reported to the caller, failed send or timeout set-up by the error callback |
| TxnManager.Manager.SetTimeout | libvendor/osm_vendor_mlx_txn.c:194-207 | registers the key with the wheel at its deadline |
| TxnManager.Manager.Dispatch | libvendor/osm_vendor_mlx_dispatcher.c:190-289 | on the live map and wheel an arriving MAD is that step: unmatched responses and duplicate transaction ids are dropped |
| TxnManager.Manager.TimeoutCb | libvendor/osm_vendor_mlx_txn.c:560-616 | retry while at most OSM_DEFAULT_RETRY_COUNT registrations, else give up; what each branch returns to the wheel |
| TxnManager.Manager.ServeHead | complib/cl_event_wheel.c:97-149 | one turn of the wheel with that callback is one timeout step |

## Left out

- Fleximap: not written a second time; its operations are those of the map with a comparator (see above).
- ObjMaps.ObjMap.Insert: works on the map's order instead of linked items, because the linked map is proved separately; item identity is kept, link structure is not repeated. ObjMapLinks relates the two operation by operation.
- cl_map_get, cl_map_get_next, cl_map_remove, cl_map_remove_all: one-line wrappers or a loop over the removal that is modelled.
- cl_qcpool_get_tail, put_list, destroy callbacks, cl_cpool and cl_pool front ends: variants of what is modelled.
- cl_heap_resize, cl_heap_destroy: memory handling only.
- WheelObject.EventWheelObj.Reg: the timer's 32-bit timeout is not computed, and the wheel is not shown to wake early enough, because an event registered before the current head does not restart the timer.
- WheelObject.EventWheelObj.Valid: holds the current value of an event in list and map, where the source links one record into both.
- Timers.Provider.Expire: does not model when a wait ends; a timer restarted during its wait may fire early in the source.
- RmppRun.RunSafe: one message per transaction id for the whole run, so not a later transfer that reuses an id with other bytes; memory failure while a receive context is being created is not modelled, nor are RMPP transfers that answer an RMPP request (double-sided) and the multi-response methods.
- RmppMessages.SegEncodes: for transaction ids that fit in their eight bytes, as the source's always do.
- RmppSar.Sar.Reassemble: not for lists whose lengths do not fit the buffer, where the source would copy past its ends; exactly which these are is HoldableExactly.
- RmppReceive.RecvCtx.Receive: not for MADs whose lengths make the join leave its buffers; exactly which sizes do is OverrunExactly.
- RmppDispatch.RmppNode.Take: excludes the same MADs.
- RmppDispatch.RmppNode.Dispatch: excludes the same MADs.
- RmppDispatch.RmppNode.Open: a memory failure while the context is created is not modelled.
- RmppSizes.LastTestExact: for sizes whose lengths stay within uint32_t; larger ones wrap.
- RmppSend.SendCtx.Turn: the sleep between turns is a step of the runs in RmppTransfer and RmppLossy, which also allow wake-ups that the source would not make.
- Requests.AtMostOneCallback: requests in one MAD answered by one MAD; unbinding, and a response that turns out to be RMPP, are not part of it; a transaction id that the caller reuses while it is in use is refused as in the source.
- TxnManager.Manager.ServeHead: for time stamps that do not run backwards.
- TxnManager.Manager.TimeoutCb: the arms for RMPP senders and receivers, and a binding that is closing, are not in it; the receiver's is Expires in RmppRun.
- Dispatcher.Dispatcher.Register: the list of registrants used at shutdown is not modelled, nor is a failure to grow the message-id vector.
- Shutdown of the dispatcher and of the thread pool, cancellation and spurious wake-ups of raw threads.
- Device, ioctl, umad, VAPI and simulator transports, port discovery, logging, dumps, string tables, the packet randomizer: input and output.
- put_madw in libvendor/osm_vendor_ibumad.c, libvendor/osm_vendor_mtl_transaction_mgr.c, cl_vector and cl_ptr_vector: outside these four parts.
