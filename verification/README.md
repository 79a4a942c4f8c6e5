# PixelForge containers and pools, in Dafny

This project models the concurrent and intrusive containers of PixelForge, its block pools and
its compile-time integer text conversion, and proves what they promise.

- **Ticket ring (`MpmcProtocol`, `MpmcTheorems`, `MpmcRefusals`, `MpmcObservers`,
  `MpmcQueue`).** The multi-producer multi-consumer ring with its four cursors. Each atomic load,
  compare-exchange, `fetch_add` and store is one step, and so is each construction, move and
  destruction of a slot. Any number of threads mix `try_` and `wait_` operations; a weak
  compare-exchange may fail for no reason.
  Why an operation refuses, or goes round its loop, is told from what others did since it began,
  and what `size`, `empty` and `full` answer from what the queue held between their loads.
- **Pools (`PoolTags`, `BlockPool`, `ConcurrentPool`, `ConcurrentPoolTheorems`,
  `ConcurrentPoolArenas`, `PoolArenas`, `PoolGeometry`).** The lock-free pool, a tagged free
  list threaded through the free blocks, whose holders may overwrite the link words, and its
  sequential, pointer-linked twin; and the alignment and stride arithmetic under both.
- **Concurrent linked queues (`ConcurrentList`, `ConcurrentListTheorems`,
  `ConcurrentListResults`, `ConcurrentLLQueues`).** The dummy-headed list of one consumer and one
  or many producers, where a producer publishes in two steps and a pop moves the value back into
  the old head.
- **Owning linked queue (`LinkedNodes`, `OwningLLQueue`, `QueueSystem`).** Heap nodes, the
  adapter that links them, the queue that takes them from a resource and gives them back, and
  programs of any number of such queues.
- **SPSC ring and sequential ring (`SpscProtocol`, `SpscTheorems`, `SpscResults`, `SpscQueue`,
  `RingSpec`, `RingQueues`).** 64-bit cursors that wrap, masked into a power of two.
- **Integer text (`IntStrings`, `IntParsing`).** Printing and reading in any base, with the
  widths of the types involved.

The concurrent objects are each given twice. A machine over values has a transition for every
access, an invariant kept by every transition, and theorems over all finite runs. A class holds
the same state in fields and an array and has one method for every access; each method is proved
to be exactly the transition (`View() == Step(old(View()), ...)`), so what is proved of runs of
the machine is true of the object. Whole operations of the objects are given too, and proved
against the abstract queue or pool when nobody interrupts them; what they report when others do
is told from the run. Interleavings are sequentially consistent. Fields and parameters called
history record what happened and decide nothing. Theorems that ask for the invariant hold in
every reachable state, which the `ReachableInv` lemmas provide.

## Results that are not what the comments say

Where a promise does not hold, the model keeps the code as it is; a lemma or a method shows the
failure on a run or an input, and a contract says exactly when the promise holds.

- The lock-free pool's tag does not protect across an empty list, since null carries no
  generation. Failing run: `HeldBlockHandedOutAgain`. Exact: `AllocationRightIff`. What a caller
  can see to: `NeverExhaustedIsSafe`.
- `remaining()` of the ticket ring can underflow, since `size()` can return any number, although
  `size()` itself never underflows (`SplitLoadsNeverUnderflow`). Failing runs:
  `SizeCanExceedCapacity`. Exact: `RemainingUnderflowsIff`. What a caller can see to:
  `QuietSizeIsExact`.
- The emptiness test of the ticket ring is not safe against wrapping cursors. Failing inputs:
  `EmptyTestFails`. Exact: `EmptyTestUnderWrap`. The ring is therefore modelled with fewer than
  2^64 operations.
- `valid_init` of both concurrent rings accepts capacity 1, which `idx` forbids. Failing input:
  `CapacityOneIsAccepted`. Exact: `AcceptedIsValidIff`. The models start at 2.
- The comments of the ticket ring speak of a closed queue; the code has no such state.
- `pop` of the multi-producer list is documented to return null when the queue is empty; it also
  does while the producer next in line has not stored its link. Failing run:
  `PopMissesCompletedPush`. Exact: `PopReturnsNullIff`.
- Interoperability of resources is asked only of the two queues at hand, never of the resource
  that gave the nodes out, so a node can end up with a resource that cannot free it. Failing run:
  `ThreeResourcesFreeWrongly`. Exact: `EveryFreeIsRight` and `WrongFree`. What a caller can see
  to: `TransitiveIsEnough`.
- A move of values between resources that do not interoperate is not undone when an allocation
  fails midway: the values moved so far are destroyed with the nodes built for them. Failing run:
  `FailedMoveLosesValue`. Exact: `OwningLLQueue.Queue.MoveFrom`, which loses exactly the values
  moved before the first refused request.
- Copy assignment of the ring queue compares raw cursors: it copies everything or nothing.
  Failing run: `CopyOfWrappedIsEmpty`. Exact: `RingQueues.RingQueue.CopyAssign`.
- Move assignment of the sequential pool leaves the source's free head. Failing runs:
  `MovedFromPoolKeepsHead`. Exact: `PoolArenas.PoolArena.MoveAssign`.
- Parsing undoes printing except for the least value of a wide signed type and for digit sets
  with a repeated glyph or a leading minus sign. Exact: `UnsignedRoundTrip`,
  `NonNegativeRoundTrip`, `NegativeRoundTrip`. `char_to_int` accepts glyphs beyond the base; so
  does the model.

## Model

| member | source | states |
|---|---|---|
| MpmcTheorems.RunRefines | libs/containers/queue/ring/mpmc.cppm:172-337 | Main result. Every interleaving of any number of threads mixing `try_` and `wait_` pushes and pops, with spurious compare-exchange failures, is a run of the bounded FIFO: a push takes effect at its write commit, a pop at its winning compare-exchange, everything else changes nothing |
| MpmcTheorems.EventRefines | libs/containers/queue/ring/mpmc.cppm:172-337 | One access of one thread does to the contents exactly what its effect does to a bounded FIFO, and keeps the invariant |
| MpmcTheorems.EachValueOnceInOrder | libs/containers/queue/ring/mpmc.cppm:166-337 | Values pushed, in commit order, are the values popped, in ticket order, followed by the contents; the values actually delivered are a prefix of them |
| MpmcTheorems.EffectIsFinal | libs/containers/queue/ring/mpmc.cppm:172-337 | An operation has at most one effect and keeps it until it returns |
| MpmcTheorems.ResultMatchesEffect | libs/containers/queue/ring/mpmc.cppm:256-288 | A success reports the one effect the operation had, with the value pushed or popped; a failure reports none; the `wait_` operations never fail |
| MpmcRefusals.RefusedPopWasBlocked | libs/containers/queue/ring/mpmc.cppm:256-279 | Whoever else is inside: a `try_pop` that returns nothing had a reason at some moment since its call: no value was there, or another thread was midway through a pop, or its weak compare-exchange failed for no reason |
| MpmcRefusals.UnblockedPopSucceeds | libs/containers/queue/ring/mpmc.cppm:262-319 | The other way: a pop of either kind that meets none of these has taken a value after four accesses of its own, whatever others do |
| MpmcRefusals.PopRoundWasBlocked | libs/containers/queue/ring/mpmc.cppm:301-319 | A round of `wait_pop` that goes back to its loads without a ticket had one of these reasons since it began |
| MpmcRefusals.PopRoundsEnd | libs/containers/queue/ring/mpmc.cppm:301-319 | Every round of a pop is over after a bounded number of accesses, the spin included |
| MpmcRefusals.RefusedPushWasBlocked | libs/containers/queue/ring/mpmc.cppm:166-192 | A `try_emplace` that returns false had a reason at some moment since its call: every slot was reserved or not handed back, or another thread was midway through a push, or its weak compare-exchange failed for no reason |
| MpmcRefusals.UnblockedPushSucceeds | libs/containers/queue/ring/mpmc.cppm:172-236 | The other way: a push of either kind that meets none of these has its ticket, or is done, after four accesses of its own |
| MpmcRefusals.PushRoundWasBlocked | libs/containers/queue/ring/mpmc.cppm:216-236 | A round of `wait_emplace` that goes back to its loads without a ticket had one of these reasons since it began |
| MpmcRefusals.PushRoundsEnd | libs/containers/queue/ring/mpmc.cppm:216-236 | Every round of a push is over after a bounded number of accesses, the spin included |
| MpmcTheorems.ReachableInv | libs/containers/queue/ring/mpmc.cppm:357-360 | Every reachable state satisfies the protocol invariant |
| MpmcTheorems.CursorsInOrder | libs/containers/queue/ring/mpmc.cppm:133-164 | In every reachable state read.committed <= read.reserved <= write.committed <= write.reserved <= read.committed + capacity |
| MpmcTheorems.SplitLoadsNeverUnderflow | libs/containers/queue/ring/mpmc.cppm:133-164 | Whatever happens between the two loads of `size`, of `full` and of the capacity tests, the later cursor is not below the earlier one |
| MpmcTheorems.EmptyTestUnderWrap | libs/containers/queue/ring/mpmc.cppm:268-272 | With 64-bit cursors less than 2^64 apart, whichever is ahead, the test `produced <= reserved` gives the right answer if and only if they are in the same turn of the word; the protocol therefore counts without wrapping |
| MpmcTheorems.EmptyTestFails | libs/containers/queue/ring/mpmc.cppm:268-272 | A finding, both ways: with cursors about to wrap a queue holding one value reads as empty, and an empty one, past which a consumer has moved since a stale load, as holding something |
| MpmcObservers.SizeMeans | libs/containers/queue/ring/mpmc.cppm:133-140 | Whatever others do between its two loads, `size()` returns the number of values at the first load plus those pushed since, which is the number at the second load plus those popped since: never less than the queue held at either moment |
| MpmcObservers.RemainingUnderflowsIff | libs/containers/queue/ring/mpmc.cppm:142-145 | The subtraction in `remaining()` underflows if and only if more values were pushed between the two loads than there was room for at the first |
| MpmcObservers.QuietSizeIsExact | libs/containers/queue/ring/mpmc.cppm:133-145 | What a caller can see to: with no push in progress at the first load and none started before the second, `size()` is the number of values at the first load and at most the capacity |
| MpmcObservers.SizeCanExceedCapacity | libs/containers/queue/ring/mpmc.cppm:133-145 | A finding: for every capacity and every number n there is a run on which `size()` of an empty queue returns n |
| MpmcObservers.EmptyMeans | libs/containers/queue/ring/mpmc.cppm:147-150 | `empty()` says yes if and only if nothing was there at the first load and nothing was pushed before the second; the queue was then empty at both |
| MpmcObservers.FullMeans | libs/containers/queue/ring/mpmc.cppm:159-164 | `full()` says no only when some slot is free at its second load; it says yes if and only if the slots taken then and those handed back since the first load make up the capacity |
| MpmcTheorems.TicketsExact | libs/containers/queue/ring/mpmc.cppm:176-197 | The outstanding tickets of each side are exactly [committed, reserved), and each has exactly one thread inside an operation as its holder |
| MpmcTheorems.CommitAdvancesByOne | libs/containers/queue/ring/mpmc.cppm:196-197 | `fetch_add(1)` after a `try_` operation and the plain store after a `wait_` operation both advance their committed cursor by exactly one, from the ticket of the committer; no other step moves it |
| MpmcTheorems.TryHoldsOldestTicket | libs/containers/queue/ring/mpmc.cppm:181-197 | A `try_` thread that won its compare-exchange holds the oldest ticket of its side until it commits, even with `wait_` threads queued behind it |
| MpmcTheorems.SlotExclusion | libs/containers/queue/ring/mpmc.cppm:362-366 | No two threads, producers and consumers alike, ever hold tickets of the same physical slot |
| MpmcTheorems.LifetimesRespected | libs/containers/queue/ring/mpmc.cppm:194-197 | A value is constructed only in a raw slot, moved only out of a live slot, where it is the value committed under that ticket, and destroyed only after it was moved out |
| MpmcTheorems.DrainedIsRaw | libs/containers/queue/ring/mpmc.cppm:113-115 | A drained queue with nobody inside an operation holds no object in any slot |
| MpmcTheorems.OldestHolders | libs/containers/queue/ring/mpmc.cppm:238-253 | Whoever took the oldest outstanding ticket of a side is still inside its operation, and every other holder of that side is waiting its turn |
| MpmcTheorems.PushLeaderProgress | libs/containers/queue/ring/mpmc.cppm:241-253 | Each step of the holder of the oldest write ticket, spin and stale reads included, strictly decreases the outstanding work of that side |
| MpmcTheorems.PopLeaderProgress | libs/containers/queue/ring/mpmc.cppm:323-336 | The same for the oldest read ticket |
| MpmcTheorems.PushTicketsDrain | libs/containers/queue/ring/mpmc.cppm:241-253 | With no new write tickets, every schedule that gives the oldest holders `PushWork` steps commits all outstanding tickets, whatever the other threads do in between |
| MpmcTheorems.PopTicketsDrain | libs/containers/queue/ring/mpmc.cppm:323-336 | The same for read tickets |
| MpmcTheorems.OutstandingTicketsCanDrain | libs/containers/queue/ring/mpmc.cppm:241-253 | No deadlock: from every reachable state some schedule commits every outstanding ticket of both sides without taking a new one |
| MpmcProtocol.ExecKeepsInv | libs/containers/queue/ring/mpmc.cppm:172-337 | The invariant (cursor order, one holder a ticket, what each slot holds, what each program counter has loaded) survives every run |
| MpmcProtocol.TakeWriteTicketKeepsShape | libs/containers/queue/ring/mpmc.cppm:187-192 | A won compare-exchange on the write side keeps the ticket book and the slot window |
| MpmcProtocol.TakeReadTicketKeepsShape | libs/containers/queue/ring/mpmc.cppm:274-279 | A won compare-exchange on the read side keeps them |
| MpmcProtocol.ConstructValueKeepsShape | libs/containers/queue/ring/mpmc.cppm:194-196 | Constructing in the slot of the oldest ticket keeps them |
| MpmcProtocol.CommitPushKeepsShape | libs/containers/queue/ring/mpmc.cppm:250-251 | Publishing a slot keeps them |
| MpmcProtocol.MoveOutKeepsShape | libs/containers/queue/ring/mpmc.cppm:283-284 | Moving the value out keeps them |
| MpmcProtocol.DestroySlotKeepsShape | libs/containers/queue/ring/mpmc.cppm:284-285 | Destroying what the move left keeps them |
| MpmcProtocol.CommitPopKeepsShape | libs/containers/queue/ring/mpmc.cppm:332-334 | Handing the slot back keeps them |
| RingWindow.AdvanceRead | libs/containers/queue/ring/mpmc.cppm:362-366 | The slot handed back is the last slot of the next lap: the window of expected slot contents moves on by one |
| RingWindow.SetBack | libs/containers/queue/ring/mpmc.cppm:194-197 | Rewriting the slot of the oldest write ticket disturbs no other slot of the lap |
| RingWindow.SetFront | libs/containers/queue/ring/mpmc.cppm:281-285 | Rewriting the slot of the oldest read ticket disturbs no other slot of the lap |
| MpmcQueue.MPMCRingQueue.constructor | libs/containers/queue/ring/mpmc.cppm:107-111 | Starts with raw slots and zero cursors |
| MpmcQueue.MPMCRingQueue.Idx | libs/containers/queue/ring/mpmc.cppm:362-366 | `num & m_mask` is the slot of the counter, inside the storage |
| MpmcQueue.MPMCRingQueue.AdvancePush | libs/containers/queue/ring/mpmc.cppm:172-254 | One atomic access of `try_emplace` or `wait_emplace` on the object is the step of the protocol, and keeps it valid |
| MpmcQueue.MPMCRingQueue.AdvancePop | libs/containers/queue/ring/mpmc.cppm:262-337 | The same for `try_pop` and `wait_pop` |
| MpmcQueue.MPMCRingQueue.AdvanceObserve | libs/containers/queue/ring/mpmc.cppm:133-164 | The same for the loads of `size` and `full` |
| MpmcQueue.MPMCRingQueue.TryEmplace | libs/containers/queue/ring/mpmc.cppm:172-200 | `try_emplace` that is not interrupted and does not fail for no reason, with other threads wherever they are: true if and only if a slot is free and nobody is midway through a push, and then the value is the last one; alone, if and only if there is room |
| MpmcQueue.MPMCRingQueue.TryPop | libs/containers/queue/ring/mpmc.cppm:262-288 | `try_pop` in the same way: the first value, which leaves the queue, if and only if there is one and nobody is midway through a pop; alone, if and only if there is one |
| MpmcQueue.MPMCRingQueue.Size | libs/containers/queue/ring/mpmc.cppm:133-140 | `size()` with nothing between its loads is the number of values |
| MpmcQueue.MPMCRingQueue.Full | libs/containers/queue/ring/mpmc.cppm:159-164 | `full()` with nothing between its loads says whether every slot is taken |
| BoundedFifo.FifoConserves | libs/containers/queue/ring/mpmc.cppm:51-62 | In a legal run of the bounded FIFO nothing is lost, duplicated or reordered, and the bound holds |
| ConcurrentPoolTheorems.ReachableInv | libs/mem/modules/pool_arena.cppm:148-192 | On every run in which no winning allocation saw the list empty since its load, and no generation wrapped, the chain from the head is finite and duplicate-free and, with the held blocks and those being returned, partitions [0, n) |
| ConcurrentPoolTheorems.ChainIsUnique | libs/mem/modules/pool_arena.cppm:233-238 | The chain is determined by the head and the in-block links alone |
| ConcurrentPoolTheorems.RunRefines | libs/mem/modules/pool_arena.cppm:148-192 | Main result. Every such run refines a LIFO stack of blocks: won allocations pop, won deallocations push, everything else, including writes of holders into link words, changes nothing |
| ConcurrentPoolTheorems.NeverExhaustedIsSafe | libs/mem/modules/pool_arena.cppm:148-192 | What a caller can see to: a run on which some block is always free, and with too few completed deallocations for the generation to wrap, meets the hypotheses and is a run of the stack of blocks |
| ConcurrentPoolTheorems.EventRefines | libs/mem/modules/pool_arena.cppm:148-192 | One event does to the stack what the specification says |
| ConcurrentPoolTheorems.AllocationNeverHandsOutHeldBlock | libs/mem/modules/pool_arena.cppm:163-167 | A winning allocation returns the first free block: nobody holds it and nobody is returning it |
| ConcurrentPoolTheorems.FullIffExhausted | libs/mem/modules/pool_arena.cppm:95-98 | The head is null if and only if every block is held or on its way back |
| ConcurrentPoolTheorems.AllocationFailsOnlyWhenExhausted | libs/mem/modules/pool_arena.cppm:150-155 | An allocation gives up only on a head loaded while the pool was exhausted |
| ConcurrentPoolTheorems.RefusedAllocationSawExhaustion | libs/mem/modules/pool_arena.cppm:148-171 | On every such run, however many compare-exchanges it loses: an allocation that returns null is right, at some moment since its call every block was held or on its way back |
| ConcurrentPoolTheorems.OnlyLostRacesRepeat | libs/mem/modules/pool_arena.cppm:152-191 | Each access of `allocate` and of `deallocate` brings it nearer to its end, unless it loses its compare-exchange for no reason or because the head is not the one it loaded |
| ConcurrentPoolTheorems.ChangedHeadMeansWinner | libs/mem/modules/pool_arena.cppm:152-191 | Lock freedom: when the head is no longer the one a thread loaded, another operation has taken effect in between |
| ConcurrentPoolTheorems.GenerationGrows | libs/mem/modules/pool_arena.cppm:240-258 | While the list is never empty the generation never decreases and strictly grows with every deallocation |
| ConcurrentPoolTheorems.SameTagMeansUntouched | libs/mem/modules/pool_arena.cppm:150-163 | No ABA: if the head never became null and is the same tagged word again, no allocation or deallocation won in between and the link that was read is still the true next |
| ConcurrentPoolTheorems.AllocationRightIff | libs/mem/modules/pool_arena.cppm:157-163 | For every state and however stale the load: a winning allocation keeps the pool sound if and only if the link it read leads to the head that the link its block holds now leads to |
| ConcurrentPoolTheorems.HeldBlockHandedOutAgain | libs/mem/modules/pool_arena.cppm:161-184 | A finding: null carries no generation, so after the list was empty an old tag can come back; on a concrete run with two blocks a held block is handed out a second time |
| ConcurrentPool.ExecKeepsInv | libs/mem/modules/pool_arena.cppm:148-192 | The invariant survives every safe run |
| ConcurrentPool.PopKeepsLinked | libs/mem/modules/pool_arena.cppm:157-163 | Popping leaves the rest of the chain linked, whatever is later written into the popped block |
| ConcurrentPool.PushKeepsLinked | libs/mem/modules/pool_arena.cppm:183-189 | Pushing a block whose word holds the index of the old head extends the chain |
| ConcurrentPoolArenas.ConcurrentPoolArena.constructor | libs/mem/modules/pool_arena.cppm:42-52 | The checked parameters give a sound pool with all blocks free in index order, aligned at least as asked for and for a link |
| ConcurrentPoolArenas.ConcurrentPoolArena.InitialiseFreeList | libs/mem/modules/pool_arena.cppm:225-231 | The loop threads every block to the next, the last to null |
| ConcurrentPoolArenas.ConcurrentPoolArena.Resolve | libs/mem/modules/pool_arena.cppm:120-130 | The address of a block is aligned for the pool, a stride multiple into the buffer, and its index is found again |
| ConcurrentPoolArenas.ConcurrentPoolArena.Full | libs/mem/modules/pool_arena.cppm:95-98 | `full()` is true if and only if every block is held or on its way back |
| ConcurrentPoolArenas.ConcurrentPoolArena.AdvanceSafely | libs/mem/modules/pool_arena.cppm:148-192 | Outside the excluded steps each access keeps the object valid |
| ConcurrentPoolArenas.ConcurrentPoolArena.Allocate | libs/mem/modules/pool_arena.cppm:148-169 | `allocate` that is not interrupted, with other threads wherever they are: address, size and index of the first free block, taken off the stack, or null if and only if no block is free |
| ConcurrentPoolArenas.ConcurrentPoolArena.AllocateFor | libs/mem/modules/pool_arena.cppm:171-176 | `allocate(size, alignment)`: as many bytes, aligned as asked for |
| ConcurrentPoolArenas.ConcurrentPoolArena.Deallocate | libs/mem/modules/pool_arena.cppm:178-211 | `deallocate` of a held block that is not interrupted: the block found by its offset is on top of the stack, and no other block has been written |
| ConcurrentPoolArenas.ConcurrentPoolArena.WriteHeld | libs/mem/modules/pool_arena.cppm:165-166 | A holder may write anything into the link word of its block |
| PoolTags.TagParts | libs/mem/modules/pool_arena.cppm:240-253 | Masks and or split a tagged word into a generation, a multiple of the block count, and an index |
| PoolTags.TagRoundTrip | libs/mem/modules/pool_arena.cppm:240-253 | `index_of` and `generation_of` undo `tag_idx`, and no tag below the wrap bound collides with null |
| PoolTags.TagInjective | libs/mem/modules/pool_arena.cppm:250-253 | Equal tags have equal generations and equal indices |
| PoolTags.BumpGrows | libs/mem/modules/pool_arena.cppm:255-258 | `bump_generation` gives a strictly greater legal generation until it wraps |
| BlockPool.RunKeepsPartition | libs/mem/modules/pool_arena.cppm:355-390 | Every run of the stack specification keeps free and held blocks a partition of the pool |
| BlockPool.FullIffAllHeld | libs/mem/modules/pool_arena.cppm:314-317 | No block is free if and only if as many are held as there are |
| BlockPool.Draining | libs/mem/modules/pool_arena.cppm:355-363 | Taking until the list is empty hands out every free block exactly once, in order |
| PoolArenas.PoolArena.constructor | libs/mem/modules/pool_arena.cppm:273-283 | The checked parameters give a valid pool with all blocks free in index order, aligned at least as asked for and for a link |
| PoolArenas.PoolArena.Null | libs/mem/modules/pool_arena.cppm:264-264 | A default-constructed arena is valid, null and without blocks |
| PoolArenas.PoolArena.InitialiseFreeList | libs/mem/modules/pool_arena.cppm:409-417 | The downward loop threads all blocks in index order |
| PoolArenas.PoolArena.HeadPointer | libs/mem/modules/pool_arena.cppm:397-403 | The head is null if and only if no block is free, and otherwise is the address of the first free block |
| PoolArenas.PoolArena.Full | libs/mem/modules/pool_arena.cppm:314-317 | `full()` holds if and only if as many blocks are held as there are |
| PoolArenas.PoolArena.Allocate | libs/mem/modules/pool_arena.cppm:355-363 | Pops the stack: the pointer is the first free block, aligned for the pool and inside the buffer, or null with size zero when all are held |
| PoolArenas.PoolArena.AllocateFor | libs/mem/modules/pool_arena.cppm:365-371 | `allocate(bytes, alignment)`: as many bytes, aligned as asked for, or null when all blocks are held |
| PoolArenas.PoolArena.Deallocate | libs/mem/modules/pool_arena.cppm:379-390 | Pushes the held block at the given address, found by its offset |
| PoolArenas.PoolArena.WriteHeld | libs/mem/modules/pool_arena.cppm:361-362 | Whatever a holder writes into its block, the pool stays valid |
| PoolArenas.PoolArena.Move | libs/mem/modules/pool_arena.cppm:289-295 | Move construction from any arena, null or not, takes everything over and leaves the source null |
| PoolArenas.PoolArena.MoveAssign | libs/mem/modules/pool_arena.cppm:297-310 | Move assignment into any null arena takes everything over, into itself does nothing; a finding: the free head of the source stays, null if and only if its list was empty |
| PoolArenas.MovedFromPoolKeepsHead | libs/mem/modules/pool_arena.cppm:297-310 | A finding: every pool with a free block, moved into a null arena, is null afterwards and still has as its head a block the other arena hands out |
| PoolArenas.EveryRunPartitions | libs/mem/modules/pool_arena.cppm:355-390 | On every run from a fresh pool free and held blocks partition it, and the list is empty if and only if all are held |
| PoolArenas.DrainingFreshPool | libs/mem/modules/pool_arena.cppm:355-417 | Draining a fresh pool yields blocks 0, 1, ..., n - 1, each once |
| PoolGeometry.PaddingIsLeast | libs/mem/modules/align.cppm:17-23 | The padding is the least number that brings the address to a multiple of the alignment, and is smaller than the alignment |
| PoolGeometry.PoolAlignmentSuffices | libs/mem/modules/pool_arena.cppm:44-44 | A pool is aligned as asked for, unless that is less than a link needs |
| PoolGeometry.AlignedAsAsked | libs/mem/modules/pool_arena.cppm:44-49 | What is aligned for the pool is aligned for the alignment asked for and for a link |
| PoolGeometry.StrideFits | libs/mem/modules/pool_arena.cppm:44-46 | The stride holds a block and a link word, is a multiple of the alignment asked for and of that of a link, and is as small as the alignment of the pool allows |
| PoolGeometry.AddressIndexRoundTrip | libs/mem/modules/pool_arena.cppm:120-130 | From index to address and back is the identity, inside the buffer |
| PoolGeometry.IndexAddressRoundTrip | libs/mem/modules/pool_arena.cppm:200-211 | From a checked address to index and back is the identity |
| PoolGeometry.BlocksDisjoint | libs/mem/modules/pool_arena.cppm:120-130 | Blocks lie in the buffer, are aligned as asked for and for a link, and no two of them share a byte |
| ConcurrentListTheorems.RunRefines | libs/containers/queue/linked_list/concurrent.cppm:104-237 | Main result. Every interleaving of any number of producers and the consumer, for both kinds of queue and with popped nodes emplaced again, is a run of a FIFO queue bounded by the nodes: a push where its producer takes the tail, a pop where the front moves on, with the value that is in the node handed out |
| ConcurrentListTheorems.EventRefines | libs/containers/queue/linked_list/concurrent.cppm:104-237 | One access of one thread does to the contents what its effect does to a FIFO queue, and keeps the invariant |
| ConcurrentListTheorems.PoppedArePrefixOfPushed | libs/containers/queue/linked_list/concurrent.cppm:104-120 | On every run the values taken out of the nodes handed out, in order, followed by those still in the queue, are the values pushed, in the order in which producers took the tail |
| ConcurrentListTheorems.FifoPerProducer | libs/containers/queue/linked_list/concurrent.cppm:231-237 | On every run the values of each producer come out of the nodes handed out in the order it pushed them |
| ConcurrentListTheorems.LinkedValuesAreTheUnpopped | libs/containers/queue/linked_list/concurrent.cppm:98-120 | Outside a pop the nodes behind the head hold exactly the values pushed and not popped, in order, and the head is the only linked node without a value |
| ConcurrentListTheorems.LinksWalk | libs/containers/queue/linked_list/concurrent.cppm:231-237 | Outside a pop, following next pointers from the front visits the linked nodes in tail order, ends exactly at the first place a producer still has to link or at the tail, and finds the oldest unpopped values in order |
| ConcurrentListTheorems.SettledChainIsWhole | libs/containers/queue/linked_list/concurrent.cppm:231-237 | When no producer is between its exchange and its store, the walk from the front ends at the back, and the nodes behind the head hold exactly the unpopped values in order |
| ConcurrentListTheorems.PoppedNodeIsClean | libs/containers/queue/linked_list/concurrent.cppm:104-120 | The node a pop returns is off the chain, no producer will store into it, and it carries the only live copy of its value |
| ConcurrentListTheorems.PopReturnsNullIff | libs/containers/queue/linked_list/concurrent.cppm:104-111 | A pop returns null if and only if the head has no next at its load: the queue is empty or the producer of the next node has not stored its link |
| ConcurrentListResults.NullPopSawNothingLinked | libs/containers/queue/linked_list/concurrent.cppm:104-111 | On every run, a pop that returns null is right: at some moment since its call the queue was empty or the producer of the next node had not stored its link |
| ConcurrentListResults.PopReportsItsEffect | libs/containers/queue/linked_list/concurrent.cppm:104-120 | On every run, a pop that returns a node has popped exactly the value in it, one that returns null has popped none, and either is over after four accesses of its own |
| ConcurrentListResults.EmplaceReportsItsEffect | libs/containers/queue/linked_list/concurrent.cppm:292-300 | On every run, an emplace that is done has pushed its value once, in the node it was given, and it is done after three accesses of its own |
| ConcurrentListTheorems.PopMissesCompletedPush | libs/containers/queue/linked_list/concurrent.cppm:314-320 | A finding: on a concrete run a pop returns null although a push by another producer has completed |
| ConcurrentListTheorems.SpareReturnsAllNodes | libs/containers/queue/linked_list/concurrent.cppm:325-341 | After the spare is popped every node is back in the hands of callers |
| ConcurrentListTheorems.NodesConserved | libs/containers/queue/linked_list/concurrent.cppm:286-323 | Every node is linked, in the hands of a caller, being prepared or being returned, and never two of these |
| ConcurrentListTheorems.ReachableInv | libs/containers/queue/linked_list/concurrent.cppm:174-237 | Every reachable state of the single-producer and of the multi-producer queue satisfies the invariant, with popped nodes emplaced again |
| ConcurrentList.ExecKeepsInv | libs/containers/queue/linked_list/concurrent.cppm:104-341 | The invariant survives every run |
| ConcurrentList.ExchangeKeepsInv | libs/containers/queue/linked_list/concurrent.cppm:234-234 | Taking the tail extends the chain with one broken place, owned by the producer |
| ConcurrentList.StoreKeepsInv | libs/containers/queue/linked_list/concurrent.cppm:235-235 | Storing the link mends exactly that place |
| ConcurrentList.StoreNextKeepsInv | libs/containers/queue/linked_list/concurrent.cppm:177-177 | A lone producer links before it moves the tail |
| ConcurrentList.PopTakeKeepsInv | libs/containers/queue/linked_list/concurrent.cppm:113-115 | Moving the value back into the head keeps the chain and the values |
| ConcurrentList.PopAdvanceKeepsInv | libs/containers/queue/linked_list/concurrent.cppm:116-119 | Advancing the front drops exactly the old head |
| ConcurrentList.PopSpareKeepsInv | libs/containers/queue/linked_list/concurrent.cppm:125-131 | Popping the spare of a drained queue leaves nothing linked |
| ConcurrentLLQueues.ConcurrentLLQueue.constructor | libs/containers/queue/linked_list/concurrent.cppm:273-274 | Front and back start at the spare node |
| ConcurrentLLQueues.ConcurrentLLQueue.AdvanceProducer | libs/containers/queue/linked_list/concurrent.cppm:292-300 | One access of `emplace` on the object is the step of the machine |
| ConcurrentLLQueues.ConcurrentLLQueue.AdvanceConsumer | libs/containers/queue/linked_list/concurrent.cppm:104-120 | One access of `pop` on the object is the step of the machine |
| ConcurrentLLQueues.ConcurrentLLQueue.Emplace | libs/containers/queue/linked_list/concurrent.cppm:292-300 | `emplace` that is not interrupted, with the others wherever they are: its value is the last one pushed and nothing is popped |
| ConcurrentLLQueues.ConcurrentLLQueue.Pop | libs/containers/queue/linked_list/concurrent.cppm:104-120 | `pop` that is not interrupted: null if and only if the head has no next, otherwise the old head with the oldest value in it; with no producer inside, null if and only if the queue is empty |
| ConcurrentLLQueues.ConcurrentLLQueue.Empty | libs/containers/queue/linked_list/concurrent.cppm:276-279 | `empty()` says yes if and only if nothing is linked behind the head; with no producer inside, if and only if nothing is in the queue |
| ConcurrentLLQueues.ConcurrentLLQueue.PopSpare | libs/containers/queue/linked_list/concurrent.cppm:333-341 | The head of a drained queue is handed out, and null after that |
| LinkedNodes.LLQueue.Emplace | libs/containers/queue/linked_list/ll_queue.cppm:151-161 | The node becomes the last of the chain, with its value |
| LinkedNodes.LLQueue.Pop | libs/containers/queue/linked_list/ll_queue.cppm:181-196 | The first node leaves the chain with its value; nothing happens when there is none |
| LinkedNodes.LLQueue.TakeFrom | libs/containers/queue/linked_list/ll_queue.cppm:84-100 | The whole chain changes hands and the source is empty |
| LinkedNodes.LLQueue.MoveOut | libs/containers/queue/linked_list/ll_queue.cppm:723-725 | A value is moved out of a node that stays linked |
| LinkedNodes.FreedExactlyOnce | libs/containers/queue/linked_list/ll_queue.cppm:234-239 | In a legal history a node is given out at most once, and given back exactly once unless it is still live |
| OwningLLQueue.Memory.Allocate | libs/containers/queue/linked_list/ll_queue.cppm:554-556 | A fresh node or none, as the resource decides |
| OwningLLQueue.Memory.Deallocate | libs/containers/queue/linked_list/ll_queue.cppm:685-688 | Takes back only a live node that holds no value any more |
| OwningLLQueue.Queue.Move | libs/containers/queue/linked_list/ll_queue.cppm:428-430 | Move construction takes nodes and resource |
| OwningLLQueue.Queue.EmplaceNode | libs/containers/queue/linked_list/ll_queue.cppm:548-561 | Succeeds if and only if the resource grants a node; then the value is the last one and exactly that node was allocated; otherwise nothing changes |
| OwningLLQueue.Queue.PopNode | libs/containers/queue/linked_list/ll_queue.cppm:679-691 | Gives the oldest value and returns exactly its node to the resource |
| OwningLLQueue.Queue.Clear | libs/containers/queue/linked_list/ll_queue.cppm:662-667 | Returns every node, front to back, and leaves none |
| OwningLLQueue.Queue.CopyFrom | libs/containers/queue/linked_list/ll_queue.cppm:701-713 | On success an equal sequence in as many new nodes, one granted request each; on failure every node obtained went back, because the next request was refused; the source is untouched |
| OwningLLQueue.Queue.MoveFrom | libs/containers/queue/linked_list/ll_queue.cppm:719-730 | The same, moving: the nodes of the source stay, and exactly the values moved before the end or the failure are gone from it |
| OwningLLQueue.Queue.MoveOtherInto | libs/containers/queue/linked_list/ll_queue.cppm:773-787 | Main result. Both paths give the destination the value sequence of the source; takeover, if and only if there is something to take and the own resource, asked about the other one, says that they interoperate, allocates nothing and empties the source; rebuilding allocates exactly the length of the source and leaves its chain as it was |
| OwningLLQueue.Queue.CopyAssign | libs/containers/queue/linked_list/ll_queue.cppm:431-437 | Self-assignment does nothing; otherwise the own nodes go back first, then as `CopyFrom` |
| OwningLLQueue.Queue.MoveAssign | libs/containers/queue/linked_list/ll_queue.cppm:446-455 | The own nodes go back to the own resource, then nodes and resource of the source are taken together |
| OwningLLQueue.Queue.CrossMoveAssign | libs/containers/queue/linked_list/ll_queue.cppm:483-491 | The own nodes go back, then as `MoveOtherInto` |
| OwningLLQueue.HollowedAt | libs/containers/queue/linked_list/ll_queue.cppm:719-730 | What moving the first k values leaves in the source: those are gone, no other has changed |
| OwningLLQueue.FailedMoveLosesValue | libs/containers/queue/linked_list/ll_queue.cppm:719-730 | A finding: of two values moved to a resource with one node to give, the first is gone from both queues |
| OwningLLQueue.OwnsStays | libs/containers/queue/linked_list/ll_queue.cppm:443-444 | What a queue owns is not disturbed when another queue obtains nodes, or obtains some and gives them back |
| QueueSystem.RunKeepsPartition | libs/containers/queue/linked_list/ll_queue.cppm:446-455 | Main result. Over any sequence of events of any number of queues, whatever the resources say about one another, the live nodes are partitioned among their chains |
| QueueSystem.EveryLiveNodeHeldOnce | libs/containers/queue/linked_list/ll_queue.cppm:243-244 | In every program each live node is at exactly one place of exactly one chain, and that queue has a resource to give it back to |
| QueueSystem.EveryNodeFreedOnce | libs/containers/queue/linked_list/ll_queue.cppm:493-493 | In every program every node is given back at most once; once every queue is empty every node has been, and none is live |
| QueueSystem.EveryFreeIsWithinReach | libs/containers/queue/linked_list/ll_queue.cppm:773-784 | In every program a node goes back only to a resource that its chain reached, takeover by takeover, from the one that gave it out |
| QueueSystem.EveryFreeIsRight | libs/core/buffer/mem_resource.cppm:178-197 | Every node of every program goes back to a resource that can free it, if along every way a chain can take the last resource can free what the first gave out |
| QueueSystem.TransitiveIsEnough | libs/core/buffer/mem_resource.cppm:178-197 | It is enough that no resource claims too much, that each can free its own nodes, and that being able to free is transitive |
| QueueSystem.WrongFree | libs/containers/queue/linked_list/ll_queue.cppm:773-784 | And it is needed: for every way whose last resource cannot free what its first gave out there is a program that frees a node wrongly |
| QueueSystem.ThreeResourcesFreeWrongly | libs/containers/queue/linked_list/ll_queue.cppm:773-784 | A finding: three resources, each honestly interoperable with its neighbour, and a program that gives a node of the first back to the third, which cannot free it; the guard asks only about the resource of the queue the chain is taken from |
| QueueSystem.RebuildKeepsPartition | libs/containers/queue/linked_list/ll_queue.cppm:739-746 | The state `CopyAssign` and a rebuilding `CrossMoveAssign` reach is again partitioned, failures included |
| QueueSystem.MoveKeepsPartition | libs/containers/queue/linked_list/ll_queue.cppm:773-784 | The state `MoveAssign` and a `CrossMoveAssign` that takes over reach is again partitioned |
| QueueSystem.ClearKeepsPartition | libs/containers/queue/linked_list/ll_queue.cppm:662-667 | So is the state `Clear` reaches |
| QueueSystem.CrossMoveKeepsPartition | libs/containers/queue/linked_list/ll_queue.cppm:773-787 | The state a cross-resource move reaches is partitioned, whichever path it takes and whether or not it fails |
| QueueSystem.Emplace | libs/containers/queue/linked_list/ll_queue.cppm:548-561 | The operation on the object takes a partitioned program to a partitioned program in which only this queue changed |
| QueueSystem.Pop | libs/containers/queue/linked_list/ll_queue.cppm:638-656 | The same for `pop`, which reports an empty queue |
| QueueSystem.Clear | libs/containers/queue/linked_list/ll_queue.cppm:662-667 | The same for `clear`, which leaves no node, also of a queue without a resource, such as a moved-from one |
| QueueSystem.CopyAssign | libs/containers/queue/linked_list/ll_queue.cppm:739-746 | The same for copy assignment, also when it fails |
| QueueSystem.MoveAssign | libs/containers/queue/linked_list/ll_queue.cppm:446-455 | The same for move assignment: only the two queues changed |
| QueueSystem.CrossMoveAssign | libs/containers/queue/linked_list/ll_queue.cppm:752-787 | The operation on the objects reaches the state of the takeover when the resources interoperate and there is something to take, and of the rebuilding otherwise |
| SpscTheorems.RunRefines | libs/containers/queue/ring/spsc.cppm:201-250 | Main result. Every interleaving of producer and consumer, with wrapping cursors and the two loads of `size()` in either order, is a run of the bounded FIFO: a push at the store of the back cursor, a removal at the store of the front cursor |
| SpscTheorems.EventRefines | libs/containers/queue/ring/spsc.cppm:201-271 | One access does to the queue what the bounded FIFO allows |
| SpscTheorems.EachValueOnceInOrder | libs/containers/queue/ring/spsc.cppm:201-271 | What left, popped or cleared, in order, followed by what is there, is what was pushed; a value popped is what its caller gets |
| SpscTheorems.WordsFollowCounters | libs/containers/queue/ring/spsc.cppm:96-117 | However often the cursors have wrapped, they mask to the slots of unbounded counters, their wrapped difference is the length, and the full test compares it with the capacity |
| SpscTheorems.StaleLoadsAreConservative | libs/containers/queue/ring/spsc.cppm:96-117 | With either load order the producer never underestimates the length and the consumer never overestimates it, and both stay within the capacity |
| SpscResults.ProducerSizeMeans | libs/containers/queue/ring/spsc.cppm:96-102 | On every run, with either load order, what `size()` answers to the producer is a length the queue had during the call, within the capacity, and not less than the length when it is done |
| SpscResults.ConsumerSizeMeans | libs/containers/queue/ring/spsc.cppm:96-102 | What `size()` answers to the consumer is a length the queue had during the call, and not more than the length when it is done |
| SpscTheorems.TestsAreNeverWrong | libs/containers/queue/ring/spsc.cppm:201-208 | Past its test the producer has room and the consumer a value; the second full test of a debug build never refuses |
| SpscTheorems.RefusedPushSawFull | libs/containers/queue/ring/spsc.cppm:145-157 | A push that reports full is right: at some moment of the call the ring held `capacity` values |
| SpscTheorems.RefusedPopSawEmpty | libs/containers/queue/ring/spsc.cppm:240-241 | A pop that reports empty, or a finished clear, is right: at some moment of the call the ring was empty |
| SpscResults.PushReportsItsEffect | libs/containers/queue/ring/spsc.cppm:145-211 | On every run, a push reports success if and only if it has published its value, once, and otherwise has published nothing |
| SpscResults.PopReportsItsEffect | libs/containers/queue/ring/spsc.cppm:240-261 | On every run, a pop has handed over exactly the value it returns, or nothing |
| SpscResults.ClearOnlyDestroys | libs/containers/queue/ring/spsc.cppm:263-271 | On every run, a clear hands nothing over: what it takes out is destroyed in place |
| SpscTheorems.LifetimesRespected | libs/containers/queue/ring/spsc.cppm:201-250 | The producer constructs only in a raw slot, the consumer takes only the oldest, live value, and while both work their slots differ |
| SpscTheorems.QuiescentSlots | libs/containers/queue/ring/spsc.cppm:263-271 | Between operations the slots from the front cursor hold exactly the queue, oldest first, and nothing else is alive |
| SpscTheorems.ReachableInv | libs/containers/queue/ring/spsc.cppm:273-284 | Every reachable state satisfies the invariant |
| SpscProtocol.ExecKeepsInv | libs/containers/queue/ring/spsc.cppm:201-271 | The invariant survives every run |
| SpscProtocol.SizeIsDistance | libs/containers/queue/ring/spsc.cppm:96-117 | Wrapped subtraction of the two loaded words is the true distance of the counters |
| SpscQueue.SPSCRingQueue.constructor | libs/containers/queue/ring/spsc.cppm:66-70 | Starts with raw slots and zero cursors |
| SpscQueue.SPSCRingQueue.AdvanceProducer | libs/containers/queue/ring/spsc.cppm:150-211 | One access of `push`, `emplace` or `size` on the object is the step of the protocol |
| SpscQueue.SPSCRingQueue.AdvanceConsumer | libs/containers/queue/ring/spsc.cppm:240-271 | One access of `pop`, `clear` or `size` on the object is the step of the protocol |
| SpscQueue.SPSCRingQueue.Push | libs/containers/queue/ring/spsc.cppm:150-211 | `push` or `emplace` that the consumer does not interrupt, with any number of full tests in either load order: the value goes in if and only if it fits, and is then the last one |
| SpscQueue.SPSCRingQueue.Pop | libs/containers/queue/ring/spsc.cppm:240-261 | `pop` that the producer does not interrupt: the first value, which leaves the queue, or nothing if and only if there is none |
| SpscQueue.SPSCRingQueue.ProducerSize | libs/containers/queue/ring/spsc.cppm:96-102 | `size()` asked by the producer while the consumer stands still is the number of values |
| SpscQueue.SPSCRingQueue.ConsumerSize | libs/containers/queue/ring/spsc.cppm:96-102 | `size()` asked by the consumer while the producer stands still is the number of values |
| SpscQueue.SPSCRingQueue.Clear | libs/containers/queue/ring/spsc.cppm:263-271 | `clear` that the producer does not interrupt destroys every value once, oldest first, and leaves none |
| RingSpec.RunAccounts | libs/containers/queue/ring/ring_queue.cppm:184-427 | Over any mix of operations the ring stays within its capacity, and the values that left it, handed out or destroyed, followed by those in it are exactly the values constructed, in order |
| RingSpec.RunBuilds | libs/containers/queue/ring/ring_queue.cppm:184-427 | Over any mix of operations the values constructed are, in order, the arguments accepted, told from the arguments and the lengths alone |
| RingSpec.ForcedRunKeepsLast | libs/containers/queue/ring/ring_queue.cppm:303-341 | Forcing n values in leaves exactly the last min(n, capacity) of everything, in order, and destroys each of the others once, oldest first |
| RingQueues.RingQueue.constructor | libs/containers/queue/ring/ring_queue.cppm:64-71 | An empty ring whose cursors start anywhere |
| RingQueues.RingQueue.Move | libs/containers/queue/ring/ring_queue.cppm:92-98 | Move construction takes everything and leaves the source without storage |
| RingQueues.RingQueue.Size | libs/containers/queue/ring/ring_queue.cppm:128-131 | The wrapped difference of the cursors is the number of values |
| RingQueues.RingQueue.Full | libs/containers/queue/ring/ring_queue.cppm:143-146 | Full if and only if there are `capacity` values |
| RingQueues.RingQueue.Front | libs/containers/queue/ring/ring_queue.cppm:148-152 | The oldest value |
| RingQueues.RingQueue.Back | libs/containers/queue/ring/ring_queue.cppm:160-165 | The youngest value, when the back cursor is not zero |
| RingQueues.RingQueue.TryEmplace | libs/containers/queue/ring/ring_queue.cppm:189-199 | Appends if and only if the ring is not full, in a raw slot; otherwise nothing changes |
| RingQueues.RingQueue.ForcePush | libs/containers/queue/ring/ring_queue.cppm:320-328 | A full ring destroys its oldest value first; the value is then the last |
| RingQueues.RingQueue.TryPop | libs/containers/queue/ring/ring_queue.cppm:376-385 | Hands out the oldest value and destroys its slot; nothing when empty |
| RingQueues.RingQueue.TryPushRange | libs/containers/queue/ring/ring_queue.cppm:401-409 | All values in order if they fit, none otherwise |
| RingQueues.RingQueue.Clear | libs/containers/queue/ring/ring_queue.cppm:418-427 | Destroys every value once, oldest first |
| RingQueues.RingQueue.CopyAssign | libs/containers/queue/ring/ring_queue.cppm:77-90 | The copy equals the source if and only if the raw front cursor of the source is not above its raw back cursor; otherwise it is empty |
| RingQueues.CopyOfWrappedIsEmpty | libs/containers/queue/ring/ring_queue.cppm:77-90 | A finding: one value pushed where the back cursor wraps, and the copy is empty |
| RingQueues.RingQueue.MoveAssign | libs/containers/queue/ring/ring_queue.cppm:100-111 | The queues trade everything, then the source destroys what it got |
| RingQueues.UnwrappedBack | libs/containers/queue/ring/ring_queue.cppm:432-434 | The raw back cursor is below the raw front only in a ring that holds something |
| RingQueues.HoldsAppend | libs/containers/queue/ring/ring_queue.cppm:194-196 | Constructing in the slot of the back cursor appends to the sequence the slots hold |
| RingQueues.HoldsDrop | libs/containers/queue/ring/ring_queue.cppm:380-382 | Emptying the slot of the front cursor and stepping over it removes the first value |
| RingQueues.HoldsWraps | libs/containers/queue/ring/ring_queue.cppm:436-440 | Keeping the cursor modulo 2^64 changes no slot, because the capacity divides it |
| IntParsing.RoundTrip | libs/core/meta/modules/int_to_str.cppm:41-173 | Main result. With distinct glyphs and no minus sign among them, `str_to_int` undoes `UintToStr` and `IntToStr` for every value of every width and base, if and only if the value is not the least of a signed type at least as wide as `int` |
| IntParsing.UnsignedRoundTrip | libs/core/meta/modules/str_to_int.cppm:42-63 | For all digit sets: the round trip of an unsigned value works if and only if its leading glyph is not a minus sign and none of its glyphs occurs earlier in the digit set |
| IntParsing.NonNegativeRoundTrip | libs/core/meta/modules/str_to_int.cppm:65-71 | For all digit sets: the same for a signed value that is not negative, except that zero always survives |
| IntParsing.NegativeRoundTrip | libs/core/meta/modules/str_to_int.cppm:65-67 | For all digit sets: a negative value survives if and only if none of its glyphs occurs earlier and it is not the least value of a type at least as wide as `int` |
| IntParsing.AccumulateValue | libs/core/meta/modules/str_to_int.cppm:54-57 | As long as the number fits its type the loop computes its value, however many zeros stand before it and although the multiplier then wraps |
| IntParsing.AccumulateLeast | libs/core/meta/modules/str_to_int.cppm:54-67 | For the magnitude of the least value the loop either overflows, in wide types only, or arrives at the least value |
| IntParsing.StrToInt | libs/core/meta/modules/str_to_int.cppm:42-73 | The loop, the sign handling and every error, on every text |
| IntParsing.AnyText | libs/core/meta/modules/str_to_int.cppm:42-73 | For every text: a character that is no glyph is an error, so is a sign in an unsigned type, and otherwise the result is the value of the text, negated after a sign, modulo the range of the type, except that the wide signed types may report an overflow |
| IntParsing.FittingText | libs/core/meta/modules/str_to_int.cppm:42-73 | Every text whose number fits its type is read as that number, canonical or not |
| IntParsing.Find | libs/core/utils/modules/char_encoding.cppm:95-104 | The first position of the glyph, or none when it does not occur |
| IntParsing.DistinctIsFaithful | libs/core/utils/modules/char_encoding.cppm:95-104 | With distinct glyphs among the first `base`, every digit is found at its own position |
| IntStrings.CountBounds | libs/core/meta/modules/int_to_str.cppm:41-52 | base^(d-1) <= v < base^d for the digit count d of v > 0 |
| IntStrings.DigitsWorth | libs/core/meta/modules/int_to_str.cppm:71-87 | The digits printed are below the base, are worth the value, and have no leading zero |
| IntStrings.Digits | libs/core/meta/modules/int_to_str.cppm:41-52 | The loop counts the digits |
| IntStrings.MaxBaseScale | libs/core/meta/modules/int_to_str.cppm:60-69 | The scale is the place value of the leading digit: it never wraps in `T` and never exceeds the value |
| IntStrings.Impl | libs/core/meta/modules/int_to_str.cppm:71-87 | The array is the text of the value and a terminator; the scale is never zero when it divides |
| IntStrings.Magnitude | libs/core/meta/modules/int_to_str.cppm:145-147 | Negation in the unsigned type gives the magnitude, even of the least value |
| IntStrings.IntToStr | libs/core/meta/modules/int_to_str.cppm:161-173 | A minus sign before the magnitude of a negative value |
| Words.AcceptedIsValidIff | libs/containers/queue/ring/mpmc.cppm:362-371 | Of the capacities `valid_init` of the concurrent rings accepts, `idx` can be used with all but one |
| Words.CapacityOneIsAccepted | libs/containers/queue/ring/spsc.cppm:280-290 | A finding: a ring of capacity 1 is accepted and cannot be used |
| Words.AndMask | libs/containers/queue/ring/ring_queue.cppm:436-440 | `x & (c - 1)` is the remainder modulo a power of two c |
| Words.AndHighMask | libs/mem/modules/pool_arena.cppm:245-248 | `x & ~(c - 1)` clears that remainder |
| Words.OrIsAdd | libs/mem/modules/pool_arena.cppm:250-253 | Or-ing an index into a multiple of a power of two adds it |
| Words.SlotsDistinct | libs/containers/queue/ring/mpmc.cppm:362-366 | Two counters less than one lap apart never share a slot |
| Words.SlotOfWrapped | libs/containers/queue/ring/spsc.cppm:280-284 | A counter kept modulo 2^64 selects the slot of the unbounded counter |
| Words.WrappedDifference | libs/containers/queue/ring/spsc.cppm:96-102 | Wrapped subtraction recovers the true difference of unbounded counters |

## Left out

- Memory orders, cache-line alignment and the yields of `spin_until`: steps interleave sequentially consistently, and a spin re-checks its cursor at most 65536 times before its loop goes round, as in the source.
- Exceptions, error policies and `require` handlers: they are preconditions, or `Option` and `bool` results. A failed allocation inside a copy or a rebuilding move is reported by a result, after the clean-up of the handler; the source does that only for a resource that throws, while a null buffer is checked by `emplace_unchecked` in debug builds alone and in release builds is not reported at all.
- Throwing value constructors: `emplace` of the owning queue does not return its buffer when the constructor throws, so the accounting of nodes is for constructors that do not.
- MpmcTheorems.RunRefines: does not model the wrap-around of the cursors, so runs have fewer than 2^64 operations of a side; the emptiness test is wrong beyond (EmptyTestUnderWrap).
- ConcurrentPoolArenas.ConcurrentPoolArena.Deallocate: asks that the generation does not wrap, as the run theorems do.
- ConcurrentPoolTheorems.RunRefines: for runs in which no allocation wins on a head loaded before the list was last empty and no generation wraps, because it is false without (HeldBlockHandedOutAgain).
- Calls of `size()` on the SPSC ring by a thread that is neither its producer nor its consumer.
- The accessors `front()` and `back()` of the SPSC ring and of the linked queues, which read one value in place.
- Destruction of the SPSC ring and of the ring queue is their `clear`; destruction of the adapters only checks that they are empty.
- Moves of the concurrent pool and of the concurrent linked queues, which need a lone owner.
- RingQueues.RingQueue.Back: not for a back cursor that has wrapped to zero, because the source rejects it there.
- The owning queue's resources are numbers. Which requests succeed and which pairs of resources report themselves interoperable are parameters, without any assumption of symmetry or transitivity; resource types that cannot be compared report nothing.
- What a move leaves in a resource or a value: a parameter for the resource, a hollow value for the other.
- Reuse of a freed node's address: nodes are identities, and a new node is never an old one.
- Range inputs of `push_range` are sequences whose length is known.
- LinearArena, the stack allocator, loggers, string utilities and standard-library adapters: they would add easy members.
