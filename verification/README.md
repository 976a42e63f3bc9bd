# Torq back end: memory and execution

These Dafny modules model how the Torq compiler turns a program over unlimited on-chip buffers into one that runs in a
small, fixed LRAM with asynchronous programs, together with a few self-contained algorithms beside it, and prove what the
passes are for.

| files | what they model |
|---|---|
| `Basics`, `Totals` | shared names, sums over finite maps |
| `Pools` | the two-ended word allocator |
| `Ir`, `Refinement` | a straight-line IR with programs in flight, its meaning, and when one program is a faithful rewriting of another |
| `MemoryStates`, `SwapStates`, `AliasStates`, `PinStates`, `StepStates`, `BufferStates`, `FlightStates`, `Evictions`, `Progresses` | the state of the virtual memory, its invariant, and one file per kind of state change |
| `AllocationOrders`, `ValueSizes` | what emitted code leaves allocated and in which order, and the sizes of its values |
| `Rooms` | how much room an operation needs and what has to stay in |
| `Fittings` | when nothing has to be moved |
| `VirtualMemories`, `Conversions` | the virtual memory as a class, and the conversion of a program |
| `Replays`, `AddressAssignments`, `AddressLayouts` | the second walk over the converted program that assigns addresses, and where it puts live buffers |
| `Deallocations`, `DeallocationRuns`, `UnwaitedStarts` | insertion of deallocations into nested regions, and its runs |
| `ForallUnrolling`, `LoopMeanings`, `SliceScheduling` | unrolling of parallel loops, the meaning of the loop said of its body, and the assignment of slices |
| `NssPrograms`, `NssLoading` | splitting into NSS programs, and their double-buffered loading |
| `StridedCopies` | coalescing of strides by the compiler against the recursive copy of the runtime |
| `Semaphores` | timeline semaphores under arbitrary interleavings |
| `TileFitting`, `TilingOrder`, `ConvTiling` | tile search, tiling order, convolution stripes |

The main chain is this. The virtual memory keeps one invariant (`MemoryStates.Inv`) over every step, part of which is a
certificate that the code written so far is a rewriting of the original program, and part of which is a replay of its
allocations through a new pool. `Conversions.ConvertVirtualToPhysical` hands out both. `Refinement` turns the certificate
into equality of behaviour for all kernels and interleavings, and `AddressAssignments` turns the replay into the
success of the second walk.

Classes stand for the objects the source updates in place (`Pool`, `VirtualMemory`, `Semaphore`, the marks and the list of
`Tiler`, the memories of `Device`). Their methods are proved against functions on the value of the state. Where another
thread can act between two locks, the loops of `torq_semaphore.c` are steps of a state machine.

Where code and comments disagree the model follows the code:

- `Pool::clear` resets no word, the small scan never tries the last start, and the large scan never tries word 0 nor a
  start right before a used word.
- Buffers are evicted in the order in which they became resident, not by use: nothing calls `touch`
  (`Evictions.ReachedOldestFirst`).
- Defragmentation invalidates aliases and does not create them again, and need not remove all gaps.
- A wait on several semaphores ignores its timeout, although the header says that it returns when the timeout elapses; a
  wait on one semaphore keeps to it (`Semaphores.WhenDeadlinesAreMissed`).
- With room for no operation at all, the split into NSS programs reports an error but goes on without programs.
- The strict condition for convolution stripes is on the stripe height and on the remainder, neither of which the pass
  checks (`ConvTiling.WhenStripesFit`).
- An invocation that is started again needs the slice it had before, even if others are free
  (`SliceScheduling.RestartFails`).

In one place the model follows the intent instead: when an operation is closed, the search that orders the operations to
tile reads the entry it has just taken off its stack through a reference (`TileAndFusePass.cpp:108-113`); the model uses
the value the entry had.

Values the sources take from elsewhere are parameters: encoded sizes, the base of the reserved XRAM area, the sentinel of
failed semaphores, the number of slices, available memory.

## Model

| member | source | states |
|---|---|---|
| `Pools.Pool.constructor` | compiler/torq/Codegen/Pool.cpp:10-14 | A new pool has exactly the reserved prefix marked and nothing live. |
| `Pools.Pool.Clear` | compiler/torq/Codegen/Pool.cpp:22-28 | Clearing marks the reserved prefix, forgets the allocations and the count, and resets no word. |
| `Pools.Pool.ScanUp` | compiler/torq/Codegen/Pool.cpp:39-64 | The small scan finds the lowest start with a free window; it fails exactly if no start below size minus request has one. |
| `Pools.Pool.ScanDown` | compiler/torq/Codegen/Pool.cpp:67-95 | The large scan finds the highest start of at least 1 whose window is free and, for more than one word, ends at the top or before a free word; it fails exactly if there is none. |
| `Pools.Pool.Allocate` | compiler/torq/Codegen/Pool.cpp:30-101 | Allocation fails exactly if the scan for the size of the request finds no place, and then changes nothing; otherwise the chosen words are marked, counted and recorded. |
| `Pools.Pool.Release` | compiler/torq/Codegen/Pool.cpp:103-111 | Freeing clears the marks of the block and gives its words back; freeing a value that is not live changes nothing. |
| `Pools.PlaceIsClear` | compiler/torq/Codegen/Pool.cpp:36-96 | Whatever place the scans choose is free and above the reserved prefix. |
| `Pools.FewestWords` | compiler/torq/Codegen/Pool.cpp:32-34 | A block has the fewest words that hold its bytes, and at least one if there are any. |
| `Pools.UsableIsTight` | compiler/torq/Codegen/Pool.cpp:20-20 | The usable bytes are those above the reserved prefix in whole words, and less than one word more. |
| `Pools.FirstPlacement` | compiler/torq/Codegen/Pool.cpp:30-101 | In an empty pool a small block goes right above the reserved prefix, unless it would reach the top, and a large one ends at the top, unless it would need word 0; where there is no room there is no place. |
| `Pools.SecondLarge` | compiler/torq/Codegen/Pool.cpp:67-95 | Below a block at the top a large one of several words goes with one word between them. |
| `Pools.HistoryIsExact` | compiler/torq/Codegen/Pool.cpp:10-111 | After any sequence of allocations and frees the marked words are exactly the reserved prefix and the live blocks, which are disjoint and inside the pool, and the used size is their total. |
| `Pools.AllocateKeepsSound` | compiler/torq/Codegen/Pool.cpp:30-101 | Allocation keeps live blocks disjoint, in the pool, outside the reserved prefix and marked. |
| `Pools.AllocateKeepsExact` | compiler/torq/Codegen/Pool.cpp:30-101 | Allocation keeps the marks exact. |
| `Pools.FreeKeepsSound` | compiler/torq/Codegen/Pool.cpp:103-111 | Freeing keeps soundness and exactness. |
| `Pools.UsedIsMarked` | compiler/torq/Codegen/Pool.cpp:18-18 | The used size is the number of marked words that are not reserved. |
| `Pools.UsedFits` | compiler/torq/Codegen/Pool.cpp:18-20 | Live blocks, rounded to words, never use more than the usable bytes. |
| `Pools.ClearKeepsSound` | compiler/torq/Codegen/Pool.cpp:22-28 | After clear the pool is sound; its marks are exact, and equal to those of a new pool, if and only if no live block had a word. |
| `Refinement.LinkKeepsMatched` | compiler/torq/Codegen/VirtualMemory.cpp:248-277 | Every inserted or rewritten operation keeps each live buffer at one home, no two at the same, and programs in flight on the same parts of buffers. |
| `Refinement.OperandsStayPut` | compiler/torq/Codegen/VirtualMemory.cpp:1083-1113 | From a start to its wait, through any evictions, swap-ins and defragmentations, the operands of the started program denote the same parts of the same physical buffers. |
| `Refinement.PartsStay` | compiler/torq/Codegen/VirtualMemory.cpp:1091-1112 | One inserted or rewritten operation leaves the operands of a program in flight where they are. |
| `Refinement.SameInserted` | compiler/torq/Codegen/VirtualMemory.cpp:803-899 | Inserted swap code changes no contents seen by the original program: they sit in the home of the buffer before and after. |
| `Refinement.SameTranslated` | compiler/torq/Codegen/VirtualMemory.cpp:1083-1089 | A rewritten operation reads and writes the same contents as the original one, directly or through alias chains, whatever it computes. |
| `Refinement.EveryRunIsAnOriginalRun` | compiler/torq/Codegen/VirtualMemory.cpp:920-1122 | Every run of the rewritten program, for all kernels and all interleavings of the steps of programs in flight, is a run of the original with equal contents of all live buffers and equal external state. |
| `Refinement.EveryOriginalRunIsKept` | compiler/torq/Codegen/VirtualMemory.cpp:920-1122 | Conversely every run of the original program is the projection of a run of the rewritten one. |
| `MemoryStates.BusyIsPinned` | compiler/torq/Codegen/VirtualMemory.cpp:1091-1096 | A buffer that a program in flight uses has a positive pin count. |
| `MemoryStates.IdleIsUnpinned` | compiler/torq/Codegen/VirtualMemory.cpp:1097-1112 | Between operations a buffer that no program in flight uses has no pin. |
| `SwapStates.SwapOutKeepsInv` | compiler/torq/Codegen/VirtualMemory.cpp:849-899 | Swapping out an unpinned buffer keeps the whole invariant: homes, aliases, the one-to-one correspondence of resident buffers, physical buffers, list entries and pool blocks, pin counts, and the replay of addresses; pinned buffers are not disturbed. |
| `SwapStates.SwapInKeepsInv` | compiler/torq/Codegen/VirtualMemory.cpp:803-847 | The same for swapping in to a place found in the pool. |
| `AliasStates.RenewKeepsInv` | compiler/torq/Codegen/VirtualMemory.cpp:248-277 | Re-creating an alias over the current value of its resident parent keeps the invariant: a valid alias has its whole parent chain resident and sees its part of the physical buffer. |
| `PinStates.PinKeepsInv` | compiler/torq/Codegen/VirtualMemory.cpp:787-793 | A pin raises the counts of the whole chain of an object; a physical buffer is pinned exactly if the count of its root is positive, and the pinned total stays the sum over pinned buffers. |
| `PinStates.UnpinKeepsInv` | compiler/torq/Codegen/VirtualMemory.cpp:795-801 | The same for giving a pin up. |
| `BufferStates.BufferAddedKeepsInv` | compiler/torq/Codegen/VirtualMemory.cpp:538-552 | A new allocation, resident under its own value, keeps the invariant. |
| `BufferStates.BufferRemovedKeepsInv` | compiler/torq/Codegen/VirtualMemory.cpp:617-639 | Deallocating frees the buffer that holds the contents now, in either memory, and keeps the invariant. |
| `StepStates.AliasAddedKeepsInv` | compiler/torq/Codegen/VirtualMemory.cpp:286-295 | A new alias, usable at once only if its parent is resident under its own value, keeps the invariant. |
| `FlightStates.OpKeepsInv` | compiler/torq/Codegen/VirtualMemory.cpp:1083-1102 | An operation on its physical operands keeps the invariant and the certificate of the rewriting. |
| `FlightStates.StartKeepsInv` | compiler/torq/Codegen/VirtualMemory.cpp:1091-1096 | A start keeps the pins of its operands, one for each, and the invariant. |
| `FlightStates.WaitKeepsInv` | compiler/torq/Codegen/VirtualMemory.cpp:1104-1112 | A wait hands back exactly the pins of its start and keeps the invariant. |
| `Evictions.ReachEvicted` | compiler/torq/Codegen/VirtualMemory.cpp:471-499 | One eviction in the search for space: the next unpinned list entry can go, and what is left is the pinned entries looked at so far followed by the rest of the list. |
| `Evictions.ReachPinned` | compiler/torq/Codegen/VirtualMemory.cpp:479-489 | A pinned entry is passed over and stays. |
| `AllocationOrders.ResidentsInOrder` | compiler/torq/Codegen/VirtualMemory.cpp:442-442 | What a program leaves allocated in the small memory, in the order of its allocations: of two such buffers the first has been allocated before the other. The eviction list holds just these, in this order. |
| `Evictions.ReachedOldestFirst` | compiler/torq/Codegen/VirtualMemory.cpp:471-499 | Of the unpinned buffers those that the emitted code has allocated first are evicted first: with an evicted one, all allocated before it are evicted too. |
| `Evictions.VacateOne` | compiler/torq/Codegen/VirtualMemory.cpp:372-374 | Moving one more unpinned buffer out during defragmentation. |
| `Evictions.RestoreOne` | compiler/torq/Codegen/VirtualMemory.cpp:378-382 | Bringing one more of them back in. |
| `Evictions.BringIn` | compiler/torq/Codegen/VirtualMemory.cpp:803-847 | Taking a name, a defragmentation and the swap-in code together bring a buffer in and disturb nothing pinned. |
| `Rooms.PinnedExactly` | compiler/torq/Codegen/VirtualMemory.cpp:1004-1017 | While room is made the pinned buffers are exactly those of programs in flight and those behind operands that are in. |
| `Rooms.RoomIsEnough` | compiler/torq/Codegen/VirtualMemory.cpp:1019-1057 | Making room fails exactly if evicting every buffer but those is not enough for the operands that are out and the results. |
| `Rooms.ResidentsStay` | compiler/torq/Codegen/VirtualMemory.cpp:1004-1057 | Operands that are in stay in while room is made. |
| `Rooms.CoveredRoom` | compiler/torq/Codegen/VirtualMemory.cpp:1019-1069 | If the operands that are out ask for as much as their buffers take, and none is the buffer of another, the room made is enough for all of them in any order. |
| `Rooms.AllAreIn` | compiler/torq/Codegen/VirtualMemory.cpp:1061-1069 | Without a defragmentation all operands are in afterwards, and the space for the results is left. |
| `VirtualMemories.VirtualMemory.constructor` | compiler/torq/Codegen/VirtualMemory.cpp:606-611 | A virtual memory over a new pool starts with no objects and satisfies the invariant. |
| `VirtualMemories.VirtualMemory.InvalidateChildren` | compiler/torq/Codegen/VirtualMemory.cpp:890-893 | Everything derived from an object, however indirectly, becomes invalid, and nothing else. |
| `VirtualMemories.VirtualMemory.SwapOut` | compiler/torq/Codegen/VirtualMemory.cpp:849-899 | The new state is that of the swap-out specification, with the invariant kept. |
| `VirtualMemories.VirtualMemory.Pin` | compiler/torq/Codegen/VirtualMemory.cpp:229-232 | Pinning fails exactly if the root is not resident; otherwise the state is that of the pin specification. |
| `VirtualMemories.VirtualMemory.Unpin` | compiler/torq/Codegen/VirtualMemory.cpp:234-237 | Giving up a pin never fails an assertion, and lowers the counts of the whole chain. |
| `VirtualMemories.VirtualMemory.FreeSpace` | compiler/torq/Codegen/VirtualMemory.cpp:460-502 | Evicts the unpinned ones of the shortest prefix of the list that makes the request fit and nothing else, those that became resident first before the others; fails exactly if evicting every unpinned buffer is not enough. |
| `VirtualMemories.VirtualMemory.Unpinned` | compiler/torq/Codegen/VirtualMemory.cpp:361-369 | Collects the buffers without pins, each once, in any order. |
| `VirtualMemories.VirtualMemory.Defragment` | compiler/torq/Codegen/VirtualMemory.cpp:352-393 | At one point every unpinned buffer is out and every other in its place; a successful defragmentation keeps the resident set, the used words, all contents and every pinned buffer, and it fails only if on the way back some buffer finds no place. |
| `VirtualMemories.VirtualMemory.Add` | compiler/torq/Codegen/VirtualMemory.cpp:395-445 | Finds a place as it is or, if allowed, after a defragmentation; the resident set is otherwise unchanged. It fails only if the bytes exceed what is left, or a defragmentation is stuck, or there is no place after it either. The new buffer is the last to be evicted. |
| `VirtualMemories.VirtualMemory.SwapInBuffer` | compiler/torq/Codegen/VirtualMemory.cpp:803-847 | Brings one buffer in and keeps the invariant; nothing leaves, unless there is a defragmentation. Without one it fails only if the buffer is larger than what is left. |
| `VirtualMemories.VirtualMemory.Renew` | compiler/torq/Codegen/VirtualMemory.cpp:262-276 | Clones the operation of an alias over the current value of its parent. |
| `VirtualMemories.VirtualMemory.SwapIn` | compiler/torq/Codegen/VirtualMemory.cpp:684-704 | Makes an object usable by bringing in its buffer and renewing its aliases from the root down; without a defragmentation only that buffer comes in and nothing leaves. |
| `VirtualMemories.VirtualMemory.AddAllocation` | compiler/torq/Codegen/VirtualMemory.cpp:653-669 | A new buffer gets a physical buffer of its own under its own value; where its bytes are left it can fail only in a defragmentation. |
| `VirtualMemories.VirtualMemory.AddAlias` | compiler/torq/Codegen/VirtualMemory.cpp:641-651 | An alias takes no room; it is usable at once only if its parent is resident under its own value. |
| `VirtualMemories.VirtualMemory.Deallocate` | compiler/torq/Codegen/VirtualMemory.cpp:948-957 | The deallocation frees the physical buffer if resident, the swap buffer otherwise. |
| `VirtualMemories.VirtualMemory.PinResidents` | compiler/torq/Codegen/VirtualMemory.cpp:1004-1017 | Exactly the operands that are in get a pin each; exactly those that are out are collected. |
| `VirtualMemories.VirtualMemory.TotalSize` | compiler/torq/Codegen/VirtualMemory.cpp:1019-1024 | The space to swap in is the total of the sizes, in whatever order it is added up. |
| `VirtualMemories.VirtualMemory.SwapInAll` | compiler/torq/Codegen/VirtualMemory.cpp:1061-1069 | Brings in all operands that are out, in any order; nothing leaves, unless there is a defragmentation. It can fail without one only if there is no room for all their buffers. |
| `VirtualMemories.VirtualMemory.PinOperands` | compiler/torq/Codegen/VirtualMemory.cpp:1083-1089 | Every operand gets a pin and its current physical value, which denotes the same part of the home of its root. |
| `VirtualMemories.VirtualMemory.Prepare` | compiler/torq/Codegen/VirtualMemory.cpp:1001-1069 | Room is made without evicting resident operands, and all others are brought in; no pin is left behind. Without a defragmentation all operands are in afterwards, and it cannot fail where there is enough room and the operands that are out ask for what their buffers take. |
| `VirtualMemories.VirtualMemory.Execute` | compiler/torq/Codegen/VirtualMemory.cpp:1083-1113 | Operations, starts and waits run on physical operands; only starts keep their pins, until their wait. |
| `VirtualMemories.VirtualMemory.PinOperand` | compiler/torq/Codegen/VirtualMemory.cpp:1085-1088 | An operand that is usable is pinned and its physical value found; otherwise an assertion fails. |
| `VirtualMemories.VirtualMemory.MakeRoom` | compiler/torq/Codegen/VirtualMemory.cpp:1001-1057 | Pins resident operands, frees space and gives the pins up: no operand that was in has left, nothing has come in, and there is space for the operands that are out and for the results. It fails exactly if evicting every buffer that no program in flight and no resident operand uses is not enough. Where all operands are in and the results fit, nothing is evicted. |
| `VirtualMemories.VirtualMemory.Process` | compiler/torq/Codegen/VirtualMemory.cpp:939-1114 | One operation of the original program is done, with the invariant and with no pins but those of programs in flight. It fails if there is not enough room when all that may leave has left; where there is, and the operands that are out ask for what their buffers take, it cannot fail without a defragmentation. It cannot fail, and nothing moves, where nothing has moved and the pool has a place for its result. |
| `Fittings.NextFits` | compiler/torq/Codegen/VirtualMemory.cpp:1028-1029 | If the pool can hold the whole program as it is, then as long as nothing has moved its next operation fits. |
| `Fittings.OperandsUnchanged` | compiler/torq/Codegen/VirtualMemory.cpp:1085-1089 | Operands that are where they were first put are replaced by themselves. |
| `Fittings.RemovalUntouched` | compiler/torq/Codegen/VirtualMemory.cpp:954-957 | The deallocation of a buffer that has not moved stays as it is. |
| `Fittings.AliasUntouched` | compiler/torq/Codegen/VirtualMemory.cpp:286-295 | An alias of an object that has not moved stays usable under its own value. |
| `Conversions.ConvertVirtualToPhysical` | compiler/torq/Codegen/VirtualMemory.cpp:920-1122 | A conversion that does not fail yields a certificate that the code is a rewriting of the whole program, and a replay of the code that ends in the state of the pool with every address found on the way. All copies are between buffers of one size, operations get operands of the sizes they had, and at the end one buffer is allocated for each that the program left allocated. A program is converted without failure to itself if and only if the pool can hold it as it is. |
| `AddressAssignments.CheckPeakMemoryUsage` | compiler/torq/Codegen/AssignAddressesPass.cpp:51-120 | Succeeds exactly if no prefix of the program uses more than the memory has. |
| `AddressAssignments.AllocateAddresses` | compiler/torq/Codegen/AssignAddressesPass.cpp:225-275 | Succeeds exactly if the peak fits and the pool finds an address for every allocation, and gives exactly the addresses of that walk. |
| `AddressAssignments.ReplayFits` | compiler/torq/Codegen/AssignAddressesPass.cpp:94-96 | A program that can be replayed through the pool never uses more than the usable bytes, at any prefix. |
| `AddressAssignments.UsageIsLive` | compiler/torq/Codegen/AssignAddressesPass.cpp:52-96 | At every prefix of a program without errors the usage is the total of the sizes of the buffers that are live in LRAM. |
| `AddressLayouts.WalkLocates` | compiler/torq/Codegen/AssignAddressesPass.cpp:225-275 | The walk gives an address to every buffer in LRAM that is live and to every alias of one. |
| `AddressLayouts.LiveBuffersApart` | compiler/torq/Codegen/AssignAddressesPass.cpp:225-275 | Two buffers that are live in LRAM at the same point share no byte, and each has all its bytes between the reserved prefix and the end of the memory. |
| `AddressLayouts.AliasesAtRoots` | compiler/torq/Codegen/AssignAddressesPass.cpp:255-268 | An alias gets the address of the buffer at the end of its chain. |
| `AddressAssignments.ReplayableIsAssignable` | compiler/torq/Codegen/AssignAddressesPass.cpp:225-275 | Replaying the allocations on a new pool passes the peak check and finds the addresses found before. |
| `AddressAssignments.ConvertedIsAssignable` | compiler/torq/Codegen/AssignAddressesPass.cpp:295-299 | For a converted program the second walk cannot fail and gives every buffer the address found during conversion. |
| `AddressAssignments.AllocateLramAddresses` | compiler/torq/Codegen/AssignAddressesPass.cpp:277-306 | The whole pass: a conversion that succeeds with nothing left allocated is always followed by a successful assignment of exactly the addresses of the conversion, also where defragmentation code was inserted. With buffers left allocated the second walk succeeds exactly if all its allocations find a place in a pool that keeps the marks of these buffers, and gives those places. A program is left as it is if and only if the pool can hold it as it is. |
| `AddressAssignments.LeftOverCanFail` | compiler/torq/Codegen/AssignAddressesPass.cpp:295-303 | A program that the pool can hold as it is, with a buffer that is never freed, for which the second walk fails. |
| `Deallocations.FindUser` | compiler/torq/Codegen/AddDeallocationPass.cpp:135-138 | Finds the operation in the scope that holds a user; fails exactly if there is none. |
| `Deallocations.LookUp` | compiler/torq/Codegen/AddDeallocationPass.cpp:71-101 | The alias and start maps after one more operation, and the operands it stands for: a wait stands for those of its start. |
| `Deallocations.MarkUsers` | compiler/torq/Codegen/AddDeallocationPass.cpp:104-142 | Every allocation behind an operand gets the operation of its own scope as user; fails on unknown values, terminators with operands and users outside the scope. |
| `Deallocations.FindLastUsers` | compiler/torq/Codegen/AddDeallocationPass.cpp:54-150 | Succeeds exactly if every operation can be analysed and every allocation is used; then it finds for each the operation of its own region that holds the last use through any alias or wait. |
| `Deallocations.AddDeallocations` | compiler/torq/Codegen/AddDeallocationPass.cpp:154-160 | After every operation come exactly the deallocations of the buffers it is the last user of, once each. |
| `Deallocations.LastUserIsOne` | compiler/torq/Codegen/AddDeallocationPass.cpp:132-140 | An allocation has one last user only. |
| `DeallocationRuns.AliasesAreBehind` | compiler/torq/Codegen/AddDeallocationPass.cpp:71-87 | The alias map leads from a value, through any number of aliases, to the buffer behind it. |
| `DeallocationRuns.TouchesMeans` | compiler/torq/Codegen/AddDeallocationPass.cpp:71-101 | An operation uses an allocation if and only if a value that it takes, or that the latest start before the wait takes, has it behind it. |
| `DeallocationRuns.WaitsForMeans` | compiler/torq/Codegen/AddDeallocationPass.cpp:93-96 | A wait is for the latest start of its invocation in its region. |
| `DeallocationRuns.NothingAfterTerminators` | compiler/torq/Codegen/AddDeallocationPass.cpp:104-142 | No buffer is freed after a terminator. |
| `Deallocations.Contiguous` | compiler/torq/Codegen/AddDeallocationPass.cpp:54-63 | The walk numbers what lies under an operation contiguously up to it. |
| `DeallocationRuns.TouchedLater` | compiler/torq/Codegen/AddDeallocationPass.cpp:71-87 | A buffer is used, through any alias, only after its allocation. |
| `DeallocationRuns.WaitTouches` | compiler/torq/Codegen/AddDeallocationPass.cpp:93-96 | Whoever waits for a program uses what its start uses. |
| `DeallocationRuns.UsedFromOutside` | compiler/torq/Codegen/AddDeallocationPass.cpp:132-140 | What an operation under a region uses of the surrounding region was allocated there before. |
| `DeallocationRuns.FreedIsIdle` | compiler/torq/Codegen/AddDeallocationPass.cpp:93-96 | When a buffer is freed no program in flight uses it. |
| `DeallocationRuns.Completes` | compiler/torq/Codegen/AddDeallocationPass.cpp:154-160 | One operation and the frees behind it: the buffers freed are live, idle and of this run of the region; live are then exactly those with a later last user. |
| `DeallocationRuns.EveryRunFreesAll` | compiler/torq/Codegen/AddDeallocationPass.cpp:41-161 | If every start is waited for later in its region, before any other start of the same invocation, then, whatever the loops do, no run is ever stuck: not on a use, by an operation or by a program in flight, of a buffer that is not allocated or already freed, nor on a second allocation or free, nor on a start of what is in flight; at the end nothing is allocated or in flight. |
| `DeallocationRuns.LastStartIsStuck` | compiler/torq/Codegen/AddDeallocationPass.cpp:154-160 | A start that is itself the last user of a buffer, because nothing waits for it, has the buffer freed while its program runs, in every state and whatever its region does. |
| `UnwaitedStarts.FineExactlyIfWaited` | compiler/torq/Codegen/AddDeallocationPass.cpp:88-96 | For a function that starts every invocation in one place: no run is stuck or leaves anything allocated or in flight if and only if every program is waited for later in the region that starts it. |
| `UnwaitedStarts.UnwaitedGoesWrong` | compiler/torq/Codegen/AddDeallocationPass.cpp:88-96 | A start that no operation of its region waits for has a run that goes wrong: at the top of the function it is still in flight at the end, in an inner region it is started again while in flight. |
| `ForallUnrolling.Clone` | compiler/torq/Codegen/OutlineSliceProgramsPass.cpp:57-81 | With the map of its iteration a clone is the instance of the operation for that iteration, with its own values and index, and the map afterwards is that of the iteration one operation later. |
| `ForallUnrolling.CloneIterations` | compiler/torq/Codegen/OutlineSliceProgramsPass.cpp:75-84 | Cloning the open segment for all other iterations completes all iterations of the segment. |
| `ForallUnrolling.Unroll` | compiler/torq/Codegen/OutlineSliceProgramsPass.cpp:43-86 | The unrolled loop is all iterations of each wait-delimited segment of the body, segment by segment, and of every iteration the steps are the operations of the body in order. |
| `ForallUnrolling.EachIterationInOrder` | compiler/torq/Codegen/OutlineSliceProgramsPass.cpp:71-86 | Every iteration is there with all its operations in the order of the body, and there are no others. |
| `ForallUnrolling.AllComeToTheWait` | compiler/torq/Codegen/OutlineSliceProgramsPass.cpp:69-84 | No wait comes before every iteration has reached it: all programs of a segment are started before the first is waited for. |
| `ForallUnrolling.SameOutcome` | compiler/torq/Codegen/OutlineSliceProgramsPass.cpp:71-86 | Two schedules of the same steps that keep the order within every iteration have the same outcome if those of these steps that belong to different iterations can be exchanged. |
| `ForallUnrolling.UnrollingKeepsOutcome` | compiler/torq/Codegen/OutlineSliceProgramsPass.cpp:43-95 | If the steps of different iterations of this body can be exchanged, the unrolled loop reaches the state that the iterations reach one after another, for every body, factor and start state. |
| `ForallUnrolling.ApartIsIndependent` | compiler/torq/Codegen/OutlineSliceProgramsPass.cpp:71-86 | Steps of different iterations can be exchanged if what one writes the other neither reads nor writes. |
| `ForallUnrolling.UnrollingOfLocalWrites` | compiler/torq/Codegen/OutlineSliceProgramsPass.cpp:43-95 | A body whose operations read and write the buffers behind their operands and results, and write none that is defined outside the loop, can be unrolled whatever its operations compute. |
| `LoopMeanings.StoreHolds` | compiler/torq/Codegen/OutlineSliceProgramsPass.cpp:79-90 | After any number of steps of the unrolled loop every iteration has computed what the same operations of the body compute when it runs by itself. |
| `LoopMeanings.EventsOfSteps` | compiler/torq/Codegen/OutlineSliceProgramsPass.cpp:79-90 | After any number of steps every iteration has got and defined the values of the first operations of the body. |
| `LoopMeanings.UnrolledMeansTheBody` | compiler/torq/Codegen/OutlineSliceProgramsPass.cpp:43-95 | The meaning of the loop, said of its body alone: in every iteration every operation of the unrolled loop is of the kind, and gets and defines exactly the values, of the operation of the body. Values from outside are those around the loop, the induction variable is the number of the iteration, and other values are what this iteration has computed. |
| `LoopMeanings.UnrollingKeepsMeaning` | compiler/torq/Codegen/OutlineSliceProgramsPass.cpp:43-95 | Whatever operations do to memory with the values they get: if what different iterations do can be exchanged, the unrolled loop leaves what the body does iteration by iteration. |
| `LoopMeanings.UnrollingOfOwnWrites` | compiler/torq/Codegen/OutlineSliceProgramsPass.cpp:43-95 | That is so for a loop whose iterations write only cells of their own and read only those and cells of no iteration. |
| `SliceScheduling.FirstFree` | compiler/torq/Codegen/OutlineSliceProgramsPass.cpp:225-233 | The first slice that is not busy, if any. |
| `SliceScheduling.Schedule` | compiler/torq/Codegen/OutlineSliceProgramsPass.cpp:207-265 | If waits match: it succeeds exactly if every start finds, for a program without a slice, fewer programs in flight than slices, and for one that has a slice, given beforehand or by an earlier start, no program in flight on it; then every program placed has the first slice that none in flight ran on, and programs in flight have a slice each and no two the same. For invocations created without a slice and started once this comes to never more programs in flight than slices. |
| `SliceScheduling.CanStart` | compiler/torq/Codegen/OutlineSliceProgramsPass.cpp:216-237 | The marks of busy slices tell whether the next start can succeed: there is a free one exactly if fewer programs are in flight than there are slices. |
| `SliceScheduling.RestartFails` | compiler/torq/Codegen/OutlineSliceProgramsPass.cpp:216-223 | Two slices and never more than two programs in flight, and still a start fails: an invocation that is started again needs the slice it had, which another has by then. |
| `SliceScheduling.AtMostSlices` | compiler/torq/Codegen/OutlineSliceProgramsPass.cpp:210-237 | Programs with a slice of their own each are no more than the slices. |
| `SliceScheduling.FirstSlicesOnly` | compiler/torq/Codegen/OutlineSliceProgramsPass.cpp:225-233 | With never more than some number of programs in flight, no program is placed on a slice beyond that number. |
| `SliceScheduling.InFlightByIteration` | compiler/torq/Codegen/OutlineSliceProgramsPass.cpp:71-86 | At any point of the unrolled loop the programs in flight are, in every iteration, those of the body at the point the iteration has reached. |
| `SliceScheduling.UnrolledFits` | compiler/torq/Codegen/OutlineSliceProgramsPass.cpp:69-86 | The unrolled form of a body that alternates starts and waits never has more programs in flight than iterations. |
| `SliceScheduling.UnrollAndSchedule` | compiler/torq/Codegen/OutlineSliceProgramsPass.cpp:275-290 | Such a loop with no more iterations than slices is always scheduled, and no two programs in flight share a slice. |
| `NssPrograms.FindPrograms` | compiler/torq/Codegen/OutlineNSSProgramsPass.cpp:94-134 | The split holds the operations for the NSS once each and in order, no program crosses another operation or exceeds the size, and no such split has fewer programs; with no room for an operation there are no programs. |
| `NssPrograms.StaysAhead` | compiler/torq/Codegen/OutlineNSSProgramsPass.cpp:120-130 | Starting a program only when forced keeps the count, and then the size of the open program, at or below those of every other split. |
| `NssPrograms.SplitBefore` | compiler/torq/Codegen/OutlineNSSProgramsPass.cpp:112-131 | Without its last operation, a split is one of the shorter function. |
| `NssPrograms.SizeIsTasks` | compiler/torq/Codegen/OutlineNSSProgramsPass.cpp:78-92 | The size of a program is the number of its operations that are neither allocations nor deallocations. |
| `NssLoading.OutlinePrograms` | compiler/torq/Codegen/OutlineNSSProgramsPass.cpp:141-255 | Program k runs from area k mod 2, and ends by loading program k + 1 from its place in XRAM into the other area. What is left of the function copies, starts and awaits the first program, and starts and awaits each other one where its first operation was. |
| `NssLoading.LeftOnHost` | compiler/torq/Codegen/OutlineNSSProgramsPass.cpp:52-76 | An operation is left on the host if and only if it runs on another executor, or works on other memories only, or is none of the operations the NSS has; every other one is in a program. |
| `NssLoading.OutlineNssPrograms` | compiler/torq/Codegen/OutlineNSSProgramsPass.cpp:278-313 | The split of the function, with an empty program in front of it if there is any, is outlined: all programs and what is left of the function. |
| `NssLoading.LoadKeeps` | compiler/torq/Codegen/OutlineNSSProgramsPass.cpp:187-210 | Loading a program fills its area with its code and leaves the other area alone. |
| `NssLoading.CodeApart` | compiler/torq/Codegen/OutlineNSSProgramsPass.cpp:296-313 | The programs lie one behind another in XRAM and do not overlap; in LRAM the first runs from the start and the second from right behind it, in turns. |
| `NssLoading.CodeCanBeStored` | compiler/torq/Codegen/OutlineNSSProgramsPass.cpp:296-313 | There is an XRAM that holds the code of every program at its place. |
| `NssLoading.ProgramRuns` | compiler/torq/Codegen/OutlineNSSProgramsPass.cpp:187-210 | A program that is in its area runs to its end from there, and leaves its successor in the other area. |
| `NssLoading.EveryProgramIsInPlace` | compiler/torq/Codegen/OutlineNSSProgramsPass.cpp:278-313 | The code that the outlining leaves, with the programs it makes, always runs to its end: every program starts from an area that holds its code, the area is never written while it runs, and memory ends as after the operations one after another, but for the code areas. |
| `NssLoading.PoolAvoidsCode` | compiler/torq/Codegen/AssignAddressesPass.cpp:279-285 | After any requests to a pool that reserves two code areas no live buffer overlaps either. |
| `StridedCopies.ContiguousPart` | compiler/torq/Codegen/BufferizationUtils.cpp:33-52 | The longest tail of dimensions that source and destination both lay out in row-major order without gaps, and the number of its elements; it is moved as one piece. |
| `StridedCopies.ElementSize` | compiler/torq/Codegen/BufferizationUtils.cpp:57-73 | An element has the fewest whole bytes that hold its bits. |
| `StridedCopies.AllBitsCopied` | runtime/driver/native_executable.cc:1232-1252 | If no two elements share bytes of the destination, after the copy every bit of every element there is that of the source. |
| `StridedCopies.ComputeStrides` | compiler/torq/Codegen/BufferizationUtils.cpp:16-76 | Fails exactly if ranks or element types differ; the descriptor moves the same bytes in the same order as the copy element by element with the original strides. Its chunk is the longest tail of dimensions that both tensors lay out without gaps, and no dimension of one element is left. |
| `StridedCopies.Coalesced` | compiler/torq/Codegen/BufferizationUtils.cpp:54-73 | Inner dimensions can be replaced by a chunk and dimensions of one element dropped without changing any move. |
| `StridedCopies.CopyElement` | runtime/driver/native_executable.cc:1151-1230 | A chunk is read and written as its bytes one after another; fails exactly on unsupported or exceeded memories. |
| `StridedCopies.CopyDimension` | runtime/driver/native_executable.cc:1232-1252 | The recursive copy over the dimensions from some depth on makes exactly the moves of that part of the descriptor, if source and destination are apart, and changes no other byte in any case. |
| `StridedCopies.ProcessHostCopy` | runtime/driver/native_executable.cc:1119-1265 | The whole descriptor; fails if ranks differ, a memory is not supported or an access is outside of it. |
| `StridedCopies.CopyTensor` | compiler/torq/Codegen/BufferizationUtils.cpp:78-102 | What the compiler describes and the runtime executes leaves the memory of the element by element copy, with source and destination apart, and changes no other byte; every bit of every element arrives if elements do not share bytes; it succeeds exactly if all accesses are in range. |
| `StridedCopies.LastMoveWins` | runtime/driver/native_executable.cc:1232-1252 | A destination byte has the source byte of the last move to it. |
| `StridedCopies.EveryElementMoves` | compiler/torq/Codegen/BufferizationUtils.cpp:30-31 | Every byte of every element is moved from its place in the source to its place in the destination. |
| `StridedCopies.OnlyElementsMove` | compiler/torq/Codegen/BufferizationUtils.cpp:30-31 | Nothing else is moved. |
| `Semaphores.Semaphore.Query` | runtime/driver/torq_semaphore.c:110-127 | The value, and the failure once the sentinel is reached. |
| `Semaphores.Semaphore.Signal` | runtime/driver/torq_semaphore.c:131-174 | The value grows to the new one, or the signal is out of range and nothing changes. |
| `Semaphores.Semaphore.Fail` | runtime/driver/torq_semaphore.c:176-205 | The first failure sets value and status; later ones change nothing. |
| `Semaphores.MultiSignal` | runtime/driver/torq_semaphore.c:207-247 | Signals in order up to the first value that would not grow; a semaphore ends with the largest of its old value and the payloads signalled to it, and no failure changes. |
| `Semaphores.FailureLosesValue` | runtime/driver/torq_semaphore.c:183-195 | A failure sets a value back exactly if the semaphore was signalled past the sentinel before. |
| `Semaphores.RunGrows` | runtime/driver/torq_semaphore.c:131-205 | In every interleaving with payloads below the sentinel values never fall and the first failure is never replaced. |
| `Semaphores.RunKnows` | runtime/driver/torq_semaphore.c:264-432 | What a waiting thread has concluded from semaphores it looked at one after another stays true whatever the other threads do. |
| `Semaphores.OkMeansReached` | runtime/driver/torq_semaphore.c:354-394 | A wait that returns OK has all, or any, of its semaphores at their payloads at that moment, despite the non-atomic look. |
| `Semaphores.AbortedMeansFailed` | runtime/driver/torq_semaphore.c:379-382 | A wait is aborted only if one of its semaphores has failed. |
| `Semaphores.OkMeansNoneFailed` | runtime/driver/torq_semaphore.c:379-382 | A wait that returns OK, for all or any of its semaphores, had none of them failed when its last look began. |
| `Semaphores.FailedIsAborted` | runtime/driver/torq_semaphore.c:379-382 | A wait that begins when one of its semaphores has failed never returns anything but an abort, whatever the mode. |
| `Semaphores.DeadlineMeansTooEarly` | runtime/driver/torq_semaphore.c:354-394 | A missed deadline means that when the last look began none had failed and some, or all, were below their payloads. |
| `Semaphores.WhenDeadlinesAreMissed` | runtime/driver/torq_semaphore.c:396-432 | There is a run in which a wait blocks and then misses its deadline if and only if the wait is for one semaphore that is not ready, with a finite timeout. |
| `Semaphores.ReadyWaitReturns` | runtime/driver/torq_semaphore.c:318-354 | Once its semaphores are ready a wait returns after a bounded number of its own steps, whatever the others do. |
| `Semaphores.SignalReaches` | runtime/driver/torq_semaphore.c:254-262 | A signal makes a semaphore ready for a wait exactly if its value is at least the payload. |
| `Semaphores.PollReturns` | runtime/driver/torq_semaphore.c:410-416 | A wait without a timeout returns after a bounded number of its own steps and never blocks, ready or not. |
| `TileFitting.Midpoint` | compiler/torq/Codegen/TileAndFusePass.cpp:528-529 | The midpoint lies strictly between factors that are not consecutive. |
| `TileFitting.FirstFactor` | compiler/torq/Codegen/TileAndFusePass.cpp:563-564 | The factor the search starts from is in range and leaves tiles at least as large as the current one. |
| `TileFitting.DivCeilIsLeast` | compiler/torq/Codegen/TileAndFusePass.cpp:579-609 | The size for a factor is the least whose multiple by the factor covers the dimension. |
| `TileFitting.LargestFound` | compiler/torq/Codegen/TileAndFusePass.cpp:582-607 | If a factor does not fit and the next does, no quotient that fits is larger than that of the next. |
| `TileFitting.EnlargeDim` | compiler/torq/Codegen/TileAndFusePass.cpp:579-609 | The binary search ends with a tile that fits and is the largest of the quotients that fit. |
| `TileFitting.FitTileToMemory` | compiler/torq/Codegen/TileAndFusePass.cpp:534-615 | The search ends; a changed tile fits, has 1 in the dimensions before the one found and its old sizes after it; unchanged means that it fitted. With checks that do not fail, it fails only if the tile with all tiling dimensions at 1 does not fit, and for a monotone check whenever that is so. |
| `TilingOrder.Tiler.ForwardDfs` | compiler/torq/Codegen/TileAndFusePass.cpp:94-128 | The search with an explicit stack lists what the recursive search lists, in the same order: each operation once; in an acyclic graph after all its users that can be tiled. |
| `TilingOrder.Tiler.OrderTiOps` | compiler/torq/Codegen/TileAndFusePass.cpp:130-136 | The order is that of the recursive search from the operations of the blocks. All of them that can be tiled are listed, each once, and in an acyclic graph after all their users; nothing else is listed but what uses them. |
| `TilingOrder.MarkedIsClosed` | compiler/torq/Codegen/TileAndFusePass.cpp:117-122 | In an acyclic graph a user that is already marked is closed. |
| `TilingOrder.CloseSound` | compiler/torq/Codegen/TileAndFusePass.cpp:110-115 | An operation closed when all its users are visited comes after them. |
| `ConvTiling.StripeWindow` | compiler/torq/Codegen/TorqHlTilePass.cpp:441-455 | A stripe with enough rows around it gives the convolution the windows of the whole image. |
| `ConvTiling.ChannelRow` | compiler/torq/Codegen/TorqHlTilePass.cpp:404-418 | A channel of a tile, with its part of weights, scale and bias, is the channel of the convolution it was taken from. |
| `ConvTiling.WhenStripesFit` | compiler/torq/Codegen/TorqHlTilePass.cpp:420-455 | The slices of a channel tile are inside the image if and only if there is one stripe or no stripe, with the remainder, is smaller than the halo. |
| `ConvTiling.StripeRow` | compiler/torq/Codegen/TorqHlTilePass.cpp:441-522 | The rows that are kept of a stripe are those of the untiled convolution, whatever was computed for its halo. |
| `ConvTiling.PlaceStripe` | compiler/torq/Codegen/TorqHlTilePass.cpp:496-532 | Inserting a cropped stripe fills exactly the next rows of its channels. |
| `ConvTiling.TileChannels` | compiler/torq/Codegen/TorqHlTilePass.cpp:420-533 | The stripes of one channel tile fill its rows, and the count grows by one on a remainder; fails exactly if a slice is outside the image. |
| `ConvTiling.StripesSettle` | compiler/torq/Codegen/TorqHlTilePass.cpp:426-439 | The stripe count grows by at most one for each channel tile, and only while it does not divide the height. |
| `ConvTiling.TileConvolution` | compiler/torq/Codegen/TorqHlTilePass.cpp:376-536 | For stride 1 and without segmentation: the tiled convolution equals the untiled one everywhere, from tiles that cover the output exactly once, although the stripe count grows from tile to tile; no tile has more channels or rows than asked for. It fails exactly if some stripe is smaller than the halo. |

## Left out

- VirtualMemories.VirtualMemory.Process: a failed `assert` of the original is a failing run here, and a failing run promises nothing about the state it leaves.
- VirtualMemories.VirtualMemory.Defragment: does not promise that memory becomes more compact, only that all unpinned buffers are out at one point and that contents, the resident set and pinned buffers are kept; the order of the unpinned buffers, which the source takes from a hash map, is arbitrary.
- VirtualMemories.VirtualMemory.Add: code that a defragmentation inserts is written before the pending allocation; the model finds the place first and writes the allocation afterwards, which gives the same code.
- VirtualMemories.VirtualMemory.AddAllocation: `memref.alloc` is the only operation with a result in LRAM; for others the pass would insert defragmentation code in front of a definition it does not move.
- VirtualMemories.VirtualMemory.FreeSpace: the bytes asked for are those the source adds up, unrounded and at alias size.
- VirtualMemories.VirtualMemory.Prepare: that the room made suffices to bring the operands in is promised only where the sizes added up cover the words of their buffers (`Rooms.CoversOut`); an alias can be smaller than its buffer, a size need not be a whole number of words, and bringing in then fails. An operand may also be in already because an alias of it was brought in, which is a failing assertion of the original. With a defragmentation it is not said which operands are usable afterwards: the aliases of what was moved become invalid and are not made again.
- Conversions.ConvertVirtualToPhysical: new buffers have the same unspecified contents in both programs, and names inserted by the pass are fresh numbers; `touch`, which nothing calls, and statistics are left out.
- Refinement.EveryRunIsAnOriginalRun: kernels, views and the effect of programs are arbitrary functions of the contents of their operands and of an external state.
- AddressAssignments.AllocateLramAddresses: with buffers left allocated at the end of the function the addresses of the second walk may differ from those of the conversion, and nothing is promised about buffers that keep an address of the first.
- DeallocationRuns.EveryRunFreesAll: takes for granted that values are used after their definition and that an operation has one region, whose operations run in order any number of times. That starts are waited for in their region is needed (`UnwaitedStarts.FineExactlyIfWaited`); where an invocation has several starts it is sufficient, and the converse is not stated.
- LoopMeanings.UnrollingKeepsMeaning: the results of operations and their effect on memory are arbitrary functions of the values they get and of the iteration.
- ForallUnrolling.UnrollingKeepsOutcome: the loop runs from 0 in steps of 1, as a promoted `scf.forall` does.
- SliceScheduling.Schedule: what happens when a wait is for a program that is not in flight is not described beyond the slices assigned.
- NssLoading.EveryProgramIsInPlace: what operations do to memory is arbitrary, except that they neither read nor write the code areas and do not write the code in XRAM; the host waits for a program right after starting it, as the pass makes it.
- StridedCopies.CopyTensor: addresses and offsets are unbounded integers, and reads and writes of the device fail exactly outside of its memories; dump files and event logs are left out.
- Semaphores.ReadyWaitReturns: `iree_notification_await` is taken to return only when its condition held or a finite timeout expired, and to look at the condition again after every signal.
- TileFitting.FitTileToMemory: the check whether a tile fits is an arbitrary function of the sizes; integers do not wrap.
- TilingOrder.Tiler.OrderTiOps: the order of the use lists is arbitrary; how the listed operations are tiled and fused is not modelled.
- ConvTiling.TileConvolution: stride 1, an odd kernel height with the same padding above and below, and no segmentation; the number of channels in a tile and the first number of stripes, which are computed from memory sizes, are parameters.
- 32-bit wrap-around is not modelled anywhere.
- `createStoreOp` and `createLoadOp` with intermediate buffers; the latter builds its host copy with source and destination exchanged when there are more than four source strides.
- Stride-2 striping, segmentation and Conv1D in `TorqHlTilePass`: the meaning of `SegmentationOp` is not in the repository.
- The stronger rewrites of other passes (padding, kernel selection, folding of conversions), serialization, descriptor generation and CPU programs: foreign calls, or rewrites that are easy to state.
- The XRAM address assignment: a running sum.
