# Verified model of the FF-A feature libraries

This project models, in Dafny 4.11, the stateful libraries of a secure partition built on Arm FF-A,
and proves what they promise:

* the **memory allocator**: an address-sorted, coalescing list of free pages, a power-of-two pool
  that splits pages and never merges them back, and an over-allocate-and-trim aligned allocator;
* the **notification registry**: sixteen services of sixty-four mappings and one global ID bitmask;
* the **TPM service**: the CRB state machine over FF-A messages, with the host free to rewrite every
  register between messages;
* the **transfer to the real TPM**: the burst-driven FIFO path against the plain CRB copy;
* **direct messages**: their register layout, and the loops that drain interrupts.

Each library has a functional part (the outcome of every operation as a value, with every 64-bit
wrap written out) and, where the original updates state in place, a class or methods with the
original's loops and branches that are proved to produce exactly that value. The theorems are about
the values. `dafny verify dfyconfig.toml` checks everything.

| file | contents |
|---|---|
| `Pages.dfy`, `PageTheorems.dfy`, `PageMap.dfy` | free-page list: values, theorems, in-place form |
| `FreeEdges.dfy`, `Regions.dfy` | frees and requests at the edges; adding memory regions at start-up |
| `AlignedPages.dfy`, `Powers.dfy` | aligned allocation; powers of two and of 256 |
| `Pool.dfy`, `PoolTheorems.dfy`, `MemoryServices.dfy` | pool: values, theorems, in-place form |
| `HeapRuns.dfy` | the whole allocator and its clients, over every run |
| `Notification.dfy`, `NotificationTheorems.dfy`, `NotificationService.dfy` | registry: values, theorems, in-place form |
| `NotificationMeaning.dfy` | what each message does, from its registers |
| `NotificationSlots.dfy` | slots that no service has claimed, and who inherits what is in them |
| `Tpm.dfy`, `TpmTheorems.dfy`, `TpmService.dfy` | TPM service |
| `TpmMeaning.dfy` | what each message does, from its arguments and the register bits |
| `TpmTransfer.dfy` | CRB and FIFO transfers |
| `TpmExecution.dfy` | executing a command end to end, service and transfer together |
| `FfaMessages.dfy` | direct messages and interrupt draining |

## Where the code does less than it promises

Each of these has a lemma with a concrete input, next to a lemma that says exactly when the code does
keep the promise.

* AllocateAddress computes the end of the range modulo 2^64 (Page.c:129). A request that runs past
  the top of the address space can resize or remove the node it looked at: `WrappingRequestExample`,
  `AllocAtKeepsItsPromiseExactly`.
* A region without a whole page is added as an empty node, or as one of 2^52 - 1 pages when the
  length underflows (Page.c:396-398): `ShortSpanExample`, `AddSpanKeepsItsPromiseExactly`.
* FreePages compares wrapped ends (Page.c:314), adds page counts modulo 2^64 (Page.c:269) and takes empty
  ranges: `WrappingFreeExample`, `WrappedSumExample`, `FreeKeepsItsPromiseExactly`.
* The ASSERT of a merge (Page.c:264-266) can fire on such a free and while a region is added:
  `MergeAssertExample`, `MergeAssertsHoldExactly`; `ShortSpanAssertExample`, `RegionAssertsExactly`.
* A request for no pages can cut a free node in two: `RequestForNoPagesExample`, `RequestForNoPages`,
  `RequestForNoPagesAt`.
* Adding the pool header can wrap the request size (Pool.c:222): `WrappedRequestExample`,
  `GrantedBlockHoldsRequest`.
* An aligned request can fail although a suitable aligned run is free: `AlignedRunCanBeMissed`,
  `AllocateAlignedIsExact`.
* The comment at NotificationServiceLib.c:215 reads as all-or-nothing, but the commit is inside the
  loop: `PartialCommitExample`, `RefusedRequestIsAtomicExactly`.
* A refused first registration leaves mappings in a slot without a service
  (`RefusedFirstRegistrationStrandsItsIds`), and the next service to claim the slot inherits them:
  `InheritedMappingExample`, `NextServiceIsCleanExactly`.
* The search for a cookie to signal ignores whether a mapping is in use, which matters for cookie 0
  only: `ZeroCookieExample`, `SearchIsRightExactly`.
* Services are told apart by the first eight UUID bytes only: `UuidHalfExample`,
  `ServicesDifferOnlyInUpperHalf`.
* The locality-state register keeps locality bits the host wrote: `ActiveFieldExample`,
  `ActiveFieldIsRightExactly`.
* A failed burst read while sending a command is forgotten when the final wait succeeds
  (TpmServiceStateTranslationLib.c:261-279): `LostCommandExample`, `FifoDeliversTheCommandExactly`.
* The copies of a command go by size registers the host can write (TpmServiceStateTranslationLib.c:528-533)
  and can leave the local array: `OverrunExample`, `InsideWhateverTheTpmDoes`, `SizesStayFull`.

## Model

| member | source | states |
|---|---|---|
| Pages.CanonicalIsUnique | FfaFeaturePkg/Library/SecurePartitionMemoryAllocationLib/Page.c:256-341 | A sorted, gap-separated list without empty nodes is the only such list for its set of free bytes |
| Pages.RunLiesInOneNode | FfaFeaturePkg/Library/SecurePartitionMemoryAllocationLib/Page.c:130-138 | A run of free pages never crosses nodes, so looking at one node is enough |
| Pages.CarveMeaning | FfaFeaturePkg/Library/SecurePartitionMemoryAllocationLib/Page.c:57-67 | Cutting a range out of a node leaves a canonical list without exactly those bytes |
| PageTheorems.AllocOnNodeCarves | FfaFeaturePkg/Library/SecurePartitionMemoryAllocationLib/Page.c:39-70 | The split-and-shrink of one node is that cut, at the top of the pages below the limit |
| PageTheorems.RoomBelowLimit | FfaFeaturePkg/Library/SecurePartitionMemoryAllocationLib/Page.c:50 | The wrap of MaxAddress + 1 for the all-ones limit is undone by the subtraction |
| PageTheorems.AllocBelowIsHighest | FfaFeaturePkg/Library/SecurePartitionMemoryAllocationLib/Page.c:82-102 | AllocateMaxAddress and AllocateAnyPages return the highest aligned free run ending at or below the limit, and fail exactly when none exists |
| PageTheorems.AllocAtWithoutWrap | FfaFeaturePkg/Library/SecurePartitionMemoryAllocationLib/Page.c:114-142 | AllocateAddress on a non-wrapping range succeeds exactly when it is aligned and wholly free, takes exactly that range, and otherwise leaves the list alone |
| PageTheorems.AllocAtKeepsItsPromiseExactly | FfaFeaturePkg/Library/SecurePartitionMemoryAllocationLib/Page.c:125-141 | AllocateAddress keeps that promise if and only if the range does not wrap or one of the two early tests turns it away |
| PageTheorems.WrappingRequestDamagesTheList | FfaFeaturePkg/Library/SecurePartitionMemoryAllocationLib/Page.c:129-137 | A wrapping request that passes the node test always changes the list |
| PageTheorems.WrappingRequestExample | FfaFeaturePkg/Library/SecurePartitionMemoryAllocationLib/Page.c:129-137 | A concrete wrapping request that removes a free page it was not asked for |
| PageTheorems.RefusedMeansOverlap | FfaFeaturePkg/Library/SecurePartitionMemoryAllocationLib/Page.c:313-324 | Comparing two neighbours decides whether any byte of the range is already free |
| PageTheorems.InsertMeaning | FfaFeaturePkg/Library/SecurePartitionMemoryAllocationLib/Page.c:326-338 | Insertion and the two merges keep the list canonical and add exactly the range |
| PageTheorems.FreePagesIsExact | FfaFeaturePkg/Library/SecurePartitionMemoryAllocationLib/Page.c:290-341 | FreePages succeeds exactly when the range is aligned and disjoint from free memory; otherwise the list is untouched |
| PageTheorems.AllocatePagesMeaning | FfaFeaturePkg/Library/SecurePartitionMemoryAllocationLib/Page.c:162-215 | For each request type which status, which address and which list: AllocateMaxAddress the highest place at or below the caller's limit, AllocateAnyPages the highest of all, AllocateAddress that address; each failure with its status and nothing changed |
| PageTheorems.AllocateThenFreeRestores | FfaFeaturePkg/Library/SecurePartitionMemoryAllocationLib/Page.c:162-341 | Freeing a just-allocated range restores the identical list |
| PageTheorems.FreeThenAllocateRestores | FfaFeaturePkg/Library/SecurePartitionMemoryAllocationLib/Page.c:114-341 | A freed range can be taken back at its address, restoring the identical list |
| PageTheorems.DoubleFreeIsRefused | FfaFeaturePkg/Library/SecurePartitionMemoryAllocationLib/Page.c:313-324 | A second free that overlaps the first is refused and changes nothing |
| FreeEdges.FreeKeepsItsPromiseExactly | FfaFeaturePkg/Library/SecurePartitionMemoryAllocationLib/Page.c:290-341 | For every address and page count a free keeps the list canonical and adds exactly the range if and only if the range is proper, or a test turns it away, or it is empty and ends a free node |
| FreeEdges.WrappingFreeExample | FfaFeaturePkg/Library/SecurePartitionMemoryAllocationLib/Page.c:313-328 | A free of 2^52 pages, whose size wraps to 0, is accepted |
| FreeEdges.MergeAssertsHoldExactly | FfaFeaturePkg/Library/SecurePartitionMemoryAllocationLib/Page.c:257-338 | Both merges of a free pass their ASSERT if and only if the free is turned away, or the range ends at or below the next free node, or there is none, or the page count wraps |
| FreeEdges.MergeAssertExample | FfaFeaturePkg/Library/SecurePartitionMemoryAllocationLib/Page.c:264-266 | A free of 2^52 pages below a free node is accepted and trips over the ASSERT |
| FreeEdges.WrappingFreeDamages | FfaFeaturePkg/Library/SecurePartitionMemoryAllocationLib/Page.c:313-338 | A free past the top of the address space, once accepted, leaves a node that reaches past it or takes a free byte away |
| FreeEdges.WrappedSumExample | FfaFeaturePkg/Library/SecurePartitionMemoryAllocationLib/Page.c:269 | Freeing 2^64 - 1 pages behind two free pages leaves one |
| FreeEdges.RequestForNoPages | FfaFeaturePkg/Library/SecurePartitionMemoryAllocationLib/Page.c:82-102 | A request for no pages below any limit moves no byte; it fails exactly when no free node starts by the limit, and keeps the list canonical exactly when the address granted is not inside a node |
| FreeEdges.RequestForNoPagesAt | FfaFeaturePkg/Library/SecurePartitionMemoryAllocationLib/Page.c:114-142 | The same at a given address: granted exactly at an aligned address in or at either end of a free node, the list staying canonical exactly outside its interior |
| FreeEdges.RequestForNoPagesExample | FfaFeaturePkg/Library/SecurePartitionMemoryAllocationLib/Page.c:57-62 | A request for no pages that cuts two free pages apart |
| PageMaps.PageMap.AllocPagesOnOneNode | FfaFeaturePkg/Library/SecurePartitionMemoryAllocationLib/Page.c:39-70 | In-place update equals the value form, wraps included |
| PageMaps.PageMap.AllocMaxAddress | FfaFeaturePkg/Library/SecurePartitionMemoryAllocationLib/Page.c:82-102 | The backward walk finds the last fitting node |
| PageMaps.PageMap.AllocAddress | FfaFeaturePkg/Library/SecurePartitionMemoryAllocationLib/Page.c:114-142 | The backward walk finds the last node at or below the address |
| PageMaps.PageMap.AllocatePages | FfaFeaturePkg/Library/SecurePartitionMemoryAllocationLib/Page.c:162-215 | Equals the value form for every request; a proper one is served as its type says, and the list stays canonical |
| PageMaps.PageMap.MergeNodes | FfaFeaturePkg/Library/SecurePartitionMemoryAllocationLib/Page.c:257-275 | Joins touching nodes, page count modulo 2^64; its ASSERT is its precondition |
| PageMaps.PageMap.InsertAndMerge | FfaFeaturePkg/Library/SecurePartitionMemoryAllocationLib/Page.c:326-338 | In-place insertion and merging equals the value form whenever the merge ASSERT holds, on any list |
| PageMaps.PageMap.FreePages | FfaFeaturePkg/Library/SecurePartitionMemoryAllocationLib/Page.c:290-341 | Equals the value form whenever the merge ASSERT holds; on a proper range of a canonical list it keeps the list canonical, adds exactly the range, and succeeds exactly on aligned ranges with no free byte |
| PageMaps.PageMap.AddMemoryRegion | FfaFeaturePkg/Library/SecurePartitionMemoryAllocationLib/Page.c:377-399 | Equals the value form whenever the merge ASSERT holds; of a usable region with a whole page exactly the whole pages become free, unless one is already |
| Regions.AddSpanKeepsItsPromiseExactly | FfaFeaturePkg/Library/SecurePartitionMemoryAllocationLib/Page.c:396-398 | Exactly the whole pages become free if and only if there is one, or the first page boundary is already covered as stated |
| Regions.ShortSpanExample | FfaFeaturePkg/Library/SecurePartitionMemoryAllocationLib/Page.c:396-398 | A ten-byte region becomes a node of 2^52 - 1 pages |
| Regions.RegionAssertsExactly | FfaFeaturePkg/Library/SecurePartitionMemoryAllocationLib/Page.c:396-398 | Adding a region passes the merge ASSERT if and only if its length does not underflow, or its first page boundary is already free, or no free node lies above it |
| Regions.ShortSpanAssertExample | FfaFeaturePkg/Library/SecurePartitionMemoryAllocationLib/Page.c:396-398 | That region below a free page: the ASSERT fires |
| Regions.RegionBecomesFree | FfaFeaturePkg/Library/SecurePartitionMemoryAllocationLib/Page.c:390-398 | A region with any of the three attributes is left out; of any other exactly the bytes of whole pages become free, unless one is already |
| Regions.WholePagesMean | FfaFeaturePkg/Library/SecurePartitionMemoryAllocationLib/Page.c:396-398 | The pages counted are those that lie wholly inside the span |
| AlignedPages.TrimBothEnds | FfaFeaturePkg/Library/SecurePartitionMemoryAllocationLib/SecurePartitionMemoryAllocationLib.c:212-230 | Both trimming frees succeed and exactly the aligned range stays taken |
| AlignedPages.AllocateAlignedIsExact | FfaFeaturePkg/Library/SecurePartitionMemoryAllocationLib/SecurePartitionMemoryAllocationLib.c:174-244 | The result is the aligned address in the highest free run of n pages and one alignment, exactly its n pages leave the free set, and it is NULL exactly when there is no such run |
| AlignedPages.AlignedRunCanBeMissed | FfaFeaturePkg/Library/SecurePartitionMemoryAllocationLib/SecurePartitionMemoryAllocationLib.c:196-211 | A free aligned run that the enlarged request does not find |
| AlignedPages.AllocateAlignedPages | FfaFeaturePkg/Library/SecurePartitionMemoryAllocationLib/SecurePartitionMemoryAllocationLib.c:174-244 | The step-by-step form equals the value form; both status ASSERTs hold |
| Pool.AllocIndex | FfaFeaturePkg/Library/SecurePartitionMemoryAllocationLib/Pool.c:112-157 | The block carries a header of its class marked in use, and smaller classes are untouched |
| Pool.PoolIndexIsSmallest | FfaFeaturePkg/Library/SecurePartitionMemoryAllocationLib/Pool.c:237-241 | The class chosen is the smallest whose blocks hold request plus header |
| Pool.SizeOfClass | FfaFeaturePkg/Library/SecurePartitionMemoryAllocationLib/Pool.c:174-178 | A block size of class i is a power of two from which the free path recovers i |
| PoolTheorems.AllocIndexIsTakenWell | FfaFeaturePkg/Library/SecurePartitionMemoryAllocationLib/Pool.c:112-157 | Taking a block conserves every byte, keeps all lists sized, aligned and tagged, and touches no other header |
| PoolTheorems.SplitsSmallestClass | FfaFeaturePkg/Library/SecurePartitionMemoryAllocationLib/Pool.c:125-148 | The smallest non-empty class is split, each class between keeps one buddy, and failure means nothing is left |
| PoolTheorems.AllocatePoolIsExact | FfaFeaturePkg/Library/SecurePartitionMemoryAllocationLib/Pool.c:204-249 | On every sound heap: granted exactly when a large enough block, a page or a run of pages is to be had; the granted bytes leave the heap and nothing else does; the block is the smallest that holds the request; a refusal changes nothing and gives its status |
| PoolTheorems.SmallRequestSplitsSmallest | FfaFeaturePkg/Library/SecurePartitionMemoryAllocationLib/Pool.c:237-246 | A small request gets the top end of the first block of the smallest class that has one |
| PoolTheorems.GrantedBlockHoldsRequest | FfaFeaturePkg/Library/SecurePartitionMemoryAllocationLib/Pool.c:204-249 | The granted block holds the request and its header if and only if their sum did not wrap |
| PoolTheorems.WrappedRequestExample | FfaFeaturePkg/Library/SecurePartitionMemoryAllocationLib/Pool.c:222-246 | A request of almost 2^64 bytes that is granted 64 |
| PoolTheorems.FreeAssertsExactly | FfaFeaturePkg/Library/SecurePartitionMemoryAllocationLib/Pool.c:168-178 | The ASSERTs of the free path spelled out on size, address and header |
| MemoryServices.Services.Initialize | FfaFeaturePkg/Library/SecurePartitionMemoryAllocationLib/Pool.c:61-100 | The usable descriptors from 1 MB on are added in order; if each holds a whole page, only their whole pages become free, and exactly those when no two overlap |
| MemoryServices.WholeRegionsNeverAssert | FfaFeaturePkg/Library/SecurePartitionMemoryAllocationLib/Pool.c:61-100 | Descriptors with a whole page never meet the merge ASSERT, whatever their order and overlaps |
| MemoryServices.Services.AllocPoolByIndex | FfaFeaturePkg/Library/SecurePartitionMemoryAllocationLib/Pool.c:112-157 | The recursive in-place form equals the value form, unchanged on failure |
| MemoryServices.Services.FreePoolByIndex | FfaFeaturePkg/Library/SecurePartitionMemoryAllocationLib/Pool.c:168-187 | Puts the block at the head of the list its size names |
| MemoryServices.Services.AllocatePool | FfaFeaturePkg/Library/SecurePartitionMemoryAllocationLib/Pool.c:204-249 | In-place form of a pool request, small and large |
| MemoryServices.Services.FreePool | FfaFeaturePkg/Library/SecurePartitionMemoryAllocationLib/Pool.c:289-312 | In-place form of a pool free, by list or by pages |
| HeapRuns.SmallBufferCanBeFreed | FfaFeaturePkg/Library/SecurePartitionMemoryAllocationLib/Pool.c:168-187 | Every ASSERT on the free path holds for every small buffer in use, and it returns to the list it came from |
| HeapRuns.GiveBulkKeepsInv | FfaFeaturePkg/Library/SecurePartitionMemoryAllocationLib/Pool.c:302-309 | A large buffer passes its ASSERTs and returns whole to the page list |
| HeapRuns.GiveRangeKeepsInv | FfaFeaturePkg/Library/SecurePartitionMemoryAllocationLib/Page.c:290-341 | Any part of a page run in use can be given back |
| HeapRuns.StepKeepsInv | FfaFeaturePkg/Library/SecurePartitionMemoryAllocationLib/Pool.c:112-312 | Every permitted request keeps the invariant of allocator and clients |
| HeapRuns.EveryRunConservesTheRegion | FfaFeaturePkg/Library/SecurePartitionMemoryAllocationLib/Pool.c:112-312 | Over every run each byte of the region has exactly one holder and no other byte has any |
| HeapRuns.EveryByteHasOneHolder | FfaFeaturePkg/Library/SecurePartitionMemoryAllocationLib/Pool.c:112-312 | Over every run two holders that share a byte are the same holder, among free nodes, free pool blocks, page runs, large and small buffers, and the bytes held are exactly the region |
| HeapRuns.BlocksLieInOwnedPages | FfaFeaturePkg/Library/SecurePartitionMemoryAllocationLib/Pool.c:125-148 | Every pool block, free or in use, lies inside one page, and the pool owns that page |
| NotificationTheorems.EveryReachableRegistryIsConsistent | FfaFeaturePkg/Library/NotificationServiceLib/NotificationServiceLib.c:134-220 | In every reachable state a bit is set exactly when one mapping carries that ID, cookies are unique per slot, unused mappings are zero, and in-use UUID prefixes differ |
| NotificationTheorems.HandleKeepsInv | FfaFeaturePkg/Library/NotificationServiceLib/NotificationServiceLib.c:392-442 | Every message keeps that invariant |
| NotificationTheorems.ClearBitMeansRoom | FfaFeaturePkg/Library/NotificationServiceLib/NotificationServiceLib.c:183-202 | By pigeonhole, a clear ID bit means every slot has an unused mapping |
| NotificationTheorems.UpdateNeverRunsOut | FfaFeaturePkg/Library/NotificationServiceLib/NotificationServiceLib.c:198-202 | The "no empty mapping" branch is unreachable |
| NotificationTheorems.WordIsDecoded | FfaFeaturePkg/Include/Guid/NotificationServiceFfa.h:29-38 | A mapping word carries the per-vCPU bit, nine bits of ID and the cookie, whatever its reserved bits |
| NotificationMeaning.NothingAtStart | FfaFeaturePkg/Library/NotificationServiceLib/NotificationServiceLib.c:361-372 | At start-up nothing is taken, claimed or mapped |
| NotificationMeaning.MappingsAreRead | FfaFeaturePkg/Library/NotificationServiceLib/NotificationServiceLib.c:117-137 | One to seven mappings are read back as sent, whatever else the registers hold; any other number is none |
| NotificationMeaning.UuidIsBigEndian | FfaFeaturePkg/Library/NotificationServiceLib/NotificationServiceLib.c:510-536 | The UUID is x8 and then x7, most significant byte first |
| NotificationMeaning.HandleRefuses | FfaFeaturePkg/Library/NotificationServiceLib/NotificationServiceLib.c:281-442 | The messages that change nothing, with their replies: other opcodes, no slot left, unknown service, bad count |
| NotificationMeaning.RegisterSucceedsExactly | FfaFeaturePkg/Library/NotificationServiceLib/NotificationServiceLib.c:134-220 | A registration succeeds if and only if no ID is taken, no cookie is in use in the slot and none is repeated; otherwise it is an invalid parameter |
| NotificationMeaning.UnregisterSucceedsExactly | FfaFeaturePkg/Library/NotificationServiceLib/NotificationServiceLib.c:141-173 | An unregistration succeeds if and only if the slot holds every mapping for this source and none is repeated; then exactly those are erased and their IDs freed |
| NotificationMeaning.RegisterMessageMeans | FfaFeaturePkg/Library/NotificationServiceLib/NotificationServiceLib.c:281-316 | A registration message carries out its longest registrable part in the service's slot or the first unclaimed one, with the sender as source; it claims the slot on success only |
| NotificationMeaning.UnregisterMessageMeans | FfaFeaturePkg/Library/NotificationServiceLib/NotificationServiceLib.c:330-354 | An unregistration message erases exactly the longest part of it that the slot holds for the sender |
| NotificationTheorems.RefusedRequestKeepsItsPrefix | FfaFeaturePkg/Library/NotificationServiceLib/NotificationServiceLib.c:128-222 | A request refused at mapping k leaves what its first k mappings alone would have left |
| NotificationTheorems.RefusableMeansRefused | FfaFeaturePkg/Library/NotificationServiceLib/NotificationServiceLib.c:143-186 | A mapping is refused exactly when its cookie is in use in the slot or its ID taken, or, unregistering, when no mapping in use has its cookie, ID and source |
| NotificationTheorems.RefusedRequestIsAtomicExactly | FfaFeaturePkg/Library/NotificationServiceLib/NotificationServiceLib.c:215-219 | A refused request changes nothing if and only if its first mapping meets that refusal condition |
| NotificationTheorems.PartialCommitExample | FfaFeaturePkg/Library/NotificationServiceLib/NotificationServiceLib.c:183-219 | Two mappings with one ID sent to the empty registry: refused, and the ID is taken |
| NotificationTheorems.UnclaimedSlotIsFrozen | FfaFeaturePkg/Library/NotificationServiceLib/NotificationServiceLib.c:249-262 | A slot without a service keeps its mappings through every run of messages that registers nothing |
| NotificationSlots.RefusedFirstRegistrationStrandsItsIds | FfaFeaturePkg/Library/NotificationServiceLib/NotificationServiceLib.c:281-316 | After a first registration that is refused past its first mapping, that mapping's ID stays taken through every run, whoever sends what, until a service claims a slot |
| NotificationSlots.InheritedMappingSignalsItsSender | FfaFeaturePkg/Library/NotificationServiceLib/NotificationServiceLib.c:281-499 | The next service to claim a slot inherits that mapping: its cookie under the new service's UUID signals the partition that was refused |
| NotificationSlots.InheritedMappingExample | FfaFeaturePkg/Library/NotificationServiceLib/NotificationServiceLib.c:281-499 | Partition 7 refused, partition 8 registered, and a signal for partition 8's service goes to partition 7 |
| NotificationSlots.MessageStrands | FfaFeaturePkg/Library/NotificationServiceLib/NotificationServiceLib.c:281-316 | A message leaves a mapping of another UUID in an unclaimed slot exactly if it strands one, or one was there and the message does not claim the slot |
| NotificationSlots.NextServiceIsCleanExactly | FfaFeaturePkg/Library/NotificationServiceLib/NotificationServiceLib.c:281-316 | Over every run from start-up, a service claiming a slot finds only mappings sent under its own UUID there if and only if no message since the last claim stranded one under another |
| NotificationSlots.CleanSlotStaysClean | FfaFeaturePkg/Library/NotificationServiceLib/NotificationServiceLib.c:141-348 | Over every run a claimed slot with only mappings sent under its own UUID goes on having only those |
| NotificationTheorems.UnregisterUndoesRegister | FfaFeaturePkg/Library/NotificationServiceLib/NotificationServiceLib.c:134-213 | Registering and then unregistering the same mappings restores the slot and the bitmask |
| NotificationTheorems.UnregisterMessageUndoesRegisterMessage | FfaFeaturePkg/Library/NotificationServiceLib/NotificationServiceLib.c:281-354 | A register message and then an unregister message with the same words and upper UUID half restore every mapping of every slot and the bitmask |
| NotificationTheorems.MappingOutlivesOtherSources | FfaFeaturePkg/Library/NotificationServiceLib/NotificationServiceLib.c:141-173 | Over every run a registered mapping stays in place, unchanged, until its own source sends a message |
| NotificationTheorems.IdSetSignalsTheRegistration | FfaFeaturePkg/Library/NotificationServiceLib/NotificationServiceLib.c:479-496 | For every non-zero cookie exactly the registered notification is raised, or none |
| NotificationMeaning.SignalMeans | FfaFeaturePkg/Library/NotificationServiceLib/NotificationServiceLib.c:456-499 | A non-zero cookie signals source, ID and flag of the one mapping in use with it, bit 0 of the flag set if it is per vCPU, and nothing without one |
| NotificationMeaning.SentMappingIsSignalled | FfaFeaturePkg/Library/NotificationServiceLib/NotificationServiceLib.c:281-499 | From registers to signal: each registered non-zero cookie signals the sender with its ID and per-vCPU bit |
| NotificationTheorems.RegisteredCookieSignalsItsSource | FfaFeaturePkg/Library/NotificationServiceLib/NotificationServiceLib.c:281-499 | After a registration its cookies signal the registering partition with their ID, bit 0 of the flag set for per-vCPU mappings |
| NotificationTheorems.SearchIsRightExactly | FfaFeaturePkg/Library/NotificationServiceLib/NotificationServiceLib.c:481-482 | The search finds the registered mapping if and only if the cookie is not zero or zero is registered ahead of every unused mapping |
| NotificationTheorems.UnregisteredZeroStillSignals | FfaFeaturePkg/Library/NotificationServiceLib/NotificationServiceLib.c:481-488 | Asking for an unregistered cookie 0 signals partition 0 |
| NotificationTheorems.ZeroCookieExample | FfaFeaturePkg/Library/NotificationServiceLib/NotificationServiceLib.c:481-488 | One registration under cookie 5, after which asking for cookie 0 signals partition 0 |
| NotificationTheorems.ServicesDifferOnlyInUpperHalf | FfaFeaturePkg/Library/NotificationServiceLib/NotificationServiceLib.c:253 | Two UUIDs match if and only if their upper registers agree |
| NotificationTheorems.UuidHalfExample | FfaFeaturePkg/Library/NotificationServiceLib/NotificationServiceLib.c:253 | A mapping registered under one UUID and unregistered under another |
| NotificationService.IsMatchingCookie | FfaFeaturePkg/Library/NotificationServiceLib/NotificationServiceLib.c:60-79 | Finds the first in-use mapping with the cookie |
| NotificationService.ExtractUuid | FfaFeaturePkg/Library/NotificationServiceLib/NotificationServiceLib.c:510-536 | Writes the sixteen bytes, most significant first |
| NotificationService.NotificationTable.LocateService | FfaFeaturePkg/Library/NotificationServiceLib/NotificationServiceLib.c:238-266 | Finds the first matching or empty slot |
| NotificationService.NotificationTable.UpdateServiceInfo | FfaFeaturePkg/Library/NotificationServiceLib/NotificationServiceLib.c:94-223 | The loop over temporaries with its commit inside equals the value form |
| NotificationService.NotificationTable.RegisterHandler | FfaFeaturePkg/Library/NotificationServiceLib/NotificationServiceLib.c:281-316 | In-place registration keeps the invariant |
| NotificationService.NotificationTable.UnregisterHandler | FfaFeaturePkg/Library/NotificationServiceLib/NotificationServiceLib.c:330-354 | In-place unregistration keeps the invariant |
| NotificationService.NotificationTable.Handle | FfaFeaturePkg/Library/NotificationServiceLib/NotificationServiceLib.c:392-442 | Dispatch by the low two bits keeps the invariant; the reply copies the request words and carries the status as 0, 0xFF, 0xFE or 0xFD |
| NotificationService.NotificationTable.SetId | FfaFeaturePkg/Library/NotificationServiceLib/NotificationServiceLib.c:456-499 | For every non-zero cookie raises exactly the registered notification, per-vCPU bit included; succeeds exactly when one is raised and accepted |
| TpmTheorems.StateMovesAlongArrows | FfaFeaturePkg/Library/TpmServiceLib/TpmServiceLib.c:228-327 | In every run the state is one of three and moves only along the diagram, so the default case is never reached |
| TpmMeaning.QuietAtStart | FfaFeaturePkg/Library/TpmServiceLib/TpmServiceLib.c:655-681 | At start-up idle, no locality open or active, all registers reset |
| TpmMeaning.CommandIsExact | FfaFeaturePkg/Library/TpmServiceLib/TpmServiceLib.c:217-335 | A command on the open, active locality: reply, next state and buffer for each state and each of goIdle, cmdReady and start, from the register bits |
| TpmMeaning.LocalityIsExact | FfaFeaturePkg/Library/TpmServiceLib/TpmServiceLib.c:350-397 | A locality request on an open locality: reply, next locality and its registers, from the control bits |
| TpmMeaning.StartTurnsAway | FfaFeaturePkg/Library/TpmServiceLib/TpmServiceLib.c:475-506 | Which Start messages are turned away, and with which reply, before any register is looked at |
| TpmMeaning.StartKeepsLocalityBits | FfaFeaturePkg/Library/TpmServiceLib/TpmServiceLib.c:152-179 | A Start that resets no locality keeps the host's bits in the locality registers and adds the locality's number, valid, assigned and granted |
| TpmMeaning.ManageIsExact | FfaFeaturePkg/Library/TpmServiceLib/TpmServiceLib.c:601-647 | Reply and table of a manage message, firmware being every ID from 0xFF00 on |
| TpmMeaning.OthersAreExact | FfaFeaturePkg/Library/TpmServiceLib/TpmServiceLib.c:411-455 | The other messages change nothing; the version is 1.0 |
| TpmMeaning.CommandCanBeExecuted | FfaFeaturePkg/Library/TpmServiceLib/TpmServiceLib.c:700-748 | Opening, requesting, cmdReady and start, from start-up, are all answered with Ok and leave the response in the buffer in COMPLETE |
| TpmTheorems.ExecutionsAreSeparated | FfaFeaturePkg/Library/TpmServiceLib/TpmServiceLib.c:228-315 | Without idle bypass any two executed commands have a goIdle and then a cmdReady between them |
| TpmTheorems.LocalityChangesByRelinquish | FfaFeaturePkg/Library/TpmServiceLib/TpmServiceLib.c:361-397 | The active locality changes only through a successful relinquish by its holder |
| TpmTheorems.ClosedLocalityFreezes | FfaFeaturePkg/Library/TpmServiceLib/TpmServiceLib.c:475-506 | While the active locality is closed no messages move the state or the locality until firmware reopens it |
| TpmTheorems.StepMovesTable | FfaFeaturePkg/Library/TpmServiceLib/TpmServiceLib.c:616-642 | Only firmware opens or closes a locality, and only the one it names |
| TpmTheorems.StepMovesLocality | FfaFeaturePkg/Library/TpmServiceLib/TpmServiceLib.c:361-391 | A step moves the active locality exactly by a relinquish of it or a request while it is free |
| TpmTheorems.RefusedStartChangesNothing | FfaFeaturePkg/Library/TpmServiceLib/TpmServiceLib.c:461-514 | A Start with any other reply than success leaves state, locality, table and all buffers unchanged |
| TpmTheorems.StartLeavesCleanRegisters | FfaFeaturePkg/Library/TpmServiceLib/TpmServiceLib.c:136-204 | After every Start the active registers are clean and report idle exactly in IDLE, whatever the host wrote |
| TpmTheorems.ActiveFieldIsRightExactly | FfaFeaturePkg/Library/TpmServiceLib/TpmServiceLib.c:152-177 | Bits 2 to 4 give the active locality's number if and only if the host left no bit of another number there |
| TpmTheorems.ActiveFieldExample | FfaFeaturePkg/Library/TpmServiceLib/TpmServiceLib.c:161-163 | A host value that makes locality 2 read as locality 3 |
| TpmTheorems.ResponseIsConfined | FfaFeaturePkg/Library/TpmServiceLib/TpmServiceLib.c:267-303 | Over every run in which the host writes command bytes only where they are taken, a non-zero buffer is the active locality's, and in COMPLETE it is the response of the last command or, with idle bypass, what the host wrote since |
| TpmTheorems.NothingOutlivesComplete | FfaFeaturePkg/Library/TpmServiceLib/TpmServiceLib.c:281-303 | In such a run no buffer of any locality holds anything once the state leaves COMPLETE |
| TpmTheorems.RunsIgnoreInactive | FfaFeaturePkg/Docs/TpmService.md:66-68 | Two runs that differ in what the host wrote to inactive localities go through the same states with the same active registers: such writes are ignored, and lost once the locality is requested |
| TpmTheorems.RepliesIgnoreInactive | FfaFeaturePkg/Docs/TpmService.md:66-68 | Those two runs also get the same replies, message by message |
| TpmService.CrbService.InitInternalCrb | FfaFeaturePkg/Library/TpmServiceLib/TpmServiceLib.c:110-128 | Leaves one locality with nothing asked for or granted, idle, the fixed identity and sizes and a zero buffer, and the others alone |
| TpmService.CrbService.CleanInternalCrb | FfaFeaturePkg/Library/TpmServiceLib/TpmServiceLib.c:136-204 | The active registers ask for nothing and report idle exactly in IDLE; every buffer and every other locality is kept |
| TpmService.CrbService.HandleCommand | FfaFeaturePkg/Library/TpmServiceLib/TpmServiceLib.c:217-335 | The nested switch is the action table of the state diagram |
| TpmService.CrbService.HandleLocalityRequest | FfaFeaturePkg/Library/TpmServiceLib/TpmServiceLib.c:350-397 | Request and relinquish as specified |
| TpmService.CrbService.StartHandler | FfaFeaturePkg/Library/TpmServiceLib/TpmServiceLib.c:461-514 | The state moves along the diagram, the table stays, the active registers end clean, and a refusal moves neither state, locality nor any buffer |
| TpmService.CrbService.ManageLocalityHandler | FfaFeaturePkg/Library/TpmServiceLib/TpmServiceLib.c:601-647 | The table changes only at firmware's word and only at the locality it names, which is then open exactly if opening was asked |
| TpmService.CrbService.HandleMessage | FfaFeaturePkg/Library/TpmServiceLib/TpmServiceLib.c:700-748 | Whatever the message and the registers, the state moves along the diagram, the locality by request or relinquish, the table by firmware, and a refused Start moves none of them |
| TpmTransfer.WaitRegisterBits | FfaFeaturePkg/Library/TpmServiceStateTranslationLib/TpmServiceStateTranslationLib.c:176-218 | One poll decides every wait; a read with the wanted bits, a failed yield and a timeout are exactly its three outcomes |
| TpmTransfer.WaitSucceedsExactly | FfaFeaturePkg/Library/TpmServiceStateTranslationLib/TpmServiceStateTranslationLib.c:176-218 | A wait succeeds if and only if one of the reads its time allows is good and no yield before it fails |
| TpmTransfer.WaitsMean | FfaFeaturePkg/Library/TpmServiceStateTranslationLib/TpmServiceStateTranslationLib.c:273-330 | Which status bits each of the three waits wants, and how many reads it allows |
| TpmTransfer.FifoReadBurstCount | FfaFeaturePkg/Library/TpmServiceStateTranslationLib/TpmServiceStateTranslationLib.c:124-160 | Low byte first, gives the sixteen-bit count of the deciding poll, and tells timeout from yield error by that poll |
| TpmTransfer.CountIsAnnounced | FfaFeaturePkg/Library/TpmServiceStateTranslationLib/TpmServiceStateTranslationLib.c:137-156 | The count is that of the two bytes read at the deciding poll, at most the fourth |
| TpmTransfer.TransferIsCompleteExactly | FfaFeaturePkg/Library/TpmServiceStateTranslationLib/TpmServiceStateTranslationLib.c:259-271 | A burst transfer moves every byte if and only if no burst read fails while bytes are outstanding |
| TpmTransfer.TransferFailsAsItsRead | FfaFeaturePkg/Library/TpmServiceStateTranslationLib/TpmServiceStateTranslationLib.c:369-374 | A failed transfer stops at the first failed burst read, with its status, after exactly the bytes announced before |
| TpmTransfer.CopyCommandCrb | FfaFeaturePkg/Library/TpmServiceStateTranslationLib/TpmServiceStateTranslationLib.c:246-254 | A plain copy |
| TpmTransfer.CopyCommandFifo | FfaFeaturePkg/Library/TpmServiceStateTranslationLib/TpmServiceStateTranslationLib.c:255-282 | The bytes go out in order, no burst takes more than its two bytes announced, and only the final wait is reported |
| TpmTransfer.CopyResponseCrb | FfaFeaturePkg/Library/TpmServiceStateTranslationLib/TpmServiceStateTranslationLib.c:357-364 | A plain copy into the front of the buffer |
| TpmTransfer.CopyResponseFifo | FfaFeaturePkg/Library/TpmServiceStateTranslationLib/TpmServiceStateTranslationLib.c:365-387 | Fills the buffer in order; succeeds exactly when no burst read fails, otherwise reports the first that did, and for no bytes returns the unassigned status |
| TpmTransfer.StartCrb | FfaFeaturePkg/Library/TpmServiceStateTranslationLib/TpmServiceStateTranslationLib.c:516-566 | The buffer holds the answer to the command bytes on success and is unchanged otherwise |
| TpmTransfer.StartFifo | FfaFeaturePkg/Library/TpmServiceStateTranslationLib/TpmServiceStateTranslationLib.c:516-566 | The same over the FIFO, polls and waits included, for the command bytes that arrived |
| TpmTransfer.FifoMatchesCrbExactly | FfaFeaturePkg/Library/TpmServiceStateTranslationLib/TpmServiceStateTranslationLib.c:233-388 | FIFO and CRB give the same status and buffer for every TPM if and only if the first wait or burst read to fail fails as the CRB does, or nothing fails and no command byte is lost that a response could show |
| TpmTransfer.StartBoth | FfaFeaturePkg/Library/TpmServiceStateTranslationLib/TpmServiceStateTranslationLib.c:516-566 | Both paths run on equal buffers over a link that agrees leave equal buffers |
| TpmTransfer.FifoDeliversTheCommandExactly | FfaFeaturePkg/Library/TpmServiceStateTranslationLib/TpmServiceStateTranslationLib.c:259-279 | The TPM receives the whole command if and only if no burst read fails |
| TpmTransfer.LostCommandExample | FfaFeaturePkg/Library/TpmServiceStateTranslationLib/TpmServiceStateTranslationLib.c:261-279 | A command of which nothing was sent, reported as a success |
| TpmTransfer.InsideWhateverTheTpmDoes | FfaFeaturePkg/Library/TpmServiceStateTranslationLib/TpmServiceStateTranslationLib.c:523-558 | The copies stay inside the local array whatever the TPM does if and only if both lengths do |
| TpmTransfer.NothingFailsAnswers | FfaFeaturePkg/Library/TpmServiceStateTranslationLib/TpmServiceStateTranslationLib.c:516-566 | Over either interface, if nothing fails the buffer holds the answer to the whole command |
| TpmExecution.ExecuteRunsTheTransfer | FfaFeaturePkg/Library/TpmServiceLib/TpmServiceLib.c:267-315 | A Start that executes leaves in the data buffer what the transfer of the host's bytes and sizes leaves, error or not, and succeeds and completes exactly when the transfer does |
| TpmExecution.SizesStayFull | FfaFeaturePkg/Library/TpmServiceLib/TpmServiceLib.c:110-204 | Over every run in which the host leaves the size registers alone they give the size of the data buffer |
| TpmExecution.ExecutionAnswersTheCommand | FfaFeaturePkg/Library/TpmServiceStateTranslationLib/TpmServiceStateTranslationLib.c:516-566 | In such a run no execution leaves the local array, and one on which nothing fails leaves, byte by byte, the TPM's answer to all the host wrote |
| TpmExecution.OverrunExample | FfaFeaturePkg/Library/TpmServiceStateTranslationLib/TpmServiceStateTranslationLib.c:528-533 | A size register one too large takes the copy out of the local array |
| FfaMessages.PrepareGuid | FfaFeaturePkg/Library/ArmFfaLibEx/ArmFfaLibEx.c:39-55 | The in-place byte swap |
| FfaMessages.PreparedIsSelfInverse | FfaFeaturePkg/Library/ArmFfaLibEx/ArmFfaLibEx.c:30-31 | Preparing a GUID twice restores it |
| FfaMessages.PackedLayout | FfaFeaturePkg/Library/ArmFfaLibEx/ArmFfaLibEx.c:124-173 | Every register of a sent message, the GUID's bytes in x2 and x3 included |
| FfaMessages.LongMessageRoundTrip | FfaFeaturePkg/Library/ArmFfaLibEx/ArmFfaLibEx.c:87-173 | Unpacking a packed REQ2 or RESP2 message returns every field |
| FfaMessages.ShortRequestRoundTrip | FfaFeaturePkg/Library/ArmFfaLibEx/ArmFfaLibEx.c:87-153 | A 32- or 64-bit request returns its IDs and first six arguments |
| FfaMessages.RegistersRoundTrip | FfaFeaturePkg/Library/ArmFfaLibEx/ArmFfaLibEx.c:87-173 | Packing an unpacked message reproduces the registers |
| FfaMessages.AnswersAreRead | FfaFeaturePkg/Library/ArmFfaLibEx/ArmFfaLibEx.c:208-220 | Which answers are read as an error, a request, a response or an empty message |
| FfaMessages.DrainInterrupts | FfaFeaturePkg/Library/ArmFfaLibEx/ArmFfaLibEx.c:201-206 | Each interrupt is handled once, in order, and the first other answer is returned |
| FfaMessages.MessageWait | FfaFeaturePkg/Library/ArmFfaLibEx/ArmFfaLibEx.c:192-223 | However many interrupts come first, a request packed by the sender comes back as the sender's message |
| FfaMessages.UnexpectedAnswerIsNotUnpacked | FfaFeaturePkg/Library/ArmFfaLibEx/ArmFfaLibEx.c:208-220 | An answer that is neither an error nor expected is never unpacked, whatever it carries, and passes the ASSERT exactly when it is FFA_SUCCESS |
| FfaMessages.SendDirectResp | FfaFeaturePkg/Library/ArmFfaLibEx/ArmFfaLibEx.c:274-308 | Sends the packed reply; the next request comes back as its sender packed it, and the ASSERT on other answers is reported |
| FfaMessages.Port.SendDirectReq2 | FfaFeaturePkg/Library/ArmFfaLibEx/ArmFfaLibEx.c:227-270 | Caches the partition ID, sends the packed request, and a packed RESP2 answer comes back whole |

## Left out

- PageMaps.PageMap.FreePages: asks that the ASSERT in InternalMergeNodes holds; `MergeAssertsHoldExactly` says when, and `FreeKeepsItsPromiseExactly` what comes of every address and page count.
- PageTheorems.FreePagesIsExact: states success exactly for proper ranges; `FreeKeepsItsPromiseExactly` covers the others.
- PageTheorems.AllocatePagesMeaning: speaks of at least one page and, for AllocateAddress, of ranges that do not wrap; `AllocAtKeepsItsPromiseExactly`, `RequestForNoPages` and `RequestForNoPagesAt` cover the others.
- PageMaps.PageMap.AddMemoryRegion: asks for the same ASSERT, as `RegionAssertsExactly` spells out.
- MemoryServices.Services.AllocatePool: excludes the one size, 2^64 - 24, for which the code's own range ASSERT fires.
- NotificationTheorems.EveryReachableRegistryIsConsistent: covers IDs up to 30; for larger IDs the shift of a 32-bit int (NotificationServiceLib.c:172, 183, 210) is undefined in C.
- MemoryServices.Services.Initialize: asks for the same ASSERT at every descriptor; says which bytes become free when the accepted descriptors hold a whole page.
- TpmTransfer.StartCrb: asks that no copy leaves the local array, which the original overruns otherwise; `InsideWhateverTheTpmDoes` and `SizesStayFull` say when none does.
- TpmTransfer.StartFifo: asks for the same.
- The linked-list pointers and the storage of list nodes and headers inside the memory they describe: lists are sequences and headers a map, so the self-insertion of a node when `Top` is 0, which needs a wrapping or an empty request, does not show as the loop it would be: where `RequestForNoPages` grants the base of a node, the original's list ends in a loop.
- Regions and nodes that reach the last page of the 64-bit address space.
- The contents of memory other than pool headers, so copying in ReallocatePool.
- The CRB command and response address registers.
- Numeric values of headers that are not part of the repository (TPM opcodes, number of localities, buffer size, time-outs, FIFO status bits): five localities, a 3968-byte buffer, distinct opcode constructors and the status bits of the TCG PC Client Platform TPM Profile are assumed.
- The wrapper layers that only forward, and the AllocateReserved functions that only return NULL: nothing to prove beyond their bodies.
- Memory sharing calls, partition information, console output and permission setting: single calls into the monitor.
- The interrupt handler, MMIO, SVC and SMC: parameters of each step.
- The timer library, the entry point and the Rust partition: outside the modelled libraries.
