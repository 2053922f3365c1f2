# Sharkix: a model of the kernel's core and its proofs

Sharkix is a capability microkernel in C. This project models the parts of it that
carry an invariant over arbitrarily long runs, and proves those invariants with
Dafny. `dafny verify dfyconfig.toml` checks everything.

The modules follow the system:

- **Physical frames and address spaces** (`Frames`, `PageTree`, `AddressSpaces`,
  `PteWords`). A byte bitmap with reference counts hands out frames. Four-level tables
  are a graph of frames; beside it the model keeps a finite map from places in the tree
  to pages. Every operation, whatever tables it builds or prunes, is proved to be one
  update of that map, with every frame's count equal to outside holds plus leaf entries
  plus one for a live table. What the hardware finds and lets a program do, over all four
  levels, is a look-up in that map. Unmapping leaves no empty table on its way, so mapping
  a page and unmapping it frees exactly the frames it took. `PteWords` ties the entries of
  the model to the 64-bit words in memory.
- **Kernel heap** (`Heap`, `KernelHeap`). Chunk headers in memory, linked both ways, tile
  the heap from its base to the break. The break moves by mapping and unmapping pages of
  the kernel space, in the same tables and from the same frames.
- **Mapped pages with their lists, and ranges** (`KernelMemory`, `AddressRanges`). Every
  mapping has a list node in the heap, so mapping a user page may first make the heap
  grow. Results are therefore stated for every page outside the heap's own addresses,
  heap pages are only ever added, and the frames that growth takes are part of the bounds.
  Range operations change every page or none. A range mapped adds one reference to each
  of its frames and no other frame in use changes its count; a request that failed leaves
  the count of every frame that is mapped or held.
- **IPC** (`Endpoint`, `IpcProtocol`). `Endpoint` is the object with its ring buffer;
  its methods are the blocks that run under the endpoint's lock. `IpcProtocol` runs
  those blocks, semaphore waits and posts, as atomic steps of any number of senders and
  receivers and one destroyer, in any order.
- **Physical memory objects** (`Pmem`). A reference-counted graph of parents with
  derive, merge and an iterative release. `OwnedPages` ties the objects that own their
  pages to the frame allocator.
- **Scheduler and thread life cycle** (`Scheduling`, `Scheduler`, `Links`). `Scheduling`
  is the step system over whole runs; `Scheduler` is the intrusive-list code, where ready
  queue and sleep list share one link field, proved to refine it. The reaper's position
  is part of the step system, so that threads may exit between its iterations. `Links`
  holds the linked-list theory, shared with the hash table.
- **Memory objects** (`VmoMaps`, `VmoLayer`). The index of mappings of an address space
  and its agreement with the page tables. Each record is a block of the kernel heap.
  `VmoRights` holds the rights that objects and mappings share.
- **Program loader** (`ElfFormat`, `ElfLoader`, `ElfWitness`). From the bytes of a file to
  the bytes that the new program sees.
- **Hash table** (`Bits`, `HashBuckets`, `HashTable`). The kernel's hash index with its
  two link structures and in-place doubling, against a finite map.
- **Capabilities** (`Capabilities`, `Authority`). The capability table and sets, as a step
  system over whole runs and as the code that takes those steps, and the calls that lead
  from a memory capability to a mapped page.
- **Kernel virtual addresses** (`Kvalloc`). A sorted region list with first fit.

`Basics` holds the few definitions that several modules share.

Three results are exact conditions for properties that do not hold of all inputs:

- A search for several contiguous frames can miss a free run that crosses the remembered
  starting point. `MissesFreeRun` runs the allocator into that state; `AllocPages` fails
  exactly when every free run crosses that point. For one frame the search is complete.
- A sleep of `d` ticks lasts exactly `d` ticks for `1 <= d <= 2^63 + 1`. Longer ones end
  at the next tick (`LongSleepEndsAtOnce`), because the deadline is compared by a signed
  difference.
- The loader maps segments that are not writable straight from the page of the file that
  holds their offset. Take a loadable segment whose file bytes, and the bytes the loader
  takes in their place, lie beyond the 64-byte ELF header. `LoadsTheImageIff` shows that
  the loader gets it right in every well-formed file that holds it exactly when it is
  writable, or offset and address agree modulo the page size, or it has no file bytes. For
  every such segment `FileFor` is a whole file, header and program header included, that
  passes every check; `LoadsFile` runs the loader on it, and what the program sees is the
  ELF image exactly if the segment is sound. `ConcreteWrongFile` is one of 8192 bytes that
  is loaded wrongly.

Where code and comments disagree the model follows the code: removing a capability from
a set, or destroying a set, destroys the capabilities themselves
(`src/kernel/subsystems/kcaps.c:601-728`), although the header says that they stay valid.

Conventions: integers are unbounded and the code's own overflow checks are written out.
List nodes and mapping records come from the modelled heap. For all other small records
(capabilities, capability-set entries, memory-range and object records) parameters such as
`nodeOk`, `capOk`, `entryOk` and `memoryOk` say that a free chunk is at hand. The loader's
`grants` decides each request to the kernel. Locks make the blocks they guard atomic. The
kernel's panics on inconsistent state appear as assertions that are proved.

## Model

| member | source | states |
|---|---|---|
| `Frames.Bitmap.Set` | src/kernel/core/memory.c:130-133 | setting a bit changes that frame's bit in the byte array and no other |
| `Frames.Bitmap.Clear` | src/kernel/core/memory.c:135-138 | clearing a bit changes that frame's bit and no other |
| `Frames.Bitmap.Test` | src/kernel/core/memory.c:140-143 | the test reads the abstract bit |
| `Frames.FrameAllocator.MarkManaged` | src/kernel/core/memory.c:355-370 | exactly the whole frames of the range that were unmanaged become free, with bitmap, counts and counters still exact |
| `Frames.FrameAllocator.MarkUnmanaged` | src/kernel/core/memory.c:372-387 | every frame that the range touches leaves the pool and no other, counters exact |
| `Frames.FrameAllocator.SearchFreeRun` | src/kernel/core/memory.c:433-447 | the result is the lowest free run of that length in the interval, or there is none |
| `Frames.FrameAllocator.AllocRun` | src/kernel/core/memory.c:449-474 | success takes the lowest free run from the hint on, or else the lowest before it, every frame at count one; failure exactly when neither part holds a run |
| `Frames.FrameAllocator.AllocPages` | src/kernel/core/memory.c:476-486 | fails exactly when every free run crosses the hint; for one frame, only if none is free; no frame in use is ever handed out |
| `Frames.FrameAllocator.AllocPagesBelow` | src/kernel/core/memory.c:493-505 | the run starts no frame at or above the limit; the same exact failure condition |
| `Frames.FrameAllocator.Get` | src/kernel/core/memory.c:517-530 | one more reference on that frame and nothing else changes |
| `Frames.FrameAllocator.Put` | src/kernel/core/memory.c:532-550 | one reference fewer; at zero the frame becomes free, with bit, counter and both hints in step |
| `Frames.TakenFree` | src/kernel/core/memory.c:465-473 | handing out a run lowers the number of free frames by exactly its length and leaves the managed set alone |
| `Frames.SearchCompleteForOne` | src/kernel/core/memory.c:449-474 | for one frame the two-part search fails if and only if no frame is free, whatever the hint |
| `Frames.MissesFreeRun` | src/kernel/core/memory.c:449-505 | a run of the allocator from its start: with frames 1 and 2 free and the hint at 2 a request for two frames fails |
| `Frames.SearchFailsIffStraddling` | src/kernel/core/memory.c:449-474 | the search fails if and only if every free run crosses its starting point |
| `PageTree.LinkEmptyInv` | src/kernel/core/memory.c:597-628 | linking an empty table keeps the tree an exact image of the same map |
| `PageTree.UnlinkEmptyInv` | src/kernel/core/memory.c:733-776 | pruning an empty table keeps the tree an exact image of the same map |
| `PageTree.SetLeafInv` | src/kernel/core/memory.c:697-776 | writing a last-level entry is one update of the map |
| `PageTree.AddRootInv` | src/kernel/core/memory.c:831-881 | a new space with the kernel's upper slots keeps the invariant and the map |
| `PageTree.ResolveCanon` | src/kernel/core/memory.c:557-571 | following entries from a root reaches the table at the canonical place, or nothing, at every depth |
| `PageTree.TranslateIsModel` | src/kernel/core/memory.c:557-571 | a full walk finds a page exactly if the map holds one at the canonical place and the slot is present |
| `PageTree.LinkEmptyPerms` | src/kernel/core/memory.c:597-628 | a link built for the lower half is open to user code, one for the upper half is not, and both are writable |
| `PageTree.WalkIsTranslate` | src/kernel/core/memory.c:557-628 | the access that the four entries of a walk grant together is the page's own, but that the upper half is closed to user code |
| `PageTree.ExactLink` | src/kernel/core/memory.c:574-628 | a new table accounts for exactly the one reference its frame was allocated with |
| `PageTree.ExactUnlink` | src/kernel/core/memory.c:759-774 | giving a pruned table back keeps every count exact |
| `PageTree.ExactMap` | src/kernel/core/memory.c:719-720 | a mapping takes one reference, or takes over the caller's, and all counts stay exact |
| `PageTree.ExactUnmap` | src/kernel/core/memory.c:741-747 | unmapping drops exactly the reference of that mapping |
| `PageTree.FreeMeansUnused` | src/kernel/core/memory.c:433-550 | a free frame is mapped nowhere and is no table, so allocation never hands out a frame in use |
| `PteWords.AddressReadsBack` | src/kernel/core/memory.c:697-743 | the address read from a stored entry is the one given to mapping if and only if it is below 2^52 |
| `PteWords.LeafIsEntry` | src/kernel/core/memory.c:720 | the stored word decodes to the model's entry, frame and all flags |
| `PteWords.LinkIsEntry` | src/kernel/core/memory.c:597-628 | the word linking a table decodes to a present, writable link to its frame |
| `PteWords.ProtectIsEntry` | src/kernel/core/memory.c:1342-1373 | changing protection replaces exactly the three flags and keeps address and other bits |
| `PteWords.ZeroIsEmpty` | src/kernel/core/memory.c:744 | the word that unmapping stores is the empty entry |
| `AddressSpaces.AllowedIff` | src/kernel/core/memory.c:665-688 | mappings are allowed exactly on pages of the canonical lower half, and for the kernel space on those of the upper half |
| `AddressSpaces.KeyInjective` | src/kernel/core/memory.c:557-571 | two pages of one region share the four table indices only if they are the same page of the same space |
| `AddressSpaces.Spaces.EnsureLevel` | src/kernel/core/memory.c:597-628 | an absent level is built from one free frame, zeroed and with the region's user bit, a present one is followed; fails only without frames or at a large page |
| `AddressSpaces.Spaces.EnsurePageTable` | src/kernel/core/memory.c:597-628 | the walk ends at the table for the address; translations are untouched, at most three frames are spent; tables are only added on the walk, empty but for it |
| `AddressSpaces.Spaces.WalkToPte` | src/kernel/core/memory.c:557-571 | succeeds exactly if the last-level table is reachable and returns that table |
| `AddressSpaces.Spaces.TranslateAddress` | src/kernel/core/memory.c:901-912 | the physical address is the mapped frame plus the page offset, or none exactly if the page is not mapped |
| `AddressSpaces.Spaces.IsMapped` | src/kernel/core/memory.c:656-663 | true if and only if the map has the page |
| `AddressSpaces.Spaces.MapPage` | src/kernel/core/memory.c:697-731 | without a list node: success adds exactly one page to the map and one reference to its frame, or none if owned; every space that holds the root slot then finds the frame there with exactly the flags asked for (user access only in the lower half), and everything else as before; failure changes nothing that any space finds and no count of a frame in use, and has a named cause; at most three frames are spent |
| `AddressSpaces.Spaces.UnmapPage` | src/kernel/core/memory.c:733-776 | succeeds exactly for a mapped page; removes that page and no other from what any space finds; afterwards no table on its walk is empty, those off the walk are untouched, each given back held nothing else, and counts fall by one for the page and one for each table; failure changes nothing |
| `AddressSpaces.Spaces.PruneEmpty` | src/kernel/core/memory.c:759-774 | exactly the tables of the walk that have become empty are given back, from the bottom up; a root slot of the upper half stays |
| `AddressSpaces.Spaces.TableEmpty` | src/kernel/core/memory.c:630-635 | true exactly if no entry is present |
| `AddressSpaces.Spaces.ProtectPage` | src/kernel/core/memory.c:1342-1373 | succeeds exactly for a mapped page and changes only that page's flags, not its frame, in what every space finds |
| `AddressSpaces.Spaces.NewSpace` | src/kernel/core/memory.c:831-881 | nothing of the new space is mapped, it holds exactly the shared slots of the kernel, and the map and the other spaces are as before |
| `AddressSpaces.Spaces.AllocPage` | src/kernel/core/memory.c:488-491 | a frame that was free, mapped nowhere and no table, held once by the caller; fails only if none is free |
| `AddressSpaces.Spaces.AllocPages` | src/kernel/core/memory.c:476-486 | contiguous frames that nobody held, each held once by the caller; fails exactly when every free run crosses the hint |
| `AddressSpaces.WalkRestored` | src/kernel/core/memory.c:597-776 | building the tables of a walk and giving them back leaves exactly the tables that were there, in the same frames |
| `AddressSpaces.MapThenUnmap` | src/kernel/core/memory.c:697-776 | a page of the lower half mapped and unmapped again, with no empty table on its walk before: map, tables and every reference count are as they were |
| `AddressSpaces.WalkIsLookup` | src/kernel/core/memory.c:557-571 | the hardware walk of any space, with the access it grants, is one look-up in the finite map |
| `AddressSpaces.OnlyThatPage` | src/kernel/core/memory.c:697-776 | an update of one key changes what is found at that page and nowhere else, in every space |
| `KernelMemory.FindMapping` | src/kernel/core/memory.c:749-757 | finds the first node for the address; dropping it keeps the order of the others |
| `KernelHeap.Break.AddPage` | src/kernel/core/memory.c:951-969 | one frame that was free, mapped as the next heap page, writable, not executable and for the kernel alone, and given up to the mapping; failure takes the frame back and changes no translation |
| `KernelHeap.Break.Undo` | src/kernel/core/memory.c:954-966 | unmapping in reverse gives back the map from before the growth; the ignored results are always successes |
| `KernelHeap.Break.Grow` | src/kernel/core/memory.c:949-970 | all or nothing: the heap is mapped exactly up to the new end, or no page has changed |
| `KernelHeap.Break.Shrink` | src/kernel/core/memory.c:982-985 | the heap is mapped exactly up to the lower end and nothing else changes |
| `KernelHeap.Break.Ksbrk` | src/kernel/core/memory.c:930-992 | the heap is mapped exactly up to the page-rounded break; failure leaves pages, break and holds as they were; growing fails only at the limit, at a large page or with fewer than four free frames per page |
| `KernelHeap.Kheap.Kmalloc` | src/kernel/core/memory.c:999-1053 | failure means that nothing fits and the break cannot move, and changes nothing; otherwise a new block of at least that size, and less than 80 bytes more, at the lowest fit, all other blocks and pages kept, heap pages only added |
| `KernelHeap.Kheap.Kfree` | src/kernel/core/memory.c:1055-1076 | exactly that block is given back; no page changes |
| `KernelMemory.Memory.MapPage` | src/kernel/core/memory.c:697-731 | with its list node from the heap: outside the heap exactly one page is added, or nothing; its frame gains a reference, or gains none if owned, and no other frame in use changes its count; failure keeps the count of every frame mapped or held; the node is a live block of its own; fails for want of frames only if fewer than seven are free |
| `KernelMemory.Memory.UnmapPage` | src/kernel/core/memory.c:733-776 | removes exactly that page and its node, whose block is freed; its frame loses one reference and no other frame any |
| `KernelMemory.Memory.NewSpace` | src/kernel/core/memory.c:831-881 | a new space with an empty list |
| `KernelMemory.LentThenMapped` | src/kernel/core/memory.c:705-730 | a heap growth followed by the page is one page mapped, at the cost of both, with the counts of one mapping |
| `KernelMemory.SameMapSameCounts` | src/kernel/core/memory.c:930-992 | between two states with the same map and holds every frame mapped or held has the same count, but for a table that it was and no longer is |
| `AddressSpaces.UnmappedCounts` | src/kernel/core/memory.c:733-776 | a page less in the map is one reference less on its frame and none on any other |
| `KernelMemory.FailedKeepsCounts` | src/kernel/core/memory.c:1192-1285 | after a failure, even one for which the heap has grown, every frame that some page shows has the count it had |
| `AddressRanges.RangeOkIff` | src/kernel/core/memory.c:1205-1241 | the checks on the ends of a range pass exactly if it does not wrap and every page of it may be mapped |
| `AddressRanges.Preflight` | src/kernel/core/memory.c:1245-1254 | answers whether all pages of the range are mapped, or none |
| `AddressRanges.Rollback` | src/kernel/core/memory.c:1269-1285 | undoes a partial mapping, pages, list, nodes and reference counts, exactly; only heap pages may remain; its panic is unreachable |
| `AddressRanges.MapRange` | src/kernel/core/memory.c:1192-1285 | all or nothing outside the heap: every page gets its frame, flags and node and every frame of the range one reference, or pages, lists, holds and the counts of all frames mapped or held are as before; with seven free frames per page, room in the heap and no large page in the root slots of the range an admissible request cannot fail |
| `AddressRanges.UnmapRange` | src/kernel/core/memory.c:1288-1339 | succeeds if and only if the whole range is valid and mapped, and then removes exactly it and its nodes; every frame loses as many references as the range had pages of it; its panic is unreachable |
| `AddressRanges.ProtectRange` | src/kernel/core/memory.c:1377-1425 | succeeds if and only if the whole range is valid and mapped, and then changes exactly its flags |
| `AddressRanges.InstallAt` | src/kernel/core/memory.c:1256-1267 | after mapping, page i is frame f+i with the requested flags and every other page is as before |
| `AddressRanges.RemoveAt` | src/kernel/core/memory.c:1329-1338 | after unmapping, no page of the range is left and every other page is as before |
| `AddressRanges.RecolourAt` | src/kernel/core/memory.c:1415-1424 | protecting keeps every frame and changes the flags of exactly the range |
| `AddressRanges.MapThenUnmap` | src/kernel/core/memory.c:1192-1339 | mapping a range and unmapping it gives back the map one started with |
| `AddressRanges.DroppedPushed` | src/kernel/core/memory.c:723-757 | dropping the nodes of a range just pushed gives back the list |
| `AddressRanges.RangeUndone` | src/kernel/core/memory.c:1192-1339 | mapping a range, failing on something else and unmapping it changes nothing but perhaps heap pages, and gives every reference back |
| `AddressRanges.ChargedThenReleased` | src/kernel/core/memory.c:1192-1339 | the references that mapping a range takes are those that unmapping it drops |
| `AddressRanges.PagesOfRange` | src/kernel/core/memory.c:1256-1267 | a range of consecutive frames has one page of each |


| `AddressRanges.LowerHalfIsPrivate` | src/kernel/core/memory.c:665-776 | an update of one user-half key shows in no upper half and in no other space |
| `AddressRanges.SharesKernelHalf` | src/kernel/core/memory.c:831-881 | where a space holds a shared slot it finds what the kernel finds |
| `Heap.Allocator.FirstFit` | src/kernel/core/memory.c:1009-1010 | the chunk found is the first that is free and large enough, or there is none |
| `Heap.Allocator.TakeChunk` | src/kernel/core/memory.c:1009-1023 | a free chunk becomes a new block, cut to size whenever enough is left for another, and all others stay |
| `Heap.Allocator.GrowHeap` | src/kernel/core/memory.c:1026-1049 | a chunk of whole pages at the break becomes a new block, cut to size in the same way, and all others stay |
| `Heap.Allocator.Kfree` | src/kernel/core/memory.c:1055-1076 | callers own everything but that block; links, tiling and absence of adjacent free chunks are kept through both joins; the double-free panic is unreachable for a live block |
| `Heap.SplitRep` | src/kernel/core/memory.c:1011-1020 | the header writes of a split represent the split tiling, all links correct |
| `Heap.JoinRep` | src/kernel/core/memory.c:1065-1074 | the header writes of a join represent the joined tiling |
| `Heap.AppendRep` | src/kernel/core/memory.c:1029-1039 | the header writes of growth represent the tiling with one more chunk |
| `Heap.JoinUndoesSplit` | src/kernel/core/memory.c:1011-1074 | joining undoes splitting, bytes and headers conserved |
| `Heap.LiveDisjoint` | src/kernel/core/memory.c:999-1076 | live blocks are pairwise disjoint with a header between them |
| `Heap.LiveInside` | src/kernel/core/memory.c:994-1053 | live blocks are 16-byte aligned and inside the heap |
| `Heap.TakeGains` | src/kernel/core/memory.c:1009-1023 | using a free block, split or not, gains exactly that block |
| `Heap.GrowGains` | src/kernel/core/memory.c:1026-1049 | growing, split or not, gains exactly that block |
| `Heap.FreeLoses` | src/kernel/core/memory.c:1055-1076 | freeing with coalescing on both sides loses exactly that block and leaves no two adjacent free chunks |
| `Endpoint.RingPush` | src/kernel/subsystems/kipc.c:11-20 | writing the tail slot appends to the sequence the ring stands for, across the wrap |
| `Endpoint.RingPop` | src/kernel/subsystems/kipc.c:23-32 | advancing the head removes the first element, across the wrap |
| `Endpoint.Endpoint.Push` | src/kernel/subsystems/kipc.c:11-20 | appends unless 64 messages are queued |
| `Endpoint.Endpoint.Pop` | src/kernel/subsystems/kipc.c:23-32 | takes the oldest message unless the queue is empty |
| `Endpoint.Endpoint.Send` | src/kernel/subsystems/kipc.c:444-522 | closed if shutting down; done, with the message last and one waiting receiver given a token, exactly if there is room, waiting or not; else registered as waiting, or cancelled; and the block is the step of the protocol |
| `Endpoint.Endpoint.Recv` | src/kernel/subsystems/kipc.c:622-713 | closed if shutting down; the oldest message, with one waiting sender given a token, exactly if there is one, waiting or not; else registered as waiting, or cancelled; and the block is the step of the protocol |
| `Endpoint.Endpoint.Close` | src/kernel/subsystems/kipc.c:248-325 | shutdown takes over all waiters, whose numbers the destroyer must post |
| `Endpoint.Endpoint.Release` | src/kernel/subsystems/kipc.c:97-111 | one reference fewer; the caller must free exactly if it was the last of a closed endpoint |
| `IpcProtocol.StepInv` | src/kernel/subsystems/kipc.c:62-713 | every step of any interleaving keeps order, token accounting, coverage of room by tokens, and lifetime |
| `IpcProtocol.ReachableInv` | src/kernel/subsystems/kipc.c:11-713 | in every reachable state accepted messages are received ones followed by the queue, and all waiters are accounted for |
| `IpcProtocol.ReceiveTakesOldest` | src/kernel/subsystems/kipc.c:622-713 | a receive of either kind takes the head of the queue of an open endpoint; only one that may wait, at an open and empty one, waits |
| `IpcProtocol.SendTakesRoom` | src/kernel/subsystems/kipc.c:444-522 | a send of either kind is accepted by an open endpoint with room; only one that may wait, at an open and full one, waits |
| `IpcProtocol.DeliveredInOrder` | src/kernel/subsystems/kipc.c:444-712 | over any run what has been received is the beginning of all that was accepted, one message for each receive that found one, and the rest is queued |
| `IpcProtocol.RoomWakesSender` | src/kernel/subsystems/kipc.c:444-496 | no lost wakeup: room with a blocked sender means some sender can go on |
| `IpcProtocol.MessageWakesReceiver` | src/kernel/subsystems/kipc.c:622-669 | no lost wakeup: a queued message with a blocked receiver means some receiver can go on |
| `IpcProtocol.FreedOnceAndLast` | src/kernel/subsystems/kipc.c:85-325 | the endpoint is freed at most once, only after shutdown and with no operation or destroyer left |
| `IpcProtocol.NoUseAfterFree` | src/kernel/subsystems/kipc.c:62-713 | every enabled step finds the endpoint still allocated |
| `IpcProtocol.DestroyWakesAll` | src/kernel/subsystems/kipc.c:248-325 | once the destroyer is done every waiting operation has a token of its own |
| `IpcProtocol.RemainingDecreases` | src/kernel/subsystems/kipc.c:248-325 | after shutdown every step uses up work |
| `IpcProtocol.ClosedIsNotStuck` | src/kernel/subsystems/kipc.c:248-325 | a closed endpoint that is not freed can always take a step |
| `IpcProtocol.ClosedRunsEndFreed` | src/kernel/subsystems/kipc.c:248-325 | after shutdown every run is bounded and one that cannot go on has freed the endpoint |
| `Pmem.Registry.Create` | src/kernel/subsystems/kpmem.c:98-146 | registers exactly the described range, the exact failure condition |
| `Pmem.Registry.Derive` | src/kernel/subsystems/kpmem.c:186-245 | succeeds exactly for a subrange of a registered object (counters not exhausted) and makes it a child |
| `Pmem.Registry.Merge` | src/kernel/subsystems/kpmem.c:247-363 | succeeds exactly if no hole lies between the two; the new range is their union and both become parents, once each |
| `Pmem.MergedRange` | src/kernel/subsystems/kpmem.c:288-328 | the range covers exactly the bytes of both, or there is a hole or an overflow |
| `Pmem.Registry.Reclaim` | src/kernel/subsystems/kpmem.c:405-412 | releasing a record's parents keeps all other counts exact; the underflow panic is unreachable |
| `Pmem.Registry.Drain` | src/kernel/subsystems/kpmem.c:396-412 | the loop ends, and collects exactly the records nothing refers to, each once |
| `Pmem.Registry.Destroy` | src/kernel/subsystems/kpmem.c:381-425 | afterwards the records are exactly the registered ones and their ancestors; exactly the owned ranges that stopped being wanted are given back |
| `Pmem.LiveIsWanted` | src/kernel/subsystems/kpmem.c:370-425 | a record with exact, nonzero counts has a registered descendant |
| `Pmem.ExactlyWanted` | src/kernel/subsystems/kpmem.c:370-425 | exact counts are reachability: records are the registered ones and their ancestors, both ways |
| `Pmem.RootCovers` | src/kernel/subsystems/kpmem.c:186-363 | every byte of an object lies in an ancestor without parents |
| `Pmem.BackingStays` | src/kernel/subsystems/kpmem.c:381-425 | that ancestor is unreclaimed and its pages have not been given back while the object is registered |
| `Pmem.ReleasedIffUnwanted` | src/kernel/subsystems/kpmem.c:381-425 | an owned range has been given back if and only if no registered object descends from its owner; each once |
| `OwnedPages.Store.Alloc` | src/kernel/subsystems/kpmem.c:148-184 | whole pages that nobody held, each held once for the new object; exact failure condition; failure leaves every hold as it was |
| `OwnedPages.Store.Destroy` | src/kernel/subsystems/kpmem.c:381-425 | the holds of exactly those owners are dropped from which no registered object descends any more; no other hold changes |
| `OwnedPages.BackedNew` | src/kernel/subsystems/kpmem.c:148-184 | a new owner shares no frame with another, and each frame is held for its owner once, besides the holds of others |
| `OwnedPages.BackedLess` | src/kernel/subsystems/kpmem.c:417-423 | giving back one owner's pages keeps that, and every frame given back was held |
| `OwnedPages.RegisteredIsHeld` | src/kernel/subsystems/kpmem.c:381-425 | each byte of a registered object whose root owns its pages lies in a frame that is held, hence not free |
| `Scheduling.StepInv` | src/kernel/core/scheduler.c:23-107 | every step keeps: only the current thread runs, each queue holds exactly the threads in its state |
| `Scheduling.RunKeepsInv` | src/kernel/core/scheduler.c:145-230 | the same over every run |
| `Scheduling.StepMovesUp` | src/kernel/core/scheduler.c:23-56 | a dispatch moves every queued thread up by one, any other step by none |
| `Scheduling.QueuedUntilItsTurn` | src/kernel/core/scheduler.c:23-107 | over any run a queued thread has moved up by exactly the number of dispatches |
| `Scheduling.RunsAtItsTurn` | src/kernel/core/scheduler.c:23-107 | with k threads ahead it runs at precisely the (k+1)-th dispatch, whatever else happens |
| `Scheduling.NeverIdleWithWork` | src/kernel/core/scheduler.c:23-56 | every dispatch runs somebody, and idle only if nobody else can run |
| `Scheduling.RunsAfterItIsReadied` | src/kernel/core/scheduler.c:145-209 | a thread started or woken with n threads queued runs at precisely the (n+1)-th dispatch from then on and at none before |
| `Scheduling.RunsAfterPreemption` | src/kernel/core/scheduler.c:23-56 | a thread that yields or is preempted goes on if nobody else can run and otherwise runs again after exactly those ahead of it |
| `Scheduling.HeldUntilReadied` | src/kernel/core/scheduler.c:145-209 | an unstarted thread never runs before it is started, a blocked one never before it is woken |
| `Scheduling.BlockedUntilWoken` | src/kernel/core/scheduler.c:181-209 | the thread that blocks leaves the processor and is not current again before it is woken |
| `Scheduling.ExitIsFinal` | src/kernel/core/thread.c:259-271 | after its exit a thread is never current again, unless its number is given to a new thread |
| `Scheduling.ExpiredIff` | src/kernel/core/scheduler.c:70-87 | the signed comparison says due exactly at the deadline or more than half the counter's range before it |
| `Scheduling.TickCountsDown` | src/kernel/core/scheduler.c:224-230 | a tick brings a sleeper one closer or wakes it, across wrap |
| `Scheduling.SleepsUntilDue` | src/kernel/core/scheduler.c:70-87 | over any run without an explicit wake-up a sleeper keeps its deadline |
| `Scheduling.SleepIsExact` | src/kernel/core/scheduler.c:159-178 | a sleep of d ticks ends at exactly the d-th tick for every d up to 2^63 + 1, and the thread is not current before |
| `Scheduling.LongSleepEndsAtOnce` | src/kernel/core/scheduler.c:159-178 | any longer sleep ends at the next tick |
| `Scheduling.GoneOnlyWhenDead` | src/kernel/core/thread.c:273-301 | a thread is freed only unstarted or dead, never queued, asleep, dying or current |
| `Scheduling.DeadOnlyAfterTerminating` | src/kernel/core/thread.c:259-301 | a step makes a thread dead only from terminating |
| `Scheduling.GoneWasTerminatingThenDead` | src/kernel/core/thread.c:259-301 | over any run, a started thread that has disappeared was terminating at one point and dead at a later one |
| `Scheduling.DeadForAPass` | src/kernel/core/thread.c:273-301 | with everybody else's steps between those of the reaper: a thread that is terminating during a pass, whenever it exited, is dead and still registered when the pass is over and until the next one |
| `Scheduling.FreedInALaterPass` | src/kernel/core/thread.c:273-301 | a thread that one pass declares dead is freed in a later pass, never in the same one |
| `Scheduler.Queues.Push` | src/kernel/core/scheduler.c:23-33 | appends to the ready list in place; the sleep list, threaded through the same field, is untouched |
| `Scheduler.Queues.Pop` | src/kernel/core/scheduler.c:35-45 | takes the head of the ready list in place |
| `Scheduler.Queues.Unsleep` | src/kernel/core/scheduler.c:58-68 | unlinks the thread from the sleep list wherever it is |
| `Scheduler.Scheduler.WakeExpired` | src/kernel/core/scheduler.c:70-87 | the in-place sweep moves exactly the due sleepers to the ready queue, in list order |
| `Scheduler.Scheduler.Switch` | src/kernel/core/scheduler.c:89-107 | the linked-list code performs the abstract switch; its consistency halt is unreachable |
| `Scheduler.Scheduler.Start` | src/kernel/core/scheduler.c:145-157 | succeeds exactly for an unstarted thread other than idle; it is then runnable and last in the queue, and no other thread has changed; the list code is the abstract step |
| `Scheduler.Scheduler.SleepCurrent` | src/kernel/core/scheduler.c:159-178 | the list code performs the abstract step |
| `Scheduler.Scheduler.BlockCurrent` | src/kernel/core/scheduler.c:180-195 | the list code performs the abstract step |
| `Scheduler.Scheduler.Wake` | src/kernel/core/scheduler.c:197-210 | succeeds exactly for a blocked thread; it is then runnable, last in the queue and no longer asleep, and no other thread has changed; the list code is the abstract step |
| `Scheduler.Scheduler.OnTick` | src/kernel/core/scheduler.c:224-230 | the list code performs the abstract tick |
| `Scheduler.Scheduler.ExitCurrent` | src/kernel/core/thread.c:259-271 | the exiting thread goes to the dying list and another runs |
| `Scheduler.Scheduler.Retire` | src/kernel/core/thread.c:291-300 | one terminating thread becomes dead; the halt on any other state is unreachable |
| `Scheduler.Scheduler.Reap` | src/kernel/core/thread.c:277-290 | one dead thread is removed |
| `Scheduler.Scheduler.ReapTurn` | src/kernel/core/thread.c:273-301 | one iteration of the loop the reaper is in, or the end of that loop, is the step of the abstract reaper |
| `Scheduler.Scheduler.ReapPass` | src/kernel/core/thread.c:273-301 | a pass that nobody interrupts: exactly the threads that were dead are gone, exactly those that were terminating are dead |
| `VmoMaps.AgreeMap` | src/kernel/subsystems/kvmo.c:599-721 | mapping into free pages and recording it keeps index and tables in agreement and cannot overlap a recorded mapping |
| `VmoMaps.AgreeUnmap` | src/kernel/subsystems/kvmo.c:723-794 | a recorded mapping is fully mapped; removing it and its record keeps the agreement |
| `VmoMaps.AgreeProtect` | src/kernel/subsystems/kvmo.c:811-904 | changing rights in tables and record keeps the agreement |
| `VmoMaps.AgreeGrows` | src/kernel/subsystems/kvmo.c:179-216 | new objects and memory ranges do not disturb it |
| `VmoMaps.AgreeGrown` | src/kernel/subsystems/kvmo.c:599-721 | nor do new heap pages |
| `VmoMaps.PageIsRecorded` | src/kernel/subsystems/kvmo.c:392-497 | every mapped page lies in exactly one record, is the right page of its memory, and is writable or executable exactly as recorded and only if the object has the right |
| `VmoLayer.Layer.Create` | src/kernel/subsystems/kvmo.c:179-216 | fails exactly for unknown rights or want of memory; otherwise a handle never used before, bound for good to its memory and rights |
| `VmoLayer.Layer.Destroy` | src/kernel/subsystems/kvmo.c:278-300 | only the object goes; its mappings and their agreement stay |
| `VmoLayer.Layer.Overlaps` | src/kernel/subsystems/kvmo.c:464-486 | true exactly if some record intersects the range |
| `VmoLayer.Layer.Find` | src/kernel/subsystems/kvmo.c:549-597 | finds the record that contains the address, if there is one |
| `VmoLayer.Layer.Map` | src/kernel/subsystems/kvmo.c:599-721 | success only for a request the object, its memory and the space allow; then the record, a block of the heap, is added and agrees with the tables, and each frame mapped has one more reference; failure changes nothing but perhaps heap pages and keeps the counts of all frames mapped or held; other spaces keep their pages; the rollback panic is unreachable; with enough frames it succeeds |
| `VmoLayer.Layer.Unmap` | src/kernel/subsystems/kvmo.c:723-809 | succeeds if and only if a record matches; removes exactly its pages, with their references, and it, and frees it |
| `VmoLayer.Layer.Protect` | src/kernel/subsystems/kvmo.c:811-904 | succeeds if and only if a record matches and the object has the rights; other spaces keep their pages; the bookkeeping panic is unreachable |
| `VmoLayer.Layer.UnmapAll` | src/kernel/subsystems/kvmo.c:906-960 | ends, with no record and nothing mapped in the space, and every page of every other space as it was |
| `VmoLayer.RecordGrantsAccess` | src/kernel/subsystems/kvmo.c:599-721 | at every page of a recorded mapping the hardware finds the right frame of the object's memory, open to user code, and allows writing and execution exactly as recorded |
| `ElfFormat.TablesInside` | src/user/testelf/loader.c:120-191 | a header that passes puts both tables inside the file, without 64-bit overflow |
| `ElfFormat.HeaderOkIff` | src/user/testelf/loader.c:120-191 | the check accepts exactly the files with the fixed bytes of a 64-bit little-endian x86-64 executable and both tables inside the file |
| `ElfFormat.EntryRead` | src/user/testelf/loader.c:549 | the entry address is the number in bytes 24 to 31 |
| `ElfFormat.FilledWithin` | src/user/testelf/loader.c:446-464 | file-backed and mixed pages cover the file bytes and stay inside the segment's pages |
| `ElfFormat.MixedInFile` | src/user/testelf/loader.c:481-510 | for a congruent segment the copy ends exactly where its file bytes end |
| `ElfWitness.FileIsWellFormed` | src/user/testelf/loader.c:120-323 | for every segment beyond the header a file that holds it and passes every check |
| `ElfWitness.LoadsTheImageIff` | src/user/testelf/loader.c:446-538 | over all well-formed files that hold a segment beyond the header, the loader gets it right in every one if and only if it is writable, congruent or without file bytes |
| `ElfWitness.HeaderReadsBack` | src/user/testelf/loader.c:120-191 | every header reads back from its bytes, field by field |
| `ElfWitness.RightExactlyIfSound` | src/user/testelf/loader.c:446-538 | wherever the file of a segment is loaded, what the program sees is the ELF image exactly if the segment is sound |
| `ElfWitness.FileIsSuited` | src/user/testelf/loader.c:195-553 | the file of a readable segment in user addresses meets every condition for being loaded into an empty space |
| `ElfWitness.LoadsFile` | src/user/testelf/loader.c:195-553 | a run of the loader on the file of a segment, with every request granted, succeeds, returns the entry address that the file was made with, and shows the ELF image exactly if the segment is sound |
| `ElfWitness.ConcreteWrongFile` | src/user/testelf/loader.c:446-538 | an accepted file of 8192 bytes whose one segment shows another byte |
| `ElfLoader.Loader.Reserve` | src/user/testelf/loader.c:100-116 | exact success condition; the range lies in the scratch area just below all earlier ones |
| `ElfLoader.Loader.Copy` | src/user/testelf/loader.c:430-434 | every read is inside the mapped file and every write inside the scratch mapping; the object gets exactly those bytes |
| `ElfLoader.Loader.LoadWritable` | src/user/testelf/loader.c:394-444 | the segment's memory is file bytes then zeros in a private object, with the segment's permissions |
| `ElfLoader.Loader.MapDirect` | src/user/testelf/loader.c:446-471 | exactly the whole file pages are shared, never writable |
| `ElfLoader.Loader.LoadMixed` | src/user/testelf/loader.c:481-517 | the page where file bytes end shows them followed by zeros |
| `ElfLoader.Loader.LoadZeros` | src/user/testelf/loader.c:519-538 | the remaining pages show zeros |
| `ElfLoader.Loader.LoadShared` | src/user/testelf/loader.c:446-538 | direct, mixed and zero pages together are the segment; a congruent one never reads past the file |
| `ElfLoader.Loader.LoadSegment` | src/user/testelf/loader.c:302-538 | a segment is refused only if it does not fit or a request was turned down; it is loaded if it fits, has a free place and scratch addresses, and every request is granted |
| `ElfLoader.Loader.ElfLoad` | src/user/testelf/loader.c:195-553 | on success the entry returned is that of bytes 24 to 31 and every loadable segment shows the loader's image with its own permissions and nothing else was mapped; the file is untouched and no new mapping can write it, on every outcome; refusal and overrun have named causes; a suited file is loaded if every request is granted |
| `ElfLoader.SoundIsElf` | src/user/testelf/loader.c:195-553 | a loaded sound segment is, byte by byte, what the format promises |
| `ElfLoader.ProtBits` | src/user/testelf/loader.c:360-374 | a segment's permissions are its three lowest flag bits |
| `Bits.ShiftAndMask` | include/uthash.h:846-848 | shift and mask are quotient and remainder by a power of two |
| `HashBuckets.IdealIsCeiling` | include/uthash.h:846-848 | the shift-and-mask ideal length is the ceiling of items over buckets |
| `HashBuckets.RehashPlaced` | include/uthash.h:850-870 | items put one by one into empty buckets are each, once, in the bucket of their hash |
| `HashBuckets.DoublingKeepsItems` | include/uthash.h:833-883 | doubling loses and duplicates nothing |
| `HashBuckets.MultIsRatio` | include/uthash.h:856-861 | the expansion multiplier is zero, one, or the chain length over the ideal rounded up |
| `HashTable.Buckets.Push` | include/uthash.h:767-776 | the item becomes the head of its chain, links both ways and counts exact |
| `HashTable.Buckets.Remove` | include/uthash.h:789-802 | the item leaves its chain wherever it is |
| `HashTable.Buckets.FindIn` | include/uthash.h:745-764 | the first chain member with that hash and key, or none has both |
| `HashTable.Buckets.Expand` | include/uthash.h:833-883 | the in-place rebuild gives the chains that inserting into an empty table in visiting order gives; counts, multipliers and the number of items beyond the ideal are exact |
| `HashTable.Order.Append` | include/uthash.h:278-284 | the list in order of addition gains the item at its end |
| `HashTable.Order.Unlink` | include/uthash.h:450-477 | the list loses the item, head and tail kept right |
| `HashTable.Table.AddToBucket` | include/uthash.h:767-785 | doubles exactly when the chain reaches its threshold and doubling is on; two ineffective doublings in a row turn it off |
| `HashTable.Table.Find` | include/uthash.h:153-163 | returns an item with the key exactly if there is one |
| `HashTable.Table.Add` | include/uthash.h:396-415 | the item goes to the end of the order; list and chains hold the same items |
| `HashTable.Table.Delete` | include/uthash.h:450-477 | exactly that item goes; the last one takes the table with it |
| `HashTable.IndexAdd` | include/uthash.h:396-415 | with distinct keys, adding is one update of a finite map |
| `HashTable.IndexCut` | include/uthash.h:450-477 | with distinct keys, deleting removes exactly that key |
| `HashTable.FindIsLookup` | include/uthash.h:153-163 | with distinct keys, a search is a look-up in the map |
| `Capabilities.RightsOkIff` | src/kernel/subsystems/kcaps.c:35-61 | the check lets through exactly the seven generic rights and those that the kind names |
| `Capabilities.Table.Create` | src/kernel/subsystems/kcaps.c:103-142 | succeeds exactly for rights that the kind knows; a handle never used before names the object with those rights; the only operation that adds to the rights granted for an object |
| `Capabilities.Table.Destroy` | src/kernel/subsystems/kcaps.c:162-197 | exactly that capability dies |
| `Capabilities.Table.Derive` | src/kernel/subsystems/kcaps.c:348-406 | succeeds exactly for a subset of the source's rights; the new handle then names the source's object with exactly those rights, and nothing else changes |
| `Capabilities.Table.Clone` | src/kernel/subsystems/kcaps.c:408-455 | the new handle names the same object with the same rights, and nothing else changes |
| `Capabilities.Table.Merge` | src/kernel/subsystems/kcaps.c:457-532 | succeeds exactly for two capabilities on one object; the new handle then has the rights of both; never more than was granted; the check of the merged rights cannot fail |
| `Capabilities.Table.DestroySet` | src/kernel/subsystems/kcaps.c:601-627 | the set goes in one step and each capability in it in a step of its own; with nothing in between, exactly these are gone |
| `Capabilities.Table.AddCap` | src/kernel/subsystems/kcaps.c:629-689 | succeeds exactly for a live capability not yet in the set |
| `Capabilities.Table.DelCap` | src/kernel/subsystems/kcaps.c:691-728 | the handle leaves the set in one step and the capability dies everywhere in the next |
| `Capabilities.Table.MoveCap` | src/kernel/subsystems/kcaps.c:759-831 | afterwards in the target and not in the source, and no other membership changes |
| `Capabilities.MoveOnly` | src/kernel/subsystems/kcaps.c:759-831 | no other membership changes |
| `Capabilities.Table.ResolveCap` | src/kernel/subsystems/kcaps.c:833-889 | the first live member of that kind with the rights, or there is none |
| `Capabilities.Table.ResolveHandle` | src/kernel/subsystems/kcaps.c:891-951 | succeeds exactly for a live member of that kind with the rights, and returns the object it was made for |
| `Capabilities.Table.ResolveRecord` | src/kernel/subsystems/kcaps.c:953-996 | the record returned is the one the handle was born with |
| `Capabilities.BirthKeeps` | src/kernel/subsystems/kcaps.c:103-532 | a record whose rights were granted keeps rights from ever exceeding grants |
| `Capabilities.StepKeeps` | src/kernel/subsystems/kcaps.c:103-831 | every operation keeps rights within grants, sets of known handles, and all history |
| `Capabilities.StaleNeverResolves` | src/kernel/subsystems/kcaps.c:891-996 | after any run of operations a handle whose capability has died resolves in no set |
| `Capabilities.DestroyedInRun` | src/kernel/subsystems/kcaps.c:601-728 | once the destroying step of a capability has been taken it resolves in no set, whatever steps of others came before, between and after |
| `Capabilities.ResolvesToItsBirth` | src/kernel/subsystems/kcaps.c:891-996 | after any run a handle that resolves names the object and rights it was made with |
| `Capabilities.GrantsAreCreations` | src/kernel/subsystems/kcaps.c:103-142 | over any run the rights granted to an object are exactly those passed to its creations |
| `Capabilities.RunNeverAmplifies` | src/kernel/subsystems/kcaps.c:103-532 | after any run every live capability has only rights that creations in that run gave to its object, all valid for its kind |
| `Authority.ChainShrinks` | src/kernel/core/syscall.c:1394-1496 | along any chain of derivations rights and byte ranges only shrink |
| `Authority.Kernel.DerivePmem` | src/kernel/core/syscall.c:1394-1496 | succeeds if and only if the caller may derive; the new object and capability are exactly those asked for; failure takes back both |
| `Authority.Kernel.NewVmo` | src/kernel/core/syscall.c:1522-1629 | succeeds if and only if the caller's memory capability has every right of the new object |
| `Authority.Kernel.MapVmo` | src/kernel/core/syscall.c:451-575 | a mapping needs a capability with the rights to map and to access, and then agrees with the tables and adds one reference to each frame; failure keeps the counts of all frames mapped or held; other spaces keep their pages; with enough frames an entitled request succeeds |
| `Authority.PageHasAuthority` | src/kernel/core/syscall.c:451-1629 | a page mapped from an object made under a memory capability implies map, read, and write or execute as the page has them, on that capability and all it was derived from, and lies in their memory |
| `Kvalloc.RoundUp` | src/kernel/core/kvalloc.c:25-36 | whole pages, or none exactly for zero or a size that would wrap |
| `Kvalloc.Arena.Alloc` | src/kernel/core/kvalloc.c:47-122 | the lowest address in the arena at which the rounded length fits, over all addresses; with good arguments and memory, failure means that no gap is long enough |
| `Kvalloc.Arena.Free` | src/kernel/core/kvalloc.c:124-163 | succeeds if and only if the address is a live base, despite the early exit |
| `Kvalloc.AllocThenFree` | src/kernel/core/kvalloc.c:47-163 | freeing what was just allocated gives back the list |

## Left out

- Physical addresses of 2^52 and above: mapping tests the address as given and unmapping the stored one (`AddressReadsBack`), so page operations take addresses below 2^52.
- Address-space destruction, and the empty tables that a failed build of a walk leaves behind.
- TLB and CR3 handling, interrupt entry and all inline assembly; the boot-time memory map and bootstrap allocator.
- Heap requests near 2^63 and above, whose alignment and signed increment are unchecked in the code; kernel stacks.
- Growth of the heap for records other than list nodes and mapping records: their allocation is a parameter that says a free chunk is at hand. The memory of hash tables themselves is not modelled.
- Range operations of the kernel's own space inside the heap's addresses, which would take pages from under the allocator.
- IPC publish, subscribe and notification bindings, and message copying to and from user memory; endpoint creation is one step.
- IpcProtocol: semaphores are counters and a wait that finds a token is one step; fairness among waiters is not modelled.
- Lifetime of the memory behind a memory object: an object names its memory by handle without holding it, so `VmoLayer.Layer.Map` asks that the frames are in use (`Held`). For registered memory that owns its pages `RegisteredIsHeld` shows that they are, short of an overflow of the count; ranges described without owning them have no such guarantee.
- KernelMemory.Memory.MapPage: seven free frames are enough; the exact number depends on which tables exist.
- AddressRanges.MapRange: the same bound for each page; it is sufficient, not exact.
- VmoLayer.Layer.Map: the same bound, and four frames for the record.
- ElfWitness.LoadsTheImageIff: segments whose bytes overlap the ELF header are not covered, since the header's own check fixes some of those bytes.
- VmoLayer: one address space is modelled at a time, not the kernel's own space; concurrent callers on one set are serialized.
- Thread identifiers, stacks, contexts and exceptions; the idle thread is fixed at start.
- ElfLoader: kernel calls are modelled at the level of whole objects and page maps; the loader's and the target's address spaces are distinct; object lengths are whole pages; a copy past the mapped file ends the model's run with `Overrun`, where the program would fault or read what lies there.
- HashTable: hash functions are arbitrary, counters do not wrap at 32 bits, and out-of-memory, Bloom filters, sorting and selection are not modelled.
- Capabilities: names of capabilities, and destruction of the object behind a capability; handle counters are assumed not to wrap, since the code would reuse handles then.
- System calls other than deriving memory, making an object from it and mapping it; stubbed calls have no behaviour.
- knotify, kportio, kirq, kas, console and device drivers, the shell, and the boot stub.
