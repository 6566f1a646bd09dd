# A model of the kernel's allocators, page tables and USB rings

The project models the data structures of the kernel that keep hard invariants, and proves them for all inputs,
all runs or all reachable states.

- **Virtual addresses** (`kernel/lib/rbtree.c`, `kernel/mm/vmalloc.c`). `RbShape` and `RbSpec` give red-black trees
  and the insertion and removal algorithms as functions on trees and contexts; `RbTree` is the code on linked nodes
  and is proved to compute them; `RbProofs`, `RbAugment` and `RbErase` say what they keep: colours and black
  heights, the order, and the stored subtree maxima. `VmapSearch` and `VmapTree` are the loops over the free tree;
  `VmapZones` is one zone of addresses as a sequence of areas; `VmapRings`, `VmapAreas`, `VmapMoves` and `Vmalloc`
  tie the two trees, the neighbour lists and the area records to that sequence.
- **Pages** (`kernel/mm/buddy_system.c`, `kernel/mm/memblock.c`, `kernel/mm/vmm.c`). `BuddyBlocks`, `BuddySteps` and
  `Buddy` are the page allocator; `Memblock` is the boot-time allocator; `PageTree` and `Vmm` are the four-level page
  tables, and `Mmu` is the processor's walk through them, from memory alone (Intel SDM volume 3A, section 4.5).
- **Objects** (`kernel/mm/slub.c`). `SlubSizes`, `SlubLists`, `Slub`, `SlubCache` and `Kmalloc`.
- **xHCI rings** (`kernel/drivers/usb/xhci`). `XhciRing` is the driver's code, one store at a time; `XhciProtocol`
  is a submit ring shared with a controller that may read between any two stores (xHCI 1.2, section 4.9);
  `XhciEvents` is the event ring, `XhciTransfer` cuts transfers into TRBs, and `XhciStreams` finds a stream's ring.
- **HID reports** (`kernel/drivers/usb/hid`). `HidBits`, `HidItems` and `HidParser`; `HidLevels`, `HidSources` and
  `HidLocals` tell the fields from the places of the items, without a parser's state.
- **Port events** (`kernel/drivers/usb/core/usb-hub.c`). `UsbEvents` is the queue between interrupt and thread.

Code that changes fields in place is a class or a method on linked nodes; its contracts tie the new state to a
function of the old one. Words are natural numbers; where the code works modulo 2 to the 32 or 64, the model says so.

## Model

| member | source | states |
|---|---|---|
| RbTree.Insert | kernel/lib/rbtree.c:81-161 | on linked nodes: linking a node into an empty slot of a red-black tree and rebalancing leaves a red-black tree in memory whose order is the old one with the node in that slot; no start or end changes |
| RbTree.Erase | kernel/lib/rbtree.c:170-348 | on linked nodes: taking out any node, with its successor put in its place if it has two children, leaves a red-black tree in memory whose order lacks that node only |
| RbProofs.InsertKeepsRedBlack | kernel/lib/rbtree.c:9-161 | for every red-black tree and empty slot, any augmentation: the result is red-black and has the new node in that slot of the order |
| RbProofs.EraseKeepsRedBlack | kernel/lib/rbtree.c:170-348 | for every red-black tree and node, any augmentation: the result is red-black and its order lacks exactly that node |
| RbAugment.InsertExactIff | kernel/mm/vmalloc.c:19-79 | insertion with the rotate and propagate callbacks leaves all stored maxima exact if and only if the node's stale maximum differs from its size, or the exact maximum above its slot is as large |
| RbAugment.ResizeKeepsExact | kernel/mm/vmalloc.c:222-234 | giving a node any new interval in place and propagating from it leaves all stored maxima exact |
| RbAugment.EraseKeepsDominates | kernel/mm/vmalloc.c:19-79 | removal keeps every stored maximum at least the own size and the children's stored maxima |
| RbAugment.ExactDominates | kernel/mm/vmalloc.c:19-43 | exact maxima are such maxima |
| RbAugment.DominatesTrueMax | kernel/mm/vmalloc.c:19-43 | and such maxima never hide space: none is less than the largest size below it |
| RbErase.EraseExactIff | kernel/lib/rbtree.c:170-348 | removal leaves all stored maxima exact if and only if `StaysExact` holds of the tree and the node before the call, for every tree with exact maxima and every node, deep successors included |
| VmapSearch.SearchSound | kernel/mm/vmalloc.c:180-209 | whatever the stored maxima, a result is an area of the tree that lies within the bounds and passes the test of the code, whose sum is taken modulo 2 to the 64 |
| VmapSearch.SearchHoldsIff | kernel/mm/vmalloc.c:187-190 | on every tree in address order, the area found has room for the aligned request if and only if neither the aligned start nor the end of the request passes 2 to the 64 there |
| VmapSearch.FitsIff | kernel/mm/vmalloc.c:185-190 | where the request does not wrap around, an area passes the test if and only if it lies within the bounds and holds an aligned range of the size anywhere, whatever its own alignment |
| VmapSearch.SearchOffersIff | kernel/mm/vmalloc.c:180-209 | where nothing wraps around, the result is the lowest area within the bounds that holds an aligned range of the size, or none if none does, if and only if the search is steered; the test of the code does not occur in this |
| VmapSearch.SearchLowestIff | kernel/mm/vmalloc.c:180-209 | on every tree in address order, for any bounds and any alignment: the result is the lowest area that passes the test, or none if none does, if and only if each left child on the way to that area points the right way (`Steered`) |
| VmapSearch.SearchGuided | kernel/mm/vmalloc.c:180-209 | with aligned starts, the result is the lowest fit whenever the stored maxima on the way tell whether a left child holds a big enough area from the lower bound on, whatever areas of other zones lie below |
| VmapSearch.SearchFindsLowest | kernel/mm/vmalloc.c:180-209 | in particular with exact maxima and no area below the lower bound |
| VmapTree.FindLowestMatch | kernel/mm/vmalloc.c:180-209 | the loop over linked nodes finds what `Search` finds in the tree they form, so that `SearchSound`, `SearchHoldsIff` and `SearchOffersIff` hold of it |
| Vmalloc.AddressSpace.constructor | kernel/mm/vmalloc.c:388-408 | after init_vmalloc each of the three zones is one free area, and both trees, the rings and the records agree with that |
| Vmalloc.AddressSpace.Alloc | kernel/mm/vmalloc.c:214-262 | for a request that does not wrap around in the area the search gives: fails exactly when the search does; otherwise one zone, and it alone, has the aligned piece carved out of the area found, the record returned is the one that stands in the zone for the piece, with its start and end and marked used, and it is the old record exactly if the whole area is consumed; trees, rings and records stay in agreement with zones that tile their bounds without two free neighbours; where nothing wraps around, the area is the lowest free one of any zone that holds an aligned range of the size, and failure means that none does, if and only if the search is steered; exact maxima stay exact unless a whole area is consumed at a node for which `StaysExact` fails |
| Vmalloc.AddressSpace.Free | kernel/mm/vmalloc.c:267-300 | the used area becomes free and merges with free neighbours of its zone, in both trees, the ring and the records; zones keep tiling their bounds without two free neighbours; the new free tree is a function of the old one, and exact maxima survive each removal of a neighbour exactly under `StaysExact`, and then the insertion exactly under the condition of `InsertExactIff`, all read off the state before the call |
| Vmalloc.AddressSpace.Find | kernel/mm/vmalloc.c:305-315 | finds the used area that starts at the address, or none if there is none |
| VmapZones.CarveKeeps | kernel/mm/vmalloc.c:214-262 | all four ways of splitting leave the zone tiled, without two free neighbours, and the piece exactly where asked |
| VmapZones.AllocFreeRestores | kernel/mm/vmalloc.c:252-300 | freeing what was just carved out restores every interval of the zone and whether it is used |
| Buddy.BuddySystem.constructor | kernel/mm/buddy_system.c:9-26 | freeing the managed frames one by one leaves free blocks that partition them, as many frames as there were, and no free block beside a free buddy of its order |
| Buddy.FramesAre | kernel/mm/buddy_system.c:18-25 | for regions that begin at frames, the managed frames are exactly those all of whose bytes lie in one region |
| Buddy.BuddySystem.AllocPages | kernel/mm/buddy_system.c:29-62 | fails exactly when no list from the order on has a block; otherwise the first block of the first such list is split, its last part goes out with that order, the blocks still partition the managed frames and agree with lists, counts and page records, and the free frames are fewer by the block's size |
| Buddy.BuddySystem.FreePages | kernel/mm/buddy_system.c:65-83 | a null or referenced page changes nothing; otherwise the block merges upward with flagged free buddies of its order, lists, counts and page records follow, and the free frames are more by its size |
| BuddyBlocks.FlipBits | kernel/mm/buddy_system.c:72 | the buddy's number is the exclusive or with the block's size: it differs in that bit and no other |
| Buddy.MergeDecides | kernel/mm/buddy_system.c:69-77 | the loop's test on the buddy's page record holds if and only if the buddy is a flagged free block of that order: stale fields of pages inside blocks never mislead it |
| Buddy.FreeCoalescesIff | kernel/mm/buddy_system.c:65-83 | freeing leaves no free block beside a free buddy of its order if and only if every free buddy of equal order met on the way up is flagged |
| Buddy.AllocHeads | kernel/mm/buddy_system.c:54-60 | every tail of a block from alloc_pages has the block as compound head; its first page is its own head if and only if it was not the tail of something else before |
| Memblock.Memory.Alloc | kernel/mm/memblock.c:77-113 | takes the aligned start of the first region with room and leaves the array as that region cut in place, sorted and disjoint, or leaves everything alone if no region has room or the size is 0 |
| Memblock.Memory.Free | kernel/mm/memblock.c:116-149 | the range becomes a region of its own at its place in the order, or part of the neighbour or the two neighbours it touches; the array stays sorted, with gaps between regions and zeros beyond the count |
| Memblock.CutKeeps | kernel/mm/memblock.c:77-113 | cutting keeps the regions sorted and takes exactly the cut addresses away |
| Memblock.FirstFitLowest | kernel/mm/memblock.c:77-113 | no aligned range of the size inside the regions starts below the one taken |
| Memblock.AddedKeeps | kernel/mm/memblock.c:116-149 | freeing keeps the regions sorted, separate and maximal, and adds exactly the freed addresses |
| Memblock.FreeRestores | kernel/mm/memblock.c:77-149 | freeing what was just allocated restores the array |
| Vmm.PageTables.Mmap | kernel/mm/vmm.c:5-58 | maps the entry or, if it is taken, returns -1 and changes nothing; the tables stay a tree in which each table is owned by one path and counted right, and the links of new tables are those of `LinkEntryBits` |
| Vmm.PageTables.MapAndFind | kernel/mm/vmm.c:5-58 | after a successful mmap, find_page_table_entry at the page's level gives an entry that leads to the physical page asked for and has exactly the attribute bits asked for |
| Vmm.EntryTarget | kernel/mm/vmm.c:21 | the entry leads to its page, if the attributes have no address bits |
| Vmm.EntryBits | kernel/mm/vmm.c:21 | a bit of the entry is set if and only if it is set in the address or in the attributes |
| Vmm.TargetBits | kernel/include/vmm.h:15 | the address in an entry is its bits 12 to 46 |
| PageTree.LinkEntryBits | kernel/mm/vmm.c:13 | a link has the address bits of its table, and below them the flags of `FlagBits` |
| PageTree.FlagBits | kernel/mm/vmm.c:13 | bits 0 and 2 are those of the attributes, bit 1 is set, and there are no others |
| Vmm.PageTables.Unmmap | kernel/mm/vmm.c:61-119 | clears the entry and gives back every table that became empty, or returns -1 and changes nothing; the tables stay a tree |
| Vmm.PageTables.FindEntry | kernel/mm/vmm.c:143-161 | what a walk through the live tables gives |
| Vmm.PageTables.MmapRange | kernel/mm/vmm.c:122-130 | succeeds if and only if every entry of the range is 0 and the range has no more pages than 48 bits of address; maps the pages in order up to the first that is taken; every other mapping, and every live table but for new entries, stays |
| Vmm.RangeMapsTo | kernel/mm/vmm.c:122-130 | the k-th page of a mapped range leads to the k-th physical page from the given one on, with the given attributes |
| Vmm.AdvancedAt | kernel/mm/vmm.c:122-130 | the k-th physical address of a range is k page sizes on, modulo 2 to the 64 |
| Vmm.PageTables.UnmmapRange | kernel/mm/vmm.c:133-140 | unmaps the pages in order up to the first that cannot be; every other mapping stays |
| Vmm.PageTables.MapAndUnmap | kernel/mm/vmm.c:122-140 | mapping a range succeeds under the same condition, and unmapping it again then succeeds too and restores every mapping, the set of tables, what is in them, and the pages of the allocator |
| Mmu.MappedTranslates | kernel/mm/vmm.c:5-130 | after mmap_range the processor, reading tables from memory by the bits of the address, takes every address on the k-th page to its offset in the k-th physical page, writable if the attributes say so and open to user mode if and only if they and every link that was already on the way say so; it faults if and only if the present bit is missing in one of these |
| Mmu.UserReachesIff | kernel/mm/vmm.c:5-130 | a page mapped for user mode with its tables present can be reached in user mode if and only if no link that was already on the way keeps user mode out |
| Mmu.OthersTranslate | kernel/mm/vmm.c:5-130 | and it translates every other address exactly as before |
| Mmu.UnmappedTranslates | kernel/mm/vmm.c:61-140 | after unmmap_range the processor faults on every address of the range and translates every other as before |
| Mmu.FilledWalkable | kernel/mm/vmm.c:5-130 | mapping a range keeps links and page marks in the form that the processor needs |
| Mmu.EmptiedWalkable | kernel/mm/vmm.c:61-140 | so does unmapping one |
| Mmu.WalksTree | kernel/mm/vmm.c:143-161 | in such tables the processor's walk follows the path of the address |
| Vmm.SameEntryIff | kernel/include/vmm.h:99-120 | two pages of a range use the same entry if and only if they are a multiple of 48 bits of address apart |
| Vmm.MapsOne | kernel/mm/vmm.c:5-58 | after a successful mmap every path but the one mapped translates as before |
| Vmm.UnmapsOne | kernel/mm/vmm.c:61-119 | after a successful unmmap every path but the one unmapped translates as before |
| Vmm.WalkFinds | kernel/mm/vmm.c:143-161 | the walk finds the last entry of a path if all tables on it are there, and zero if one is missing |
| PageTree.Canonical | kernel/mm/vmm.c:5-119 | a table is live if and only if it is the root or something is mapped below it |
| SlubSizes.ObjectSizeAlign | kernel/mm/slub.c:33-42 | the least power of two from 8 on that is not smaller; above 2 to the 31 the 32-bit result is 0 |
| SlubSizes.RoundupPowOfTwo | kernel/drivers/usb/xhci/xhci-service.c:16-25 | the shift-and-or cascade gives the least power of two that is not smaller; above 2 to the 63 it wraps to 0 |
| SlubSizes.CacheSizes | kernel/mm/slub.c:66-75 | object size, slab order and objects per slab fit each other exactly, with at least four objects, and the order is the least for which there are four |
| SlubSizes.KmallocIndex | kernel/mm/slub.c:198-208 | the index loop picks the cache of the least power of two that holds the request |
| SlubLists.FreeListInit | kernel/mm/slub.c:57-63 | the loop threads a list through all objects of the slab, in order, and writes nowhere else |
| Slub.RunKeeps | kernel/mm/slub.c:78-147 | over all runs of growing, taking, giving back and users writing to objects they hold: the lists stay intact, and the objects out are exactly those taken and not given back |
| Slub.NeverTwice | kernel/mm/slub.c:111-127 | over all runs, an object handed out is held by nobody at that time |
| Slub.TakePutRestores | kernel/mm/slub.c:111-147 | giving back what was just taken restores the cache |
| SlubCache.KmemCache.Alloc | kernel/mm/slub.c:150-158 | hands out one aligned object that was not out, and changes nothing for any other; grows by one slab exactly if no object is free |
| SlubCache.KmemCache.FreeCacheObject | kernel/mm/slub.c:130-147 | an object that is out goes back and no other changes hands; an address in no slab gives -1 and changes nothing |
| Kmalloc.InitCaches | kernel/mm/slub.c:230-240 | the caches made at start have the sizes 8, 16 and so on up to 1 MiB, with slabs to match |
| Kmalloc.Allocator.Kmalloc | kernel/mm/slub.c:198-208 | NULL exactly for sizes 0 and above 1 MiB; for the others a write through a page record at NULL exactly if the cache has no free object and the page allocator no block for a slab; otherwise an address that is a multiple of the least power of two that holds the request, overlaps no object that is out of any cache, and is the only thing to change hands |
| Kmalloc.ObjectsApart | kernel/mm/slub.c:198-208 | in every valid state, no two objects that are out overlap, whichever caches they are from, all slabs being blocks of the one page allocator |
| XhciStreams.AllocStreamRings | kernel/drivers/usb/xhci/xhci-ring.c:233-247 | rings allocated with kmalloc are aligned to the least power of two that holds a ring, and distinct |
| XhciStreams.RingByPa | kernel/drivers/usb/xhci/xhci-service.c:31-59 | masking a physical address finds stream ring s if and only if the address lies in the aligned block of ring s, for rings placed as AllocStreamRings places them |
| XhciRing.SubmitRing.Enqueue | kernel/drivers/usb/xhci/xhci-ring.c:9-48 | stores the TRB and hands it over with the cycle bit, rewrites the Link TRB and turns the cycle at the end; a full ring is left alone; what a controller makes of these stores is `RunSafe` and `LinkAtEnd` |
| XhciRing.EventRing.Dequeue | kernel/drivers/usb/xhci/xhci-ring.c:51-71 | takes the event at the dequeue index if its cycle bit matches, and turns the cycle at the end |
| XhciProtocol.RunInv | kernel/drivers/usb/xhci/xhci-ring.c:9-48 | the invariant of ring, indices, cycle bits and laps holds after every single store of the driver and every move of a controller that goes by what it reads: cycle bit, TRB type, Toggle Cycle bit and link address, in all runs |
| XhciProtocol.LinkAtEnd | kernel/drivers/usb/xhci/xhci-ring.c:33 | a TRB that the controller takes up is of type Link if and only if it is the last of the ring, and then it toggles the cycle state and leads to the start |
| XhciProtocol.FollowIs | kernel/drivers/usb/xhci/xhci-ring.c:28-37 | so a controller that follows links by type and toggles by the bit goes through the ring in laps |
| XhciProtocol.RunSafe | kernel/drivers/usb/xhci/xhci-ring.c:9-48 | in all runs the controller has fetched a prefix of what was enqueued, in order and unchanged, the ring never holds more than its slots less one, and no pending TRB has been overwritten |
| XhciProtocol.MatchIsFresh | kernel/drivers/usb/xhci/xhci-ring.c:9-48 | whenever the cycle bit matches, even between two stores, the slot holds the next TRB enqueued, complete |
| XhciProtocol.ControllerMoves | kernel/drivers/usb/xhci/xhci-ring.c:9-48 | between enqueues, as long as a TRB is left to fetch, the controller finds a matching cycle bit and can fetch a TRB, or follow the link at the end |
| XhciProtocol.FullIff | kernel/drivers/usb/xhci/xhci-ring.c:9-48 | the ring counts as full if and only if all slots but one hold TRBs that are not completed |
| XhciProtocol.EnqueueSteps | kernel/drivers/usb/xhci/xhci-ring.c:9-48 | an enqueue left alone goes through all its steps and ends where Enqueue does |
| XhciProtocol.ChainCarried | kernel/drivers/usb/xhci/xhci-ring.c:28-37 | the Link TRB the controller follows carries the chain bit of the TRB before it if and only if the Link TRB has been rewritten at least once or that TRB has no chain bit |
| XhciEvents.RunInOrder | kernel/drivers/usb/xhci/xhci-ring.c:51-71 | in all runs the driver has read a prefix of the events posted, in order |
| XhciEvents.TakesNext | kernel/drivers/usb/xhci/xhci-ring.c:51-71 | a dequeue gives an event if and only if one is left, and then the next one posted |
| XhciTransfer.SubmitNormal | kernel/drivers/usb/xhci/xhci-ring.c:486-568 | offers the ring the data TRBs, the zero-length one if needed, and the Event Data TRB, in order; the last has a slot if and only if the ring had room for all |
| XhciTransfer.ChunksCover | kernel/drivers/usb/xhci/xhci-ring.c:509-532 | the data TRBs cover the buffer in order, without gap or overlap, none across a 64 KiB boundary and each but the last up to one; all are of type Normal, chained, without interrupt |
| XhciTransfer.ChunkEnds | kernel/drivers/usb/xhci/xhci-ring.c:511-524 | a chunk's length survives its 17-bit field, and the chunk goes up to the next 64 KiB boundary or to the end |
| XhciTransfer.TrbsShape | kernel/drivers/usb/xhci/xhci-ring.c:486-568 | only the last TRB is not chained; it is of type Event Data, has the request's address, and interrupts if and only if that is wanted; a zero-length TRB comes right before it exactly if there is no data or, where asked for, a whole number of packets |
| XhciTransfer.NoLinks | kernel/drivers/usb/xhci/xhci-ring.c:486-568 | none of the TRBs of a transfer is of type Link or has its cycle bit set, as the ring protocol needs |
| XhciTransfer.PrefixTaken | kernel/drivers/usb/xhci/xhci-ring.c:9-48 | of a sequence offered the ring takes the longest prefix it has room for |
| HidBits.ExtractBits | kernel/drivers/usb/hid/hid-parser.c:315-358 | the byte loop gives the bit field of the report read as one little-endian number |
| HidBits.FetchItemData | kernel/drivers/usb/hid/hid-parser.c:59-67 | the item's bytes as a little-endian number |
| HidBits.SignExtendIs | kernel/drivers/usb/hid/hid-parser.c:52-57 | the masks give the two's complement reading of 1, 2 and 4 bytes |
| HidParser.ParseReportDesc | kernel/drivers/usb/hid/hid-parser.c:70-304 | the device gets the fields that the descriptor's items declare, also those before a truncated item, for which -1 is returned |
| HidSources.FieldAttributes | kernel/drivers/usb/hid/hid-parser.c:96-135 | every field comes from an Input, Output or Feature item, and its usage page, logical and physical limits, unit, exponent, size, id and count are each the value of the last item of that tag before it that no Pop has undone, or 0; without physical limits it has the logical ones |
| HidSources.WithoutPop | kernel/drivers/usb/hid/hid-parser.c:96-135 | without a Pop that is the last item of the tag |
| HidSources.NowHas | kernel/drivers/usb/hid/hid-parser.c:96-135 | the same of the parser's global state after any number of items |
| HidSources.DeclaredIff | kernel/drivers/usb/hid/hid-parser.c:182-190 | an item adds a field if and only if it is Input, Output or Feature and neither the size nor the count in effect is 0 |
| HidLocals.FieldUsages | kernel/drivers/usb/hid/hid-parser.c:187-286 | usage limits are the last since the Main item before; element i of a field without a range has the i-th Usage item since then, the last one repeated, each on the page in effect where it stands; element i of a field with a range has exactly the bits of the page and of the minimum plus i, also past the maximum; a field without usages has the bare page, a constant one zeros; the application is that of the innermost application collection still open |
| HidItems.PrefixBits | kernel/drivers/usb/hid/hid-parser.c:89-92 | tag, type and size of an item are the bit fields of its prefix |
| HidItems.CompleteIff | kernel/drivers/usb/hid/hid-parser.c:94 | the parser succeeds if and only if every short item it starts to read ends in the descriptor |
| HidParser.CountFields | kernel/drivers/usb/hid/hid-core.c:38-67 | the count is never less than the number of fields the parser stores |
| HidItems.DescriptorTiles | kernel/drivers/usb/hid/hid-parser.c:70-304 | every bit of a report, per kind and report id, belongs to exactly one field, and no bit past its width to any |
| HidItems.RoomForElements | kernel/drivers/usb/hid/hid-parser.c:187-286 | every stored field has a usage slot for each element a report reader indexes |
| HidItems.RangeUsages | kernel/drivers/usb/hid/hid-parser.c:187-286 | each usage of a declared range is in the field's list at its distance from the minimum, with the usage page above |
| HidItems.PushPopRestores | kernel/drivers/usb/hid/hid-parser.c:124-135 | a Push, any properly nested items and a Pop leave the global state as it was |
| HidItems.PushPopIff | kernel/drivers/usb/hid/hid-parser.c:124-135 | a Push with a Pop right after it leaves the global state as it was if and only if the stack has room |
| HidItems.LongItemsIff | kernel/drivers/usb/hid/hid-parser.c:82-87 | items are read where section 6.2.2.3 of USB HID 1.11 has them if and only if the descriptor ends inside its first long item or has none, and then they are the same items |
| UsbEvents.EventQueue.Push | kernel/drivers/usb/core/usb-hub.c:726-753 | appends the event, or refuses exactly when the queue holds one less than its size |
| UsbEvents.EventQueue.Pop | kernel/drivers/usb/core/usb-hub.c:756-769 | gives the oldest event, or nothing exactly when the queue is empty |
| UsbEvents.RunInOrder | kernel/drivers/usb/core/usb-hub.c:714-769 | with producer and consumer interleaved at single loads and stores, in all runs, the events popped are a prefix of those pushed and at most 255 are waiting |

## Findings

Places where the code does not keep a property its design suggests. Each has a concrete input, and the exact
condition under which the property does hold.

| property and source | input | exact condition |
|---|---|---|
| maxima stay exact when an area is inserted; kernel/mm/vmalloc.c:19-43 (propagation stops where nothing changes) and 299 (a freed area keeps its old maximum) | `RbAugment.StaleInsertIsInexact` | `RbAugment.InsertExactIff` |
| maxima stay exact when an area is removed; kernel/lib/rbtree.c:170-348 (a rotation ends propagation, its new top keeps the old maximum; a successor takes the removed node's maximum) | `RbAugment.EraseCanBeInexact` | `RbErase.EraseExactIff` |
| the search finds a fitting area if there is one, the lowest; kernel/mm/vmalloc.c:197-206 (a left child that starts below the bound, an unaligned area, or a maximum left stale by a removal turns it the wrong way) | `VmapSearch.SearchMissesBelowMin`, `SearchMissesUnaligned`, `SearchMissesInexact`, all on red-black trees | `VmapSearch.SearchLowestIff` |
| the area found has room for the request; kernel/mm/vmalloc.c:187-190 (the end of the request is computed modulo 2 to the 64) | `Vmalloc.FreshOverruns`, iomap of 3 TiB right after init_vmalloc | `VmapSearch.SearchHoldsIff` |
| free buddies merge; kernel/mm/buddy_system.c:46-52 (the lower part of a split is listed without its flag) and 73 (the flag decides) | `Buddy.FreeLeavesBuddiesApart`, four free pages and six calls | `Buddy.FreeCoalescesIff` |
| kmalloc returns NULL for want of pages; kernel/mm/slub.c:78-91 (new_slub uses the result of alloc_pages unseen) | `Kmalloc.KmallocWithoutPages`, fresh caches and no free page | `Kmalloc.Allocator.Kmalloc` (`Starved`) |
| a page mapped for user mode can be reached in user mode; kernel/mm/vmm.c:11-14, 28-31 and 45-48 (a table that is already there keeps the flags of the mapping that made it) | `Mmu.UserPageLockedOut`, two mmaps in fresh tables | `Mmu.UserReachesIff` |
| the first page of an allocated block is its own compound head; kernel/mm/buddy_system.c:54-60 (it keeps the head of an earlier block) | `Buddy.HeadIsStale`, three calls | `Buddy.AllocHeads` |
| the Link TRB carries the chain bit; kernel/drivers/usb/xhci/xhci-ring.c:28-37 (on the first lap it already belongs to the controller before it is rewritten) | `XhciProtocol.FirstLapLosesChain` | `XhciProtocol.ChainCarried` |
| Push and Pop restore the global state; kernel/drivers/usb/hid/hid-parser.c:124-135 (a Push on a full stack is dropped, its Pop is not) | `HidItems.FifthPushIsLost` | `HidItems.PushPopIff` |
| a long item is passed over; kernel/drivers/usb/hid/hid-parser.c:83-87 (two of its three header bytes are not counted) | `HidItems.LongItemIsRead` | `HidItems.LongItemsIff` |

The comment above the search promises the lowest-address fit, and the comment in front of the stream lookup relies on
natural alignment from the page allocator: the first is met exactly under `SearchLowestIff`; the second is met, and
is proved from `kmalloc` down to the page allocator.

## Left out

- Allocation of area records, page tables and TRB arrays: taken to succeed; only `Kmalloc` models the page
  allocator running dry, up to the first write to NULL.
- Vmalloc.AddressSpace.Alloc: what becomes of the zones when the request wraps around in the area found, which the
  code accepts (`SearchHoldsIff`, `FreshOverruns`).
- Vmalloc.AddressSpace.Free: when removing a neighbour has left a maximum inexact, whether the insertion that follows
  happens to repair it.
- vmalloc, vfree, iomap and uniomap: thin callers of the area allocator and the page tables.
- Memblock.Memory.Alloc: no region, alignment and size together pass 2 to the 64, and the array has room for one
  region more; memblock_add, memblock_mmap and the boot-time page tables are not modelled.
- Memblock.Memory.Free: the range is not empty, not at 0, and not free already; the code does not check this.
- Buddy.BuddySystem.FreePages: an unreferenced page handed to it is the first of a block that is out; a second free
  of the same page is not modelled.
- Buddy.BuddySystem.constructor: the number of page records is a multiple of 1024, and the regions share no frame.
- Vmm.PageTables.Unmmap: no table stands where a larger page is to be unmapped; the code would clear the link to it.
- Vmm.PageTables.UnmmapRange: the same for every page of the range.
- Vmm.PageTables.Mmap: no larger page is mapped on the way to the entry, and the attributes are not all zero;
  TLB invalidation and physical memory shared with data are not modelled.
- Mmu.Translate: execute permission, protection keys, caches and TLBs are not modelled, nor is the check that an
  address is canonical; the attributes have no address bits and mark large pages as such.
- update_page_table_entry: one store after the walk that is modelled.
- recycle_slub, kmem_cache_create and kmem_cache_destroy: slabs are never given back, and cache objects come without
  their own pool.
- kfree: the way from an object to its slab through the compound head is not followed; `FreeCacheObject` finds the
  slab by address, and `AllocHeads` says what compound heads are.
- Kmalloc.Allocator.Kmalloc: each cache has its own memory, so that writes of one cache to another's slab are not
  expressible; slabs of all caches come from one page allocator.
- Locks and memory barriers: the ring and queue protocols interleave single stores in program order.
- XhciRing.SubmitRing.Enqueue: the caller's TRB has its cycle bit clear and is not of type Link where the protocol is
  concerned; link addresses are counted from the start of the ring.
- Control transfers, isochronous transfers, commands, port handling and error codes of the xHCI driver.
- XhciTransfer.SubmitNormal: a transfer for which the ring lacks room stays partly enqueued, as in the code; nothing
  is said of what the controller makes of it.
- HidParser.ParseReportDesc: one byte after the descriptor is readable, as the code reads it after a long-item
  prefix, and the length is so far from 2 to the 32 that the offset does not wrap; the size of a field's usage
  array in 32 bits is not modelled, nor is a failing allocation.
- Everything else in the repository: boot, interrupts, ACPI, scheduling, other drivers.
