# Memory management of the kernel: model and proofs

The kernel (`kern/`) manages its memory in four layers: a bitset that counts physical
frames, two-level page tables over them, a bump allocator that serves until paging is
on, and a boundary-tag heap with nine segregated bins that serves afterwards. This
project models the four layers, the stack relocation that a fork uses, and number
formatting, and proves what each layer promises over whole runs.

`dafny verify dfyconfig.toml` checks everything.

## How the model is laid out

| File | What it holds |
|---|---|
| `Memory.dfy` | The 32-bit address space as bytes, words stored little-endian |
| `BinIndex.dfy` | Size classes: the shift loop is the integer logarithm |
| `HeapSpec.dfy` | The heap on mathematical values: block sizes by address, the holes, nine sequences; what each operation does to them |
| `HeapInvariant.dfy` | Every operation keeps the heap invariant |
| `HeapRuns.dfy` | Whole runs: exact tiling, best fit, the bound on neighbouring holes |
| `HeapUndo.dfy` | When `kheap_free` undoes `kheap_alloc` |
| `BinLists.dfy`, `HeapMemory.dfy`, `HeapSteps.dfy` | How bytes represent that heap: links inside the holes, headers, footers, flags; and one lemma per phase of each operation |
| `KHeap.dfy` | The C functions as methods on bytes, each proved to be a step of `HeapSpec` |
| `HeapClient.dfy` | What heap and clients owe each other, over runs of calls and client stores on real bytes |
| `HeapPages.dfy` | How many page-aligned blocks a heap of given size serves; live blocks do not overlap |
| `Bitset.dfy`, `Pmm.dfy` | The bitset refines a set of indices; the frame allocator over it and its runs; the memory-map walk |
| `Paging.dfy`, `Vmm.dfy` | Page tables refine a flat map; who owns which frame; the kernel heap provides the tables |
| `Boot.dfy` | The boot mapping loops, one of which extends its own bound |
| `Spaces.dfy`, `Fork.dfy` | The address spaces of all processes stay apart, and the processor walks the tables they hold; copying one |
| `Tasking.dfy` | From boot to the kernel's second fork: the stack's pages, and that both copies may be made |
| `Processes.dfy` | Over runs of writes, new pages and forks, address spaces refine private memories |
| `StackMove.dfy`, `Itoa.dfy` | Stack relocation; number formatting |

Three views of the kernel heap are kept in agreement by one predicate, `HeapMemory.Rep`:
the blocks tile the heap without a gap; each block's footer names its own header; and
every hole, and nothing else, is in exactly one bin exactly once, the bin of its size,
which is sorted and linked through the holes' own bytes.

## Where the code and its comments differ

The model follows the code. These differences are proved rather than repaired:

- `kheap_alloc_a` tests for a page boundary with a logical "and" (kern/mm/kheap.c:88), so
  the test never holds and a front piece is always cut off. `HeapRuns.AlignedExact` says
  when the unsigned sizes it computes add up.
- `kheap_free` of the first block returns before it coalesces (kern/mm/kheap.c:172-176), so
  two neighbouring holes can occur: `HeapRuns.TwoHolesOccur` is a run that leaves them,
  `HeapRuns.FreeFirstPairs` gives the exact count, and `HeapRuns.RunPairs` the bound over
  every run.
- `kheap_init` leaves the first block's flag as memory had it (kern/mm/kheap.c:64-74). The
  flags agree with the bins from the first allocation on (`HeapMemory.Flagged`).
- `remove_block` leaves a stale `prev` in a bin's new head (kern/mm/kheap.c:265-271).
  `BinLists.Linked` leaves that one link open and it is never followed.
- The first page of the linear map is passed address 0, which means "no address"
  (kern/mm/vmm.c:138-140 with 48 and 58-63). It gets the lowest free frame, which the map
  then usually reaches again; after boot the two pages share it exactly when it does:
  `Boot.FirstPageShares`.
- `map_page` stores its `usr` argument negated (kern/mm/vmm.c:45), so all pages, a fork's and
  the stack's too, are closed to user mode; a copied page gets these fixed bits whatever the
  original's were. `Paging.MapExact` and `Fork.CopyPgDir` state them.
- When no frame is left `map_page` leaves the page present without one (kern/mm/vmm.c:59-65).
  `Boot.VmmInit` and `Tasking.AllocateStack` say exactly when that does not happen.
- `allocate_stack` steps by whole pages from an unaligned start and may miss the last page:
  `Tasking.StackCovers`.
- `get_frame` computes the address in 32 bits (kern/mm/pmm.c:41-52). Beyond 2^20 frames it
  hands out a taken frame: `Pmm.GetExact`.
- The memory-map walk steps by whole pages from an unaligned base and cuts addresses to 32
  bits (kern/mm/pmm.c:27-33). `Pmm.RegionCovered` and `Pmm.RegionInside` say exactly which
  regions are marked in full, and without marking anything else.
- `bs_init` wraps for sizes within 32 of 2^32 (kern/ds/bitset.c:13-16): `Bitset.CapacityExact`.
- `itoa` keeps thirty digits (kern/misc/klib.c:27-31), too few in base 2 and enough in every
  larger base: `Itoa.PlacesSuffice`.

## Model

| member | source | states |
|---|---|---|
| BinIndex.BinIsLog | kern/mm/kheap.c:318-328 | The size classes are min(8, floor(log2(max(sz, 4))) - 2) for every size |
| BinIndex.GetBinIndex | kern/mm/kheap.c:319-328 | The shift loop ends with the size class of every 32-bit size |
| BinIndex.Log2Brackets | kern/mm/kheap.c:323 | Counting halvings gives the logarithm: the powers of two on either side bracket the size |
| HeapSpec.FitsInBin | kern/mm/kheap.c:136-144 | The search upwards from the request's own bin stops within the nine bins exactly when some hole of the heap fits |
| HeapSpec.PredExists | kern/mm/kheap.c:180-181 | Every block but the first has a block that ends where it begins, so the footer in front of it belongs to a block |
| HeapInvariant.InitKeeps | kern/mm/kheap.c:64-74 | The freshly initialised heap satisfies the invariant |
| HeapInvariant.AllocKeeps | kern/mm/kheap.c:135-163 | Allocation, splitting or not, keeps tiling, binning and sorting, although the remainder is binned before the found block leaves its bin |
| HeapInvariant.AllocAKeeps | kern/mm/kheap.c:79-111 | Page-aligned allocation keeps tiling, binning and sorting |
| HeapInvariant.FreeKeeps | kern/mm/kheap.c:169-208 | Freeing keeps tiling, binning and sorting, whichever neighbours are holes |
| HeapInvariant.SplitTiled | kern/mm/kheap.c:146-156 | Cutting a block leaves a gapless tiling in which only that block changed and one address was added |
| HeapInvariant.MergeTiled | kern/mm/kheap.c:183-204 | Joining two neighbours leaves a gapless tiling and the joined block ends where the second did |
| HeapInvariant.InsertKeeps | kern/mm/kheap.c:224-260 | Sorted insertion adds exactly the block, once, and the bin stays sorted |
| HeapInvariant.InsertPlace | kern/mm/kheap.c:236-239 | A block lands behind all that are not larger and in front of all larger ones, first in first out among equals; taking it out again restores the bin |
| HeapInvariant.RemoveKeeps | kern/mm/kheap.c:263-293 | Removal takes out exactly the given block and keeps the bin sorted and free of duplicates |
| HeapRuns.Run | kern/mm/kheap.c:79-208 | The heap invariant holds after every sequence of permitted calls |
| HeapRuns.WalkTiles | kern/mm/kheap.c:217-219 | Following sizes from any block meets exactly the blocks behind it and fills the rest of the heap |
| HeapRuns.Conserved | kern/mm/kheap.c:79-208 | The blocks and their 20 bytes of overhead add up to the whole heap, after every run |
| HeapRuns.BestFit | kern/mm/kheap.c:135-144 | The hole chosen is a smallest of all holes in the heap that fit, over all bins |
| HeapRuns.FirstOfEqual | kern/mm/kheap.c:297-311 | Among equal smallest holes the one that lies first in its bin is chosen |
| HeapRuns.AllocExact | kern/mm/kheap.c:146-158 | A hole of more than sz + 24 bytes is cut into a block of sz and a hole of the rest less 20; any smaller one that fits is handed out whole and no block is added |
| HeapRuns.AllocAExact | kern/mm/kheap.c:91-109 | A page-aligned allocation turns the last block into a hole up to the page boundary next behind it, a block of the size asked for, and a hole of exactly what is left |
| HeapRuns.AllocPairs | kern/mm/kheap.c:146-159 | Allocation never adds a pair of neighbouring holes |
| HeapRuns.AllocAPairs | kern/mm/kheap.c:79-111 | Page-aligned allocation never adds a pair of neighbouring holes |
| HeapRuns.FreeSizes | kern/mm/kheap.c:178-207 | Which blocks and holes are left after a free that coalesces: the merged block reaches from its first to its last part and no other block changes |
| HeapRuns.FreePairs | kern/mm/kheap.c:178-207 | Freeing any other block than the first never adds a pair of neighbouring holes |
| HeapRuns.FreeFirstPairs | kern/mm/kheap.c:172-176 | Freeing the first block adds one pair exactly when the block behind it is a hole |
| HeapRuns.TwoHolesOccur | kern/mm/kheap.c:172-176 | From an initial heap, an allocation and the free of that first block leave two neighbouring holes |
| HeapRuns.RunPairs | kern/mm/kheap.c:79-208 | Over every run, pairs of neighbouring holes grow by no more than the number of times the first block was freed |
| HeapRuns.NeverTwoHoles | kern/mm/kheap.c:64-208 | From the initial heap, no run that spares the first block ever has two neighbouring holes |
| HeapRuns.AtMostTwoLeft | kern/mm/kheap.c:183-207 | Without neighbouring holes, once every block but the first is free no more than two blocks remain |
| HeapRuns.AlignedExact | kern/mm/kheap.c:91-107 | The unsigned sizes of the three pieces add up to the old wilderness exactly when the front piece can be a block and the rest is large enough; the payload is then on a page boundary |
| HeapUndo.AllocFreeRestores | kern/mm/kheap.c:135-208 | Freeing what was just allocated restores all blocks, all holes and the size sequence of every bin, if and only if a condition on the found hole's neighbours that can be checked beforehand holds |
| HeapUndo.AllocFreeIdentity | kern/mm/kheap.c:135-208 | In a heap without neighbouring holes this is so for every allocation from any hole but the first block, whether or not it split |
| HeapUndo.ShapeFromBlocks | kern/mm/kheap.c:221-260 | Blocks and holes alone determine the sizes in every bin and their order |
| HeapUndo.MergeUndoesSplit | kern/mm/kheap.c:146-204 | Joining the two parts of a split block gives back the sizes before the split |
| BinLists.LinkedInsert | kern/mm/kheap.c:241-259 | Rewriting the links around one position links the block in there; every non-head `prev` is the true predecessor, whatever the head's holds |
| BinLists.LinkedRemove | kern/mm/kheap.c:263-288 | Rewriting the neighbours' links takes the block out and leaves the others in order, with the new head's `prev` unconstrained |
| BinLists.ListsUpdate | kern/mm/kheap.c:224-293 | Changing one bin's links leaves the other eight linked lists what they are |
| KHeap.KernelHeap.AddBlockSorted | kern/mm/kheap.c:224-260 | On bytes: the linked bin becomes the bin with the block inserted, and only links inside holes are written |
| KHeap.KernelHeap.RemoveBlock | kern/mm/kheap.c:263-293 | On bytes: the linked bin becomes the bin without the block, an absent block changes nothing, and only links are written |
| KHeap.KernelHeap.GetFirstFit | kern/mm/kheap.c:297-311 | Walking the links finds the first block of the bin that is large enough, or 0 when there is none |
| KHeap.KernelHeap.FindHole | kern/mm/kheap.c:136-144 | The loop over the bins stops inside the nine bins, at the hole the specification names, whenever some hole fits |
| KHeap.KernelHeap.Allocate | kern/mm/kheap.c:135-163 | The bytes represent the heap of the specification afterwards, the payload is all zero, and no byte of any block that was live has changed; the hole was a smallest that fits, the block has from sz to sz + 24 bytes, and when the hole was larger it has exactly sz and a hole of the rest less 20 follows |
| KHeap.KernelHeap.AllocateAligned | kern/mm/kheap.c:79-128 | As above for the page-aligned path; the pointer is a multiple of 4096, the block has the size asked for, and no size wraps; the pointer is the page boundary next behind the old last block, and the sizes of all three pieces are given |
| KHeap.KernelHeap.Release | kern/mm/kheap.c:169-208 | The bytes represent the heap with the block freed and coalesced, and no byte of any other live block has changed |
| KHeap.KernelHeap.Initialize | kern/mm/kheap.c:64-74 | From cleared bin heads the bytes represent one hole from end to end, and nothing outside the heap is written |
| KHeap.KernelHeap.GetWilderness | kern/mm/kheap.c:332-335 | The footer at the end of the heap names the last block |
| KHeap.KernelHeap.CreateFoot | kern/mm/kheap.c:211-219 | The word behind the payload names the header and nothing else changes, the size word in particular |
| KHeap.KernelHeap.MergePrev | kern/mm/kheap.c:183-191 | Taking the block into the hole in front gives a represented tiling in which the hole is out of its bin and the merged block is yet unbinned |
| KHeap.KernelHeap.MergeNext | kern/mm/kheap.c:193-204 | The same for the hole behind, whichever block is doing the taking |
| KHeap.KernelHeap.Memset | kern/misc/klib.c:3-11 | The given bytes are zero and no other byte changes |
| HeapClient.Separated | kern/mm/kheap.c:126-127 | No byte of a live payload belongs to another live payload or to any flag, size word, footer or link of the heap |
| HeapClient.ClientStore | kern/mm/kheap.c:161-162 | Any byte stored at any place of a live payload leaves the bytes representing the same heap |
| HeapClient.StepKeepsLive | kern/mm/kheap.c:79-208 | Only its own free ends a block's life or changes its size |
| HeapClient.Call | kern/mm/kheap.c:79-208 | Each call on bytes is one step of the specification, and every block it does not free survives byte for byte |
| HeapClient.Serve | kern/mm/kheap.c:79-208 | The same over every sequence of permitted calls |
| HeapClient.StepLive | kern/mm/kheap.c:79-208 | Live after a call are only blocks that were live and not freed, and the block handed out |
| HeapClient.CallAgrees | kern/mm/kheap.c:126-208 | A call keeps every live payload equal to that of a memory in which an allocation only clears its payload and a free does nothing |
| HeapClient.Interleave | kern/mm/kheap.c:79-208 | Over every interleaving of calls and client stores, each live payload ends with what was last stored there, or zeros where nothing was stored since it was handed out |
| HeapClient.PagesDistinct | kern/mm/kheap.c:76-128 | The page-aligned blocks that a run hands out and does not free are distinct pages of the heap, whatever else it allocates and frees |
| HeapClient.LiveNotHandedOut | kern/mm/kheap.c:76-128 | The address of a live block is never handed out while it lives |
| HeapPages.PagedFresh | kern/mm/kheap.c:79-128 | A page-aligned block is on a page boundary inside the heap, was no block before, and leaves all live blocks live |
| HeapPages.PagedLeft | kern/mm/kheap.c:91-109 | The new wilderness begins right behind the block and is smaller by what the block and the piece in front of it take |
| HeapPages.RoomsExact | kern/mm/kheap.c:79-128 | How many page-aligned blocks of a size the heap serves one after the other follows from the last hole's address and size: the first block takes what lies before the next page boundary, each further one a fixed distance, and none follows where the piece in front could not be a block |
| HeapPages.LivesApart | kern/mm/kheap.c:79-208 | The payloads of two live blocks do not overlap |
| Bitset.BitSet.constructor | kern/ds/bitset.c:13-23 | The capacity in 32-bit arithmetic; the words may hold anything |
| Bitset.CapacityExact | kern/ds/bitset.c:10-16 | More than sz bits and at most sz + 32, exactly when the rounding does not wrap |
| Bitset.BitSet.Set | kern/ds/bitset.c:26-34 | Exactly one index is added, and none when it is out of range |
| Bitset.BitSet.Clear | kern/ds/bitset.c:37-46 | Exactly one index is removed, and none when it is out of range |
| Bitset.BitSet.Test | kern/ds/bitset.c:49-60 | 0 exactly for an index in range that is not in the set |
| Bitset.BitSet.FirstClear | kern/ds/bitset.c:74-81 | The least absent index, or the capacity when every index is present |
| Bitset.BitSet.GetSize | kern/ds/bitset.c:83-85 | The capacity in bits |
| Bitset.OneBit | kern/ds/bitset.c:29-44 | Changing one bit of one word changes the set by that index and no other |
| Pmm.FrameAllocator.GetFrame | kern/mm/pmm.c:41-52 | On the bitset, what the allocator on sets does, wrap-around included |
| Pmm.FrameAllocator.SetFrame | kern/mm/pmm.c:55-64 | Takes the frame of a byte address and says whether there is one |
| Pmm.FrameAllocator.FreeFrame | kern/mm/pmm.c:66-69 | Releases a frame by its number, not its address |
| Pmm.GetExact | kern/mm/pmm.c:41-52 | The lowest free frame is returned and taken exactly when its address fits in 32 bits; otherwise a frame that is already taken is returned and nothing changes |
| Pmm.GetFull | kern/mm/pmm.c:44-47 | The out-of-frames value is returned exactly when every frame is taken, for any capacity |
| Pmm.RunClimbs | kern/mm/pmm.c:41-64 | With at most 2^20 frames, in every run without frees, frames taken by address in between included, the addresses handed out climb strictly from the lowest free one on, and nothing follows the first failure |
| Pmm.RunFresh | kern/mm/pmm.c:41-64 | Every frame handed out in such a run is in range and was free when it began |
| Pmm.TakenStays | kern/mm/pmm.c:41-69 | In every run, whatever else is taken and released, a taken frame that is not released stays taken and is not handed out |
| Pmm.GetsEnough | kern/mm/pmm.c:41-52 | Of calls in a row exactly as many succeed as there are free frames |
| Pmm.FreeShrinks | kern/mm/pmm.c:41-52 | A call succeeds exactly when a frame is free, and then one frame less is free |
| Pmm.FrameAllocator.Serve | kern/mm/pmm.c:41-69 | Any run of calls on the bitset returns and leaves what the run on sets does |
| Pmm.FrameAllocator.Reserve | kern/mm/pmm.c:22-37 | Newly taken are exactly the frames below the count that some step of 4096 into some reserved entry lies in, its address cut to 32 bits, over the entries at all addresses that a chain of `size + 4` reaches from the map's start and below its end |
| Pmm.FrameAllocator.MarkRegion | kern/mm/pmm.c:27-33 | One region adds exactly the in-range frames of its page steps |
| Pmm.StepIs | kern/mm/pmm.c:28-32 | The k-th step marks the k-th frame from the base's, modulo 2^20 |
| Pmm.MapMarksAll | kern/mm/pmm.c:24-37 | The list of entries that the walk goes through holds those at the chain's addresses, all of them and no others |
| Pmm.ChainListed | kern/mm/pmm.c:24-36 | Whatever address is reached by adding `size + 4` again and again, its entry is walked |
| Pmm.MarkedIs | kern/mm/pmm.c:25-33 | A reserved entry marks a frame exactly when a step of whole pages from its base, less than its length, lies in it; other entries mark nothing |
| Pmm.ReservedForGood | kern/mm/pmm.c:14-69 | A frame that a coverable reserved entry at an address of the chain meets stays taken and is not handed out in any run that does not release it |
| Pmm.Init | kern/mm/pmm.c:14-38 | After `pmm_init` that holds of the entries at all addresses of the chain and all frames they meet, whatever the bitset held before, and the frames are as many as the memory has or up to 32 more |
| Pmm.RegionCovered | kern/mm/pmm.c:27-33 | Every frame with a byte of a reserved region is marked exactly when the page steps from its base reach the page of its last byte, which an unaligned base can prevent, or that page lies beyond the 32 bits |
| Pmm.RegionInside | kern/mm/pmm.c:27-33 | Only frames with a byte of the region are marked exactly when no step leaves the 32 bits, or the region begins in frame 0 |
| Paging.IndexSplit | kern/inc/x86.h:9-16 | The two indices and the offset determine the address, an index pair determines its page base, and the two are inverse |
| Paging.SetPteFlat | kern/mm/vmm.c:42-79 | Writing a table entry changes one page number of the flat map and no other |
| Paging.SetPteSeen | kern/mm/vmm.c:42-79 | A write to a table entry shows in the directories that hold the table, at the indices where they hold it, and in no other |
| Paging.AddTableFlat | kern/mm/vmm.c:24-34 | A new table changes no page's entry |
| Paging.OwnedStep | kern/mm/vmm.c:42-79 | Mapping without an address, unmapping and new tables keep this: frame 0 is taken, each frame in an entry is taken, no two entries share a frame |
| Paging.OwnedRun | kern/mm/vmm.c:42-79 | The same over every run |
| Paging.GetFresh | kern/mm/vmm.c:58-64 | Once frame 0 is reserved it is never handed out, and what is handed out was free |
| Paging.MapExact | kern/mm/vmm.c:42-68 | The entry gets the bits asked for, `usr` negated, and is not present exactly when it had no frame and the address given has none; it keeps its frame, or gets the one given, or the lowest free one, and exactly that is taken |
| Paging.SoundPage | kern/mm/vmm.c:42-79 | While entries are sound, a page of any directory is present exactly when it has a frame, and then writable and closed to user mode; otherwise all its bits are clear |
| Paging.UnmapExact | kern/mm/vmm.c:70-79 | Unmapping releases exactly that entry's frame; every other entry keeps its own |
| Paging.FixedExact | kern/mm/vmm.c:48-57 | Mapping to a given address keeps ownership exactly when no other entry holds that frame |
| Vmm.VirtualMemory.GetPage | kern/mm/vmm.c:16-37 | The entry's place; a missing table is made, cleared and entered only when asked for, and nothing else changes; of the new table no entry is present |
| Vmm.VirtualMemory.MapPage | kern/mm/vmm.c:42-68 | One entry changes: a mapped one keeps its frame, an unmapped one gets the given or the lowest free frame; its bits are those asked for, `usr` negated, and `present` is clear exactly when an address out of range was given for a page without a frame |
| Vmm.VirtualMemory.UnmapPage | kern/mm/vmm.c:70-79 | One entry is neither present, writable nor for users any more and has no frame, and its frame is released |
| Vmm.VirtualMemory.MapAt | kern/mm/vmm.c:138-141 | Finding or making an entry and mapping it changes that page number of the directory's flat map and no other; another directory sees it exactly where it holds the same table; a table it makes is new and entered with its address and its physical address with the present, write and user bits, and no other word of any directory changes; sound entries stay sound when this one is |
| Vmm.VirtualMemory.GetPhysical | kern/mm/vmm.c:158-172 | The frame that the flat map gives the page number, times 4096, plus the offset; 0 where the page has no table |
| Vmm.VirtualMemory.Kmalloc | kern/mm/kmalloc.c:31-42 | The bump pointer's old value is returned and the pointer moves by the size |
| Vmm.VirtualMemory.KmallocAp | kern/mm/kmalloc.c:17-43 | A page-aligned address whose bytes overlap no table and no directory, with its physical address: before the heap serves the page boundary next behind the bump pointer, which moves behind the block, and afterwards the block `kheap_alloc_a` hands out |
| Vmm.FlagBits | kern/mm/vmm.c:30 | The word of a table is its physical address with the bits for present, writable and user set |
| Vmm.VirtualMemory.MakeTable | kern/mm/vmm.c:24-34 | A new table that overlaps no table and no directory, cleared and entered in one directory with its physical word |
| Vmm.VirtualMemory.UseHeap | kern/mm/vmm.c:149-153 | The heap is set up as one hole above everything allocated so far and serves from then on |
| Boot.MapLinear | kern/mm/vmm.c:132-141 | The loop ends although each table it makes moves its bound; afterwards exactly the pages up to that of end + 0x1000 are mapped, each but the first to itself less the offset, for the end as it is then; these pages are present and writable for the kernel, and no other page is present |
| Boot.FirstPageShares | kern/mm/vmm.c:132-147 | In the kernel directory as boot leaves it, the linear map's first page shares its frame with another page exactly when the frame that was lowest free before is one that the linear map reaches |
| Boot.MapHeap | kern/mm/vmm.c:143-147 | The heap's 257 pages get what 257 calls of the frame allocator return, one table is made and entered with its physical word, and no other page changes; the pages are present and writable for the kernel |
| Boot.RangeOwns | kern/mm/vmm.c:143-147 | Pages mapped in order without an address get frames that were free and climb with the page number, for exactly as many pages as there were free frames |
| Boot.RangeFine | kern/mm/vmm.c:58-65 | Such a page is present in any case, and has a frame exactly when one was free |
| Boot.HeapOwns | kern/mm/vmm.c:132-147 | No heap page shares a frame with another or with the linear map, and all 257 are mapped exactly when 257 frames were left after the linear map |
| Boot.BootedMeans | kern/mm/vmm.c:132-147 | What every address above the first kernel page means after boot: itself less the offset up to the page of the end and one more, a frame of its own in the heap up to the byte at its end, nothing anywhere else |
| Boot.PreInit | kern/mm/vmm.c:121-130 | Frame 0 is reserved, the kernel directory is empty, and the boot allocator has moved by at most four pages |
| Boot.VmmInit | kern/mm/vmm.c:115-154 | After boot the linear map reaches past the kernel's end, the heap's pages have the frames taken next, nothing else is mapped, exactly the tables these need exist, the heap's page table lies inside the linear map, exactly those frames and frame 0 are taken, the heap is one hole, and the processor finds each table and the directory where the kernel's map has them; pages without a frame are not present, exactly when 257 frames were left for the heap |
| Boot.BootedWalk | kern/mm/vmm.c:29-33 | Physical words set as address less the offset, before paging, are what the finished linear map says of those addresses |
| Fork.FillFrame | kern/mm/vmm.c:239-247 | The page's contents reach a frame that was free, through the window, after which every page of every directory is what it was and no frame is taken |
| Fork.CopyPage | kern/mm/vmm.c:239-252 | One user page: same contents, a frame that was free, at most two tables, every other page of the copy and every page of all other directories as it was |
| Fork.CopyEntry | kern/mm/vmm.c:236-254 | One round of the inner loop extends what holds of the copy by one page, mapped or not |
| Fork.CopyPgDir | kern/mm/vmm.c:220-268 | Every mapped user page has the same contents through the copy, in frames that were free, are now taken and pairwise distinct; unmapped pages stay unmapped; taken frames that are behind no page of the kernel half keep their contents, user frames among them; the kernel half is the kernel's own tables; all other directories keep their tables and every page, save a table for the window in the one copied; one frame is taken per mapped page and the heap has served a directory and exactly the tables needed; the copy's physical words are right for the processor, and everyone else's still; and if all address spaces were apart, they still are; mapped pages of the copy are present and writable for the kernel, and if pages of all directories were present exactly when they have a frame, they still are |
| Fork.ShareKernelHalf | kern/mm/vmm.c:258-265 | The copy's kernel half is the kernel directory's tables, with their physical words, and the user half stays copied |
| Fork.SharedWalk | kern/mm/vmm.c:258-265 | With the kernel's tables and their physical words the processor walks the copy's kernel half as it does the kernel's |
| Fork.TableWalk | kern/mm/vmm.c:24-34 | A table made while a directory is being copied leaves every directory walkable |
| Fork.ForkLooksSame | kern/mm/vmm.c:227-256 | After a fork parent and child see the same bytes in every mapped user page, through different frames |
| Fork.SeenApart | kern/mm/vmm.c:227-256 | No frame is seen by both, at whatever two user pages |
| Fork.ForkKeepsApart | kern/mm/vmm.c:220-268 | A fork keeps all address spaces apart: no user table is shared, the frames of all pages are taken, a user page's frame is no other page's, be it of the user half or of the kernel half of any directory, and the window is free in each |
| Fork.OpenElsewhere | kern/mm/vmm.c:242-247 | A directory other than the current one shows the window only if it holds the window's table, and it was clear there |
| Spaces.TableAdded | kern/mm/vmm.c:24-34 | A new table keeps tables unshared but at one index of the kernel half |
| Spaces.MapKeepsApart | kern/mm/vmm.c:58-67 | Mapping a clear user page to the lowest free frame keeps all address spaces apart, from each other and from the kernel half, and no other page of any directory changes |
| Spaces.WalkTable | kern/mm/vmm.c:24-34 | A table from the kernel heap, entered with the physical address that the current directory gives, leaves all directories walkable: each physical word is the physical address of its table, each `phys` that of its directory, as the kernel maps them |
| Spaces.WalkKept | kern/mm/vmm.c:42-79 | Page entries written anywhere else than behind tables and directories leave them so |
| Spaces.WalkWords | kern/inc/x86.h:47-51 | Every word that the processor reads from a directory is then the physical address of its table with these three bits, or 0 where there is none |
| Spaces.Isolated | kern/mm/vmm.c:227-256 | Over every interleaving of writes by any number of processes, each sees what it would see if only its own writes had happened |
| Tasking.AllocateStack | kern/mm/vmm.c:174-184 | The pages get what calls of the frame allocator in a row return, the missing tables of the range are made and no others, the heap has served exactly these, no other page changes, and in the user half all address spaces stay apart and walkable; the pages are present, and all have frames exactly when enough were free |
| Tasking.StackCovers | kern/mm/vmm.c:178-181 | Only pages with bytes of the area are mapped, and all of them exactly when page steps from its start reach the page of its last byte, as they do from a page boundary |
| Tasking.HeapServes | kern/mm/vmm.c:220-249 | The freshly initialised kernel heap has room for 127 page tables, and after the stack's table and each of two forks still for 125 and 121 |
| Tasking.BootStack | kern/proc/sched.c:42-48 | From the state the boot loader leaves, given enough frames, boot and the stack's mapping lead to one address space, in which only the stack is mapped for users, walkable and apart, with the exact heap and room for two forks |
| Tasking.ForkStack | kern/mm/vmm.c:220-268 | A fork of a process that has only its stack: the child has the stack's contents in frames of its own over the kernel's tables, four frames and exactly the directory and missing tables are taken, and all directories stay apart and walkable |
| Tasking.FirstForks | kern/proc/sched.c:42-95 | Boot, stack, copy of the kernel directory, switch to it and the `fork` that follows: three address spaces, apart and walkable, in each only the stack mapped for users, and parent and child see the same stack |
| Processes.StepAgrees | kern/mm/vmm.c:42-268 | A write, a new page or a fork of the machine is that step on memories that each process has for itself |
| Processes.Refines | kern/mm/vmm.c:42-268 | Over every run of writes by any processes, new pages and forks in any order, each process sees what it would in a private memory that begins as its parent's at the fork |
| Processes.PrivateOthers | kern/proc/sched.c:88-95 | What a process has does not depend on what others write, map or fork |
| Processes.StoreByte | kern/proc/sched.c:95-109 | A store of the current process, through its own directory, is the write step |
| Processes.MapProcess | kern/mm/vmm.c:42-68 | Mapping a clear page of the current process is the new-page step, and the kernel keeps running as it should |
| Processes.ForkProcess | kern/mm/vmm.c:220-268 | `copy_pg_dir` of the current directory is the fork step, and the kernel keeps running as it should |
| StackMove.StackMemory.Memcpy | kern/misc/klib.c:13-20 | The bytes are copied and no other byte changes, for areas that do not overlap |
| StackMove.StackMemory.RelocateStack | kern/mm/vmm.c:189-204 | Each word of the new stack is the old one's plus the distance when that points strictly inside the old stack, and the old one's otherwise; nothing else is written |
| StackMove.ChainMoves | kern/mm/vmm.c:186-204 | A saved-frame-pointer chain of any length is found in the new stack, each address moved by the distance, and stays inside it |
| Itoa.NumberBuffer.Format | kern/misc/klib.c:23-38 | Every character is one of 0-9 and a-f whose value is below the base, and the digits denote the value modulo base^30, so the value itself exactly when thirty digits hold it, and then without a leading zero except in "0" |
| Itoa.PlacesSuffice | kern/misc/klib.c:25-31 | Thirty digits hold every 32-bit value exactly from base 3 on |
| Itoa.ParseFront | kern/misc/klib.c:30-31 | A digit written in front counts with the power of its place |

## Left out

- KHeap.KernelHeap.Allocate: needs a hole that fits, because the bin loop has no failure path (kern/mm/kheap.c:141-144).
- KHeap.KernelHeap.AllocateAligned: needs the last block to be a hole that is large enough and a front piece that can be a block; the `else` branch (kern/mm/kheap.c:113-124) is unreachable and not modelled.
- KHeap.KernelHeap.Release: needs a live block; invalid and double frees are not modelled.
- KHeap.KernelHeap.Initialize: assumes cleared bin heads and a clear byte at `end`, which the code reads as a header when the last block is freed; the heads are a sequence field, and the heap descriptor that `kheap_pre_init` allocates is not part of the bytes.
- KHeap.KernelHeap.AddBlockSorted: as a matter of layout some C functions are several methods here, and the flag store of a block may come on the other side of its size and footer stores; the stores are to disjoint bytes.
- Vmm.VirtualMemory.KmallocAp: once the heap serves it needs what `kheap_alloc_a` needs; the bytes of tables and directories are not stored in the heap's payloads, where they would be client stores (`HeapClient.ClientStore`), nor in the frames behind them.
- Vmm.VirtualMemory.MapPage: tables and directories are values named by their addresses, not bytes of memory, so a page table that maps itself is not seen; access, dirty and unused bits of an entry are not modelled.
- Fork.CopyPgDir: needs `dir` to be the current directory, the window unmapped, user tables not shared, the frames of the kernel half taken, user frames taken and not among those, physical words that are right, one free frame per mapped user page, and exactly the heap pages it takes; boot establishes all but the last two and every operation here keeps them. Running out of frames or heap is not modelled. What lies in frames behind the kernel half (heap, tables, directories) is not tracked as frame contents, so nothing is said about it.
- Boot.VmmInit: needs enough physical frames for the linear map and a kernel that ends below the heap; the handler registration and the switch to paging are erased, the switch being an assignment to the current directory.
- Tasking.FirstForks: the small allocations for the task list and the tasks in between (kern/proc/sched.c:50-53, 93-94), the relocation of the stack's words (`StackMove`) and the move of the stack registers are not part of it.
- Processes.StoreByte: that the store goes where the directory's flat map says, rather than where a stale translation does, is the processor's part.
- Tasking.AllocateStack: for pages that are not mapped yet, as with its caller, and a range that ends a page before the top of the address space, where the 32-bit counter would wrap.
- Pmm.FrameAllocator.Reserve: the memory map is a map of entries by address; a region longer than 2^64 - 4096 bytes, for which the 64-bit counter never ends, and a map that wraps around the address space are excluded.
- StackMove.StackMemory.RelocateStack: the reload of the stack registers (kern/mm/vmm.c:206-217) is hardware; overlapping stacks are excluded.
- `memset` of new tables and directories is the creation of a cleared value; frame contents are a map from frames to pages.
- `kmalloc` inside `bs_init` is a fresh array.
- Inline assembly, control registers, translation caches, page faults and context switches: hardware.
- The scheduler and tasks (kern/proc) beyond the memory part of `tasking_init`: not about memory.
- Descriptor tables, interrupts, ports, keyboard, screen output, `kprintf` and `bs_dmp`: tables and input/output; the calls are erased.
- The earlier kernel under v1 and the programs under tests.
