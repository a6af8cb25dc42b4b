# A verified model of the kernel's memory management and formatter

The project models three parts of the kernel in Dafny and proves what they promise.

**The heap** (`source/kernel/heap.c`, with `sbrk` from `source/kernel/paging.c`). A slab allocator with ten
size classes of one-page slabs, whose free cells are a stack threaded through the cells, and a seven-level skip
list of free multi-page blocks. Memory is a map of words (`Ram.dfy`), with a byte view for what clients write.
The skip list (`SkipList.dfy`) and the allocator (`Heap.dfy`) are classes that update that memory in place, word
by word as the code does: headers, cell links, `forward[]` towers, `prev`/`next` links. Each method is proved
against an operation on an abstract state (`HeapState.dfy`, `HeapSpec.dfy`), which records the blocks, the free
cells of every slab, the lists and the pointers clients hold. One invariant ties them together
(`HeapInvariant.dfy`), and `HeapMemory.dfy` says how memory represents the state. The theorems about the state
are in `HeapTheorems.dfy` and `SkipLevels.dfy`; `HeapRuns.dfy` is about arbitrary runs in which clients also
write anything they like into their own blocks. The tower height of a block is arbitrary in 0..6, so every
theorem holds for all heights. `HeapOperations.dfy` says in addresses and numbers alone what each call does to each
field of the state, and `HeapWords.dfy` which words of memory the state stands for.

**Paging** (`source/kernel/paging.c`, `source/kernel/task.c`). The first-fit frame bitmap (`Frames.dfy`), the
two-level page tables made on demand and the boot loops that map memory onto itself while the tables they create
move the end of that memory (`Paging.dfy`), `clone_table` and `clone_directory` (`CloneDirectory.dfy`), and
`kmalloc_raw` on top of placement memory, heap and tables (`Kmalloc.dfy`). `TableClear.dfy` is about the clear that
`clone_table` makes, and `Boot.dfy` goes from `init_paging` to `init_heap`. Cloning is modelled in both phases:
at boot, with tables from placement memory, and afterwards, with tables from the heap.

**The formatter** (`source/kernel/libc/printf.c`). `number` (`Number.dfy`) and the format scanner of `vsprintf`
(`Format.dfy`) write into a character array with bounds proved. `NumberReading.dfy` reads printed numbers back;
`FormatTheorems.dfy` is about whole formats.

Where the code and its intent differ the model follows the code, and says exactly when the intent is met:

- `klmalloc_skip_list_delete` unlinks a block only if it is the first of its size, and otherwise does nothing:
  `SkipLists.BigBins.Delete` has both halves, and `klmalloc` always meets the condition
  (`SkipLists.BestFitIsFirstOfItsSize`).
- `klrealloc` masks a pointer without the adjustment `klfree` makes for page-aligned ones.
  `HeapSpec.HeaderRecovered`: that finds the header exactly for pointers that are not page-aligned, which are
  exactly those not from `valloc`. For the others it reads the client's own bytes
  (`KernelHeap.PageAlignedReadsClient`): without the magic number among them it returns NULL and does nothing,
  even when the block is large enough (`KernelHeap.Heap.KlRealloc`). `HeapTheorems.VallocMasksToItself` is about
  every such pointer, `HeapTheorems.VallocPointerMasksToItself` names one.
- A request of 2^32 - 48 bytes or more wraps and gets a block too small for it (`SizeClasses.WrappedRequest`);
  `HeapSpec.AllocationIsNew` states that a client has room for its request exactly when nothing wraps, and
  `HeapSpec.VallocIsNew` the same for `valloc`. `calloc` of such a product clears memory past the heap's end
  (`KernelHeap.Heap.KlCalloc`).
- `clone_table` clears a directory's size instead of a table's. `TableClears.ClearIsExact`: a table's clear keeps
  the heap exactly if its block has four pages or more, or is the last one, or has three pages and the next block
  links nothing; `TableClears.TableClearIsExact` says so before the call, as a condition on the best fit among the
  free blocks, and `TableClears.ClearDestroysHeap` names a heap that is destroyed. `Cloning.CloneTable` and
  `Cloning.CloneDirectory` do the real clear and keep the heap exactly under that condition.
- The frame bitmap gets as many bytes as it has words. `Paging.BitmapClearOfDirectory` says exactly when its words
  still end before the directory. As many bytes are cleared, a quarter of it: `Frames.FramesInOrder` and the
  constructor of `Frames.FrameMap` say that page k gets frame k exactly when the rest is zero.
- The mapping loops of `init_paging` succeed exactly when there are frames up to the end of the first loop and up
  to the limit of the second (`Paging.InitPaging`). With the built-in 16 MB of frames and 32 MB
  limit they cannot (`Paging.BuiltInLimitUnreachable`).
- `alloc_frame` takes frame 0 for no frame: a second call on an entry leaves it alone exactly when its frame is
  not frame 0 or no other is left (`Frames.SecondCall`).
- A `*` width or precision takes its argument, but the scanner does not step over the star, so `%*` is copied as
  text and what follows it is text too (`FormatTheorems.StarIsCopied`). Section 7.21.6.1 of ISO/IEC 9899:2011
  asks for a field width.

`assert` and the spin locks expand to nothing (`source/include/kernel.h:15-17`); the model is sequential, and
what the asserts claim is proved as part of the invariant.

## Model

| member | source | states |
|---|---|---|
| `SizeClasses.BinIsSmallestFit` | source/kernel/heap.c:284-305 | sizes of 1 to 2048 get the smallest size class that holds them, all larger ones and only those the big bin |
| `SizeClasses.CellCountBounds` | source/kernel/heap.c:715 | a slab has as many cells as fit behind its header; one more would not |
| `SizeClasses.FreshBlockFits` | source/kernel/heap.c:799-821 | a fresh big block exceeds the request by 1 to 4096 bytes and ends on a page boundary; it holds the request exactly when `size + 48` does not wrap |
| `SizeClasses.WrappedRequest` | source/kernel/heap.c:799-806 | the least wrapping request gets one page, too small for it |
| `SizeClasses.SizesInNumbers` | source/kernel/heap.c:287-305 | the ten classes have cells of 4, 8, and so on to 2048 bytes, and 1020, 510, 255, 127, 63, 31, 15, 7, 3 and 1 of them in a slab |
| `RamModel.Ram.MemSet` | source/kernel/libc/utils.c:13-17 | the byte loop leaves memory as the fill of the range |
| `RamModel.FilledBytes` | source/kernel/libc/utils.c:13-17 | a fill sets every byte of the range and no other, word boundaries included |
| `RamModel.Ram.MemCpy` | source/kernel/libc/utils.c:6-11 | the byte loop leaves memory as the copy of the range |
| `RamModel.CopiedBytes` | source/kernel/libc/utils.c:6-11 | between disjoint ranges a copy makes the destination's bytes the source's and changes no other |
| `SkipLists.BigBins.Walk` | source/kernel/heap.c:444-448 | the walk on one level stops at the last tower reaching it among the blocks smaller than the size |
| `SkipLists.BigBins.Descend` | source/kernel/heap.c:442-449 | the descent ends just before the first block of at least the size, and records the predecessor at each level |
| `SkipLists.BigBins.FindBest` | source/kernel/heap.c:437-460 | returns the first block of at least the size in the sorted list, or NULL exactly when there is none |
| `SkipLists.BigBins.RandomLevel` | source/kernel/heap.c:422-432 | a height in 0..6 |
| `SkipLists.BigBins.RaiseLevel` | source/kernel/heap.c:512-517 | above the old top level the head is the predecessor |
| `SkipLists.BigBins.LinkIn` | source/kernel/heap.c:528-533 | the new tower is linked on each of its levels; only list pointers change |
| `SkipLists.BigBins.Insert` | source/kernel/heap.c:465-535 | the block enters the list before all blocks of equal or greater size; the list stays well formed |
| `SkipLists.BigBins.FindNode` | source/kernel/heap.c:572-583 | the linear walk reaches the block |
| `SkipLists.BigBins.Unlink` | source/kernel/heap.c:588-598 | the block is unlinked from every level it occupies if it is the first of its size; otherwise memory is unchanged |
| `SkipLists.BigBins.Remove` | source/kernel/heap.c:572-598 | the list loses the block if it is the first of its size, keeping the others in order; otherwise list and memory are unchanged |
| `SkipLists.BigBins.LowerLevel` | source/kernel/heap.c:600-602 | `level` becomes the height of the tallest tower, 0 if there is none |
| `SkipLists.BigBins.Delete` | source/kernel/heap.c:541-604 | removes exactly the block, keeping the others in order, if and only if it is the first of its size; otherwise nothing changes |
| `SkipLists.BestFitIsFirstOfItsSize` | source/kernel/heap.c:740-746 | the block found for a request is the first of its own size, so the deletion in klmalloc works |
| `SkipLists.ListChanges` | source/kernel/heap.c:465-604 | inserting puts the block before the first one not smaller, removing takes out that one block; all others keep their order |
| `SkipLevels.ChainOfLevel` | source/kernel/heap.c:326-350 | following `forward[i]` from a tower visits exactly the later towers that reach level i and ends in NULL |
| `SkipLevels.LevelsNest` | source/kernel/heap.c:326-350 | each level is a subsequence of the one below |
| `SkipLevels.SkipListShape` | source/kernel/heap.c:326-350 | for all tower heights: levels sorted, nested, made of exactly the towers that reach them; head pointers NULL exactly above `level` |
| `KernelHeap.Heap.constructor` | source/kernel/heap.c:338-351 | the allocator before `init_heap`: no slabs, no big blocks, `heap_end` 0, the skip list empty |
| `KernelHeap.Heap.InitHeap` | source/kernel/heap.c:76-107 | the heap is valid and empty and starts at the first page boundary past `placement_pointer` |
| `KernelHeap.Heap.Sbrk` | source/kernel/paging.c:197-203 | returns the old end, moves it, and zeroes the bytes between |
| `KernelHeap.Heap.ThreadCells` | source/kernel/heap.c:714-729 | the fresh slab's free stack runs through all its cells in order and ends in NULL |
| `KernelHeap.Heap.FormatSlab` | source/kernel/heap.c:695-729 | a page at the old end with header, cells threaded, at the front of its bin; memory below unchanged |
| `KernelHeap.Heap.NewSlab` | source/kernel/heap.c:691-730 | the state gains a slab with all cells free; no client byte changes |
| `KernelHeap.Heap.TakeFirst` | source/kernel/heap.c:731-735 | the first cell of the bin's first slab is taken; a slab left without one leaves the list |
| `KernelHeap.Heap.MallocSmall` | source/kernel/heap.c:686-735 | a small request takes the state to the specified one and returns its pointer; no client byte changes |
| `KernelHeap.Heap.TakeBlock` | source/kernel/heap.c:741-794 | a found block leaves the list and is handed out behind its header |
| `KernelHeap.Heap.WriteBigHeader` | source/kernel/heap.c:801-820 | the newest block and the new one point to each other, the size, the magic number and two NULL pointers are in place; no other word below the new block changes |
| `KernelHeap.Heap.FormatBig` | source/kernel/heap.c:799-820 | a new big block at the old end, linked both ways with the newest one; other memory below unchanged |
| `KernelHeap.Heap.NewBlock` | source/kernel/heap.c:795-822 | the state gains a big block in its client's hands; no other client byte changes |
| `KernelHeap.Heap.MallocBig` | source/kernel/heap.c:736-823 | a big request takes the best fit, or a new block when none fits |
| `KernelHeap.Heap.KlMalloc` | source/kernel/heap.c:671-824 | `klmalloc` performs the specified allocation and changes no client byte |
| `KernelHeap.Heap.FreeSmall` | source/kernel/heap.c:949-962 | of any slab of its bin: the cell goes on top of its slab's stack and is no longer live; other stacks stay; a slab that had no free cell, and only such a slab, rejoins the front of its bin |
| `KernelHeap.Heap.FreeBig` | source/kernel/heap.c:862-948 | the block goes back on the list under a tower of arbitrary height |
| `KernelHeap.Heap.KlFree` | source/kernel/heap.c:827-963 | `klfree` finds the header of any live pointer and frees its block, so that exactly this pointer is no longer live; NULL does nothing; other clients' bytes are unchanged |
| `KernelHeap.Heap.KlValloc` | source/kernel/heap.c:966-977 | `klvalloc` performs the specified allocation for every 32-bit size, wrap-around included, and changes no client byte |
| `KernelHeap.Heap.Free` | source/kernel/heap.c:270-276 | pointers at or below `placement_pointer` are ignored and never live; all others are freed |
| `KernelHeap.Heap.KlCalloc` | source/kernel/heap.c:1058-1072 | as malloc of the wrapped product; if that plus its header does not wrap, every byte asked for is zero, the heap is valid and other bytes are unchanged; if it does, the clear runs past the end of the heap |
| `KernelHeap.Heap.OldSize` | source/kernel/heap.c:1002-1016 | the magic number and the size klrealloc finds on the page of any live pointer |
| `KernelHeap.SizeReadIs` | source/kernel/heap.c:1002-1016 | for a live pointer not page-aligned the magic number is there and the size is the capacity of its block |
| `KernelHeap.PageAlignedReadsClient` | source/kernel/heap.c:1002-1016 | for a page-aligned live pointer magic number and size are read 12 and 8 bytes behind it, out of the client's own bytes unless its block ends there |
| `KernelHeap.MoveFitsUnlessWrapped` | source/kernel/heap.c:1035-1043 | the copy stays inside both blocks exactly when the new request does not wrap or the old block is at most one page |
| `KernelHeap.Heap.MoveBlock` | source/kernel/heap.c:1035-1046 | a new block holds the old size's bytes, whenever both blocks have them, and the old block is free |
| `KernelHeap.Heap.KlRealloc` | source/kernel/heap.c:980-1055 | NULL allocates and size 0 frees; a pointer on whose page no magic number is found gets NULL and a block read as large enough is returned, both with nothing changed; any other moves with its contents; for a pointer not page-aligned the result has room for the request whenever that does not wrap, and it is the old pointer exactly if the old block had; other clients' bytes are unchanged |
| `KernelHeap.Heap.ClientStore` | source/kernel/heap.c:671-1072 | a client's write to its own block keeps the whole heap valid and every other client's bytes |
| `HeapSpec.AllocationIsNew` | source/kernel/heap.c:671-824 | a request gets a new word-aligned, never page-aligned pointer, with room for it exactly when `size + 48` does not wrap; old clients keep theirs |
| `HeapSpec.VallocIsNew` | source/kernel/heap.c:966-977 | valloc's client has the room asked for exactly when `size + 4096` does not wrap, and then a new page-aligned pointer; old clients keep theirs in any case |
| `HeapSpec.HeaderRecovered` | source/kernel/heap.c:838-849 | the mask of klfree finds the header of every live pointer; the mask of klrealloc exactly that of pointers not page-aligned, which are those not from valloc |
| `HeapSpec.SizeFieldTells` | source/kernel/heap.c:861-862 | the size field exceeds NUM_BINS exactly for big blocks and is below BIG_BIN exactly for slabs |
| `HeapOperations.MallocCell` | source/kernel/heap.c:731-735 | with a slab in the bin of the smallest cells that hold the request, its first free cell is handed out; a slab that had no other leaves the list; nothing else changes |
| `HeapOperations.MallocSlab` | source/kernel/heap.c:691-735 | otherwise the heap grows by one page whose first cell is handed out and whose others are free in ascending order |
| `HeapOperations.MallocBlock` | source/kernel/heap.c:740-794 | a request past 2048 bytes gets the first free block large enough, 48 bytes behind its header |
| `HeapOperations.MallocPages` | source/kernel/heap.c:795-822 | or, when none is, new pages at the end of the heap, as many as request and header take after they have wrapped |
| `HeapOperations.RoomSuffices` | source/kernel/paging.c:197-203 | the heap has room for a request whenever it may grow by request and header, as far as they do not wrap, and a page |
| `HeapOperations.VallocBlock` | source/kernel/heap.c:966-977 | valloc asks for 4048 bytes more and hands out the page boundary behind the header |
| `HeapOperations.VallocWrapped` | source/kernel/heap.c:966-977 | a request that wraps down to a cell gets an address that is not the cell's, and the state is malloc's |
| `HeapOperations.FreeIntoSlab` | source/kernel/heap.c:949-962 | a cell of any slab is freed onto its slab's stack; the slab joins the front of its bin exactly if it had none free; nothing else changes |
| `HeapOperations.FreeIntoList` | source/kernel/heap.c:862-948 | a big block is freed into the list before the first one not smaller; nothing else changes |
| `HeapOperations.CapacityOf` | source/kernel/heap.c:1002-1016 | a client of a cell has 4 to 2048 bytes by its bin, one of a big block what lies between its pointer and the block's end |
| `HeapInvariant.GrowSlabInv` | source/kernel/heap.c:691-730 | adding a slab keeps the invariant |
| `HeapInvariant.TakeCellInv` | source/kernel/heap.c:731-735 | taking a cell keeps the invariant |
| `HeapInvariant.GiveCellInv` | source/kernel/heap.c:955-961 | giving a cell back keeps the invariant |
| `HeapInvariant.GrowBigInv` | source/kernel/heap.c:799-821 | adding a big block keeps the invariant |
| `HeapInvariant.TakeBigInv` | source/kernel/heap.c:741-794 | taking a free big block keeps the invariant |
| `HeapInvariant.GiveBigInv` | source/kernel/heap.c:943-948 | giving a big block back keeps the invariant, under any tower height |
| `HeapInvariant.RealignInv` | source/kernel/heap.c:972-976 | handing out the page boundary instead keeps the invariant |
| `HeapInvariant.LiveApart` | source/kernel/heap.c:671-1072 | no two live blocks overlap |
| `HeapMemory.RepresentationKept` | source/kernel/heap.c:314-351 | memory that agrees on headers, free cells and list pointers represents the same state |
| `KernelHeap.ClientMissesReads` | source/kernel/heap.c:314-351 | no word of a live block is one the allocator reads: a header word, a link of a free cell, or a word of the skip list; nor is one past the end of the heap |
| `HeapMemory.NewBigRepresented` | source/kernel/heap.c:811-821 | the physical chain gains the new block at its end, and every other part of the memory still represents the state |
| `HeapWords.SlabWords` | source/kernel/heap.c:314-319 | a slab has its bin at 8, the magic number at 12 and its first free cell at 4, and each free cell holds the next, the last NULL |
| `HeapWords.BinWords` | source/kernel/heap.c:341-347 | each bin points to its first slab and each slab, at 0, to the next, the last to NULL |
| `HeapWords.BlockWords` | source/kernel/heap.c:326-333 | a big block has its capacity at 8 and the magic number at 12; while it is free the space behind its header, a stack of one, is at 4, and else NULL |
| `HeapWords.NeighbourWords` | source/kernel/heap.c:326-351 | the big blocks point to their neighbours by address at 0 and 16, NULL at the ends, and the newest is the last |
| `HeapWords.TowerWords` | source/kernel/heap.c:326-350 | `forward[i]`, at 20 + 4i, of each tower that high and of the head points to the next tower that high, or is NULL |
| `HeapTheorems.SlabConservation` | source/kernel/heap.c:714-729 | free and live cells of a slab are disjoint and together exactly the cells laid out at its creation |
| `HeapTheorems.ListedIffRoom` | source/kernel/heap.c:362-378 | a slab is on the list of its bin, and no other, exactly when it has a free cell |
| `HeapTheorems.HeapTiled` | source/kernel/paging.c:197-203 | every address between the initial and the current heap end lies in exactly one block |
| `HeapTheorems.BigBlocksAscend` | source/kernel/heap.c:811-816 | the physical chain of big blocks runs in ascending address order |
| `HeapTheorems.BestFit` | source/kernel/heap.c:437-460 | the search finds the smallest block large enough, the first of its size, and nothing exactly when none is large enough |
| `HeapTheorems.MostRecentFirst` | source/kernel/heap.c:465-535 | a freed block comes before all blocks of its size or more, so among equals the most recently freed is found first |
| `HeapTheorems.SmallRoundTrip` | source/kernel/heap.c:731-735 | malloc and free of a cell without growth restore the state exactly |
| `HeapTheorems.BigRoundTrip` | source/kernel/heap.c:740-794 | malloc and free of a listed big block restore the state exactly but for tower heights |
| `HeapTheorems.FreedBlockReturns` | source/kernel/heap.c:943-948 | a big block freed is the one handed out for a request of its full capacity |
| `HeapTheorems.VallocMasksToItself` | source/kernel/heap.c:1002 | in any heap the pointer of a valloc that does not wrap is masked to itself, never to its header |
| `HeapTheorems.VallocPointerMasksToItself` | source/kernel/heap.c:1002 | the same for one byte from a fresh heap |
| `TableClears.ClearIsExact` | source/kernel/task.c:109-111 | after the clear of 0x2004 bytes from the start of a table the memory still represents the heap, the skip list and every other client's words, exactly when the table's block has four pages or more, or is the last, or has three and the next block's first word links nothing; else the next block's magic number or its link is gone |
| `TableClears.TableClearIsExact` | source/kernel/task.c:109-111 | the same as a condition before the call: no free block is large enough for the table, or the best fit spares its clear |
| `TableClears.LinkTells` | source/kernel/heap.c:308-332 | a block links nothing, being the last on its list or a slab on none, exactly when its first word is 0 or it is a slab whose stack is empty |
| `TableClears.ClearDestroysHeap` | source/kernel/task.c:109-111 | an input: two blocks of two pages, the first freed again; the next table goes there and its clear is not spared |
| `HeapRuns.Perform` | source/kernel/heap.c:242-276 | the allocator performs every legal operation as a step of the run semantics and returns its result |
| `HeapRuns.ResultIsLive` | source/kernel/heap.c:242-276 | the pointer a step returns is in its client's hands afterwards, and was in nobody's before unless realloc returns its own |
| `HeapRuns.MallocStep` | source/kernel/heap.c:242-262 | malloc and calloc: nothing asked for, nothing given; else one new client and no other change among clients, with room unless header and request wrap, and cleared for calloc |
| `HeapRuns.VallocStep` | source/kernel/heap.c:264-268 | valloc: one new client, page-aligned, with room unless the request wraps |
| `HeapRuns.FreeStep` | source/kernel/heap.c:270-276 | free: exactly that client is gone; a write changes that byte and no other |
| `HeapRuns.ReallocStep` | source/kernel/heap.c:980-1055 | realloc of a pointer not page-aligned: freed for size 0; the same pointer and state exactly if the block is large enough; else a new one that is, with all the old bytes, and the old one is gone |
| `HeapRuns.StepKeepsInv` | source/kernel/heap.c:671-1072 | every step keeps the invariant |
| `HeapRuns.InvIsolates` | source/kernel/heap.c:671-1072 | clients' blocks are disjoint, inside the heap, and clear of every header, every free cell, every free big block and every word the allocator reads |
| `HeapRuns.RunsAreSafe` | source/kernel/heap.c:671-1072 | over every run of malloc, calloc, realloc, valloc, free and client writes the invariant and the isolation hold at every moment |
| `HeapRuns.ContentsPersist` | source/kernel/heap.c:671-1072 | between the realloc, free and write operations that name it a block keeps its place, capacity and every byte |
| `HeapRuns.WrittenByteReadsBack` | source/kernel/heap.c:671-1072 | a byte a client writes reads back until the next operation on its block |
| `Frames.FrameMap.SetFrame` | source/kernel/paging.c:17-23 | exactly that frame becomes taken |
| `Frames.FrameMap.TestFrame` | source/kernel/paging.c:33-39 | nonzero exactly when the frame is taken |
| `Frames.FrameMap.FirstFrame` | source/kernel/paging.c:41-59 | the lowest free frame, or -1 exactly when there is none |
| `Frames.FrameMap.AllocFrame` | source/kernel/paging.c:63-78 | an entry with a nonzero frame is left alone, any other gets the next frame and its flags, or the panic exactly when none is left; the taken frames stay a prefix |
| `Frames.FrameMap.constructor` | source/kernel/paging.c:94-96 | the bitmap holds what was in memory before, with as many bytes cleared as it has words (`Frames.LeftOverIsFilled`); every frame is free exactly when what is left over is zero |
| `Frames.LeftOverIsFilled` | source/kernel/paging.c:95-96 | the bitmap's words are those that a memset of as many bytes as there are words leaves behind, wherever it lies |
| `Frames.AlignedWord` | source/kernel/paging.c:95-96 | of a bitmap at a word boundary these are the words of memory |
| `Frames.TakenIs` | source/kernel/paging.c:14-23 | frame f is the bit of value 2^(f % 32) of word f / 32 |
| `Frames.FramesInOrder` | source/kernel/paging.c:41-78 | first fit gives allocation k frame k, for the first n allocations from any bitmap, exactly when the first n frames are free in it |
| `Frames.NoFrameTwice` | source/kernel/paging.c:63-78 | over every sequence of calls on the entries of any fresh tables no two entries share a frame and every frame handed out past 0 is in an entry |
| `Frames.SecondCall` | source/kernel/paging.c:65-66 | a second call on an entry changes nothing exactly when its frame is not frame 0 or no other is left |
| `Paging.Placement.Kmalloc` | source/kernel/heap.c:37-53 | placement blocks are disjoint and ascending; an aligned block, with the pointer at least 0x1000, begins on the next page boundary above the pointer, at most a page further, any other at the pointer; the physical address is the address |
| `Paging.PageDirectory.GetPage` | source/kernel/paging.c:134-152 | the entry of the address; a missing table is made blank and entered when asked for, and otherwise NULL and nothing changes |
| `Paging.PageDirectory.Find` | source/kernel/paging.c:134-141 | the table and index of an address, NULL for a missing table, without making one |
| `Paging.PageDirectory.MakeTable` | source/kernel/paging.c:142-149 | the new table is page-aligned, blank, and recorded with its physical address and three flag bits |
| `Paging.PageDirectory.AllocAt` | source/kernel/paging.c:63-78 | one call on an entry of the directory is one step of the run semantics of `Frames.NoFrameTwice` |
| `Paging.MapPage` | source/kernel/paging.c:108 | the page of the address has a frame afterwards, the next one if it had none, and is then present, not writable and not for users; no other entry changes (`Paging.MappedPageIs`) |
| `Paging.MappedPageIs` | source/kernel/paging.c:63-78 | entry by entry: the page itself, its table, blank if just made, and every other table |
| `Paging.IdentityMeans` | source/kernel/paging.c:101-114 | the identity map in full: page p below the end has frame p, present, not writable, not for users; all other entries are blank; the tables are those of the pages below the end and the heap's |
| `Paging.IdentityStep` | source/kernel/paging.c:105-110 | giving the next page the next frame, for the kernel and read-only, extends the identity map by one page |
| `Paging.MapRound` | source/kernel/paging.c:106-110 | one round keeps the identity map and moves the end exactly when the page is the first of its table |
| `Paging.BootRound` | source/kernel/paging.c:106-110 | one round of the first loop comes nearer to its moving end, or stops because there are too few frames for the final end |
| `Paging.MapPlacement` | source/kernel/paging.c:105-110 | the loop ends although its bound moves; then every page below the final end is mapped onto its own number; it fails exactly when there are too few frames for that end |
| `Paging.BootEndIs` | source/kernel/paging.c:105-110 | the final end in closed form: two pages further for each of the fewest tables that cover one page past it |
| `Paging.MapLimit` | source/kernel/paging.c:113-114 | the second loop extends the identity map to its limit, and fails exactly when the frames end before it; the pages mapped then cover the tables this loop makes |
| `Paging.LimitRound` | source/kernel/paging.c:113-114 | one round maps a page already mapped or the next one, and fails only if the limit is past the frames |
| `Paging.MakeHeapTable` | source/kernel/paging.c:101-103 | one blank table serves all pages of the initial kernel heap |
| `Paging.MapMemory` | source/kernel/paging.c:105-114 | both loops one after the other, with the exact condition of success; the final placement pointer is below the end of the pages mapped |
| `Paging.InitPaging` | source/kernel/paging.c:90-114 | exactly when there are enough frames, all of memory up to the end of the first loop, up to the limit and up to the final placement pointer is mapped onto itself; the final pointer is at most six megabytes past the first loop's end; the 0x2004 bytes of the directory begin on the page boundary behind the bitmap's block, and every table lies behind their end |
| `Paging.TablesAreMapped` | source/kernel/paging.c:105-114 | every table of such a directory lies on a page that is mapped onto itself |
| `Paging.PlaceDirectory` | source/kernel/paging.c:94-103 | bitmap, directory and the table of the heap come one behind the other: the directory's 0x2004 bytes on the page boundary behind the bitmap's block, the table three pages further; nothing is mapped yet, and no frame is taken exactly when the words memset leaves alone are zero |
| `Paging.BitmapClearOfDirectory` | source/kernel/paging.c:95-98 | the words of the bitmap, which has a byte for each, end before the directory exactly when three bytes for each fit into the rest of the page the bytes end on |
| `Paging.BuiltInLimitUnreachable` | source/include/memory.h:7 | with the built-in sizes the frames end before the limit |
| `Booting.FirstClone` | source/kernel/paging.c:120 | the first clone shares every table of the kernel directory and takes no frame |
| `Booting.StartHeap` | source/kernel/heap.c:76-107 | init_heap begins an empty heap in the memory mapped, and the state that allocation and cloning rely on holds |
| `Booting.Boot` | source/kernel/main.c:24-29 | from placement memory and the boot loops to the heap: exactly when there are frames up to the limit, the identity map, the frame bitmap, both directories and an empty heap are in the state that kmalloc relies on |
| `KernelMalloc.KmallocRaw` | source/kernel/heap.c:18-36 | in the heap phase the pointer is that of malloc or valloc, the reported physical address equals it, clients' bytes are unchanged, and nothing above the heap is written |
| `KernelMalloc.ServedInside` | source/kernel/heap.c:24-35 | the pointer is new and inside the heap, page-aligned when asked, large enough unless the request wraps, and null exactly for an unaligned request of size 0 |
| `KernelMalloc.Physical` | source/kernel/heap.c:29-33 | under the identity map the address looked up in the tables is the address itself |
| `KernelMalloc.PlacementApart` | source/kernel/heap.c:270-276 | every placement block lies at or below `placement_pointer` and every live pointer above it |
| `KernelMalloc.Store.Aligned` | source/kernel/heap.c:18-54 | in both phases the block is page-aligned and its physical address is its address; the heap phase keeps the heap valid and every client's block and bytes, the placement phase writes nothing |
| `KernelMalloc.Store.Clear` | source/kernel/task.c:109-111 | memset from the start of a table or directory leaves the store valid exactly when the block spares it |
| `KernelMalloc.Store.Agree` | source/kernel/task.c:117-130 | memories that agree below the end of what is handed out both have heap and clients in order or neither has, so copying into frames above changes nothing there |
| `Cloning.CopyPagePhysical` | source/kernel/arch/process.s:7-29 | the 1024 words of the frame are copied and nothing else changes |
| `Cloning.CopyFrame` | source/kernel/task.c:129 | the words of one frame into another, and nothing else |
| `Cloning.CloneEntry` | source/kernel/task.c:117-130 | an entry with a frame gets the next frame, the source's flags with present and user, and a copy of its words; one without stays blank |
| `Cloning.CopyEntries` | source/kernel/task.c:113-131 | the whole table is cloned into consecutive fresh frames, or there are too few; only those frames are written |
| `Cloning.CloneTable` | source/kernel/task.c:106-133 | in both phases a new page-aligned table that is a clone of the source, or too few frames exactly when the source has more entries with a frame than are free; the heap stays valid, with every client's block and bytes, exactly when the clear of the new table is clean |
| `Cloning.CloneSlot` | source/kernel/task.c:153-168 | an empty slot stays empty, a kernel table is shared by pointer, any other is cloned; the heap stays valid, with every client's block and bytes, exactly when no table is copied or the clear of the copy is clean |
| `Cloning.LinkSlot` | source/kernel/task.c:153-161 | an empty slot stays empty and a kernel table is shared with its physical address; no frame is used |
| `Cloning.CopyTable` | source/kernel/task.c:162-168 | any other slot gets a clone of its table, using exactly the frames its entries have, with the heap kept exactly when the clear is clean |
| `Cloning.CloneSlots` | source/kernel/task.c:149-169 | every slot is treated so, exactly when there are the frames the copies need and every clear on the way is clean |
| `Cloning.CleanFurther` | source/kernel/task.c:109-111 | the clears of all tables still to come are clean exactly when the next one is and, in the heap it leaves, all after it |
| `Cloning.CloneRound` | source/kernel/task.c:149-169 | one more slot is done and those done before stay clones, though the heap may have grown meanwhile; or the frames are too few, or a clear has destroyed the heap |
| `Cloning.CloneDirectory` | source/kernel/task.c:135-171 | in both phases the new directory's slots are clones of the source's as of the call, exactly when there are frames enough and the clears of the tables on the way, each judged in the heap the ones before leave, are clean; only fresh frames and memory below the heap's bound are written, and unless a clear destroys it the heap stays valid and every client keeps block and bytes |
| `Cloning.ClonePreservesMeaning` | source/kernel/task.c:135-171 | every page with a frame reads the same words through the clone as through the source, with at least the same flags; frames above the heap read as before the call; pages without a frame have none in the clone |
| `Cloning.CopiesAreIsolated` | source/kernel/task.c:117-130 | where the source's table is not the kernel's, a page's frame in the clone belongs to no page of the source and to no other page of the clone |
| `Cloning.WritesStayApart` | source/kernel/task.c:117-130 | whatever is stored later through such a page is not seen through the source or the clone's other pages, nor the other way round |
| `Cloning.ClonedInFull` | source/kernel/task.c:106-171 | page by page: a missing table stays missing and the kernel's is shared; any other is copied, where a page with a frame gets the frame after those of the pages copied before it, present, for users, with the other flags and the 1024 words of the source, and any other stays blank |
| `Cloning.NeededIs` | source/kernel/task.c:113-131 | the frames a clone needs are as many as there are pages with a frame whose table is not the kernel's |
| `Cloning.LeftIs` | source/kernel/task.c:149-169 | the tables copied are as many as there are that are not the kernel's |
| `Numbers.RenderedLength` | source/kernel/libc/printf.c:45-76 | the length is the larger of the width and sign, prefix and the larger of precision and digit count |
| `Numbers.TakeApart` | source/kernel/libc/printf.c:49-53 | the digits of the unsigned word, least significant first, at most 32, so they fit the buffer of 36 |
| `Numbers.Measure` | source/kernel/libc/printf.c:40-48 | the sign shown: a minus for a signed negative, else a plus for PLUS, else a blank for SPACE, else none; the number without it, the least int included; and the width less the sign, and less 2 for base 16 or 1 for base 8 when SPECIAL is set |
| `Numbers.PutHead` | source/kernel/libc/printf.c:59-67 | sign and prefix are written, nothing else |
| `Numbers.PutPieces` | source/kernel/libc/printf.c:56-76 | padding, sign, prefix, zeros and digits are written in the order of the flags |
| `Numbers.Number` | source/kernel/libc/printf.c:28-78 | `number` writes the rendering and nothing else, or returns NULL exactly for a base outside 2..36 |
| `NumberReading.NumeralReadsBack` | source/kernel/libc/printf.c:49-53 | digits written in any base from 2 to 36 have the value they were written for |
| `NumberReading.NumeralIsDigits` | source/kernel/libc/printf.c:32-35 | only digits, and letters of the case the SMALL flag asks for |
| `NumberReading.RenderedShape` | source/kernel/libc/printf.c:56-76 | spaces, sign, prefix, zeros, digits, spaces: with LEFT the padding is last, with ZEROPAD alone behind the prefix, else first |
| `NumberReading.NumberReadsBack` | source/kernel/libc/printf.c:28-78 | stripping padding, sign and prefix and reading the digits gives the number back, for every value, base, width, precision and flag set |
| `NumberReading.DigitLetters` | source/kernel/libc/printf.c:32-35 | the thirty-six digits, with small letters for SMALL |
| `NumberReading.DigitByDigit` | source/kernel/libc/printf.c:49-53 | the last digit is that of the remainder, and those before it are the digits of the quotient |
| `NumberReading.NumeralIsShort` | source/kernel/libc/printf.c:49-53 | no digit too many: 0 is one digit, and no other number starts with 0 |
| `NumberReading.RenderedInFull` | source/kernel/libc/printf.c:28-78 | the text in full: sign, prefix, as many zeros as the precision lacks, digits, and as much padding as the width lacks, in the order of the flags |
| `NumberReading.StartsWithSign` | source/kernel/libc/printf.c:40-67 | without a width the text starts with a minus exactly for a signed negative, with a plus exactly for PLUS otherwise, with a blank exactly for SPACE otherwise, and with the zero of its prefix otherwise if it has one |
| `NumberReading.LengthInFull` | source/kernel/libc/printf.c:44-76 | the length in numbers: the larger of the width and 1 for a sign, 2 or 1 for the prefix, and the larger of precision and digits |
| `Formats.ReadFlags` | source/kernel/libc/printf.c:101-111 | the flags and where they end |
| `Formats.SkipAtoi` | source/kernel/libc/printf.c:6-13 | the decimal value and where it ends, never past the NUL |
| `Formats.ReadWidth` | source/kernel/libc/printf.c:113-124 | the field width; a star takes an argument and is not stepped over |
| `Formats.ReadPrecision` | source/kernel/libc/printf.c:126-138 | the precision, 0 when given without digits or negative |
| `Formats.ReadDirective` | source/kernel/libc/printf.c:101-145 | the whole directive up to its conversion, and the arguments taken |
| `Formats.PutChar` | source/kernel/libc/printf.c:148-155 | the character in its field |
| `Formats.PutString` | source/kernel/libc/printf.c:157-172 | the string, cut at the precision, in its field |
| `Formats.PutNumber` | source/kernel/libc/printf.c:174-206 | base, width and flags of each numeric conversion (`FormatTheorems.NumericInFull`) |
| `Formats.PutOther` | source/kernel/libc/printf.c:213-220 | unknown conversions, the doubled percent sign and the end of the format |
| `Formats.PutDirective` | source/kernel/libc/printf.c:147-221 | a directive writes its rendering and takes its argument, and %n stores the number of characters written so far |
| `Formats.FormatDirective` | source/kernel/libc/printf.c:101-221 | one directive from its percent sign to behind its conversion, with what it stores, never past the NUL |
| `Formats.VSprintf` | source/kernel/libc/printf.c:80-225 | terminates; the buffer holds the output, the concatenation of the renderings, and a NUL, and is otherwise unchanged; the result is the length, and the stores of %n are the counts of the format in order |
| `FormatTheorems.SplitsExactlyAtBoundaries` | source/kernel/libc/printf.c:95-222 | formatting a first part and then any second part is formatting both, exactly when every directive of the first is complete |
| `FormatTheorems.LiteralText` | source/kernel/libc/printf.c:95-99 | text without a percent sign comes out unchanged and takes no argument |
| `FormatTheorems.ParseAsSpelled` | source/kernel/libc/printf.c:101-145 | a directive spelled out is read as itself, whatever follows it |
| `FormatTheorems.SpelledOutput` | source/kernel/libc/printf.c:95-222 | a spelled directive contributes its rendering and the rest goes on with the following arguments |
| `FormatTheorems.FormattedReadsBack` | source/kernel/libc/printf.c:174-206 | the argument of every numeric directive can be read back from the output: in base 16 for %x, %X and %p, 8 for %o, 2 for %b, 10 for %d, %i and %u; signed for %d and %i, unsigned for the others |
| `FormatTheorems.FormattedString` | source/kernel/libc/printf.c:157-172 | %s fills its width with the string, cut at the precision, and spaces on the side of the flag |
| `FormatTheorems.FormattedChar` | source/kernel/libc/printf.c:148-155 | %c fills its width with the low byte of its argument and spaces on the side of the flag |
| `FormatTheorems.StarIsCopied` | source/kernel/libc/printf.c:117-135 | a star takes an argument, and `%*` and what follows come out as text |
| `FormatTheorems.CountsGoOn` | source/kernel/libc/printf.c:95-222 | a complete first part stores its own counts, and a second part counts on from what the first has written and taken |
| `FormatTheorems.CountsHere` | source/kernel/libc/printf.c:208-211 | %n stores through its own argument how much was written before it, and what follows takes the next argument |
| `FormatTheorems.ParsedInFull` | source/kernel/libc/printf.c:101-145 | every directive without a star: flag letters in any order, a width, a precision, 0 for a dot alone, and a size letter, which means nothing |
| `FormatTheorems.NumericInFull` | source/kernel/libc/printf.c:174-206 | each numeric conversion is `number` in its base, with SIGN for %d and %i, SMALL for %x, and a width of 8 with zeros for a %p without one |
| `FormatTheorems.OthersInFull` | source/kernel/libc/printf.c:147-220 | what %c, %s and %n write, that a doubled percent sign is one, and that any other conversion is copied with its percent sign |
| `FormatTheorems.DirectiveInFull` | source/kernel/libc/printf.c:95-222 | such a directive writes that, takes one argument exactly if its conversion is one of csnopxXdiub, and the rest of the format follows |
| `FormatTheorems.HexExample` | source/kernel/libc/printf.c:189-193 | `0x%x` of 255 is 0xff |

## Left out

- Splitting and coalescing of big blocks, and the commented-out heap: under `#if 0` or in comments, never compiled.
- `klmalloc_skip_rand`: the generator is replaced by an arbitrary coin, so nothing depends on its values.
- Locks and asserts: empty macros, so there is no concurrency to model.
- KernelHeap.Heap.KlRealloc: excludes a move whose copy is larger than the old or the new block, which overwrites or copies what is not the client's; `KernelHeap.MoveFitsUnlessWrapped` says when that is for a pointer that is not page-aligned. For a page-aligned one it takes client bytes that pass for a header.
- KernelHeap.Heap.KlCalloc: after a clear past the end of the heap nothing is promised but that.
- KernelHeap.Heap.KlValloc: what a client of a wrapped request does with a pointer that is not its own is not modelled.
- KernelHeap.Heap.KlMalloc: requires that the heap can grow by what the request needs; `sbrk` has no limit and the end would wrap at 2^32.
- HeapTheorems.BigRoundTrip: the tower height may differ, because the height is drawn again.
- Frames.FrameMap.FirstFrame: the code has no return when every frame is taken; -1, which its caller tests for, stands for it, and false for the panic.
- Paging.InitPaging: is about memory whose words under the bitmap are zero where memset leaves them; otherwise some page does not get the frame of its number (`Frames.FramesInOrder`).
- `free_frame` and `clear_frame`: never called, and the first passes a frame number where the second takes an address.
- Directories and tables are objects rather than words in memory; the interrupt handler and the CR3 load are not part of the model.
- Cloning.CloneDirectory: is followed up to the clear that destroys the heap, if there is one (`intact` is then false): what malloc does on a destroyed heap is not modelled. It requires memory for the tables, as `kmalloc_raw` has no error return, and that the frames to copy are not the heap's own.
- Cloning.CloneTable: the entries of a table are an object, not words of the table's block; only the clear is made in memory too.
- Copying a frame turns paging and interrupts off and on again; only the copy is modelled.
- Numbers.Number: widths and precisions are unbounded integers, without the overflow of `size` far below zero.
- Formats.SkipAtoi: counts are unbounded; the overflow of `i*10` past 2^31 is not modelled.
- Formats.VSprintf: what %n stores is returned in order rather than written into memory, so it cannot change the buffer, the format or later arguments; the strings of `%s` are values, so they cannot overlap the buffer; the buffer must be large enough, as the code requires of its callers.
- `vprintf`, `kprintf`, `i2hex`, `ftoa`, `atof` and the string helpers: unused by the cores or easy.
- `fork`, `switch_task`, `schedule`, the console, the file systems, PCI, ATAPI, GDT, IDT and timers: hardware plumbing or printing, with no invariant shared with the cores.
