# Kruspix verification

Kruspix is a bare-metal kernel for 64-bit Arm. Most of its logic states one thing (a set of frames, an address map, a
tree, a grid of characters, a round-robin order) and implements another (bitmaps, page tables, links inside free
memory, a token stream, pixels, queues). This project models those parts in Dafny and proves that the second is always
the first.

`dafny verify dfyconfig.toml` checks everything.

## What is modelled

- **Memory management.** `FrameAllocator` is the bitmap allocator over 64-bit words, refined to a set of free frames.
  `Descriptors` holds the descriptor encodings and in-place setters, `PageWalk` what the hardware walk makes of a physical
  memory, `Mmu` the page tables built in place in that memory. `HeapSpace` reads and writes the heap's virtual pages
  through those tables, `HeapLists` is the heap's bookkeeping as a value, and `Heap` is the allocator whose free lists live
  inside the free blocks. Each layer is proved on the one below, so the statement about live heap blocks is a statement
  about words of physical memory. `Memory` is the subtraction of reservations from memory regions, `MemoryExact`
  when its result is exact.
- **Devicetree.** `StructureBlock` is the token iterator over the flattened form (section 5.4 of the Devicetree
  Specification v0.4), `FdtFormat` the written form with NOPs and padding, `DeviceTree` the stack machine that rebuilds the
  tree, `FdtWriter` a reference writer, `Utf8Text` what names may be, `PlainTrees` trees with ASCII names and one blob byte
  for byte, `PhandleOrder` which node a phandle leads to, `FdtLookup` the child and property iterators over the blob, `DevicePaths` the two
  path resolvers, the path a node prints and the walk over all nodes, `FdtValues` string lists and cell arrays.
- **USB.** `UsbInterrupt` is the asynchronous interrupt transfer as atomic steps of pollers, the channel interrupt, a
  watchdog and an unlocked recovery, with every value the hardware may report, `UsbProgress` what its runs get done. `UsbControl` is the control transfer,
  `UsbKeyboard` auto-repeat, `UsbDescriptors` the descriptor walk.
- **Framebuffer console.** `Drawing` is the flat pixel buffer and its primitives, `Console` the character grid, the escape
  stripper and the console that draws it, `EscapeGrammar` which bytes are escape sequences.
- **Kernel.** `Scheduler` is the round-robin scheduler, `DriverInit` the driver retry loop, `OnceLock` the one-time cell
  under any interleaving, `Ticks` the tick arithmetic.

`Bits`, `Arithmetic` and `Basics` are shared ground: bits of natural numbers (address arithmetic and masks meet on the same
64-bit words), products and quotients, a few types.

Code that changes things in place is modelled by classes and arrays; each such method is tied to a function of its inputs
and the old state, and the results are lemmas about those functions. Protocols are state machines over their steps.

## Results where the code falls short of its promise

- A mapped page translates to the address asked for exactly when that address fits 48 bits (`LeafMapsRequestedAddress`).
- The I/O window is documented as 16 TiB, but one level-0 entry serves it: `map_io_region` goes through only for regions
  that end within 512 GiB (`MapIoRegion`). The heap range is 16 TiB too (src/mm/layout.rs:25) and served the same way: the
  page after 512 GiB panics in `map_page` (`AllocHeapPage`, `Alloc`).
- The property iterator of a node without properties reads through a null pointer; it is exact for every other node
  (`PropIterExact`).
- The subtraction of reservations counts nonzero slots to decide what the next round may skip, so a region swallowed whole
  shifts the count and reserved bytes are handed out (`SwallowedPieceShiftsTheSkip`). The result is memory minus
  reservations if and only if no round skips a slot with a reserved byte or drops a piece with a free one
  (`AvailableExactIff`); `AvailableExact` gives a condition on the arguments that ensures it. Splitting memory
  regions 32 times in all never overruns the scratch array; 32 reservations and the kernel can split one region 33 times,
  and then the call panics (`AvailableFits`, `FallingPanics`).
- The interrupt handler takes any interrupt without error, NAK or NYET for a completed transaction and never looks at the
  transfer-complete bit. The packet id is the parity of the completions reported (section 8.6 of USB 2.0) if and only if,
  until the transfer ends, it takes an interrupt that way exactly when it reports one (`InStepExactly`;
  `OutOfStepExactly` lists the four cases in cause bits). It breaks on an acknowledgement alone or a stray interrupt for an
  idle transfer (`SpuriousInterrupts`), on a completion next to a NAK (`CompletionWithNak`), and on a completion that comes
  in during the watchdog's recovery, after which the next transaction goes out under the old id (`LateCompletion`).
- A split interrupt transfer asked for less than a packet delivers too few bytes, because the leftover is counted against
  the wrong size (`DeliversEveryLength` gives the exact condition, `ShortSplitReportIsLost` a report that never arrives).
- A control transfer with packet size zero and data to move never ends (`EndsIffPacketsHoldData`).
- The status stage of a control transfer without data goes OUT after an IN request, where section 8.5.3 of USB 2.0 makes
  it IN; in every other case the direction conforms (`StatusDirection`, `InRequestWithoutData`).
- Tick counts converted to a duration and back lose one tick exactly when their nanoseconds are not whole (`RoundTrip`).
- `node_by_path(n.path())` finds `n` exactly when `n` and its ancestors are the first of their names among their siblings
  (`PathRoundTrip`).
- The comment table of the console says ESC followed by anything else returns to Normal; the code stays in Escape on a
  second ESC (src/drivers/display/fb_console.rs:38 and :338). The model follows the code.
- The public `add_task` creates a task it drops, so thread ids advance by two (src/kernel/sched.rs:179). The model does too.

## Model

| member | source | states |
|---|---|---|
| FrameAllocator.BitMapFrameAllocator.constructor | src/mm/frame_allocator.rs:41-90 | the managed frames are exactly the whole frames of the region; the bitmap takes the fewest that hold a bit for each, they are used, and every other one is free |
| FrameAllocator.InitBitmap | src/mm/frame_allocator.rs:60-82 | after the word loops bit n is set exactly for the frames that hold the bitmap |
| FrameAllocator.BitMapFrameAllocator.AllocFrame | src/mm/frame_allocator.rs:94-127 | returns the lowest free frame and takes it out of the free set; null exactly when no frame is free |
| FrameAllocator.BitMapFrameAllocator.DeallocFrame | src/mm/frame_allocator.rs:129-137 | returns exactly the frame a handed-out pointer lies in to the free set |
| FrameAllocator.BitMapFrameAllocator.FrameAligned | src/mm/frame_allocator.rs:46-55 | addresses handed out are multiples of the frame size |
| FrameAllocator.BitMapFrameAllocator.FramesDisjoint | src/mm/frame_allocator.rs:116-117 | no byte belongs to two frames |
| FrameAllocator.BitMapFrameAllocator.FrameInRegion | src/mm/frame_allocator.rs:111-117 | every frame lies inside the aligned region |
| Descriptors.TableDescriptorDecodes | src/arch/arm64/mm/mmu/table_desc.rs:15-24 | reading the next-level address out of a table descriptor gives the address that was put in |
| Descriptors.ConfiguredEntry | src/arch/arm64/mm/mmu/attr.rs:19-50 | the attribute setters leave the output address and the type tag of an entry alone |
| Descriptors.ExactEntry | src/arch/arm64/mm/mmu/attr.rs:19-50 | the value of a configured entry is its address plus exactly the attribute bits asked for |
| PageWalk.WalkUnaffected | src/arch/arm64/mm/mmu/mod.rs:127-176 | a write to one slot of an unshared table tree changes no walk that does not pass through that slot |
| PageWalk.AddTableKeepsTree | src/arch/arm64/mm/mmu/mod.rs:186-191 | linking a fresh zeroed table keeps the tables an unshared tree |
| PageWalk.AddTableKeepsWalks | src/arch/arm64/mm/mmu/mod.rs:186-191 | and changes no translation at all |
| PageWalk.SetLeafRedirects | src/arch/arm64/mm/mmu/mod.rs:172 | writing a last-level entry redirects exactly the addresses of its page |
| PageWalk.SamePage | src/arch/arm64/mm/mmu/mod.rs:199-213 | two addresses use the same four table slots exactly when they lie in the same page |
| PageWalk.BuiltTranslation | src/arch/arm64/mm/mmu/mod.rs:80-123 | the tables built at setup translate the linear or user window one to one and fault everywhere else |
| Mmu.LeafMeaning | src/arch/arm64/mm/mmu/mod.rs:137-161 | what a page entry translates to: the address cut to 48 bits, with the attributes of its region |
| Mmu.LeafMapsRequestedAddress | src/arch/arm64/mm/mmu/mod.rs:137-161 | the page maps to the requested address if and only if that is below 2^48 |
| Mmu.LeafAttributes | src/arch/arm64/mm/mmu/attr.rs:15-67 | by number: a heap page is cached (MAIR index 2), an I/O page device memory (index 0), both accessed, inner shareable and not executable |
| Mmu.RegionsByAddress | src/arch/arm64/mm/mmu/mod.rs:137-161 | the regions `map_page` tells apart, by address |
| Mmu.Mmu.AllocPage | src/mm/mod.rs:120-128 | a fresh frame named by its linear-window address, one free frame less; null exactly when none is free |
| Mmu.Mmu.DeallocPage | src/mm/mod.rs:131-133 | gives back a data frame without disturbing any table or translation |
| Mmu.Mmu.NewPageTable | src/arch/arm64/mm/mmu/page_table.rs:22-30 | a zeroed table in a frame of its own |
| Mmu.Mmu.SetDescriptor | src/arch/arm64/mm/mmu/page_table.rs:44-46 | one entry of one table changes |
| Mmu.Mmu.GetOrCreateNextLevelTable | src/arch/arm64/mm/mmu/mod.rs:179-197 | the next table of the tree, created if missing for exactly one frame, every translation kept; null exactly when it is missing and no frame is free; the unexpected-descriptor panic cannot be reached |
| Mmu.Mmu.LeafTable | src/arch/arm64/mm/mmu/mod.rs:163-171 | three levels built on demand lead to the last-level table of the address, at one frame for each table missing before; null exactly when fewer frames are free than tables missing |
| Mmu.Mmu.WriteLeaf | src/arch/arm64/mm/mmu/mod.rs:172 | the abstract map changes at one page |
| Mmu.Mmu.MapPage | src/arch/arm64/mm/mmu/mod.rs:127-176 | after any sequence of calls the four-level walk of every kernel address is the last entry mapped for its page; one call maps every byte of its page to the byte asked for with the attribute word of its region and changes no other translation; each panic exactly in its case, OutOfFrames exactly when fewer frames are free before the call than tables are missing, and exactly those frames taken |
| Mmu.Mmu.WindowsTranslate | src/arch/arm64/mm/mmu/mod.rs:80-123 | the linear window is cached and the user window device memory, one to one, as attribute words |
| Mmu.Mmu.PageReadable | src/mm/mod.rs:120-128 | the address a page is known by leads to its frame |
| Mmu.Mmu.SetupPageTables | src/arch/arm64/mm/mmu/mod.rs:80-123 | the initial address spaces: user identity window, linear window, nothing else; goes through exactly with six free frames |
| Mmu.Mmu.StoreWord | src/arch/arm64/mm/mmu/mod.rs:163-176 | a store to a mapped data page changes one word and no translation |
| Mmu.Mmu.MapIoRegion | src/mm/mod.rs:135-153 | every byte va + i reaches pa + i with device attributes; with three free frames a page before the call it goes through if and only if the region ends within 512 GiB (or is empty and aligned) |
| Mmu.IoPagesLeast | src/mm/mod.rs:139-150 | as many pages as the device reaches into |
| HeapSpace.Space.HeapTranslation | src/mm/heap_allocator.rs:80-88 | heap addresses translate to the frames taken for them, cacheable and not executable |
| HeapSpace.Space.Load | src/mm/heap_allocator.rs:128-129 | a read through the tables gives the word last stored there |
| HeapSpace.Space.Store | src/mm/heap_allocator.rs:74 | a write through the tables changes that virtual word and no other |
| HeapSpace.Space.AllocHeapPage | src/mm/heap_allocator.rs:80-88 | the heap grows by one page on a frame of its own and keeps every word it held, exactly when a frame and those for the missing tables are free and 512 GiB are not used up; otherwise no frame or the panic, each exactly in its case |
| HeapLists.ClassOfLayout | src/mm/heap_allocator.rs:99-104 | the size class is the least power of two from 16 up that fits size and alignment, and is served from a list exactly up to one page |
| HeapLists.ClassServes | src/mm/heap_allocator.rs:119-131 | a block of the chosen class is large and aligned enough |
| HeapLists.PagesServe | src/mm/heap_allocator.rs:107-117 | so are whole pages for anything larger |
| HeapLists.PagesLeast | src/mm/heap_allocator.rs:108 | and no page more than the size reaches into |
| HeapLists.PushInv | src/mm/heap_allocator.rs:164-167 | threading a block onto the list of its class keeps every list acyclic, in its class and apart from live blocks |
| HeapLists.PopInv | src/mm/heap_allocator.rs:128-129 | so does taking the first block off |
| HeapLists.RetireInv | src/mm/heap_allocator.rs:153-162 | so does joining the multi-page list |
| HeapLists.WriteInside | src/mm/heap_allocator.rs:90-132 | a write inside a live block is noticed by no list |
| HeapLists.LiveBlocksServe | src/mm/heap_allocator.rs:90-132 | live blocks are pairwise disjoint, aligned, large enough and inside the mapped heap |
| HeapLists.FreeBlocksApart | src/mm/heap_allocator.rs:134-168 | no free block overlaps a live one |
| Heap.Heap.constructor | src/mm/heap_allocator.rs:42-48 | the empty heap |
| Heap.Heap.Grow | src/mm/heap_allocator.rs:80-88 | one more page at its exact cost in frames, at most four; live blocks and their contents stay |
| Heap.Heap.PushBlock | src/mm/heap_allocator.rs:73-75 | the link goes into the block and the head to the block, through the page tables |
| Heap.Heap.RefillHead | src/mm/heap_allocator.rs:70-77 | the new page is cut completely into blocks of the class, all on its list; nothing else moves; fails exactly when the heap cannot grow |
| Heap.Heap.InitHeap | src/mm/heap_allocator.rs:55-67 | no list is empty afterwards and nothing is live; with 36 free frames and room for nine pages it succeeds |
| Heap.Heap.Alloc | src/mm/heap_allocator.rs:90-132 | hands out a block that was not live, the first of its list if there is one, moves no other block and changes no word of any live one, panics exactly on oversized alignment; with four free frames for each page needed it succeeds if and only if the list is stocked or the pages end within 512 GiB |
| Heap.Heap.AllocPages | src/mm/heap_allocator.rs:107-117 | consecutive pages at the end of the heap for a request above the largest class, at most four frames each |
| Heap.Heap.PopBlock | src/mm/heap_allocator.rs:128-131 | the head of the list goes to the caller, the list goes on with the link read from it |
| Heap.Heap.Dealloc | src/mm/heap_allocator.rs:134-168 | exactly that block stops being live and goes to the front of its list; every other block stays, and every word of every other live block |
| Heap.Heap.FreeThenAlloc | src/mm/heap_allocator.rs:128-167 | the next request of its class gets the block just freed |
| Heap.Heap.RetireBlock | src/mm/heap_allocator.rs:154-161 | page count and link are written into the block |
| Heap.Heap.ClientStore | src/mm/heap_allocator.rs:90-132 | the owner of a block may write all of it and the heap stays valid |
| Memory.CalcAvailableMem | src/mm/memory.rs:6-48 | the rounds over the slots end, and their result comes back sorted by falling size |
| Memory.OneRound | src/mm/memory.rs:18-34 | one round over the slots, nonzero entries counted before skipping |
| Memory.TrimRegion | src/mm/memory.rs:19-33 | one region against every reservation and the kernel |
| Memory.DiffParts | src/mm/memory.rs:50-83 | the two parts are disjoint and cover exactly the region minus the reservation |
| Memory.AvailableParts | src/mm/memory.rs:6-48 | always: pairwise disjoint parts of the memory given |
| MemoryExact.RoundCleans | src/mm/memory.rs:18-34 | one round leaves the slots it skips as they are and no reserved byte in any other, each inside what it was |
| MemoryExact.AvailableExactIff | src/mm/memory.rs:6-48 | the result is exactly memory minus reservations if and only if no round skips a slot with a reserved byte or drops a piece with a free one |
| MemoryExact.AvailableExact | src/mm/memory.rs:6-48 | which holds when no reservation splits a region, or entries come first, reservations are disjoint with an open side, and every piece finds a slot |
| MemoryExact.AvailableFits | src/mm/memory.rs:11-48 | at most 32 splits of regions by reservations never panic |
| MemoryExact.FallingPanics | src/mm/memory.rs:26-31 | reservations listed from the highest down, above the kernel, panic if and only if they and the kernel are more than 32 |
| MemoryExact.TouchingReservations | src/mm/memory.rs:6-48 | as for three reservations that touch inside one region |
| MemoryExact.SwallowedPieceShiftsTheSkip | src/mm/memory.rs:18 | arguments for which a reserved byte is handed out |
| StructureBlock.StructureBlockIter.Next | src/kernel/devicetree/fdt/fdt_structure_block.rs:118-237 | one step of the iterator, on any bytes |
| StructureBlock.StructureBlockIter.NextNonNopToken | src/kernel/devicetree/fdt/fdt_structure_block.rs:68-80 | stops at the first token that is no NOP |
| StructureBlock.StructureBlockIter.NextNonNopTokenWithoutProps | src/kernel/devicetree/fdt/fdt_structure_block.rs:82-104 | stops at the first token that is neither NOP nor property |
| StructureBlock.StructureBlockIter.CountNameWords | src/kernel/devicetree/fdt/fdt_structure_block.rs:134-152 | the word loop over a node name |
| StructureBlock.TokensByNumber | src/kernel/devicetree/fdt/fdt_structure_block.rs:118-237 | which tokens are skipped, end the iteration, or end it with an error, by number and context |
| StructureBlock.AlignLeast | src/kernel/devicetree/fdt/fdt_structure_block.rs:82-104 | values are padded to the next multiple of four |
| FdtFormat.WordsReads | src/kernel/devicetree/fdt/fdt_structure_block.rs:136-152 | the word loop ends at the padding exactly for names of at most 51 bytes |
| FdtFormat.StepDecodes | src/kernel/devicetree/fdt/fdt_structure_block.rs:118-237 | on a written block every step returns the next token, and a node points at its first property and first child |
| DeviceTree.FromFdt | src/kernel/devicetree/mod.rs:84-141 | the stack machine over the iterator, nodes and phandles |
| DeviceTree.ParseFollowsEvents | src/kernel/devicetree/mod.rs:91-138 | NOPs, padding and offsets make no difference to it |
| DeviceTree.RoundTrip | src/kernel/devicetree/mod.rs:73-141 | flattening a tree, NOPs anywhere, and reading it back gives the same names, property order, raw values, child order and phandles |
| DeviceTree.FromFdtAccepts | src/kernel/devicetree/mod.rs:73-141 | a tree and its phandles are returned if and only if the block writes exactly that tree and no name exceeds 51 bytes |
| DeviceTree.PhandleMapExact | src/kernel/devicetree/mod.rs:128-132 | the phandle map has exactly the phandles that occur, each leading to a node that carries it |
| DeviceTree.AcceptedPhandlesExact | src/kernel/devicetree/mod.rs:73-141 | so for every accepted block, whatever stands before or after the tree |
| FdtWriter.NodeWrites | src/kernel/devicetree/fdt/fdt_structure_block.rs:118-237 | every tree with real names and values that fit a word has a written form, given a strings block that covers its property names |
| FdtWriter.WriteThenRead | src/kernel/devicetree/mod.rs:73-141 | writing such a tree and reading it back returns it if and only if no node name exceeds 51 bytes |
| Utf8Text.Utf8Exactly | src/kernel/devicetree/fdt/fdt_structure_block.rs:133 | a name is accepted if and only if it is a sequence of UTF-8 encoded code points |
| PlainTrees.PlainTreesReadBack | src/kernel/devicetree/mod.rs:73-141 | every tree with ASCII names of at most 51 bytes comes back from its written form |
| PlainTrees.SmallBlobReads | src/kernel/devicetree/mod.rs:73-141 | one tree, byte for byte |
| PhandleOrder.LastPhandleWins | src/kernel/devicetree/mod.rs:128-132 | of several nodes with one phandle the last in depth-first order is found |
| FdtLookup.NodeIter.Next | src/kernel/devicetree/fdt/raw_node.rs:91-125 | the depth-counting iterator, one call |
| FdtLookup.PropIter.Next | src/kernel/devicetree/fdt/raw_prop.rs:216-268 | the property iterator, one call |
| FdtLookup.ChildIterExact | src/kernel/devicetree/fdt/mod.rs:138-143 | the child iterator yields exactly the direct children, in order |
| FdtLookup.PropIterExact | src/kernel/devicetree/fdt/mod.rs:131-136 | the property iterator yields exactly the properties, in order, if the node has any, and faults otherwise |
| DevicePaths.NodeByPath | src/kernel/devicetree/mod.rs:197-214 | resolution in the tree, segment by segment |
| DevicePaths.ResolvedExists | src/kernel/devicetree/mod.rs:197-214 | a path resolves only to a node of the tree |
| DevicePaths.ResolveExactly | src/kernel/devicetree/mod.rs:197-214 | a path leads to the place its segments spell through the first child of each name, and nowhere else |
| DevicePaths.SlashesCollapse | src/kernel/devicetree/mod.rs:201 | repeated and trailing slashes make no difference |
| DevicePaths.GetNodeByPath | src/kernel/devicetree/fdt/mod.rs:177-192 | resolution in the blob, segment by segment |
| DevicePaths.RootFound | src/kernel/devicetree/fdt/mod.rs:91-94 | the root search finds the root of the written tree |
| DevicePaths.FlatAndTreeAgree | src/kernel/devicetree/fdt/mod.rs:177-192 | both resolvers succeed on the same paths and reach the same node |
| DevicePaths.PathOf | src/kernel/devicetree/node.rs:82-106 | the path a node prints, built from the node up |
| DevicePaths.SplitJoin | src/kernel/devicetree/mod.rs:201 | splitting a printed path gives its names back |
| DevicePaths.PathRoundTrip | src/kernel/devicetree/node.rs:82-106 | looking up a node's path returns it if and only if it is first of its name at every level |
| DevicePaths.DistinctSiblings | src/kernel/devicetree/mod.rs:202-205 | which holds for every node when siblings have distinct names |
| DevicePaths.NodeWalk.Next | src/kernel/devicetree/node.rs:128-137 | the stack-based walk yields the next node in preorder |
| DevicePaths.WalkVisitsAllOnce | src/kernel/devicetree/node.rs:128-137 | preorder visits every node of the tree exactly once |
| FdtValues.StringListIter.Next | src/kernel/devicetree/fdt/raw_prop.rs:182-198 | the next string of a list |
| FdtValues.StringsRoundTrip | src/kernel/devicetree/fdt/raw_prop.rs:179-199 | a written string list reads back as its strings |
| FdtValues.BadStrings | src/kernel/devicetree/fdt/raw_prop.rs:182-198 | a string that is no UTF-8 is reported and skipped, one without NUL ends the list |
| FdtValues.CellsToUsize | src/kernel/devicetree/fdt/raw_prop.rs:83-87 | the shifting loop computes the big-endian number, cut to 64 bits when it has more than two cells |
| FdtValues.NumberOfCells | src/kernel/devicetree/fdt/raw_prop.rs:83-87 | cells are 32 bits, the first counts most |
| FdtValues.CellArray | src/kernel/devicetree/fdt/raw_prop.rs:76-91 | one number per chunk, and the assertions on the length |
| UsbInterrupt.AsyncInterruptState.ResetSplitPhase | src/drivers/usb/bcm2708_usb.rs:322-329 | a fresh split phase and no split retries |
| UsbInterrupt.AsyncInterruptState.MarkIdleUntilNextInterval | src/drivers/usb/bcm2708_usb.rs:331-335 | idle, fresh, and due one interval later |
| UsbInterrupt.DueAfterInterval | src/drivers/usb/bcm2708_usb.rs:331-339 | an idle transfer is due exactly when its interval has passed, counter wrap included |
| UsbInterrupt.Controller.StartInterruptLocked | src/drivers/usb/bcm2708_usb.rs:1334-1372 | arms the channel and unmasks it, or fails and leaves the channel as it was |
| UsbInterrupt.Controller.ServiceInterruptPolls | src/drivers/usb/bcm2708_usb.rs:1374-1420 | the poller's locked step: start, wait, or watchdog |
| UsbInterrupt.Controller.RecoverWedgedInterruptChannel | src/drivers/usb/bcm2708_usb.rs:1427-1443 | the end of a recovery: idle and due |
| UsbInterrupt.Controller.StopInterruptWithError | src/drivers/usb/bcm2708_usb.rs:1445-1457 | masked, and no transfer any more |
| UsbInterrupt.Controller.HandlePortInterrupt | src/drivers/usb/bcm2708_usb.rs:1459-1466 | tears down exactly on disconnection |
| UsbInterrupt.Controller.HandleInterruptChannelIrq | src/drivers/usb/bcm2708_usb.rs:1468-1568 | the interrupt handler, for any cause bits |
| UsbInterrupt.Controller.HandleErrorIrq | src/drivers/usb/bcm2708_usb.rs:1490-1513 | its error branch |
| UsbInterrupt.Controller.HandleGoodIrq | src/drivers/usb/bcm2708_usb.rs:1515-1567 | its split, retry and data branches |
| UsbInterrupt.Controller.SubmitInterruptIn | src/drivers/usb/bcm2708_usb.rs:2190-2203 | accepted exactly when valid, startable and nothing is in progress |
| UsbInterrupt.Controller.CancelInterruptIn | src/drivers/usb/bcm2708_usb.rs:2205-2218 | stops the matching transfer and no other |
| UsbInterrupt.RunKeepsInv | src/drivers/usb/bcm2708_usb.rs:1334-1568 | over every run: unmasked exactly in flight, idle means fresh, packet id is the parity of the interrupts handled as data, no data from a start split, retries bounded |
| UsbInterrupt.TogglesExactly | src/drivers/usb/bcm2708_usb.rs:1515-1558 | the packet id changes at the interrupts that reach the data branch and at no other step |
| UsbInterrupt.InStepExactly | src/drivers/usb/bcm2708_usb.rs:1468-1568 | at every point of a run the packet id is the parity of the completions reported if and only if, while the transfer goes on, the handler takes an interrupt for a completion exactly when it reports one (section 8.6 of USB 2.0) |
| UsbInterrupt.OutOfStepExactly | src/drivers/usb/bcm2708_usb.rs:1468-1558 | the phases and cause bits for which it does not |
| UsbInterrupt.CompletionWithNak | src/drivers/usb/bcm2708_usb.rs:1517-1541 | a completion next to a NAK: nothing delivered, packet id unchanged, out of step |
| UsbInterrupt.LateCompletion | src/drivers/usb/bcm2708_usb.rs:1482-1484 | a completion during a recovery is dropped, and the next poll sends the old packet id |
| UsbInterrupt.SpuriousInterrupts | src/drivers/usb/bcm2708_usb.rs:1356-1366 | two interrupts the mask lets through that break it and deliver a full packet |
| UsbInterrupt.RecoveryUndisturbed | src/drivers/usb/bcm2708_usb.rs:1382-1384 | pollers and the channel interrupt leave a recovering transfer alone |
| UsbInterrupt.EndsExactly | src/drivers/usb/bcm2708_usb.rs:1445-1513 | the exact cases in which a step ends a transfer |
| UsbInterrupt.NinthErrorEnds | src/drivers/usb/bcm2708_usb.rs:1497-1513 | through any polls and recoveries, eight transient errors in a row are survived and the ninth ends the transfer |
| UsbInterrupt.WatchdogRearms | src/drivers/usb/bcm2708_usb.rs:1385-1443 | after a lost interrupt the transfer is back in flight with the packet id it had, which is stale if the lost interrupt was a completion |
| UsbInterrupt.IrqSpendsBudget | src/drivers/usb/bcm2708_usb.rs:1515-1548 | a transaction is over after at most six channel interrupts |
| UsbProgress.CauseBits | src/drivers/usb/bcm2708_usb.rs:162-178 | errors, transient errors and clean interrupts by their bits |
| UsbProgress.SplitRoutes | src/drivers/usb/core.rs:201-206 | which devices are reached by split transactions |
| UsbProgress.SubmissionFlies | src/drivers/usb/bcm2708_usb.rs:2190-2203 | a valid submission goes on the bus at once, under DATA0; any other changes nothing |
| UsbProgress.PollsByTheClock | src/drivers/usb/bcm2708_usb.rs:1374-1420 | a poll starts from the due time on, recovers from the timeout on, and changes nothing before |
| UsbProgress.CancelsItsOwn | src/drivers/usb/bcm2708_usb.rs:2205-2218 | a cancellation ends the transfer of its device and endpoint, and no other |
| UsbProgress.ErrorsThatEnd | src/drivers/usb/bcm2708_usb.rs:1490-1513 | the error bits that end a transfer, and those that do not |
| UsbProgress.TransientRests | src/drivers/usb/bcm2708_usb.rs:1497-1508 | a transient error waits an interval and keeps the packet id |
| UsbProgress.StartSplitGoesOn | src/drivers/usb/bcm2708_usb.rs:1539-1548 | an acknowledged start split goes on to its complete split |
| UsbProgress.NyetAsksAgain | src/drivers/usb/bcm2708_usb.rs:1517-1533 | a complete split is asked again four times, then the interval is given up |
| UsbProgress.NakRests | src/drivers/usb/bcm2708_usb.rs:1533-1537 | a NAK gives the interval up |
| UsbProgress.DataDelivers | src/drivers/usb/bcm2708_usb.rs:1550-1567 | a completed transaction hands over what arrived, toggles the packet id and waits an interval |
| UsbProgress.SplitReportArrives | src/drivers/usb/bcm2708_usb.rs:1539-1567 | start split acknowledged, complete split answered: the report is delivered from the complete phase, with one toggle |
| UsbInterrupt.DeliveredLength | src/drivers/usb/bcm2708_usb.rs:1550-1555 | the handler gets the bytes sent, up to those asked for, if and only if the condition holds |
| UsbInterrupt.DeliversEveryLength | src/drivers/usb/bcm2708_usb.rs:1550-1555 | whatever the device sends, if and only if the transfer is not split or asks for a whole packet |
| UsbInterrupt.ShortSplitReportIsLost | src/drivers/usb/bcm2708_usb.rs:1550-1555 | a report that never reaches its handler |
| UsbInterrupt.EarlyResubmissionBreaks | src/drivers/usb/bcm2708_usb.rs:1438-1442 | why a submission must wait for a recovery to end |
| UsbControl.Control.ControlTransfer | src/drivers/usb/bcm2708_usb.rs:2088-2188 | the setup packet, the data stage, an empty DATA1 status against the direction of the request; the outcome is decided by the three answers and the length alone; output is what was moved |
| UsbControl.StatusDirection | src/drivers/usb/bcm2708_usb.rs:2163-2167 | the status stage goes as section 8.5.3 of USB 2.0 asks if and only if there are data to move or the request goes out |
| UsbControl.InRequestWithoutData | src/drivers/usb/bcm2708_usb.rs:2163-2167 | a transfer whose status stage goes the wrong way |
| UsbControl.Control.RunDataStage | src/drivers/usb/bcm2708_usb.rs:2132-2162 | the data loop, chunk by chunk in the buffer |
| UsbControl.DataStageWellFormed | src/drivers/usb/bcm2708_usb.rs:2139-2161 | contiguous chunks, packet ids alternating from DATA1, only the last may be short |
| UsbControl.DataStageComplete | src/drivers/usb/bcm2708_usb.rs:2157-2160 | over if and only if all is moved or a packet was short |
| UsbControl.InMovesAnswers | src/drivers/usb/bcm2708_usb.rs:2139-2161 | what comes in is what the device answers, up to what was asked; a stage fails only at a failed transaction |
| UsbControl.EndsIffPacketsHoldData | src/drivers/usb/bcm2708_usb.rs:2139-2161 | the loop is bounded if and only if packets hold data or there is none to move |
| UsbControl.OutIsPrefix | src/drivers/usb/bcm2708_usb.rs:2139-2161 | what goes out is a prefix of the request |
| UsbKeyboard.KeyboardState.ServiceRepeat | src/drivers/usb/bcm2708_usb.rs:418-448 | one call of the auto-repeat service |
| UsbKeyboard.AtMost245 | src/drivers/usb/bcm2708_usb.rs:418-448 | at most 245 bytes after the anchor, whatever the times of the calls |
| UsbKeyboard.Reaches245 | src/drivers/usb/bcm2708_usb.rs:442-447 | and a run that reaches 245 |
| UsbKeyboard.FuseBlows | src/drivers/usb/bcm2708_usb.rs:437-440 | past the fuse repeat is off and stays off |
| UsbKeyboard.EmitsExactly | src/drivers/usb/bcm2708_usb.rs:437-447 | a call emits exactly when delay and interval are over and the fuse is not |
| UsbKeyboard.EmitsByTheClock | src/drivers/usb/bcm2708_usb.rs:437-447 | in nanoseconds: 200 ms delay, 40 ms interval, off at 10 s |
| UsbKeyboard.AnchoredAnew | src/drivers/usb/bcm2708_usb.rs:419-431 | a changed key is anchored now and emits nothing |
| UsbDescriptors.DescriptorIter.Next | src/drivers/usb/core.rs:533-549 | the next descriptor |
| UsbDescriptors.DescriptorsTile | src/drivers/usb/core.rs:530-550 | whole descriptors without a gap, up to the first place where none is whole |
| UsbDescriptors.DescriptorsRoundTrip | src/drivers/usb/core.rs:530-550 | concatenated descriptors come back as they were |
| Drawing.DrawingContext.FillRect | src/drivers/display/drawing.rs:61-88 | exactly the visible part of the rectangle takes the color |
| Drawing.DrawingContext.CopyRegion | src/drivers/display/drawing.rs:99-146 | the overlapping forward copy is a simultaneous shift when the destination does not come later; nothing else changes |
| Drawing.DrawingContext.DrawGlyph | src/drivers/display/drawing.rs:156-188 | exactly the visible part of the glyph's bits |
| Drawing.OffsetsDiffer | src/drivers/display/drawing.rs:80 | different pixels have different offsets |
| Drawing.GlyphBits | src/drivers/display/drawing.rs:178-181 | bit 7 of a glyph row is the left-most pixel |
| Console.FbConsole.constructor | src/drivers/display/fb_console.rs:199-227 | a cleared screen is the picture of the blank grid |
| Console.FbConsole.CellOnScreen | src/drivers/display/fb_console.rs:356-366 | eight by sixteen pixels a cell, white on black |
| Console.TextByNumber | src/drivers/display/fb_console.rs:356-387 | what every byte of text does, by number |
| Console.FbConsole.Scroll | src/drivers/display/fb_console.rs:284-293 | the pixels become the picture of the grid one row up |
| Console.FbConsole.NewlineHere | src/drivers/display/fb_console.rs:297-303 | next row, or scroll |
| Console.FbConsole.WriteText | src/drivers/display/fb_console.rs:356-387 | a byte outside escape sequences |
| Console.FbConsole.Write | src/drivers/display/fb_console.rs:327-393 | after every byte sequence the pixels are the picture of the grid, background elsewhere, cursor inside |
| Console.WriteInParts | src/drivers/display/fb_console.rs:327-393 | writing in two calls is writing at once, even inside an escape sequence |
| Console.EscapesLeaveNoTrace | src/drivers/display/fb_console.rs:334-357 | the screen is that of the text without its escape sequences |
| EscapeGrammar.StrippedIsText | src/drivers/display/fb_console.rs:334-357 | any bytes are text, whole escape sequences and at most one unfinished one at the end, by a grammar of their own; exactly the text is left |
| EscapeGrammar.ItemsStrip | src/drivers/display/fb_console.rs:334-357 | whatever is written as text and whole sequences strips to that text and ends in Normal |
| EscapeGrammar.SequenceVanishes | src/drivers/display/fb_console.rs:334-357 | a sequence in the middle of any text vanishes |
| EscapeGrammar.UsualSequences | src/drivers/display/fb_console.rs:334-357 | color, title and reset sequences, byte for byte |
| EscapeGrammar.PlainTextStays | src/drivers/display/fb_console.rs:353-357 | bytes without ESC are all text |
| Console.WindowOnPage | src/drivers/display/fb_console.rs:230-303 | scrolling shows the last rows of an endless page |
| Console.ConsoleShowsText | src/drivers/display/fb_console.rs:199-393 | from a cleared console: the end of the stripped text, laid out |
| Scheduler.RoundRobin.Schedule | src/kernel/sched.rs:122-155 | the switch, in place |
| Scheduler.RoundRobin.ExitCurrent | src/kernel/sched.rs:115-120 | the current task terminates and another runs |
| Scheduler.RoundRobin.AddTask | src/kernel/sched.rs:110-113 | a new task at the end of the new queue |
| Scheduler.RoundRobin.PrepareNewTasks | src/kernel/sched.rs:158-165 | the new queue drains into the ready queue, in order |
| Scheduler.RunKeepsInv | src/kernel/sched.rs:102-166 | over every run each task is in exactly one place with the state of that place, idle in no queue, none lost |
| Scheduler.AddedBeforeStart | src/kernel/sched.rs:102-113 | which holds from the start |
| Scheduler.OneRunning | src/kernel/sched.rs:149-152 | exactly one task is Running |
| Scheduler.TerminatedForGood | src/kernel/sched.rs:115-120 | a terminated task never runs again |
| Scheduler.SwitchesToAnother | src/kernel/sched.rs:129-154 | no switch goes from a task to itself |
| Scheduler.IdleOnlyWhenNothingReady | src/kernel/sched.rs:129-137 | when exactly the idle task runs |
| Scheduler.WaitsExactly | src/kernel/sched.rs:122-155 | position k of the ready queue runs on exactly the (k+1)-th call |
| Scheduler.YieldRotates | src/kernel/sched.rs:122-155 | a task that yields goes behind all that wait, and the first of those runs |
| Scheduler.YieldAlone | src/kernel/sched.rs:129-137 | alone it goes on; the idle task steps aside without waiting |
| Scheduler.ExitLeaves | src/kernel/sched.rs:115-120 | a task that exits waits no more, and the first in line or idle runs |
| Scheduler.AddedInOrder | src/kernel/sched.rs:110-113 | tasks get ready in the order they were added |
| Scheduler.NewTaskWaits | src/kernel/sched.rs:158-165 | and how long a new task waits |
| DriverInit.InitPlatformDrivers | src/drivers/mod.rs:244-270 | the loop ends, each node at most once, each after what it needs; what is left says Retry or was given up; exactly the least fixed point when Retry means a missing device |
| DriverInit.OnePass | src/drivers/mod.rs:248-269 | one pass of retain |
| DriverInit.FixedPointUnique | src/drivers/mod.rs:244-270 | there is one least fixed point, whatever the order of the nodes |
| DriverInit.OrderDoesNotMatter | src/drivers/mod.rs:244-270 | two orders bring up the same devices |
| DriverInit.MatchDriver | src/drivers/mod.rs:273-294 | the first name in the list that any driver knows decides |
| OnceLock.StepKeepsInv | src/kernel/sync/once_lock.rs:29-70 | every access keeps the protocol, and a published value stays |
| OnceLock.Linearizable | src/kernel/sync/once_lock.rs:29-70 | under any interleaving of any threads the returns are those of a cell written once |
| OnceLock.LogSaysWriteOnce | src/kernel/sync/once_lock.rs:29-70 | at most one success, every value read is its value, failures only after it |
| OnceLock.LoneSetReturns | src/kernel/sync/once_lock.rs:40-70 | let run alone, `set` succeeds on an empty cell and fails on a full one |
| OnceLock.HolderPublishes | src/kernel/sync/once_lock.rs:56-62 | whoever has won the cell publishes its value in two steps |
| OnceLock.LoneGetReturns | src/kernel/sync/once_lock.rs:29-35 | `get` gives the value once there is one, and nothing before |
| Ticks.RoundTrip | src/kernel/time.rs:26-42 | ticks to duration to ticks loses at most one tick, and exactly when |
| Ticks.LossBound | src/kernel/time.rs:26-42 | duration to ticks to duration loses less than a tick and a nanosecond |
| Ticks.NanosFit | src/kernel/time.rs:37-42 | the nanosecond field stays below a second |
| Ticks.TicksMonotone | src/kernel/time.rs:37-42 | later ticks, later durations |
| Ticks.DurationMonotone | src/kernel/time.rs:26-34 | longer durations, more ticks |
| Ticks.ResolutionBound | src/kernel/time.rs:20-23 | the resolution is one tick, to the nanosecond below |

## Left out

- Heap.Heap.Alloc: the source does not test for null frames when it grows; where no frame is left the model stops with OutOfMemory and says nothing of what the code would do to physical address zero. The exact cost in frames is stated for one page, for a whole request only its bounds.
- HeapSpace.Space.AllocHeapPage: the panic past 512 GiB is an outcome; nothing is said of the kernel after it.
- Heap.Heap.AllocPages: freed multi-page blocks are never reused, as in the source, so they stay on their list for ever.
- Mmu.Mmu.MapPage: table memory running out ends in OutOfFrames; the source writes through the null page there.
- FrameAllocator.BitMapFrameAllocator.DeallocFrame: returning a frame that is not live is the caller's error in the source and excluded here; the bitmap is an array of its own, not the first frames of the region.
- Drawing.DrawingContext.CopyRegion: what a forward copy to a later, overlapping destination leaves behind is not described; nothing in the source does that.
- Console.FbConsole.Scroll: the DMA path, its fallbacks and statistics; the picture is claimed for the software path.
- Console.FbConsole.constructor: a framebuffer smaller than one character cell, where the source's row and column arithmetic underflows, is excluded.
- MemoryExact.AvailableExactIff: addresses and sizes are taken to add up within 64 bits, and the memory regions not to overlap.
- MemoryExact.AvailableExact: a condition on the arguments that is sufficient only; the exact one is `AvailableExactIff`'s, on the rounds.
- DevicePaths.NodeByPath: only paths that start with '/'; alias names are not looked up.
- DevicePaths.GetNodeByPath: the same.
- DevicePaths.FlatAndTreeAgree: aliases, which the flat form accepts at any depth and the tree only below the root; names without '/' are therefore not looked up.
- DeviceTree.FromFdt: the typed conversion of property values and its panics (prop.rs, std_prop.rs, interrupts.rs); values stay raw bytes. The header and the reservation block are not read.
- FdtValues.CellArray: pairs and triplets of numbers, which repeat the same loop, and the address translation through `ranges`.
- UsbInterrupt.RunKeepsInv: interrupt handling is one atomic step, as on one core with interrupts masked; a submission while a recovery is in progress is excluded, and shown to break the protocol.
- UsbInterrupt.InStepExactly: completions are those an interrupt reports while the transaction is in flight or its channel is being recovered; one the device saw and no interrupt ever reports is not counted.
- UsbProgress.SubmissionFlies: the polling interval of an endpoint (`interrupt_interval_ticks`) is a parameter.
- UsbControl.Control.ControlTransfer: the retries inside one transaction; a transaction is an answer with at most the bytes asked for.
- UsbKeyboard.KeyboardState.ServiceRepeat: reports, key translation and the input queue's capacity.
- Scheduler.RoundRobin.Schedule: register contexts and stacks; a switch changes the current task. The idle task never exits.
- DriverInit.InitPlatformDrivers: what drivers do; their outcome is a function of the node and the registered devices.
- OnceLock.Linearizable: weak memory effects; atomics are sequentially consistent.
- Hub enumeration, boot assembly, cache and TLB maintenance, register access, delays and busy-wait loops, logging, shell and terminal, firmware, clock, watchdog, random numbers and serial drivers.
