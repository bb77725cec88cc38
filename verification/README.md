# Kernel memory management, devicetree and trap protocol in Dafny

This project models three parts of a RISC-V (Sv39) kernel and its devicetree library and proves
what their comments promise.

**Memory management** (`Memory`, `BootAllocator`, `Sv39`, `Hart`, `PageTable`, `FrameUse`, `Fixmap`,
`Gigapage`, `FrameAccess`, `KernelPaging`, `Heap`, `UserPage`, `System`, `LowerHalf`, `HeapSupply`,
`RuntimeMapping`, `Loader`, `Isolation`, `KernelSpace`, `KernelLayout`, `HeapSlot`, `KernelStart`,
`Bootstrap`, `Lifetime`). Physical memory is a
map from frame numbers to 512 words. `Sv39.Walk` is the translation algorithm of sections 4.3.2 and
4.4 of the RISC-V Privileged Architecture, version 20211203, written without reference to the
kernel, with leaves at every level; everything the kernel does to its tables is judged by it. The
fence for one address drops what is cached from the entry that maps it, as section 4.2.1 has it.
Page-table construction is defined on plain memory values (`PageTable`, `KernelSpace`). The class
`FrameAccess` carries it out one load, store and fence at a time, through the kernel's one-page
window or the bootstrap root's 1 GiB leaf, on a `Hart` whose TLB may cache any present or absent
translation at any moment; each method is proved to have exactly the effect of the plain function.
`System` closes this under arbitrary runs, image loading and stores through mapped pages included;
`Lifetime.BootToProcess` ties the boot allocator's free frames, `into_kernel`, any kernel activity
and the first process together, and `Isolation` says what user code can change from then on.

**Devicetree** (`FdtReader`, `FdtItems`, `FdtTree`, `FdtStructure`, `FdtViews`, `FdtEncoder`,
`FdtSemantics`, `FdtRanges`, `FdtPrinting`, `FdtGrammar`, `FdtMeaning`, `FdtHeader`, `FdtBlob`,
`BootMemory`). A block is related to an abstract tree in two
independent ways: `Encodes` says which bytes stand for a tree (sections 5.4 to 5.6 of the Devicetree
Specification v0.4, any no-ops, any padding contents), and a one-pass machine over items builds the
tree. The validator, with its two re-scans of the accepted prefix, is proved to accept exactly the
encodings of well-formed trees. The iterators, lookups, semantic checks and flattened ranges are
specified by functions of that tree; every "validated" read takes an `Option` proved to be there.
`FdtPrinting`, `FdtGrammar` and `FdtMeaning` say the same the other way round, in terms of a writer:
which bytes stand for cell counts, address and size pairs, names and items, and which trees mean
something; `FdtHeader` and `FdtBlob` do so for the header's words and the reservation entries.
`BootMemory` connects the bytes of a blob to the frames the allocator hands out.

**Traps** (`Trap`). The entry and restore code as steps of a machine over registers, `sscratch` and
stack memory, with an invariant over arbitrary interleavings of user traps, nested supervisor traps
and returns.

Conventions. Functions on plain values carry the meaning, classes carry the source's updates in
place, and a method's contract ties its new state to the function. Every lemma carries
`{:induction false}`, so each induction is written out; `hide` statements only keep the verifier
from unfolding definitions. The safety sections of the source are the preconditions: frames the
allocator owes are RAM, only the owner touches a frame, supervisor code stays below the open trap
frames, the bootstrap root holds nothing but 1 GiB leaves, one of which maps the root itself.

One thing the model brings out: while a window is open its own entry is not zero. A table read that
goes to that entry through the window sees the window's leaf, a write to it is undone by the close,
and a mapping of the window's page always finds it occupied. `FrameAccess` states these cases
exactly; every caller in the source refuses the page beforehand.

## Model

| member | source | states |
|---|---|---|
| `Memory.FromStartSize` | kernel/src/memory.rs:237-247 | a range exists exactly when it is non-empty and its end fits in 64 bits |
| `Memory.AlignUp` | kernel/src/memory/frame.rs:141-158 | the next frame boundary, or nothing exactly when that boundary needs 65 bits |
| `Memory.AlignDown` | kernel/src/memory/frame.rs:162-166 | the frame boundary at or below the address |
| `Memory.OverlapsExactly` | kernel/src/memory.rs:263-270 | non-empty ranges overlap exactly when they share an address |
| `BootAllocator.FreeFramesExact` | kernel/src/memory/frame/boot_allocator.rs:211-303 | the reference sequence holds exactly the complete frames inside a RAM range that touch no reservation |
| `BootAllocator.FreeFramesDistinct` | kernel/src/memory/frame/boot_allocator.rs:111-138 | over disjoint ranges no frame comes twice |
| `BootAllocator.FramesBetweenAscending` | kernel/src/memory/frame/boot_allocator.rs:283-292 | the frames of one range come in ascending order |
| `BootAllocator.SkipReservation` | kernel/src/memory/frame/boot_allocator.rs:247-281 | jumping to the aligned end of an overlapping reservation loses no free frame |
| `BootAllocator.JumpOwesTheSame` | kernel/src/memory/frame/boot_allocator.rs:247-281 | the owed frames are unchanged by the jump, also when the reservation's end cannot be aligned and the range is dropped |
| `BootAllocator.IssueOwesTheRest` | kernel/src/memory/frame/boot_allocator.rs:283-302 | issuing the candidate owes exactly the rest of the sequence |
| `BootAllocator.ValidateMemoryRanges` | kernel/src/memory/frame/boot_allocator.rs:120-138 | accepts exactly pairwise disjoint ranges |
| `BootAllocator.BootFrameAllocator.constructor` | kernel/src/memory/frame/boot_allocator.rs:172-209 | a new allocator owes exactly the reference sequence |
| `BootAllocator.BootFrameAllocator.OverlappingReservation` | kernel/src/memory/frame/boot_allocator.rs:364-394 | finds an overlapping reservation among kernel, blob, entries and reserved ranges exactly when there is one |
| `BootAllocator.BootFrameAllocator.AdvanceMemoryRange` | kernel/src/memory/frame/boot_allocator.rs:313-354 | moves to the next range with a complete frame and owes the same frames |
| `BootAllocator.BootFrameAllocator.Allocate` | kernel/src/memory/frame/boot_allocator.rs:230-303 | returns the head of the owed sequence and nothing exactly when it is empty; terminates |
| `BootMemory.CollectMemory` | kernel/src/memory/frame/boot_allocator.rs:101-109 | every memory range of an accepted tree converts without a panic, in order |
| `BootMemory.CollectReserved` | kernel/src/memory/frame/boot_allocator.rs:385-391 | every reserved range of an accepted tree converts without a panic, in order |
| `BootMemory.AllocatorClaim.Claim` | kernel/src/memory/frame/boot_allocator.rs:172-209 | overlapping memory ranges are refused first, a second claim next; the one allocator granted owes exactly the free frames of the tree |
| `BootMemory.OwedFrames` | kernel/src/memory/frame/boot_allocator.rs:356-394 | a frame is owed exactly when it lies inside a memory range of the tree and touches neither kernel, blob, reservation entry nor reserved range; none twice |
| `Sv39.PageAddressRoundTrip` | kernel/src/arch/riscv64/paging.rs:581-587 | canonical page addresses and page numbers correspond one to one |
| `Sv39.IndicesDeterminePage` | kernel/src/arch/riscv64/paging.rs:603-605 | a page is determined by its three table indices |
| `Sv39.AddressIndices` | kernel/src/arch/riscv64/paging.rs:603-605 | the shift-and-mask fields of an address are the walk's indices of its page |
| `PageTable.PageTableEntry` | kernel/src/arch/riscv64/paging.rs:797-807 | an entry exists exactly for 44-bit frame numbers and decodes to frame and flags |
| `PageTable.EncodedLink` | kernel/src/arch/riscv64/paging.rs:815-829 | a link entry decodes to the very frame it was made from and is no leaf |
| `PageTable.EncodedLeaf` | kernel/src/arch/riscv64/paging.rs:589-601 | a leaf entry is a leaf of the walk, with its frame and flags |
| `PageTable.LeafGrants` | kernel/src/arch/riscv64/paging.rs:633-640 | what each permission grants: never both write and execute, dirty exactly when writable, user exactly when asked |
| `PageTable.LinkKeepsTree` | kernel/src/arch/riscv64/paging/access.rs:140-143 | linking a fresh zeroed table keeps the tree: every table linked exactly once |
| `PageTable.SlotsAreDistinct` | kernel/src/arch/riscv64/paging.rs:603-610 | two pages never share a level-0 slot |
| `PageTable.LeafKeepsOthers` | kernel/src/arch/riscv64/paging.rs:619-619 | writing a leaf slot changes no other page's translation |
| `PageTable.NextTableCorrect` | kernel/src/arch/riscv64/paging/access.rs:128-153 | keeps tree and translations whether or not it succeeds; on success the parent's entry links the returned table |
| `PageTable.WriteLeafCorrect` | kernel/src/arch/riscv64/paging.rs:610-619 | an occupied slot is never replaced; an empty one gets the leaf and only its page changes |
| `PageTable.DescendCorrect` | kernel/src/arch/riscv64/paging.rs:607-608 | walking down changes no translation, even when it fails half way |
| `PageTable.MapPageCorrect` | kernel/src/arch/riscv64/paging.rs:570-631 | on success exactly the requested page changes, from unmapped to the frame with its permissions and privilege; on any error no translation changes; the result is again a tree |
| `PageTable.MapPageSucceedsExactly` | kernel/src/arch/riscv64/paging.rs:570-631 | succeeds exactly on aligned canonical addresses, representable frames and untranslated pages when the missing tables can be allocated |
| `PageTable.MapPageErrors` | kernel/src/arch/riscv64/paging.rs:570-631 | which error a refused mapping reports: unaligned, not canonical, not representable in this order, then the first frame missing for a table, then an occupied page |
| `PageTable.EntryBits` | kernel/src/arch/riscv64/paging.rs:589-601 | the very bits of every leaf and link: frame number from bit 10, valid, accessed, the permissions, dirty when writable, user when asked |
| `Fixmap.FrameSlotAddress` | kernel/src/arch/riscv64/paging/kernel.rs:185-186 | `frame_slot` is the window's entry of the level-0 table seen through the control page |
| `Fixmap.ControlWalk` | kernel/src/arch/riscv64/paging/kernel.rs:530-567 | the control page translates read/write to the very table that governs control and window page |
| `Fixmap.WindowOpens` | kernel/src/arch/riscv64/paging/kernel.rs:394-433 | opening the window on any frame, even the fixmap table, makes it translate to exactly that frame and keeps the arrangement |
| `Fixmap.WindowIsPrivate` | kernel/src/arch/riscv64/paging/kernel.rs:413-440 | the window entry matters to no page but the window |
| `Hart.Hart.constructor` | kernel/src/arch/riscv64/paging.rs:863-889 | after the switch of roots everything cached is what the new tables say |
| `Hart.Hart.LoadWord` | kernel/src/arch/riscv64/paging.rs:906-936 | a load through a translation that may be cached; it reads the walked frame when the page is not stale |
| `Hart.Hart.StoreWord` | kernel/src/arch/riscv64/paging.rs:938-962 | a store; only translations that it changes itself can go stale |
| `Hart.Hart.FlushAddress` | kernel/src/arch/riscv64/paging.rs:832-842 | whatever stays cached was read since, or belongs to a mapping that does not contain the address: a superpage is dropped as a whole |
| `Hart.Hart.FlushAll` | kernel/src/arch/riscv64/paging.rs:845-851 | no stale translation is left |
| `Gigapage.RegionLeaf` | kernel/src/arch/riscv64/paging.rs:346-351 | a 1 GiB leaf translates each page below it linearly |
| `Gigapage.EntryFenced` | kernel/src/arch/riscv64/paging.rs:393-415 | in a root of leaves, replacing one entry and fencing one address below it leaves nothing cached out of date |
| `FrameAccess.WindowCycle` | kernel/src/arch/riscv64/paging/kernel.rs:394-450 | open, use and close of the kernel's window leave no new stale translation |
| `FrameAccess.SlotShows` | kernel/src/arch/riscv64/paging/access.rs:16-24 | with either window open on any frame, even the slot's own table, its page translates read/write to exactly that frame |
| `FrameAccess.CurrentFenced` | kernel/src/arch/riscv64/paging.rs:393-415 | after a slot write and the fence the control page is not stale, and of the bootstrap root nothing is |
| `FrameAccess.CycleKeeps` | kernel/src/arch/riscv64/paging/access.rs:20-24 | a whole cycle of either window leaves no new stale translation if its use changes none |
| `FrameAccess.FrameAccess.OpenWindow` | kernel/src/arch/riscv64/paging/kernel.rs:394-423 | refuses occupied slots and unrepresentable frames in each window's own order; otherwise the window shows the frame and is not stale |
| `FrameAccess.FrameAccess.CloseWindow` | kernel/src/arch/riscv64/paging.rs:408-417 | the slot is zero again; of the bootstrap root nothing at all stays stale, of the kernel's window not its page |
| `FrameAccess.FrameAccess.ReadTableEntry` | kernel/src/arch/riscv64/paging/access.rs:63-74 | memory ends as it was, and the entry is the plain one exactly unless it is the slot itself, which shows the open window's entry |
| `FrameAccess.FrameAccess.WriteTableEntry` | kernel/src/arch/riscv64/paging/access.rs:81-93 | amounts to the plain store of one entry; a store into the slot is undone by the close |
| `FrameAccess.FrameAccess.FillFrame` | kernel/src/arch/riscv64/paging/access.rs:45-56 | amounts to replacing the frame's contents; no new stale translation |
| `FrameAccess.FrameAccess.ZeroedTable` | kernel/src/arch/riscv64/paging/access.rs:100-117 | has exactly the effect of the plain table allocation |
| `FrameAccess.FrameAccess.FollowOrLink` | kernel/src/arch/riscv64/paging/access.rs:128-153 | has exactly the effect of the plain `NextTable` and keeps the tree |
| `FrameAccess.FrameAccess.MapOnePage` | kernel/src/arch/riscv64/paging.rs:570-631 | has exactly the effect of the plain `MapPage` and keeps the tree; only the window's own page always looks occupied |
| `KernelPaging.KernelPaging.constructor` | kernel/src/arch/riscv64/paging.rs:863-889 | the new space starts with nothing cached wrongly and the heap unclaimed |
| `KernelPaging.KernelPaging.Install` | kernel/src/arch/riscv64/paging/kernel.rs:343-374 | refuses lower-half and window addresses; nothing cached is stale afterwards, also after partial failure |
| `KernelPaging.KernelPaging.MapKernel` | kernel/src/arch/riscv64/paging/kernel.rs:318-333 | additionally refuses the claimed heap range; nothing stale afterwards |
| `KernelPaging.KernelPaging.MapUser` | kernel/src/arch/riscv64/paging/kernel.rs:216-239 | refuses the null page and the upper half; nothing stale afterwards |
| `KernelPaging.KernelPaging.BackHeap` | kernel/src/arch/riscv64/paging/kernel.rs:482-501 | a fresh zeroed frame at one page of the claimed heap, or an error without that leaf; nothing stale afterwards |
| `Heap.PlaceBlockExact` | kernel/src/memory/heap.rs:136-161 | a block is placed exactly when some aligned block of that size fits below the cursor, and then at the highest such address |
| `Heap.AllocateBlockCorrect` | kernel/src/memory/heap.rs:136-161 | nothing is done for an empty block; exhausted exactly when nothing fits; failures keep the cursor; a block is aligned, inside the range, below the old cursor and fully backed |
| `Heap.BackToBounds` | kernel/src/memory/heap.rs:168-186 | backing only moves the mapped start down, page by page, and keeps it on failure |
| `Heap.KernelHeap.Back` | kernel/src/memory/heap.rs:168-186 | the loop has exactly the effect of `BackTo` on memory, allocator and `mapped_start` |
| `Heap.KernelHeap.Allocate` | kernel/src/memory/heap.rs:136-161 | has exactly the effect of `AllocateBlock` on memory, allocator, cursor and `mapped_start` |
| `Heap.ClaimHeap` | kernel/src/arch/riscv64/paging/kernel.rs:254-289 | the reservation is claimed once, also when backing its first page fails |
| `System.MapKeepsTables` | kernel/src/arch/riscv64/paging.rs:570-631 | one mapping of a held frame keeps tree, fixmap, exclusive ownership and leaf rules |
| `System.ArrangementKept` | kernel/src/arch/riscv64/paging/kernel.rs:343-374 | no mapping of another page disturbs control page or window slot |
| `System.BackPageContents` | kernel/src/memory/heap.rs:16-24 | a newly backed page holds zeros; every other page keeps translation and contents, also on failure |
| `System.BackPageSound` | kernel/src/arch/riscv64/paging/kernel.rs:479-502 | one more heap page: the backed suffix grows by exactly that zeroed page or not at all, all else kept |
| `System.BackToSound` | kernel/src/memory/heap.rs:168-186 | the heap is backed exactly as far as reported and every page added holds zeros |
| `System.ClaimSound` | kernel/src/arch/riscv64/paging/kernel.rs:254-289 | claiming the heap keeps the invariant, also on failure |
| `System.HeapAllocateSound` | kernel/src/memory/heap.rs:136-186 | a heap allocation keeps the invariant, with the new block disjoint from all issued ones and every page added zeroed |
| `System.LoadPageSound` | kernel/src/process/image.rs:115-144 | loading one user page, successful or not, keeps the whole invariant, the heap included |
| `System.StoreIsolated` | kernel/src/arch/riscv64/paging/kernel.rs:464-471 | a store that the translation permits, by user code or the kernel, lands outside every table, held frame and owed frame, changes no translation and no other page that uses allocated frames, and keeps the invariant; exactly the addressed word changes; user code reaches allocated frames only |
| `System.StepSound` | kernel/src/arch/riscv64/paging/kernel.rs:203-502 | every operation, successful or failed, keeps the invariant |
| `System.RunSound` | kernel/src/arch/riscv64/paging/kernel.rs:203-502 | over any run, image loading and stores through mapped pages included: tables form a tree, fixmap arranged and window closed, every frame in one place, no page writable and executable, user leaves only in the lower half, heap backed exactly from its bottom up, blocks disjoint |
| `HeapSupply.BackToSucceeds` | kernel/src/memory/heap.rs:168-186 | backing down over n pages succeeds with three owed frames for each and uses no more |
| `HeapSupply.AllocateSucceeds` | kernel/src/memory/heap.rs:136-186 | a block that fits is issued whenever three frames are owed for each page that is not backed yet |
| `HeapSupply.ClaimExactly` | kernel/src/arch/riscv64/paging/kernel.rs:254-289 | a second claim and an occupied root slot are refused with nothing changed; otherwise the reservation is taken for good, three frames suffice, and the heap is empty with its highest page backed |
| `HeapSlot.HeapSlotEmpty` | kernel/src/arch/riscv64/paging/kernel.rs:127-200 | after a successful `into_kernel` on a layout outside the heap the heap's root slot is empty |
| `HeapSlot.HeapClaimed` | kernel/src/arch/riscv64/paging/kernel.rs:254-289 | such a kernel with three frames left can claim its heap at once, and gets an empty one with its highest page backed |
| `RuntimeMapping.UserMapping` | kernel/src/arch/riscv64/paging/kernel.rs:216-239 | a user mapping is made exactly for a free page of the lower half above the null page; every byte of it is then user code's alone with the permissions asked for, and no other page changes |
| `RuntimeMapping.KernelMapping` | kernel/src/arch/riscv64/paging/kernel.rs:318-374 | a kernel mapping is made exactly for a free page of the upper half other than the window's and outside the claimed heap; every byte of it is then the kernel's alone with the permissions asked for |
| `Loader.FileBytes` | kernel/src/process/image.rs:36-76 | the bytes of an image file: the magic text, then load address, entry and length least significant byte first, then the payload |
| `Loader.ParseExactly` | kernel/src/process/image.rs:36-76 | every file: a missing one, the file of a loadable image, which gives that image, and any other are told apart |
| `Loader.ParseEncoded` | kernel/src/process/image.rs:36-76 | parsing an encoded loadable image gives that image back |
| `Loader.ParseAccepts` | kernel/src/process/image.rs:36-76 | an accepted file is the encoding of the image returned, and that image is loadable |
| `Loader.LoadPageCorrect` | kernel/src/process/image.rs:115-144 | one user page: holds the bytes and zeros after them, every other page and pool frame keeps its contents, the invariant holds; an error maps nothing |
| `Loader.LoadAllCorrect` | kernel/src/process/image.rs:86-108 | pages loaded one after the other all hold their contents at the end |
| `Loader.LoadProcessCorrect` | kernel/src/process.rs:78-118 | from an empty lower half: base+i reads payload byte i, the rest of the last page zero, image pages RX, stack zeroed RW, every other user page unmapped |
| `Loader.LoadAllIsRun` | kernel/src/process/image.rs:86-108 | loading is a run of page loads that stops at the first failure |
| `Loader.LoadAllSound` | kernel/src/process/image.rs:86-108 | loading, complete or cut short, keeps the invariant of the whole system |
| `Loader.ProcessLoads` | kernel/src/process.rs:78-118 | in a sound system with an empty lower half loading keeps it sound, heap and blocks included, and success establishes the process's memory |
| `Loader.LoadAllSucceeds` | kernel/src/process/image.rs:86-144 | free distinct pages are all loaded when there are three frames for each |
| `Loader.ProcessSucceeds` | kernel/src/process.rs:78-118 | a loadable image is loaded into an empty lower half whenever there are three frames for each page of image and stack |
| `Loader.MapLoadedPage` | kernel/src/process/image.rs:115-144 | take, zero, copy and map through the kernel space have exactly the effect of `LoadPage` |
| `Loader.MapRequests` | kernel/src/process/image.rs:86-108 | the page loops have exactly the effect of `LoadAll` |
| `Loader.StackIsBacked` | kernel/src/process.rs:64-65 | a kernel stack at or above the heap's backed bottom is aligned and, byte for byte, readable and writable for the kernel alone and never executable |
| `Loader.InitSound` | kernel/src/process.rs:78-118 | issuing the kernel stack from the heap and then loading, complete or cut short at any point, keeps the whole system sound with the stack as one more disjoint block |
| `Loader.InitCorrect` | kernel/src/process.rs:78-118 | from an empty lower half success shows user code exactly the image given and its stack; the process starts at the image's entry, where user code may execute, on the top of its stack with all other registers zero; a kernel stack that fits and three frames for each page of both stacks and the image suffice |
| `Loader.ProcessSlot.LoadInit` | kernel/src/process.rs:78-118 | parse, one-shot claim, kernel stack from the heap, image and stack pages in this order, the heap growing through the same tables and allocator, and the error of the first that fails; the process returned holds the very image that the file encodes; every outcome keeps a sound system sound; from an empty lower half success shows user code exactly image and stack, an executable entry and a kernel stack out of its reach |
| `Isolation.UserRunIsolated` | kernel/src/arch/riscv64/paging/kernel.rs:214-239 | any run of stores by user code changes no translation and no frame except those that user pages make writable |
| `Isolation.BeyondReach` | kernel/src/arch/riscv64/paging/kernel.rs:464-471 | tables, held frames, owed frames, frames never given to the allocator and allocated frames behind pages that user code may not write are out of its reach |
| `Isolation.ProgramKept` | kernel/src/process.rs:70-73 | after any run of user code every byte of the loaded image, with its permissions, is what was loaded |
| `KernelSpace.MapPagesCorrect` | kernel/src/arch/riscv64/paging.rs:531-552 | a successful page loop maps exactly its span to consecutive frames; a failed one leaves a tree |
| `KernelSpace.MapRangeCorrect` | kernel/src/arch/riscv64/paging.rs:486-555 | a range is rounded up to whole pages and mapped linearly in one canonical half |
| `KernelSpace.MapSectionsCorrect` | kernel/src/arch/riscv64/paging/kernel.rs:149-169 | the section loop maps exactly the spans of the sections |
| `KernelSpace.PrepareFixmapCorrect` | kernel/src/arch/riscv64/paging/kernel.rs:530-567 | exactly the control page is added; the fixmap is arranged and the window slot empty |
| `KernelSpace.IntoKernelCorrect` | kernel/src/arch/riscv64/paging/kernel.rs:127-200 | whether it succeeds or fails only owed frames change; on success the root's translations are exactly sections, device-tree pages and control page |
| `KernelSpace.OldRootKept` | kernel/src/arch/riscv64/paging/kernel.rs:119-126 | a root none of whose tables is owed keeps tree and translations, whether or not it succeeds |
| `KernelSpace.SectionByte` | kernel/src/arch/riscv64/paging/kernel.rs:149-169 | every byte of a section translates to load address plus offset with the section's permissions |
| `KernelLayout.KernelByte` | kernel/src/arch/riscv64/paging/kernel.rs:149-169 | every text byte can be executed and not written, every byte of data, zeroed data and stack written and not executed, read-only data only read, all by the kernel alone, each at load address plus offset |
| `KernelLayout.NothingElse` | kernel/src/arch/riscv64/paging/kernel.rs:127-200 | every page that translates holds a byte of a section or of the device tree's alias, or is the fixmap control page |
| `KernelSpace.DtbPages` | kernel/src/arch/riscv64/paging/kernel.rs:581-613 | the covering pages start at the alias's page and end less than a page after the last byte |
| `KernelSpace.DtbByte` | kernel/src/arch/riscv64/paging/kernel.rs:171-177 | every byte of the device tree translates at its alias to its own place, read-only |
| `KernelSpace.LowerHalfEmpty` | kernel/src/arch/riscv64/paging/kernel.rs:127-200 | with sections and alias in the upper half no user page translates |
| `KernelStart.PrepareFixmapSucceeds` | kernel/src/arch/riscv64/paging/kernel.rs:530-567 | succeeds when control and window page are free and two frames are left |
| `KernelStart.MapSectionsSucceed` | kernel/src/arch/riscv64/paging/kernel.rs:149-169 | separate, representable sections are all mapped, with at most two tables a page |
| `KernelStart.IntoKernelSucceeds` | kernel/src/arch/riscv64/paging/kernel.rs:127-200 | succeeds on every layout of representable ranges that share no page with each other or the fixmap, given frames for two tables a page |
| `KernelStart.IntoKernelExactly` | kernel/src/arch/riscv64/paging/kernel.rs:119-126 | given those frames, succeeds exactly when the alias fits, every range is aligned, canonical and representable, and no page is asked for twice |
| `KernelSpace.StartsSound` | kernel/src/arch/riscv64/paging/kernel.rs:127-200 | success establishes the invariant of all later operations |
| `KernelSpace.LifetimeSound` | kernel/src/arch/riscv64/paging/kernel.rs:91-502 | from the free frames through `into_kernel` and any run after it the invariant holds over unreserved frames |
| `LowerHalf.RunKeepsLower` | kernel/src/arch/riscv64/paging/kernel.rs:318-502 | kernel mappings, frame writes, stores and heap growth, in any run, map no user page |
| `Lifetime.BootToProcess` | kernel/src/process.rs:78-118 | from the free frames through `into_kernel`, any kernel activity that claims the heap, and the start of the first process: sound over unreserved frames, success shows exactly image and stack and a kernel stack for the kernel alone, a stack that fits and three frames a page suffice |
| `KernelSpace.OwnedOnce` | kernel/src/arch/riscv64/paging/kernel.rs:464-502 | every table, held frame, heap page and user page uses an unreserved frame that is nowhere else |
| `Bootstrap.FdtByte` | kernel/src/arch/riscv64/paging.rs:301-340 | every byte within five gigapages of the device tree's region is visible at its alias |
| `Bootstrap.DtbAgrees` | kernel/src/arch/riscv64/paging/kernel.rs:97-98 | for any size below 2^32 each byte translates through the new root as through the window |
| `Bootstrap.AliasFits` | kernel/src/arch/riscv64/paging/kernel.rs:581-613 | the alias made by `map_fdt` always satisfies `dtb_page_mapping` |
| `Bootstrap.BootRootKept` | kernel/src/arch/riscv64/paging/kernel.rs:121-126 | success or failure, the bootstrap root translates every page as before |
| `Bootstrap.BootstrapClaim.Claim` | kernel/src/arch/riscv64/paging.rs:227-242 | a translation mode other than Sv39 is refused first, a second claim next; the one capability granted is for the root in `satp`, maps itself, and nothing cached of it is out of date |
| `Bootstrap.BootstrapPaging.MapFdt` | kernel/src/arch/riscv64/paging.rs:260-341 | succeeds exactly when the five entries are free and representable; writes exactly those, or nothing; nothing stale afterwards |
| `Bootstrap.BootstrapPaging.MapPageRange` | kernel/src/arch/riscv64/paging.rs:486-555 | has exactly the effect of `MapRange` |
| `Bootstrap.BootstrapPaging.MapAllSections` | kernel/src/arch/riscv64/paging/kernel.rs:149-169 | has exactly the effect of `MapSections` |
| `Bootstrap.BootstrapPaging.PrepareControl` | kernel/src/arch/riscv64/paging/kernel.rs:530-567 | has exactly the effect of `PrepareFixmap` |
| `Bootstrap.BootstrapPaging.BuildKernel` | kernel/src/arch/riscv64/paging/kernel.rs:127-200 | has exactly the effect of `IntoKernel` and hands over an active kernel space ready for all runtime operations; the bootstrap root stays coherent throughout |
| `Trap.SavedIsRead` | kernel/src/arch/riscv64/trap.rs:160-205 | a saved frame reads back as it was saved |
| `Trap.HandleChangesLittle` | kernel/src/arch/riscv64/trap.rs:314-351 | a returning handler changes only a0 and pc+4 on a system call and the pc on the counter probe |
| `Trap.HandleExactly` | kernel/src/arch/riscv64/trap.rs:314-351 | the handler resumes exactly from a returning user call, the counter probe and a served tick: a call's result, computed from a7 and a0, is in a0 and the pc behind the call; the probe continues at the other address; a tick changes nothing |
| `Trap.TrapHart.HandleTrap` | kernel/src/arch/riscv64/trap.rs:314-351 | what the handler writes back into the frame in memory is what `Handle` says |
| `Trap.TrapRecordsOrigin` | kernel/src/arch/riscv64/trap.rs:92-104 | the hardware's record of the interrupted mode |
| `Trap.RestoreFollowsOrigin` | kernel/src/arch/riscv64/trap.rs:160-205 | the saved mode decides mode, `sscratch`, registers and pc on return |
| `Trap.EnterKeepsProtocol` | kernel/src/arch/riscv64/trap.rs:92-157 | entering a trap from user or supervisor code keeps the protocol |
| `Trap.LeaveRestores` | kernel/src/arch/riscv64/trap.rs:160-205 | leaving gives back the innermost frame's registers and pc as the handler left them |
| `Trap.EventKeepsProtocol` | kernel/src/arch/riscv64/trap.rs:92-270 | every event keeps: `sscratch` is the stack top while user code runs and zero otherwise, user frames sit right below the top, open frames lie below each other intact |
| `Trap.RunKeepsProtocol` | kernel/src/arch/riscv64/trap.rs:92-270 | the protocol holds after any sequence of user traps, nested supervisor traps and returns |
| `Trap.TrapRoundTrip` | kernel/src/arch/riscv64/trap.rs:92-205 | around any nested run a trap returns to the interrupted mode, interrupt setting, registers and pc, where a0 and the pc are exactly the call's result and the next instruction after a user call, the other address after the probe, and unchanged after a tick; nothing else returns |
| `Trap.UserStarts` | kernel/src/arch/riscv64/trap.rs:239-270 | the first entry starts the program at its entry, on its stack, with all other registers zero, interrupts on and the kernel stack in `sscratch` |
| `Trap.UserContextEnters` | kernel/src/arch/riscv64/trap.rs:68-86 | a prepared context with its frame below the stack top can be entered when no trap is open |
| `Trap.TrapHart.SelectStack` | kernel/src/arch/riscv64/trap.rs:92-106 | stack selection through the `sscratch` swap, with t0 and sp saved |
| `Trap.TrapHart.Entry` | kernel/src/arch/riscv64/trap.rs:92-157 | the entry code saves the complete interrupted state below the chosen stack and touches nothing else; the handler is called with its frame, global pointer and return address, floating-point and vector state off |
| `Trap.TrapHart.Restore` | kernel/src/arch/riscv64/trap.rs:160-205 | the restore code with `sret` gives the state of the saved frame |
| `FdtReader.FindNul` | fdt/src/reader.rs:166-193 | the first NUL at or after a position, or none exactly when there is none |
| `FdtReader.Reader.ReadBytes` | fdt/src/reader.rs:119-140 | succeeds exactly inside the slice; a failed read does not move |
| `FdtReader.Reader.ReadU32` | fdt/src/reader.rs:87-97 | the big-endian value at the cursor |
| `FdtReader.Reader.AlignTo4` | fdt/src/reader.rs:148-160 | moves to the next multiple of four exactly when that is inside the slice |
| `FdtReader.Reader.ReadNulTerminated` | fdt/src/reader.rs:166-193 | the bytes before the first NUL, consumed with it |
| `FdtReader.Component` | fdt/src/structure/name.rs:49-53 | the part before the first at-sign |
| `FdtItems.PieceLexes` | fdt/src/structure.rs:487-500 | at an aligned position the bytes of an item read back as that item, whatever follows |
| `FdtItems.EncodingIsReading` | fdt/src/structure.rs:536-676 | reading items to the end and the declarative encoding, with any padding contents, are the same |
| `FdtItems.LexShift` | fdt/src/structure/view.rs:34-39 | an item read from a 4-aligned suffix with its own alignment is the item of the whole block |
| `FdtGrammar.NodeNameIs` | fdt/src/structure/name.rs:89-132 | the valid node names are exactly those put together from one to 31 characters, the first a letter, and an optional non-empty unit address |
| `FdtGrammar.PropertyNameIs` | fdt/src/strings.rs:109-147 | an offset names a property exactly when a valid name stands there with a NUL after it |
| `FdtGrammar.WellFormedIs` | fdt/src/structure.rs:536-676 | the well-formed trees are exactly those in which, at every node, each property's offset has a valid name standing at it, no two properties share one, and the children's names are valid and all different |
| `FdtGrammar.ItemBytesAre` | fdt/src/structure/test_utils.rs:25-72 | the bytes of each item: its token, name, length and offset as four-byte numbers, and any padding to the next multiple of four |
| `FdtTree.AcceptsExactly` | fdt/src/structure.rs:536-676 | the one-pass machine ends with a tree exactly when the items print that tree, no-ops aside, and it is well-formed |
| `FdtTree.AcceptsEncodings` | fdt/src/structure.rs:536-676 | a block is accepted with a tree exactly when it encodes it and the tree is well-formed |
| `FdtTree.EncodedTreeUnique` | fdt/src/structure.rs:536-676 | a block encodes at most one well-formed tree |
| `FdtStructure.ReadToken` | fdt/src/structure.rs:487-500 | the token at the cursor |
| `FdtStructure.ReadNonNop` | fdt/src/structure.rs:505-515 | the first token that is no no-op |
| `FdtStructure.ScanOpen` | fdt/src/structure.rs:285-366 | for arbitrary nesting the single depth counter with its reset gives the answer for the innermost open node and returns to its depth |
| `FdtStructure.FindPriorSibling` | fdt/src/structure.rs:285-366 | returns an offset exactly when the open node already has a child of that name, and then that child's; never fails, never meets the end marker |
| `FdtStructure.FindProperty` | fdt/src/structure.rs:383-423 | returns an offset exactly when the open node already has a property of that name, and then the offset of that property of the open node |
| `FdtStructure.Track` | fdt/src/structure.rs:536-650 | after every accepted item `depth`, `phase` and `properties_start` describe the open nodes |
| `FdtStructure.Stuck` | fdt/src/structure.rs:536-650 | once an item cannot be read or is not allowed, the block encodes no tree at all |
| `FdtStructure.ValidateItem` | fdt/src/structure.rs:568-650 | one turn of the loop: an item is accounted for, or the block encodes no well-formed tree |
| `FdtStructure.StructureNew` | fdt/src/structure.rs:536-676 | accepts a block exactly when it encodes, up to no-ops and padding contents, a well-formed tree |
| `FdtEncoder.Buffer.PadTo4` | fdt/src/structure/test_utils.rs:35-39 | zero bytes up to the next multiple of four |
| `FdtEncoder.Buffer.PushBeginNode` | fdt/src/structure/test_utils.rs:41-49 | appends token, name and NUL, padded with zeros to the next multiple of four of the buffer, for any buffer and name |
| `FdtEncoder.Buffer.PushProperty` | fdt/src/structure/test_utils.rs:55-64 | appends the property with its length modulo 2^32, padded to the next multiple of four of any buffer |
| `FdtEncoder.NodeFits` | fdt/src/structure/test_utils.rs:41-49 | at an aligned offset a NUL-free name is written as the encoding of its item |
| `FdtEncoder.PropertyFits` | fdt/src/structure/test_utils.rs:55-64 | at an aligned offset a value of 32-bit length is written as the encoding of its item |
| `FdtEncoder.Buffer.PushAll` | fdt/src/structure/test_utils.rs:25-72 | a sequence of calls writes the printed items |
| `FdtEncoder.EncodableExactly` | fdt/src/structure/test_utils.rs:25-72 | some bytes encode the items exactly when names hold no NUL and numbers fit in 32 bits |
| `FdtEncoder.RoundTrip` | fdt/src/structure/test_utils.rs:25-72 | printing a well-formed tree, with no-ops anywhere, and parsing recovers that tree and no other |
| `FdtEncoder.TreeRoundTrip` | fdt/src/structure/test_utils.rs:25-72 | every well-formed tree whose numbers fit in 32 bits is written, accepted and recovered |
| `FdtEncoder.WriteAndValidate` | fdt/src/structure/test_utils.rs:25-72 | the encoder's bytes are accepted by the validator with the tree written |
| `FdtViews.Reads` | fdt/src/structure/view.rs:121-230 | ahead of an iterator the next item is always readable, is the one the tree calls for, and its property name resolves |
| `FdtViews.SuffixShows` | fdt/src/structure/view.rs:388-404 | the suffix after a node's name is a view of that node |
| `FdtViews.Properties.Next` | fdt/src/structure/view.rs:327-358 | yields exactly the node's direct properties in order; no read fails, no end marker is met |
| `FdtViews.Children.Next` | fdt/src/structure/view.rs:372-432 | yields exactly the direct children in order, as views of them |
| `FdtViews.Descendants.Next` | fdt/src/structure/view.rs:446-500 | yields exactly the descendants in pre-order, as views of them |
| `FdtViews.Child` | fdt/src/structure/view.rs:288-290 | finds the child of that name exactly when there is one |
| `FdtViews.FindPropertyNamed` | fdt/src/structure/view.rs:276-278 | finds the property of that name exactly when there is one |
| `FdtViews.Root` | fdt/src/structure/view.rs:504-516 | the root view of an accepted block shows its tree |
| `FdtSemantics.DecodeCells` | fdt/src/structure/semantic/reg_range.rs:127-144 | for any number of cells succeeds exactly when the big-endian number is below 2^64, and returns it |
| `FdtSemantics.ValidateRanges` | fdt/src/structure/semantic/reg_range.rs:92-118 | accepts exactly non-empty lists of non-empty ranges with 64-bit ends |
| `FdtSemantics.RegRanges.Next` | fdt/src/structure/semantic/reg_range.rs:172-187 | yields exactly the decoded entries in order without a panic |
| `FdtSemantics.ReadLayout` | fdt/src/structure/semantic/addressing.rs:74-104 | cell counts with their defaults; malformed ones are refused |
| `FdtSemantics.ValidateAddressing` | fdt/src/structure/semantic/addressing.rs:169-180 | accepts exactly trees with well-formed cell counts, whole `reg` entries and unit addresses backed by `reg` or `ranges`, at every node |
| `FdtSemantics.ValidateMemory` | fdt/src/structure/semantic/memory.rs:116-184 | accepts exactly trees whose memory nodes have the device type and valid ranges |
| `FdtSemantics.ValidateReserved` | fdt/src/structure/semantic/reserved_memory.rs:158-226 | accepts exactly trees without a reserved-memory node or with a sound static one |
| `FdtSemantics.ValidateRequired` | fdt/src/structure/semantic.rs:188-211 | accepts exactly trees with a `cpus` child and a memory child |
| `FdtSemantics.ValidateSemantics` | fdt/src/structure/semantic.rs:164-173 | accepts exactly the meaningful trees |
| `FdtSemantics.AcceptedRanges` | fdt/src/structure/semantic/memory.rs:63-78 | on an accepted tree there is a memory range, and all memory and reserved ranges are non-empty with 64-bit ends |
| `FdtRanges.MemoryRanges.constructor` | fdt/src/structure/semantic/memory.rs:198-209 | starts with all entries of all memory nodes in node and entry order |
| `FdtRanges.MemoryRanges.Next` | fdt/src/structure/semantic/memory.rs:215-242 | yields exactly that list without a panic |
| `FdtRanges.ReservedMemoryRanges.constructor` | fdt/src/structure/semantic/reserved_memory.rs:237-260 | starts with all entries below the reserved-memory node, or none |
| `FdtRanges.ReservedMemoryRanges.Next` | fdt/src/structure/semantic/reserved_memory.rs:270-295 | yields exactly that list without a panic |
| `FdtMeaning.CountsAreLayout` | fdt/src/structure/semantic/addressing.rs:74-104 | entries have `#address-cells` address cells and then `#size-cells` size cells, one big-endian cell each, two and one when absent |
| `FdtMeaning.MemoryIsWritten` | fdt/src/structure/semantic/memory.rs:198-242 | the memory ranges are exactly the pairs written into the memory nodes, in node and entry order: address cells first, then size cells |
| `FdtMeaning.ReservedIsWritten` | fdt/src/structure/semantic/reserved_memory.rs:237-295 | the reserved ranges are exactly the pairs written into the children of the reserved-memory node, in order |
| `FdtMeaning.AcceptedMemory` | fdt/src/structure/semantic/memory.rs:116-184 | every accepted tree has such pairs, non-empty with 64-bit ends, so its memory ranges are always what is written |
| `FdtMeaning.AddressedIs` | fdt/src/structure/semantic/addressing.rs:169-180 | the addressing check accepts exactly trees whose `reg` properties are written in the parent's cells and whose unit addresses are backed |
| `FdtMeaning.AcceptsMeaningful` | fdt/src/structure/semantic.rs:164-173 | the semantic checks accept exactly the trees that mean something, said in written numbers and names |
| `FdtPrinting.PairsRead` | fdt/src/structure/semantic/reg_range.rs:172-187 | written address and size pairs are read back, in order, for any cell counts |
| `FdtPrinting.ReadPairs` | fdt/src/structure/semantic/reg_range.rs:172-187 | whole entries are the writing of what is read from them |
| `FdtHeader.HeaderRead` | fdt/src/header.rs:341-455 | the ten words of a written header are accepted exactly under the layout conditions, and give back total size, structure slice, strings slice and reservation offset |
| `FdtHeader.HeaderWritten` | fdt/src/header.rs:76-91 | any forty bytes are a written header |
| `FdtHeader.BlocksDisjoint` | fdt/src/header.rs:341-455 | on every accepted header structure, strings and candidate reservation slice lie in the blob after the header and share no byte |
| `FdtHeader.ReservationLimit` | fdt/src/fdt.rs:176-187 | the nearest block start after the reservation offset, or the blob's end |
| `FdtBlob.MemoryReservations.Next` | fdt/src/reservation.rs:234-249 | yields exactly the entries before the terminator |
| `FdtBlob.ValidateNoOverlaps` | fdt/src/reservation.rs:197-228 | accepts exactly entries whose non-empty regions are pairwise disjoint |
| `FdtBlob.ReservationsNew` | fdt/src/reservation.rs:152-177 | succeeds exactly when a (0, 0) entry occurs, earlier entries have 64-bit ends and non-empty ones are disjoint; keeps the block up to the terminator |
| `FdtBlob.ReservationsWritten` | fdt/src/reservation.rs:152-177 | a reservation block is sound exactly when it starts with the writing of listable entries, address before size in eight bytes each, and a zero entry; those are the entries read |
| `FdtBlob.FromBytes` | fdt/src/fdt.rs:103-203 | for the header words that the blob starts with: succeeds exactly on an aligned non-null address with sound words, a structure block that encodes a meaningful tree and a sound reservation block; keeps exactly those blocks of the blob |

## Left out

- Raw pointers, provenance, volatile access and CSR instructions: replaced by the abstract memory, TLB and register state.
- Early assembly and the linker script (`kernel/src/arch/riscv64/boot.rs`, `kernel/linker.ld.in`): section order, alignment and a root of 1 GiB leaves that maps itself are assumptions.
- The TLB caches whole translations, present or absent, page by page with the level they came from; separately cached non-leaf entries and address-space identifiers are not modelled.
- Traits and closures: the two implementors of `FrameAccess` are the two cases of a datatype, `HeapBacking` has its one implementor, and the closures given to `with_frame` are the read, write, zero and copy that occur.
- Error payloads (offsets, found bytes, addresses) and which of several competing errors is reported, except where a contract names the error.
- Timer, firmware calls, interrupt enabling, console, logging, system-call dispatch and process exit: callees of the trap handler are an environment that reports their results, a system call's as a function of a7 and a0.
- The allocator gate (`kernel/src/memory/allocator.rs`), a single flag without further behaviour: `load_init` is modelled with the memory state installed and free, so its busy and not-initialized errors do not occur.
- The zeroing of the kernel stack's elements after its allocation: heap stores, which `System.StoreIsolated` covers one by one.
- Stores in runs are to RAM through pages other than the fixmap control page; device registers are not memory here.
- `fmt::Debug`, build scripts, device-tree templates and the user program.
- Hart.Hart.StorePage: a bulk write through the window is one step, not 512 stores, because no translation can change in between.
- Loader.MapLoadedPage: the copy closure is one bulk write of the overlaid contents.
- FrameAccess.FrameAccess.WriteTableEntry: a store that would destroy the kernel's own way to its window, or go into the active bootstrap root, is excluded, as the safety section of the trait demands.
- Trap.TrapHart.Entry: runs of register stores are loops over register numbers instead of one instruction each.
- FdtSemantics.ReadLayout: widths are for 64-bit targets, where the overflow errors of the layout cannot occur.
- FdtBlob.FromBytes: the blob is a byte sequence and the address a number; the 32-bit size limit is not modelled.
