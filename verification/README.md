# A verified model of the Wagtail kernel

Wagtail is a small ARM kernel. This project models the parts of it that keep unbounded, pointer-linked
state, and proves what they keep over every run. `dafny verify dfyconfig.toml` checks all of it.

| subsystem | modules |
|---|---|
| heap allocator | `Arithmetic`, `BlockList` (the list as a value), `HeapTheorems`, `HeapPlacement`, `Heap` (headers in memory) |
| red-black tree | `RbShape` (order and contents), `RbBalance`, `RbTree` (node objects) |
| page pool, translation tables | `PagePool`, `PageTables`, `TableLayout`, `Mmu` |
| process address spaces | `AddressSpace`, `Protection`, `Process`, `ForkTheorems` |
| queue, scheduler, wait and exit | `KQueue`, `SchedulerSpec`, `SchedulerFrame`, `WaitProtocol`, `RoundRobin`, `Pids`, `PidRuns`, `Scheduler` |
| SD read requests | `SdProtocol`, `SdService`, `SdDriver` |
| strings, mounts, path dispatch | `KString`, `Mounts`, `Vfs` |
| FAT32 file reads | `FatChain`, `ChainBytes`, `ChainWalk`, `ClusterSize`, `FatFile` |
| shared notions | `Common` |

Each subsystem has two layers. The code that updates things in place is a class whose methods have the
kernel's branches and loops; each method is tied to a function on values or to one step of a state machine.
The results that span operations are lemmas about those functions and about every run of those steps.

Objects that the kernel deletes or casts from integers (block headers, processes, wait blocks, read requests)
live in a map from address to record, which stands for kernel memory: deleting one removes its address, and
every access is proved to hit a live one. Lists, trees, tables and the page stack are objects with real
fields. Words are naturals below 2^32 with each wrap-around written out.

## Where the code falls short of what it promises

Each of these is proved as an exact condition or shown by a concrete input.

- `mm::allocate` tests for room with an unsigned subtraction (`kernel/mm.cpp:159`). The test is sound for every
  block exactly when the alignment is at most 16 or at most four more than the rounded request
  (`BlockList.GuardSoundExactly`). All callers meet this.
- `mm::allocate` promises null on failure (`kernel/mm.h:41-42`), but when every block that is big enough fails on
  alignment it returns the address of the last of them, which nobody owns (`HeapTheorems.FailureReturnsNullExactlyWhen`,
  with an input in `HeapTheorems.FailureEscapes`).
- A request above 0xfffffffc rounds to 0 and succeeds (`HeapTheorems.HugeRequestWraps`); a successful allocation is large
  enough exactly for all others (`HeapTheorems.AllocationIsSound`).
- The tree's fixup reads the colour of a null uncle on one side (`kernel/rbtree.h:143`); `RbBalance.NullReadExactly`
  says for which insertions, `RbBalance.NullReadWitness` gives one. On the other side, and in the model, a null uncle counts as black.
- The fixup recolours the node above the grandparent (`kernel/rbtree.h:148-149`, `kernel/rbtree.h:170-171`). The model has
  both variants, `AsWritten` and `AsMeant`. Order and contents hold for both, balance for `AsMeant`;
  `RbBalance.WrittenInsertExactly` says which single insertions keep the balance as written, and inserting
  1 to 6 in ascending order loses it.
- `~process` unmaps data pages only if there are code pages (`kernel/process.cpp:49-50`), and of the stack only the region of
  default size, however many pages it has (`kernel/process.cpp:53-54`). `AddressSpace.SetupTeardownExactly` says when pages
  are lost, and `AddressSpace.LostPageWitness` gives a process of either kind. The kernel's own processes have no stack page or four.
- `kqueue::remove` does not decrement `length` (`kernel/kqueue.h:178-195`): the length of a queue is the number of its elements
  plus the number of removals (`KQueue.Queue`'s invariant).
- The blocking branch of the scheduler clears `current_process` but keeps `register_block` (`kernel/scheduler.cpp:156-164`), so
  that code goes on running which the scheduler does not know of. If it calls exit, wait or fork, the handler goes through a
  null pointer (`kernel/scheduler.cpp:78-79`, `kernel/scheduler.cpp:123-125`). `SchedulerSpec.StrandedExactly` says which steps
  lead there and which lead back, `SchedulerSpec.BlockedInterruptWitness` gives a run of two kernel threads that gets there, and
  `RoundRobin.WaitersTurnStrands` says that every turn of a waiting process does this to whatever then runs.
- The same branch has enabled the blocked process's address space by then (`kernel/scheduler.cpp:154`). This does not touch a
  kernel thread, whose `enable_addrspace` only disables user translation (`kernel/kthread.cpp:31-34`), and kernel threads are the
  only processes that implement that function. For a process that implements it as documented (`kernel/process.h:51-54`),
  `SchedulerSpec.UserCodeAtHomeExactly` says which steps leave its code running in an address space that is not its own, and the
  same witness, with such processes, has one write to the memory of another that waits.
- A wait that finds nobody returns -1 but stores an uninitialised word as the status (`kernel/waitblock.cpp:38-46`).
- `allocate_pid` compares with queued processes only, neither with the running one nor with one that is constructed but not yet
  scheduled. `Pids.ClashExactly` says when it hands out the pid of such a process, `PidRuns.StepKeepsPidsExactly` that this is the
  only way processes come to share a pid, and `PidRuns.ClashIsReachable` gives a run from boot in which they do.
- The substring constructor compares the sum of the two offsets with the length (`kernel/kstring.cpp:23`);
  `KString.SubstringExactly` says when it copies the characters asked for. Both uses by the virtual file system are right.
- `read_block` returns false whatever happened (`kernel/device.cpp:17`), which the table lookup takes for a failure
  (`kernel/filesystems/fat32.cpp:378-381`): `ChainBytes.UnreadableCutsFile` says that files then end with their first cluster.
- A mount begins a path by its characters, not by its components (`Mounts.PrefixIgnoresComponents`).
- Interval loops that end in the last page below 2^32 do not end (`Mmu.IntervalEndsExactly`).
- A mount at the empty path breaks the order of the mount list and takes over the paths of the last mount
  (`Mounts.AddKeepsExactly`, `Mounts.EmptyPathHides`).
- The shift for the bytes per cluster (`kernel/filesystems/fat32_file.cpp:13`) is right for one or two sectors per cluster, too
  large for 3 to 23, and 0 in 32 bits from 24 on (`ClusterSize.ShiftExactly`). The model has both sizes, `AsMeant` and
  `AsWritten`. As meant, every read is the slice of the file, at every number of sectors. As written,
  `ClusterSize.WrittenReadsExactly` says which reads are right, and `ClusterSize.StaleHalfPage` gives one that returns stale
  bytes; with size 0 the walk along a cyclic chain never ends (`ChainWalk.EndsExactly`, `FatFile.WalksEndExactly`).

## Model

| member | source | states |
|---|---|---|
| `Arithmetic.AlignOffsetIsExact` | kernel/mm.cpp:149-150 | The wrapping computation of the alignment offset gives the distance to the next multiple of a power of two, even where the sum wraps around 2^32 |
| `Arithmetic.AlignOffsetAligns` | kernel/mm.cpp:149-150 | An address advanced by its offset is aligned |
| `Arithmetic.AlignOffsetInWords` | kernel/mm.cpp:149-150 | For word addresses the offset is a whole number of words, and 0 for alignments up to a word |
| `BlockList.FirstFit` | kernel/mm.cpp:140-171 | The search stops at the first block that passes one of the two placement tests, and at the end only if none does |
| `BlockList.AcceptedFits` | kernel/mm.cpp:152-167 | Under the callers' alignment condition a block that passes the tests really holds the request at its aligned address |
| `BlockList.GuardSoundExactly` | kernel/mm.cpp:159 | The unsigned room test is sound for all blocks if and only if alignment <= 16 or alignment <= rounded size + 4 |
| `BlockList.GuardWitness` | kernel/mm.cpp:159 | For every other power-of-two alignment there is a block the test lets through although it ends before the aligned address |
| `HeapTheorems.BlocksDisjoint` | kernel/mm.cpp:225-245 | Blocks of a tiled heap do not overlap and lie in address order |
| `HeapTheorems.AllocateKeepsInv` | kernel/mm.cpp:109-175 | Allocation keeps the heap exactly tiled, word-sized and free of neighbouring free blocks |
| `HeapTheorems.ReleaseKeepsInv` | kernel/mm.cpp:178-190 | Freeing any block keeps the same invariant |
| `HeapTheorems.AllocationIsSound` | kernel/mm.cpp:139-174 | A successful allocation adds exactly one live block, in bounds, disjoint from all others, and keeps the others; it is large enough if and only if the request is at most 0xfffffffc, and no larger than the rounded request unless what would be left is too little for a free block |
| `HeapTheorems.AllocationIsAligned` | kernel/mm.cpp:148-165 | A successful allocation returns a multiple of the alignment |
| `HeapTheorems.NullExactlyWhenFull` | kernel/mm.cpp:109-175 | With word alignment, null if and only if every free block is smaller than the rounded request |
| `HeapTheorems.FailureReturnsNullExactlyWhen` | kernel/mm.cpp:144-174 | A failed allocation changes nothing and returns null if and only if no free block is big enough; otherwise it returns the address of the last one that is |
| `HeapTheorems.FailureEscapes` | kernel/mm.cpp:146-174 | A request of 4 bytes at alignment 16 that fails and returns the address of the one free block |
| `HeapTheorems.HugeRequestWraps` | kernel/mm.cpp:119-120 | A request of 0xfffffffd bytes is rounded to 0 and succeeds |
| `HeapTheorems.AllocateFreeRoundTrip` | kernel/mm.cpp:142-189 | Freeing what was just allocated restores the block list exactly, in the unsplit, split-after and split-before-and-after cases |
| `HeapTheorems.ReleaseRemovesOneLive` | kernel/mm.cpp:178-190 | Freeing a live block removes that block and no other from the live ones |
| `HeapTheorems.AllFreedIsInitial` | kernel/mm.cpp:178-190 | A heap in the invariant with no live block is the one block set up at boot |
| `HeapTheorems.EveryRunKeepsInv` | kernel/mm.cpp:109-190 | In every run of allocations and frees of live pointers the invariant holds, and whenever everything is freed, in any order, the heap is its initial block |
| `HeapTheorems.RunExtends` | kernel/mm.cpp:109-190 | Every allowed request can be served next in every run |
| `HeapPlacement.LiveDeterminesHeap` | kernel/mm.cpp:178-190 | The whole list of blocks follows from the live ones: everything else is free, in as few blocks as possible |
| `HeapPlacement.AcceptsExactly` | kernel/mm.cpp:144-168 | The two tests of the search accept a block if and only if the first aligned address in it has room for the request behind it, and nothing or more than a header in front |
| `HeapPlacement.AllocationIsFirstFit` | kernel/mm.cpp:140-175 | A request succeeds if and only if it fits somewhere, and is then placed at that address of the first block where it does |
| `HeapPlacement.NothingRequested` | kernel/mm.cpp:113-115 | A request for nothing returns null and changes nothing |
| `HeapPlacement.NeverMoreThanAsked` | kernel/mm.cpp:130-190 | In every run the memory handed out is at most the rounded requests so far, each with at most a header's worth more |
| `Heap.Mm.constructor` | kernel/mm.cpp:65-74 | Boot sets up one free block over the whole heap |
| `Heap.Mm.Split` | kernel/mm.cpp:225-245 | Splitting in place replaces a block by its two parts with all links right, or does nothing when the second part would have no room |
| `Heap.Mm.Merge` | kernel/mm.cpp:257-278 | Merging in place joins two neighbours, first one first, and otherwise does nothing |
| `Heap.Mm.Allocate` | kernel/mm.cpp:109-175 | The search over linked headers has the outcome of the block-list allocation, whose properties are above |
| `Heap.Mm.TryBlock` | kernel/mm.cpp:144-168 | One turn of the search: taken if and only if the block passes the tests, and what then replaces it |
| `Heap.Mm.Free` | kernel/mm.cpp:178-190 | Freeing through the links has the outcome of the block-list release |
| `RbShape.InsertInOrder` | kernel/rbtree.h:34-58 | For any colouring and either fixup, insertion puts the new pair behind all keys <= it and before all greater ones, and changes nothing else in the order |
| `RbShape.InsertAddsOne` | kernel/rbtree.h:34-58 | Insertion adds exactly one pair to the bag of contents and keeps the search order |
| `RbShape.BlackParentKeepsRest` | kernel/rbtree.h:134-135 | Below a black node the new red node is all that changes, and the first node is a black root |
| `RbShape.RestructureInOrder` | kernel/rbtree.h:152-160 | The rotations of the fixup keep the order |
| `RbShape.FixLoopInOrder` | kernel/rbtree.h:130-188 | The whole fixup loop keeps the order, for any colouring |
| `RbShape.FindIsComplete` | kernel/rbtree.h:110-124 | Lookup succeeds exactly for keys in the tree, with one of their values |
| `RbShape.FindIsTopmost` | kernel/rbtree.h:111-125 | Of several nodes with the key, the search finds the first on its way down |
| `RbShape.BuildContents` | kernel/rbtree.h:34-58 | Any sequence of insertions gives a sorted tree of exactly those pairs |
| `RbShape.BuildIsMap` | kernel/rbtree.h:66-74 | With distinct keys the tree is the finite map of the inserted pairs |
| `RbBalance.InsertKeepsRedBlack` | kernel/rbtree.h:130-188 | As meant, insertion keeps a black root, no red-red edge and equal black heights |
| `RbBalance.FixLoopRestores` | kernel/rbtree.h:137-187 | As meant, the loop restores balance from a red node under any path of a red-black tree |
| `RbBalance.HeightIsLogarithmic` | kernel/rbtree.h:130-188 | The height of a red-black tree is at most 2 log2(n + 1) |
| `RbBalance.EveryBuildIsBalanced` | kernel/rbtree.h:34-58 | Every tree built as meant is red-black and of logarithmic height |
| `RbBalance.WrittenInsertExactly` | kernel/rbtree.h:143-172 | As written, an insertion into a red-black tree keeps it red-black if and only if its recolouring does not skew, a test on the search path |
| `RbBalance.AscendingSixUnbalance` | kernel/rbtree.h:148-149 | As written, ascending keys 1 to 5 keep a red-black tree and the sixth loses it |
| `RbBalance.NullReadExactly` | kernel/rbtree.h:141-143 | The fixup reads a null uncle if and only if the new node's parent is red, a left child, and has no sibling |
| `RbBalance.NullReadWitness` | kernel/rbtree.h:141-143 | Inserting 1 into the red-black tree of 3 and its left child 2 reads the null uncle |
| `RbTree.Directory.Insert` | kernel/rbtree.h:34-58 | On node objects: insertion gives the tree of the specification with a fresh node, consistent parent links, one pair more, and (as meant) balance |
| `RbTree.Directory.Descend` | kernel/rbtree.h:36-46 | The descent ends at the hole where the key belongs |
| `RbTree.Directory.LeftRotate` | kernel/rbtree.h:194-213 | Left rotation of linked nodes, with every parent link |
| `RbTree.Directory.RightRotate` | kernel/rbtree.h:219-238 | Right rotation of linked nodes, with every parent link |
| `RbTree.Directory.FixupStep` | kernel/rbtree.h:137-185 | One turn of the fixup leaves the final tree the same and brings the red node closer to the root, so the loop ends |
| `RbTree.Directory.InsertionFixup` | kernel/rbtree.h:130-188 | The fixup on nodes computes the specified tree |
| `RbTree.Directory.FindNode` | kernel/rbtree.h:110-124 | The node search follows the specification |
| `RbTree.Directory.GetValue` | kernel/rbtree.h:66-74 | Found if and only if the key was inserted, with a value inserted under it |
| `PagePool.PageStack.constructor` | kernel/static_kstack.h:22-27 | An empty stack with the given room |
| `PagePool.PageStack.Push` | kernel/static_kstack.h:36 | Adds on top; needs room |
| `PagePool.PageStack.Pop` | kernel/static_kstack.h:44 | Undoes the last push |
| `PagePool.PageStack.IsEmpty` | kernel/static_kstack.h:50 | True exactly for the empty stack |
| `PagePool.PageStack.AllocatePage` | kernel/mm.cpp:193-206 | Takes the top page, or gives null and changes nothing when the pool is empty |
| `PagePool.FillPool` | kernel/mm.cpp:79-85 | The boot loop pushes exactly the pages that start in free memory, each once, and exactly as many as the capacity computed beforehand; they are real and all different |
| `PageTables.DescriptorReadsBack` | kernel/mmu.cpp:173-241 | A descriptor decodes to the page, the permissions, the memory attributes (TEX, C, B, S), execute-never and not-global it was made from |
| `PageTables.PageTable.AddEntry` | kernel/mmu.cpp:173-241 | Writes one entry of the table and no other |
| `PageTables.PageTable.RemoveEntry` | kernel/mmu.cpp:244-249 | Clears one entry and returns its page |
| `PageTables.PageTable.IsEmpty` | kernel/mmu.cpp:252-258 | True if and only if all 256 entries are zero |
| `TableLayout.MapInTable` | kernel/mmu.h:119-134 | Mapping through an existing page table updates the page map at one page, and first-level entries stay non-zero exactly for non-empty tables |
| `TableLayout.MapInNewTable` | kernel/mmu.h:127-134 | The same through a new page table |
| `TableLayout.UnmapInTable` | kernel/mmu.h:156-164 | Unmapping removes one page from the map, dropping the table with its last entry |
| `Mmu.DirectoryResolves` | kernel/mmu.h:119-126 | Whatever stale or duplicate pairs the directory holds, a live entry's physical address resolves to its own page table |
| `Mmu.DirectoryGrows` | kernel/mmu.h:128-129 | Entering a new page table keeps every stored pair an address with its own image, and every table known |
| `Mmu.TranslationTable.constructor` | kernel/mmu.h:60-64 | A cleared table maps nothing |
| `Mmu.TranslationTable.Resolve` | kernel/mmu.h:119-126 | The page table behind a live entry is found |
| `Mmu.TranslationTable.MapPage` | kernel/mmu.h:113-135 | Updates the finite map from virtual page to descriptor at one page; all others are untouched |
| `Mmu.TranslationTable.UnmapPage` | kernel/mmu.h:141-165 | Removes one page from the map and pushes its physical page to the pool if it is not null |
| `Mmu.TranslationTable.MapInterval` | kernel/mmu.h:76-89 | Maps consecutive pages at consecutive addresses and no others |
| `Mmu.IntervalEndsExactly` | kernel/mmu.h:82-83 | The interval loops end if and only if the interval ends at least a page below 2^32 |
| `Mmu.IntervalTranslates` | kernel/mmu.h:76-88 | A mapped interval translates every one of its addresses by the same distance, with the permissions and attributes asked for |
| `Mmu.OutsideInterval` | kernel/mmu.h:76-88 | It leaves every other page alone |
| `Mmu.TranslationTable.UnmapInterval` | kernel/mmu.h:96-102 | Removes the interval from the map and pushes its pages in address order |
| `Mmu.FreedInOrder` | kernel/mmu.h:96-102 | The pages of an unmapped interval come back in ascending order of their virtual addresses |
| `Mmu.TranslationTable.Walk` | kernel/mmu.h:113-126 | A two-level walk yields the entry of the finite map |
| `AddressSpace.SetupConserves` | kernel/process.cpp:149-178 | Building an address space only moves pages from pool to mapping, even if the pool runs out midway |
| `AddressSpace.SetupPages` | kernel/process.cpp:149-178 | Every virtual page of the regions gets its own page of the pool, in allocation order, and a null page once the pool is empty |
| `AddressSpace.TeardownConserves` | kernel/process.cpp:40-57 | Destruction only moves pages back |
| `AddressSpace.TeardownLeaves` | kernel/process.cpp:48-54 | What stays mapped after destruction: the data pages of a process without code, and stack pages below the region of default size |
| `AddressSpace.SetupTeardownExactly` | kernel/process.cpp:40-57 | For any number of code, data and stack pages, building and destroying returns the pool to the same bag of pages if and only if there are code pages, or no data pages, or the pool was empty, and the stack has at most four pages or the pool ran out before the fifth |
| `AddressSpace.LostPageWitness` | kernel/process.cpp:48-54 | One data page without code, and a fifth stack page: each process takes a page with it |
| `AddressSpace.TeardownInOrder` | kernel/process.cpp:48-54 | A process that leaves nothing behind gives its pages back in ascending order of their virtual addresses |
| `AddressSpace.EveryRunConserves` | kernel/process.cpp:40-178 | Over every run of creations and destructions no page appears from nowhere, and none is lost unless a process was destroyed that has data without code or more than four stack pages |
| `AddressSpace.PagesStayDisjoint` | kernel/process.cpp:40-178 | Over every run no page is free and mapped, or mapped twice, and the pool never exceeds its capacity |
| `AddressSpace.BootedPoolHolds` | kernel/mm.cpp:79-85 | In every run from the pool that boot fills, the pool never exceeds the capacity computed at boot and no free page is mapped |
| `Protection.WriteOrExecute` | kernel/process.cpp:154-174 | Code is read-only to the process and executable, data and stack are writable and never executable, all global and with the memory attributes of their kind, null pages included |
| `Process.Process.SetupAddrspace` | kernel/process.cpp:149-178 | The three loops build the specified mapping and take the pages from the pool |
| `Process.Process.MapRegion` | kernel/process.cpp:154-166 | One upward loop over a region |
| `Process.Process.MapStack` | kernel/process.cpp:168-174 | The downward loop over the stack |
| `Process.Process.Destroy` | kernel/process.cpp:48-56 | The destructor's unmapping performs the specified teardown |
| `Process.Process.CopyPage` | kernel/process.cpp:127-132 | One page is copied byte for byte through a buffer, each side through its own table |
| `Process.Process.CopyAddressSpace` | kernel/process.cpp:124-145 | The copy loops over code, data and stack compute the specified memory and leave both mappings alone |
| `Process.Process.Forked` | kernel/process.cpp:107-115 | The child takes over the parent's page counts and registers |
| `Process.Process.ForkFrom` | kernel/process.cpp:116-147 | Set-up and copying composed: the child's mapping and the pool are those of set-up, memory that of copying, and the parent's table is untouched |
| `ForkTheorems.CopySpaceCopies` | kernel/process.cpp:124-145 | When parent and child share no page, each page of the child equals the parent's and no other page changes |
| `ForkTheorems.ForkIsIsolated` | kernel/process.cpp:107-178 | With enough distinct free pages the child is a byte-for-byte copy, the parent is untouched, and they share no physical page |
| `ForkTheorems.Fork` | kernel/process.cpp:107-147 | On objects, with enough pages free: parent and child share no physical page, each page of the child is a copy of the parent's, every other page and the parent's mapping are untouched |
| `ForkTheorems.ProcessesOwnPages` | kernel/process.cpp:40-178 | In every run of creations and destructions no page of a live process is free |
| `ForkTheorems.ForkInEveryRun` | kernel/process.cpp:107-178 | So in every run, forking any live process with enough pages free gives an isolated copy |
| `ForkTheorems.LaterWritesInvisible` | kernel/process.cpp:107-178 | After any sequence of writes by both, each through its own mapping, each sees the memory it would see if the other had written nothing |
| `KQueue.Queue.constructor` | kernel/kqueue.h:197-198 | An empty queue |
| `KQueue.Queue.PushFront` | kernel/kqueue.h:37-48 | Adds in front, with all links right |
| `KQueue.Queue.PushBack` | kernel/kqueue.h:54-65 | Adds at the back, with all links right |
| `KQueue.Queue.PopFront` | kernel/kqueue.h:100-121 | Takes the first element, or reports an empty queue |
| `KQueue.Queue.PopBack` | kernel/kqueue.h:72-93 | Takes the last element, or reports an empty queue |
| `KQueue.Queue.Remove` | kernel/kqueue.h:178-195 | Takes the element out of the middle, returns the next node and leaves the length as it was |
| `SchedulerSpec.GetProcessFinds` | kernel/scheduler.cpp:35-44 | The lookup finds a queued process with the pid, or null exactly when there is none |
| `SchedulerSpec.GetProcessFindsFirst` | kernel/scheduler.cpp:35-44 | Of several holders of a pid, the lookup finds the one queued first |
| `SchedulerSpec.StepKeepsInv` | kernel/scheduler.cpp:71-180 | Every step keeps: each live process once in queue or current, apart from those not scheduled yet; a current process owns the register block; a register block belongs to a live process that does not wait; an enabled address space belongs to a process that has one, and not to code that runs without being current; every listed wait block exists and is active; every block belongs to the process waiting on it; an active block can still be released |
| `SchedulerSpec.EveryRunKeepsInv` | kernel/scheduler.cpp:71-180 | The same in every state of every run |
| `SchedulerSpec.LiveChangesOnly` | kernel/scheduler.h:49 | Construction makes a process known, only scheduling makes it live, and only exit removes a live one |
| `SchedulerSpec.RegistersMatchExactly` | kernel/scheduler.cpp:134-180 | An interrupt leaves the register block to the current process, or empty with none, if and only if it does not take a blocked process while registers are in use |
| `SchedulerSpec.StrandedExactly` | kernel/scheduler.cpp:71-180 | Code runs while `current_process` is null exactly after interrupts that take a blocked process while registers are in use, and from then on until the next interrupt; it can run on, but exit, wait and fork dereference null |
| `SchedulerSpec.UserCodeAtHomeExactly` | kernel/scheduler.cpp:151-180 | A step leaves code of a process with its own address space in that space if and only if it is neither an interrupt that takes a blocked process, kernel threads included, while that code runs, nor the loading of an executable; for interrupts and forks wherever the code ran before |
| `SchedulerSpec.UserCodeStaysHome` | kernel/scheduler.cpp:134-180 | In every run without such steps user code is always in its own address space |
| `SchedulerSpec.BlockedInterruptWitness` | kernel/scheduler.cpp:151-164 | Two processes, the first waiting for the second: at the first's turn the second runs on without being current; kernel threads stay in the kernel's address space, a process with its own writes to the memory of the waiting one |
| `SchedulerFrame.StepFrame` | kernel/scheduler.cpp:71-180 | Which fields of which process each step may change; every other field of every process stays as it is, a new process is empty, and only exit removes one |
| `SchedulerFrame.SharedFrame` | kernel/waitblock.cpp:38-46 | The kernel's memory changes only by a running kernel thread or by the status word of one |
| `SchedulerFrame.HaltsExactly` | kernel/scheduler.cpp:140-147 | The kernel halts at an interrupt that finds no live process, and at no other step |
| `WaitProtocol.WaitStarts` | kernel/waitblock.cpp:10-30 | A wait blocks on the queued process with that pid, or is released at once with -1 |
| `WaitProtocol.WaitingStep` | kernel/waitblock.cpp:48-54 | A waiter keeps waiting over every step but the exit of the process waited for, which releases it with that pid and code |
| `WaitProtocol.ReleasedStep` | kernel/waitblock.cpp:38-46 | A released waiter keeps its result over every step until an interrupt takes it, which delivers pid and code and deletes the block |
| `SchedulerFrame.DeliveryExactly` | kernel/waitblock.cpp:38-46 | Delivering a result stores one word in the waiter's memory, or none if the status pointer is null, and changes no other process and no other memory |
| `WaitProtocol.WaitsUntilEnd` | kernel/scheduler.cpp:117-173 | In every run a waiter is never on the processor before the process waited for has ended |
| `WaitProtocol.NobodyExactly` | kernel/waitblock.cpp:13-29 | A wait finds nobody if and only if the pid is 0 or -1 or no queued process holds it |
| `WaitProtocol.WaitResult` | kernel/waitblock.cpp:10-54 | In every run, the next time a process that waited on a queued pid is on the processor, a process holding that pid has ended, r0 is that pid and the status word its exit code |
| `WaitProtocol.WaitOnNobody` | kernel/waitblock.cpp:20-29 | Waiting on a pid that no queued process holds yields -1 at the next dispatch |
| `PidRuns.WaitOnSelf` | kernel/waitblock.cpp:20-29 | In a run without a clash of pids, waiting on one's own pid yields -1 at the next dispatch |
| `PidRuns.HolderIsUnique` | kernel/scheduler.cpp:35-44 | In a run without a clash, the process a wait finds is the only one with that pid |
| `RoundRobin.Advances` | kernel/scheduler.cpp:126-179 | After j interrupts a process at queue place i is at place i - j, whatever exits, waits and schedules intervene |
| `RoundRobin.TurnComesExactly` | kernel/scheduler.cpp:140-152 | A process at place i is taken by exactly the (i+1)-th following interrupt |
| `RoundRobin.ReleasedRunsSoon` | kernel/scheduler.cpp:134-180 | A released waiter is back on the processor with its result within as many interrupts as there are queued processes, and not before its turn |
| `RoundRobin.WaitersTurnStrands` | kernel/scheduler.cpp:134-164 | In every run, at the turn of a process whose target has not ended, code is left running without a current process if and only if any ran |
| `Pids.Skips` | kernel/scheduler.cpp:22-33 | From any counter value the search meets a free pid after at most as many rejections as there are pids in use, even across 32-bit wrap-around, and rejects only pids in use |
| `Pids.SkipsToFirstFree` | kernel/scheduler.cpp:22-33 | What the search finds is the first value from the counter on that no queued process holds |
| `Pids.ClashExactly` | kernel/scheduler.cpp:26-32 | The pid of a process outside the queue is handed out if and only if it follows the counter with only queued pids in between |
| `PidRuns.StepKeepsPidsExactly` | kernel/process.cpp:94-105 | With pids allocated at construction and processes queued later, a step keeps the pids of all processes different if and only if it does not hand out the pid of one outside the queue, running or not yet scheduled |
| `PidRuns.PidsStayDifferent` | kernel/process.cpp:94-105 | In every run without such a step all processes have different pids |
| `PidRuns.StepClashesExactly` | kernel/scheduler.cpp:22-33 | Such a step happens if and only if the pid of a process outside the queue follows the counter with only queued pids in between |
| `PidRuns.ClashIsReachable` | kernel/scheduler.cpp:22-33 | A run from boot, in which a kernel thread makes 2^32 - 1 others that end, after which the next one gets the pid of the first, which is running |
| `Scheduler.Scheduler.AllocatePid` | kernel/scheduler.cpp:22-33 | Terminates within queue length + 1 attempts with a pid no queued process holds |
| `Scheduler.Scheduler.Create` | kernel/process.cpp:94-105 | One numbered Create step: a pid from the allocator, and the address space that thread construction, loading or forking leaves enabled |
| `Scheduler.Scheduler.EnableAddrspace` | kernel/kthread.cpp:31-34 | A kernel thread leaves no address space enabled, another process its own |
| `Scheduler.Scheduler.GetProcess` | kernel/scheduler.cpp:35-44 | The loop over queue nodes computes the lookup |
| `Scheduler.Scheduler.Schedule` | kernel/scheduler.h:49 | One Schedule step: a constructed process goes to the back of the queue |
| `Scheduler.Scheduler.Interrupt` | kernel/scheduler.cpp:134-180 | One Interrupt step, with the halting, blocking, releasing and plain branches and the switch of address space before them |
| `Scheduler.Scheduler.SyscallExit` | kernel/scheduler.cpp:71-86 | One Exit step: every listener told, the process deleted |
| `Scheduler.Scheduler.SyscallWait` | kernel/scheduler.cpp:117-132 | One Wait step |
| `Scheduler.Scheduler.NewBlock` | kernel/waitblock.cpp:10-30 | The wait block constructor registers with the process waited for, or starts released with -1 |
| `Scheduler.Scheduler.BlockReturn` | kernel/waitblock.cpp:38-46 | Writes r0 and, if there is one, the status word of the caller only, for a kernel thread in the kernel's address space |
| `SdProtocol.StepKeepsInv` | kernel/sd.cpp:18-29 | In every interleaving of posts and interrupts: requests pass from queue to active to completed in posting order; an idle driver has queued requests only while some post is between its steps; a completed request has all its blocks; every command reads the block after those already read, inside the request |
| `SdProtocol.EveryRunKeepsInv` | kernel/sd.cpp:457-532 | The same in every state of every run, whatever the controller signals |
| `SdProtocol.NothingStranded` | kernel/sd.cpp:18-29 | Completed requests are a prefix of the posted ones, and once all posts are through, an idle driver has completed them all |
| `SdProtocol.OtherInterruptsIgnored` | kernel/sd.cpp:466-472 | Interrupts of other devices, and any while nothing is being read, change nothing |
| `SdService.EveryRunServes` | kernel/sd.cpp:466-532 | With a controller that signals only what it owes, the command log is, request after request in posting order, one command for each consecutive block, and no others |
| `SdService.StepWork` | kernel/sd.cpp:501-516 | Each transfer-complete interrupt does one unit of work, and only a push adds any |
| `SdService.WorkConserved` | kernel/sd.cpp:466-532 | Over every run, work posted equals transfers completed plus work left |
| `SdService.AllCompletedExactly` | kernel/sd.cpp:466-532 | All posted requests are complete if and only if the transfers completed make up the work posted |
| `SdService.PostedAsRequested` | kernel/sd.cpp:18-30 | In every run the requests known are those posted, in order, with the blocks and address they came with |
| `SdService.AllReadAsPosted` | kernel/sd.cpp:457-534 | When everything posted is complete, the controller has been sent exactly the consecutive blocks of each request as posted, in posting order |
| `SdDriver.Driver.PushRead` | kernel/sd.cpp:20-21 | The first atomic half of a post |
| `SdDriver.Driver.StartIfIdle` | kernel/sd.cpp:26-28 | The second atomic half of a post |
| `SdDriver.Driver.InitiateNextRead` | kernel/sd.cpp:527-532 | Takes the next request, if any, marks it in progress and sends its first command |
| `SdDriver.Driver.IrqHandler` | kernel/sd.cpp:466-525 | One interrupt step with all its branches |
| `KString.Buffer.Substring` | kernel/kstring.cpp:19-30 | The characters the constructor copies, and the closing zero |
| `KString.SubstringExactly` | kernel/kstring.cpp:19-30 | The constructor copies the characters asked for if and only if the sum of the offsets stays within the string or the end offset reaches its end; otherwise it copies up to the end |
| `KString.SubstringWitness` | kernel/kstring.cpp:23-24 | Asking for characters 2 to 5 of a string of 6 yields one too many |
| `KString.Equals` | kernel/kstring.cpp:169-180 | The comparison loop decides equality |
| `Mounts.AddKeepsExactly` | kernel/vfs.cpp:131-156 | A mount keeps the list longest first with "/" last if and only if its path is not empty |
| `Mounts.EveryMountSequence` | kernel/vfs.cpp:23-48 | After any sequence of mounts at non-empty paths, failed ones included, the list is in order |
| `Mounts.AddKeepsOthers` | kernel/vfs.cpp:131-156 | A mount adds itself and loses no other |
| `Mounts.MountStepExactly` | kernel/vfs.cpp:23-48 | A call mounts, adding just its own mount, unless it has no file system or comes before "/" |
| `Mounts.MountedExactly` | kernel/vfs.cpp:23-48 | After any sequence of calls exactly the mounts of the accepted ones are there |
| `Mounts.LongestPrefixDispatch` | kernel/vfs.cpp:76-96 | Every path that some mount begins goes to a longest such mount, with the whole path if that is "/" and otherwise with what comes behind it |
| `Mounts.RootTakesWholePath` | kernel/vfs.cpp:76-96 | A path starting with "/" always goes somewhere; if nothing but "/" begins it, all of it |
| `Mounts.PrefixIgnoresComponents` | kernel/vfs.cpp:82-83 | A mount at /mnt takes /mnt2/a over |
| `Mounts.DispatchFindsNothing` | kernel/vfs.cpp:76-96 | A path goes nowhere if and only if no mounted path begins it |
| `Mounts.MountTakesOver` | kernel/vfs.cpp:131-156 | A new mount at any non-empty path, "/" included, takes over exactly the paths it begins and no other mount, the last one not counted, at least as long does; all others are dispatched as before |
| `Mounts.EmptyPathHides` | kernel/vfs.cpp:137-146 | A mount at the empty path takes over every path that only the last mount served |
| `Vfs.VirtualFs.AddMountpoint` | kernel/vfs.cpp:131-156 | The splice into the doubly linked list gives the specified list, next and prev being inverse |
| `Vfs.VirtualFs.MountAt` | kernel/vfs.cpp:23-48 | Mounting fails without a file system or before "/", and otherwise adds the mount and marks "/" usable |
| `Vfs.VirtualFs.Lookup` | kernel/vfs.cpp:76-118 | The traversal shared by opening files and reading directories computes the dispatch |
| `FatChain.ClustersDisjoint` | kernel/filesystems/fat32.cpp:344-347 | Different data clusters do not overlap while the address arithmetic stays within 32 bits |
| `FatChain.StoredTableIsFollowed` | kernel/filesystems/fat32.cpp:365-393 | On a volume that stores a table of entries across its sectors, the next cluster is what the lower 28 bits of the cluster's own entry say, 0 for an end mark, and 1 if the entry's block cannot be read |
| `FatChain.StoredChainIsFollowed` | kernel/filesystems/fat32.cpp:365-393 | Following a stored chain visits exactly its clusters in order, as far as the blocks with their entries can be read, and then ends; whatever the reserved bits hold |
| `FatChain.LowestByteFirst` | kernel/filesystems/fat32.cpp:384 | Entries have their lowest byte first |
| `ChainBytes.OutcomeIsSlice` | kernel/filesystems/fat32_file.cpp:20-61 | With a buffer of one cluster, whatever the number of sectors, a read succeeds if and only if the offset is within the file and yields exactly the slice [offset, min(offset + size, length)) of its clusters' data |
| `ChainBytes.UnreadableCutsFile` | kernel/filesystems/fat32.cpp:377-382 | If the block with the first cluster's entry cannot be read, every read is the slice of that cluster alone |
| `ChainBytes.ReadIsSlice` | kernel/filesystems/fat32_file.cpp:43-58 | With any buffer size, a read is the slice of the buffers read one after the other, whatever part of them the data fills |
| `ClusterSize.ShiftExactly` | kernel/filesystems/fat32_file.cpp:13 | In 32 bits the shift gives the size of a cluster if and only if there are at most 2 sectors, more up to 23, and 0 from 24 on |
| `ClusterSize.ShiftDoubles` | kernel/filesystems/fat32_file.cpp:13 | It doubles with each further sector, from 512 on |
| `ClusterSize.WrittenReadsExactly` | kernel/filesystems/fat32_file.cpp:13-61 | As written, for 1 to 23 sectors, a read is right on every volume if and only if there are at most 2 sectors, or it stays in the first cluster, or it reads nothing and skips as many buffers as clusters |
| `ClusterSize.WrittenReadIsWrong` | kernel/filesystems/fat32_file.cpp:13-61 | Every other read finds, on a volume given here, an outcome the file does not have |
| `ClusterSize.StaleHalfPage` | kernel/filesystems/fat32_file.cpp:42-48 | Four sectors per cluster: reading a page of a file of one cluster returns a whole page whose second half is what the buffer held before |
| `ChainWalk.EndsExactly` | kernel/filesystems/fat32_file.cpp:29-40 | The walk to the offset ends if and only if the buffer has a size, or there is nothing to skip, or the chain ends |
| `ChainWalk.EveryWalkEndsExactly` | kernel/filesystems/fat32_file.cpp:29-40 | Walks end on every table, cyclic ones included, if and only if the buffer has a size |
| `FatFile.WalksEndExactly` | kernel/filesystems/fat32_file.cpp:13-40 | As written, that is if and only if a cluster has fewer than 24 sectors |
| `FatFile.GetNextCluster` | kernel/filesystems/fat32.cpp:365-393 | The lookup through one sector of the table, with read failure, reserved bits and end marks |
| `FatFile.File.constructor` | kernel/filesystems/fat32_file.cpp:11-14 | Keeps the buffer size, as meant or as the 32-bit shift computes it |
| `FatFile.File.Seek` | kernel/filesystems/fat32_file.cpp:29-40 | Takes the turns of the walk; fails exactly when the chain ends before the offset, and otherwise finds cluster and rest, a full buffer of rest included; ends whenever the walk does |
| `FatFile.File.Read` | kernel/filesystems/fat32_file.cpp:20-61 | Has the specified outcome on the chain read through its buffer, with nothing beside the cluster data if the size is as meant; leaves the rest of the destination alone; ends whenever its buffer can hold a block |

## Left out

- Heap.Mm.Allocate: requires the alignment condition under which the unsigned room test is sound; every caller in the kernel meets it, and beyond it the code would use a null block.
- Mmu.TranslationTable.MapInterval: requires an interval that ends at least a page below 2^32, without which the loop does not end, and virtual addresses within the table.
- Process.Process.CopyAddressSpace: requires every page of both regions to be backed by memory, the null page included after a failed allocation.
- Process.Process.ForkFrom: the same.
- Scheduler.Scheduler.EnableAddrspace: only kernel threads implement it in the repository; other processes are taken to enable their own table, as kernel/process.h:51-54 documents.
- Scheduler.Scheduler.Create: a process is scheduled at most once, and none is thrown away before that (a forked child always comes out usable); the fork handler's part is modelled although `fork` itself makes no child yet.
- SchedulerSpec.StrandedExactly: what a call through the null pointer then does; such calls are not steps of the model.
- Where a status word lies: in the kernel's address space for a kernel thread, in its own for any other process, not by its address.
- Scheduler.Scheduler.NewBlock: waiting for any child always finds none, because nothing fills the list of children while the body of `fork` is commented out.
- FatFile.File.Read: block reads of file data succeed, since the code ignores their result; failures of table reads are modelled. With a buffer of size 0 it requires a read that takes in no block, since the code would write past its buffer.
- FatFile.File.constructor: one or more sectors per cluster, as the format demands; a shift by 32 or more is taken to give 0.
- KString.Buffer.Substring: requires offsets in order and a start within the string, without which the code computes a negative length.
- SdDriver.Driver.IrqHandler: moving the data words, whose placement for several blocks mixes bytes and words, and clearing of status bits.
- Lifetime of read requests: `complete` may delete the object its poster still polls; here requests stay.
- The allocator used before the MMU is on, and zeroing of memory.
- Failure of the kernel heap itself inside `map_page`, process and queue node creation.
- Address-space identifiers, TLB maintenance, cache and barrier instructions.
- Physical addresses of kernel objects: a fixed one-to-one function that keeps offsets within a kilobyte.
- Process images: the application header and copying of its sections.
- `set_child_termination_listener`, `remove_termination_listener` and the process's own listener role.
- `kqueue::clear` and the queue destructor; iteration appears in the loops that use it.
- SD card and controller initialisation, other commands, error status and retries.
- `kstring` operations other than the substring constructor and comparison; lengths above 2^30.
- Unmounting, free-space queries and opening of files inside a file system.
- FAT32 boot sector, directories and long names; writing.
- `expandable_array` and the device manager: the capacity is initialised from itself and stores are dropped.
- UART, timer, clocks, system control, interrupt controller, aborts, system call tables, streams and the C library stubs.
