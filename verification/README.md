# NWIN-OS kernel: verified model

A Dafny model of the parts of the NWIN-OS kernel whose correctness depends on invariants across
many calls: physical memory and address spaces, tasks and synchronisation, and the two file
systems. `dafny verify dfyconfig.toml` checks everything.

## What is modelled

**Physical memory** (`FrameAllocator.dfy`). The bitmap allocator with its parallel 16-bit
reference counts and its search hint, first as a value (`FrameState`) and then as the class that
works in place on the two arrays and refines it. A frame's bit is set exactly if its count is
positive, everything below the hint is busy, and over a whole run each count equals a ledger of
references handed out and taken back.

**Address spaces** (`PageTables.dfy` to `CopyOnWrite.dfy`). Physical memory is a map from frames
to tables of 512 entries or to bytes; `map_to`, `unmap` and `translate` have explicit definitions
on it. The central notion is reference counting across page tables: `Refs(m, f, level, x)` is how
often the tree under table `f` refers to frame `x`, and the world is `Consistent` when each
address space is a tree of its own whose references, summed over all address spaces, never exceed
the allocator's counts. The difference (`Outside`) is what mapping, copy-on-write and teardown
conserve. `Budgets.dfy` counts frames: what a mapping takes, when it fails, and so when creating,
using and destroying an address space gives back every frame.

**ELF loading and memory system calls** (`ElfFormat.dfy`, `ElfLoader.dfy`, `Syscalls.dfy`). They run
on the same machine: after a successful load, reading through the page tables gives the image the
program headers describe; the heap and the ranges `mmap` hands out stay mapped, writable and apart.
`ElfFormat.dfy` writes file and program headers as encodings of their fields, independently of how
the loader reads them.

**Tasks** (`Tasks.dfy` to `Reaper.dfy`). One step per section that runs with interrupts off:
spawn, wait, block, wake, exit, tick, and the reaper's scan and kill. `Sound` says that queue,
states and registry agree and that stack pointer, CR3, RSP0 and KERNEL_RSP belong to the current
task; it holds on every run. `Transitions.dfy` says what each step does to each task and
`Resumption.dfy` that a preempted task goes on where it stopped. The classes in `TaskManager.dfy` are the same operations updating
their fields in place; `Reaper.dfy` joins them with the teardown of address spaces.

**Semaphores** (`Semaphores.dfy`). Loads, compare-exchanges, slow-path sections, `fetch_add` and
dequeue halves of a signal, condition waits and notifications interleave freely, with spurious
resumes as steps of their own.

**File systems** (`Disks.dfy`, `Fat16.dfy`, `Ext4*.dfy`). A disk maps sector numbers to 512 bytes;
sectors may be unreadable or read-only. Reading is specified by one predicate, `ReadsPrefix`,
against a byte-by-byte definition of what a file holds. What the drivers read is also compared with
the formats written out as such: `Fat16Image.dfy` lays a partition out part by part, `Ext4Format.dfy`
encodes descriptors, inodes, extents and directory records (`Records.dfy` has the numbers). For ext4 the model goes from single bytes
of records and inodes up to creating a file on any well-formed image and reading it back. Adding a
directory entry is modelled on arbitrary bytes, with leaving the buffer as an outcome of its own.
`Ext4Sample.dfy` exhibits a well-formed image, and one with 1 KiB blocks on which the driver hands
out a block in use.

Integer widths are explicit where they matter: the `u16` counts, the `u16` product in the ELF
loader, the `u32` semaphore counter and logical block numbers, the one-byte name length, and
64-bit rounding. Where documentation and code differ, the model follows the code: the copy of a
shared page starts at the faulting address rather than at its page, a file name is stored with
its length cut to a byte, `mmap` rounding wraps, a bit of the block bitmap is taken for the block of
that number whatever the first data block, and every inode counts eight sectors.

Properties that fail in general are stated with their exact condition: `ReferencePreservesIff`,
`MetadataReservedIff`, `MapFreshCost`, `LeaksIff`, `ConservesIffOwnSlot`, `ClonePreservesIff`,
`HeaderAtIff`, `ImageRuleIff`, `RoundUpCoversIff`, `HeapApartIff`, `AcceptedIff`, `KillWakesIff`,
`NameKeptIff`, `OverrunIff`, `HandedOutIff`, `SectorCountIff`, `DescriptorIff`, `ExtentRuleIff`. Concrete failing inputs are given by
`LeakingState`, `SharedSlotHazard`, `GrowOverMapping`, `ShieldedTables`, `ShortRecordOverruns`,
`CutHeader`, `HandsOutRootBlock` and `SleepingHolder`; `LostWakeup` is a run that loses a wake-up,
and `LostOnlyToOutdated` says what every such run must contain.

## Model

| member | source | states |
|---|---|---|
| `FrameState.FirstFree` | src/mm/memory.rs:167-184 | everything from `i` up to the result is busy and the result, if in range, is free |
| `FrameState.AllocatePreserves` | src/mm/memory.rs:167-184 | allocation keeps bit = (count > 0) and the hint's promise |
| `FrameState.DeallocatePreserves` | src/mm/memory.rs:190-209 | dropping a reference keeps the invariant, also when the hint moves back |
| `FrameState.ReferencePreservesIff` | src/mm/memory.rs:213-219 | sharing keeps the invariant exactly if the count is not already 65535 |
| `FrameState.NoRunAcross` | src/mm/memory.rs:238-254 | a busy frame rules out every long enough run starting at or before it: the reason skipping ahead is complete |
| `FrameState.StepPreserves` | src/mm/memory.rs:167-256 | every allocator call keeps the invariant and changes each count by the references it moved |
| `FrameState.RunInvariant` | src/mm/memory.rs:59-256 | over every run the invariant holds and each count is its initial value plus the ledger of outstanding references |
| `FrameAllocator.MetadataReservedIff` | src/mm/memory.rs:123-128 | all frames holding allocator metadata are reserved exactly if the metadata does not spill past the frames its size accounts for |
| `FrameAllocator.AlignedMetadataReserved` | src/mm/memory.rs:123-128 | with a page-aligned host region the frames set aside are exactly those that hold a byte of metadata |
| `FrameAllocator.MaxTopIsHighest` | src/mm/memory.rs:63-73 | the recursive definition of the top is an upper bound of all counted ends and is attained |
| `FrameAllocator.TopFrame` | src/mm/memory.rs:63-75 | every byte of a region that counts, and every frame wholly in it, is among the frames counted, which are no more than needed |
| `FrameAllocator.MetadataFits` | src/mm/memory.rs:77-81 | bit and 16-bit count of every frame have their place in the metadata, the counts on a multiple of 8 behind the bitmap, and nothing is left over |
| `FrameAllocator.InitReached` | src/mm/memory.rs:112-130 | freeing the usable frames and then reserving metadata and frame 0 gives the state `InitState` describes frame by frame |
| `FrameAllocator.InitStateInv` | src/mm/memory.rs:99-131 | the initial state satisfies the allocator invariant |
| `FrameAllocator.HighestTop` | src/mm/memory.rs:63-73 | the end of some region that counts and at least the end of each, or 0 if none counts |
| `FrameAllocator.FindHost` | src/mm/memory.rs:83-92 | the first usable region large enough for the metadata, or none if there is none |
| `FrameAllocator.Allocator.Init` | src/mm/memory.rs:59-131 | fails exactly if no region can host the metadata; otherwise the arrays represent the initial state and, with an aligned host, a frame is free iff it lies wholly in a usable region, holds no metadata byte and is not frame 0 |
| `FrameAllocator.Allocator.ForceSetBit` | src/mm/memory.rs:137-143 | bit-level store: this frame busy with one reference, all others as before |
| `FrameAllocator.Allocator.ForceFreeBit` | src/mm/memory.rs:145-151 | bit-level store: this frame free with none, all others as before |
| `FrameAllocator.Allocator.BitIsSet` | src/mm/memory.rs:153-160 | reads the abstract busy flag; out of range reads as busy |
| `FrameAllocator.Allocator.AllocateFrame` | src/mm/memory.rs:167-184 | despite starting at the hint, always the globally lowest free frame; the wrap-around loop never succeeds and `None` means nothing is free |
| `FrameAllocator.Allocator.DeallocateFrame` | src/mm/memory.rs:190-209 | refines the abstract drop of a reference, including both panics |
| `FrameAllocator.Allocator.ReferenceFrame` | src/mm/memory.rs:213-219 | refines the abstract wrapping increment |
| `FrameAllocator.Allocator.GetRefCount` | src/mm/memory.rs:223-227 | the count, or 1 out of range |
| `FrameAllocator.Allocator.RunLength` | src/mm/memory.rs:240-248 | the free frames from `i` before the first busy one, at most `count` |
| `FrameAllocator.Allocator.AllocateContiguousFrames` | src/mm/memory.rs:232-256 | sound and complete first fit: the lowest start of a free run, exactly that run marked, `None` iff no such run exists |
| `Paging.MapToEvolves` | src/mm/memory.rs:479-497 | `map_to` on a tree keeps it a tree, keeps other frames' contents and counts, and accounts for every reference: the leaf's frame gains one, new tables are paid for by allocation |
| `Lookups.MapToFound` | src/mm/memory.rs:479-497 | a successful mapping is what the next translation finds |
| `Lookups.MapToKeeps` | src/mm/memory.rs:479-497 | mapping one page changes the translation of no other page |
| `Lookups.SharedFrame` | src/mm/memory.rs:509-526 | two different pages on one frame account for two references |
| `Lookups.MapToPersists` | src/mm/memory.rs:479-497 | mapping never removes or redirects an entry in use, nor takes a flag from it, in any tree |
| `Lookups.MapToWritable` | src/mm/memory.rs:486-497 | a page mapped writable has write access as the processor checks it: present, user and writable at every level, nothing huge |
| `Lookups.MapToKeepsAccess` | src/mm/memory.rs:486-497 | mapping a page takes write access from no other |
| `Budgets.MapToCost` | src/mm/memory.rs:479-497 | on an unmapped page of a tree `map_to` succeeds exactly if the missing tables on its path are no more than the free frames, and then takes just those |
| `Budgets.MapToFails` | src/mm/memory.rs:479-497 | a failing `map_to` has used up every free frame and left its page unmapped |
| `Budgets.MissingAfter` | src/mm/memory.rs:479-497 | how many tables any other page still misses after a mapping: those beyond the part of the path the two share |
| `World.WorldStep` | src/mm/memory.rs:457-504 | a change in one address space that evolves it properly keeps the whole world consistent and the other spaces' share unchanged |
| `World.WorldAlloc` | src/mm/memory.rs:167-184 | taking a frame keeps the world consistent, the frame being referenced by nobody's tables |
| `World.WorldDrop` | src/mm/memory.rs:345-350 | dropping a reference held outside the tables keeps the world consistent |
| `World.PageIsPlain` | src/mm/memory.rs:509-526 | a mapped page's frame is no page table of any address space |
| `World.WriteKeepsPages` | src/task/elf.rs:106-118 | writing into a mapped page's frame changes no translation |
| `AddressSpaces.PathsDiffer` | src/mm/memory.rs:457-504 | different lower-half pages have different index paths |
| `AddressSpaces.PathRoundTrip` | src/mm/memory.rs:457-504 | the four indices are the page number in base 512, top digit first |
| `AddressSpaces.WorldAdd` | src/mm/memory.rs:606-640 | a fresh PML4 without live user entries joins a consistent world |
| `AddressSpaces.WorldRemove` | src/mm/memory.rs:528-600 | after teardown the world without that address space is consistent and every outside reference is where it was |
| `Teardown.InnerDone` | src/mm/memory.rs:541-594 | finishing a child table releases exactly the references its subtree held, whatever the level |
| `Teardown.LeafDone` | src/mm/memory.rs:572-581 | releasing a leaf entry never panics and drops exactly its reference |
| `PageTables.HugeNotFollowed` | src/mm/memory.rs:544-566 | on any tables: a huge page of level 2 or 3 accounts for its own frame and is not followed |
| `Machines.Machine.AllocateAndMapUserPage` | src/mm/memory.rs:457-504 | the result is decided by the state before: the page is mapped, no frame is free, or, losing one frame, there is a frame for the page but not for all missing tables; the free frames drop by exactly the cost; a mapped page lies on a fresh zeroed frame with one reference, user code can write it, every page that could be written still can, and nothing else is touched |
| `Machines.Machine.CopyKernelEntries` | src/mm/memory.rs:618-637 | the new PML4 has the active upper half and, of the lower half, only what user code cannot reach |
| `Machines.Machine.CreateIsolatedPml4` | src/mm/memory.rs:606-640 | fails exactly if no frame is free; otherwise a fresh frame becomes an address space of its own that translates kernel pages of both halves as the active one does and user pages not at all; no other frame changes, outside references are conserved |
| `Machines.IsolatedTranslations` | src/mm/memory.rs:618-637 | page by page: what user code cannot reach translates in the new space as in the active one, the rest of the lower half to nothing |
| `Machines.Machine.DestroyTable` | src/mm/memory.rs:537-596 | the nested loops release each table and page of a tree exactly once, never panic, and change no frame outside it |
| `Machines.Machine.DestroyUserAddressSpace` | src/mm/memory.rs:528-600 | afterwards the space holds no reference, the rest of the world is consistent and the kernel half is untouched |
| `Machines.MapSpecKeeps` | src/mm/memory.rs:457-504 | whatever mapping a page returns, the world stays consistent, other pages keep their translation and at most the one leaked frame is unaccounted for |
| `Machines.MapFreshCost` | src/mm/memory.rs:457-504 | in every consistent world a fresh page is mapped exactly if the frames left after the one for the page cover the missing tables |
| `Machines.MapFreshAccess` | src/mm/memory.rs:486-497 | in every consistent world a freshly mapped page can be written and no page loses write access |
| `LifeCycle.CreateUseDestroy` | src/mm/memory.rs:457-640 | create, any sequence of mappings outside shared slots, destroy: the outcome of every mapping is foretold by the number of free frames and the list of pages; every bit and count is restored exactly if the frames do not run out half-way through a page, and otherwise one single reference is lost; no panic, kernel tables untouched |
| `LifeCycle.MapAll` | src/mm/memory.rs:457-504 | the statuses of a whole sequence of mappings are those predicted from the number of free frames, and one reference is lost per failed one |
| `LifeCycle.LeaksIff` | src/mm/memory.rs:457-504 | of the predicted mappings one fails with a loss exactly if the free frames run out between a page and the last of its tables, and never more than one |
| `LifeCycle.AllMappedIff` | src/mm/memory.rs:457-504 | all pages are mapped exactly if the frames needed for the pages and their distinct tables are free |
| `LifeCycle.FourEach` | src/mm/memory.rs:457-504 | four free frames a page exclude both failure and loss |
| `LifeCycle.LeakingState` | src/mm/memory.rs:479-495 | a concrete state in which the mapping fails and the page's frame keeps a reference that no table accounts for |
| `LifeCycle.SharedSlotHazard` | src/mm/memory.rs:630-637 | mapping through a slot shared with the kernel takes the kernel's table into the task's tree without a reference |
| `LifeCycle.ConservesIffOwnSlot` | src/mm/memory.rs:457-640 | references outside the task's tree are conserved exactly if the page's PML4 slot is the task's own |
| `CopyOnWrite.SetLeafEvolves` | src/mm/memory.rs:410-438 | rewriting one leaf entry keeps the tree and moves exactly the references the old and new entry stand for |
| `CopyOnWrite.RemapSucceeds` | src/mm/memory.rs:431-437 | mapping again after unmapping needs no new table and cannot fail |
| `CopyOnWrite.SoleOwner` | src/mm/memory.rs:407-418 | a frame with one reference is made writable in place: all other pages and counts stay |
| `CopyOnWrite.SetLeafAccess` | src/mm/memory.rs:410-418 | a page made writable in place can be written exactly if the tables above it are writable |
| `CopyOnWrite.CloneShared` | src/mm/memory.rs:420-441 | cloning moves the page to its own copy, drops one reference to the shared frame, and changes no other mapping or frame |
| `CopyOnWrite.CloneIsSole` | src/mm/memory.rs:420-441 | after cloning the page is writable on a frame nobody else maps |
| `CopyOnWrite.ClonePreservesIff` | src/mm/memory.rs:426-429 | the copy equals the page for every memory exactly if the fault address is page-aligned |
| `CopyOnWrite.CopiedIsPhysical` | src/mm/memory.rs:426-429 | what is copied is 4096 consecutive bytes of physical memory from the faulting address on, across the end of the frame |
| `CopyOnWrite.NoHugePage` | src/mm/memory.rs:362-378 | user trees contain no huge page, so translation always ends at a level-1 entry |
| `CopyOnWrite.HugeHasNoEntry` | src/mm/memory.rs:362-378 | on any tables: where the walk meets a huge page there is no level-1 entry |
| `CopyOnWrite.ResolveCowFault` | src/mm/memory.rs:384-442 | false exactly if unmapped, or shared with no frame free, and then nothing changed; true leaves a sole writer with exactly the bytes the code copies, the old ones for aligned faults, all else kept; the store that faulted then goes through exactly if the page was shared or the tables above it were writable |
| `ElfLoader.HeaderAtIff` | src/task/elf.rs:65-66 | the header read is the one the format means exactly while the 16-bit product does not wrap |
| `Records.DigitsRead` | src/task/elf.rs:56-59 | a number written in so many bytes, lowest first, is read back |
| `ElfLoader.FileHeaderParsed` | src/task/elf.rs:52-59 | for every file whose first 64 bytes encode an ELF header: entry point, program header offset, size and count are the encoded ones, and it is refused exactly for a wrong magic number or class |
| `ElfLoader.SegmentsParsed` | src/task/elf.rs:65-75 | the segment found in a program header is the one its 56 encoded bytes describe: offset, address and sizes if the type is 1 and the size in memory positive, none otherwise |
| `ElfLoader.ProgramWellFormed` | src/task/elf.rs:65-126 | what the loader asks of a file, in terms of its encoded program headers |
| `ElfLoader.ImageRuleIff` | src/task/elf.rs:92-99 | the bytes loaded follow the format for every file exactly unless the segment has file bytes at address 0 |
| `ElfLoader.DistinctFrames` | src/task/elf.rs:82-118 | loaded pages lie on different frames |
| `ElfLoader.MapSegment` | src/task/elf.rs:77-88 | if all pages map, every page the segment touches is loaded and blank where nothing was written; earlier pages keep their bytes |
| `ElfLoader.CopySegment` | src/task/elf.rs:90-124 | the page-split copy puts exactly the file bytes at the segment's addresses and changes no other byte of the image |
| `ElfLoader.ImageStep` | src/task/elf.rs:65-126 | a further byte-disjoint segment extends the image without disturbing earlier ones |
| `ElfLoader.LoadElf` | src/task/elf.rs:51-133 | on success every byte of every loadable segment reads back as the file or zero, even where segments share a page, and every page touched can be written; for every encoding of the file the entry point and the image are those of the encoded headers; four free frames a page guarantee success; header errors change nothing |
| `ElfLoader.FormatImage` | src/task/elf.rs:51-133 | where neither the 16-bit product wraps nor a segment has file bytes at address 0, the loader's image is the one the ELF format prescribes, byte by byte |
| `ElfLoader.ProgramImage` | src/task/elf.rs:51-133 | for every ordinary program, given by its encoded headers, memory holds each loadable segment's file bytes at its address and zeros up to its size |
| `Syscalls.RoundUpCoversIff` | src/core/syscall.rs:322 | the rounded length covers the request exactly if rounding does not wrap |
| `Syscalls.MapPages` | src/core/syscall.rs:328-337 | success means every page of the range is mapped, and four free frames a page guarantee it; pages mapped before keep translation, contents and access either way, new ones can be written |
| `Syscalls.UserMemory.constructor` | src/task/task.rs:150-165 | a new task starts with an empty heap at 8 GiB and no handed-out range, mappings to come from 64 TiB on |
| `Syscalls.UserMemory.Brk` | src/core/syscall.rs:352-400 | every page of the heap stays mapped; a refused or failed call leaves the break where it was; shrinking, and growing with frames enough, succeed |
| `Syscalls.UserMemory.Mmap` | src/core/syscall.rs:304-350 | a kernel-chosen range starts at the cursor, is aligned and fully mapped, and only success moves the cursor; with an admissible range and frames enough it succeeds |
| `Syscalls.RangesSeparate` | src/core/syscall.rs:322-344 | after any sequence of calls the kernel-chosen ranges are aligned, mapped and pairwise disjoint |
| `Syscalls.HeapApartIff` | src/core/syscall.rs:362-397 | heap and chosen ranges share no address exactly while the break is at most the mmap base, or nothing was handed out |
| `Syscalls.GrowOverMapping` | src/core/syscall.rs:304-400 | given frames for a heap of that size, one mapping and one `brk` lead to a state where a byte belongs to both |
| `Syscalls.IsValidUserMemory` | src/core/syscall.rs:74-94 | accepts exactly the buffers below the limit all of whose bytes the kernel's walk takes for accessible; where no entry shields them, exactly those user code can access with the USER bit required at every level |
| `Syscalls.AcceptedIff` | src/mm/memory.rs:685-723 | on arbitrary tables: a page is accessible at every level exactly if the leaf-only test accepts it and no entry above the deciding one is supervisor-only |
| `Syscalls.ShieldedTables` | src/mm/memory.rs:703-723 | tables on which the leaf-only test accepts what user code cannot reach |
| `Syscalls.OwnPagesExact` | src/mm/memory.rs:685-723 | in a consistent world, in a task's own slots, nothing is shielded: acceptance, access at every level and translation agree |
| `Syscalls.MappedIsAccepted` | src/mm/memory.rs:685-723 | a page in an address space's own slots passes the user-accessibility walk exactly if it translates |
| `Syscalls.OwnMemoryAccepted` | src/core/syscall.rs:74-94 | memory obtained from brk or mmap can be reached by user code, can be written unless the task started with that page mapped read-only, and is accepted when passed back to the kernel |
| `Syscalls.OwnBufferAccepted` | src/core/syscall.rs:74-94 | every buffer inside the heap or the chosen ranges passes the check as a whole |
| `ReadyQueues.PositionWithout` | src/task/task_manager.rs:115-123 | removing another task never moves a queued task back |
| `TaskStates.NewTask` | src/task/task.rs:84-166 | the first context lies in the task's own 64 KiB stack; context and return frame end at its highest 16-byte boundary |
| `TaskStates.SetStateCoherent` | src/task/task_manager.rs:115-123 | a state change keeps queue, states and registry in agreement |
| `TaskStates.ExitCoherent` | src/task/task_manager.rs:158-163 | exiting leaves no Dead current task and no queued Dead task |
| `TaskStates.RegisterCoherent` | src/task/task_manager.rs:74-96 | a newly registered task is queued exactly once |
| `TaskStates.KillCoherent` | src/task/task_manager.rs:189-204 | reclaiming a Dead task keeps the agreement, also when it wakes the parent |
| `TaskStates.KillWakesIff` | src/task/task_manager.rs:189-204 | a Blocked task is readied and queued by a kill exactly if it is the killed task's parent |
| `TaskStates.DispatchCoherent` | src/task/scheduler.rs:35-50 | the task switched to was queued and registered and is now current; nobody Ready is lost |
| `Scheduling.SwitchOnCpu` | src/task/scheduler.rs:47-100 | after a tick stack pointer, CR3, KERNEL_RSP and, for user tasks, RSP0 belong to the current task |
| `Resumption.TickSwitches` | src/task/scheduler.rs:47-100 | a switch saves the processor's stack pointer in the task that leaves and loads the one saved in the task that comes |
| `Resumption.ResumesWhereItStopped` | src/task/scheduler.rs:31-101 | on every run a living task stands at the stack pointer its own last step left it at, whatever was preempted, blocked, woken, spawned or reaped in between, with the same stack, address space and parent |
| `Resumption.StartsAtItsEntry` | src/task/task.rs:84-166 | until it has run, a spawned task stands on the context made for it |
| `Scheduling.StepSound` | src/task/scheduler.rs:31-101 | each of the ten kinds of step keeps `Sound` |
| `Scheduling.RunSound` | src/task/task_manager.rs:60-204 | dispatch coherence on every run |
| `Transitions.StepStates` | src/task/task_manager.rs:98-204 | the state of every task after every step: who changes, to what, and nobody else |
| `Transitions.StepTasks` | src/task/task_manager.rs:74-204 | tasks appear only by spawning, Ready and as the current one's children, and disappear only by being reaped |
| `Transitions.SleepsUntilRoused` | src/task/task_manager.rs:149-172 | on every run a Blocked task that is not running stays so until it is unblocked or a child of it is reaped |
| `Transitions.RousedWaitsItsTurn` | src/task/task_manager.rs:166-204 | what ends the sleep makes the task Ready and puts it in the queue |
| `Transitions.ExitIsFinal` | src/task/task_manager.rs:158-163 | on every run a task that has exited is never current again |
| `Scheduling.BootSound` | src/task/task_manager.rs:49-57 | the boot state is sound |
| `Scheduling.DeadUntilReclaimed` | src/task/mod.rs:36-57 | on every run a Dead task stays Dead until the reaper takes it and never returns |
| `Scheduling.ReaperPass` | src/task/mod.rs:39-57 | one pass reclaims every task that was Dead at the scan, each exactly once, whatever runs in between |
| `Scheduling.ReapedSpaceUnused` | src/task/mod.rs:50-54 | the address space destroyed is neither active nor any other task's |
| `Scheduling.ReapedSpaceExists` | src/task/mod.rs:49-56 | whatever ran since the scan, the address space of a reaped user task still exists, and afterwards it alone is gone: none is torn down twice |
| `Scheduling.SpawnedSpaceNew` | src/task/task_manager.rs:74-96 | a spawned user task's address space was nobody's before |
| `Scheduling.ReapEndsWait` | src/task/task_manager.rs:189-204 | the kill that removes an awaited child makes the waiting parent Ready and queued |
| `Scheduling.BoundedWaiting` | src/task/scheduler.rs:41-50 | a task at queue index k that is not running is dispatched within k + 1 ticks of any run |
| `Scheduling.ReaperRuns` | src/task/mod.rs:32-58 | the reaper is always running or queued |
| `TaskManagers.TaskManager.Retain` | src/task/task_manager.rs:121 | the loop removes every occurrence and keeps the order |
| `TaskManagers.TaskManager.SetTaskState` | src/task/task_manager.rs:115-123 | the in-place transition is `SetState`, whose agreement is proved |
| `TaskManagers.TaskManager.Spawn` | src/task/task_manager.rs:74-96 | nothing changes when the stack cannot be had; otherwise the new task is the current one's child, Ready at the end of the queue, nobody else is touched, and queue, states and registry still agree |
| `TaskManagers.TaskManager.BlockCurrentTask` | src/task/task_manager.rs:149-153 | the current task, if any, is Blocked and out of the queue, everyone else as before, and the agreement is kept |
| `TaskManagers.TaskManager.FetchNextTask` | src/task/task_manager.rs:67-69 | takes the front of the queue and keeps the rest |
| `TaskManagers.TaskManager.WaitForChild` | src/task/task_manager.rs:102-110 | parks iff the child exists and is not Dead; then the current task is Blocked and out of the queue, otherwise nothing changes; the agreement is kept |
| `TaskManagers.TaskManager.ExitCurrentTask` | src/task/task_manager.rs:158-163 | nobody is current; who was is Dead and not queued, everyone else as before; the agreement is kept |
| `TaskManagers.TaskManager.UnblockTask` | src/task/task_manager.rs:166-172 | a Blocked task becomes Ready at the end of the queue, where it was not before; for any other nothing changes; the agreement is kept |
| `TaskManagers.TaskManager.Kill` | src/task/task_manager.rs:189-204 | nothing is left of the task; a parent that was Blocked is Ready and newly queued, every other state is as before, and the agreement is kept |
| `TaskManagers.TaskManager.ScanDead` | src/task/mod.rs:39-47 | collects the Dead ids in key order |
| `Scheduling.DeadBelowMembers` | src/task/mod.rs:39-47 | the collection holds exactly the Dead ids, without repetition |
| `TaskManagers.ScheduleTick` | src/task/scheduler.rs:31-101 | the statement-by-statement tick on manager and processor is `Schedule`; a sound system stays sound and every task stands where it stood |
| `Reaper.ReapAll` | src/task/mod.rs:49-56 | killing the tasks found Dead tears down exactly the address spaces of the user tasks among them, never panics, and leaves all other references and spaces as they were |
| `Reaper.ReapOne` | src/task/mod.rs:49-56 | one kill tears down that task's address space and no other, never panics, and keeps what the next kill needs, whatever runs in between |
| `Reaper.SoundOwnSpaces` | src/task/mod.rs:50-54 | on every sound state whose address spaces are the machine's, every user task has one of its own: what a kill needs |
| `Semaphores.StepConserves` | src/core/sync.rs:53-115 | each step keeps count + permits held = permits supplied |
| `Semaphores.PermitsConserved` | src/core/sync.rs:53-207 | conservation on every interleaving, modulo 2^32 always and exactly while the supply fits |
| `Semaphores.MutualExclusion` | src/core/sync.rs:119-150 | a mutex never has two guards, its count never exceeds one and is one exactly if unlocked |
| `Semaphores.LeavesWithPermit` | src/core/sync.rs:53-97 | whatever the step, a task that gets out of `wait`, after a condition wait too, takes one permit from the counter |
| `Semaphores.RunStake` | src/core/sync.rs:53-207 | on every interleaving and for every task: permits held, plus the one waited for, are the calls of `wait` less the releases |
| `Semaphores.GuardReacquired` | src/core/sync.rs:185-207 | on every run a task back from a condition wait holds what it held before it, the mutex included |
| `Semaphores.Uncontended` | src/core/sync.rs:66-97 | left alone, a waiter is out with a permit or asleep in the queue after two steps |
| `Semaphores.SignalledInTurn` | src/core/sync.rs:103-115 | on every run the task k places from the front of the queue is unblocked by the time of k + 1 dequeues |
| `Semaphores.NotifiedInTurn` | src/core/sync.rs:209-228 | on every run the task k places from the front of a condition variable is unblocked by the time of k + 1 notifications |
| `Semaphores.RunAccounted` | src/core/sync.rs:66-115 | on every run, with a nonempty queue the count is at most woken tasks + half-done signals + signals spent on outdated entries |
| `Semaphores.RunOrderly` | src/core/sync.rs:66-115 | without spurious resumes each parked task is queued exactly once and no entry is outdated |
| `Semaphores.NoLostWakeup` | src/core/sync.rs:66-115 | without spurious resumes a permit available at rest means nobody is parked |
| `Semaphores.HolderAwake` | src/core/sync.rs:66-115 | without unexpected resumes or wake-ups no task leaves `wait` still Blocked, in particular no holder of a permit |
| `Semaphores.SleepingHolder` | src/core/sync.rs:88-97 | a run with one spurious resume after which a task holds the permit and is Blocked |
| `Semaphores.LostOnlyToOutdated` | src/core/sync.rs:66-115 | on every run, permits left at rest beside a queue are at most the signals spent on outdated entries |
| `Semaphores.LostWakeup` | src/core/sync.rs:88-97 | for either unexpected step alone, a spurious resume or a wake-up from elsewhere, a run that ends at rest with a permit available and a task parked |
| `Disks.PrefixUnique` | src/fs/ext4/mod.rs:239-281 | the specification of a read has exactly one answer |
| `Disks.PrefixSplit` | src/fs/ext4/mod.rs:239-281 | a read of n + m bytes is a read of n followed by a read of m |
| `Fat16.ClustersApart` | src/fs/fat/volume.rs:107-131 | clusters occupy disjoint sectors after the root directory |
| `Fat16.NextClusterEntry` | src/fs/fat/volume.rs:135-170 | the successor is the little-endian entry at byte 2c of the whole table, absent exactly at end-of-chain marks and unreadable sectors |
| `Fat16.SkipClusters` | src/fs/fat/mod.rs:121-131 | arrives at the cluster so many links down the chain, or reports that the chain ends first |
| `Fat16.ReadChain` | src/fs/fat/mod.rs:133-167 | the copying loop delivers the longest readable prefix from its starting point, also on a circular chain |
| `Fat16.Read` | src/fs/fat/mod.rs:108-168 | fills exactly the front of the buffer with the file's bytes from the offset, as many as wanted or up to the first missing one |
| `Fat16.ConcatenationBytes` | src/fs/fat/volume.rs:123-170 | byte i of the file is byte i of the concatenated clusters of the chain |
| `Fat16.ReadIsSlice` | src/fs/fat/mod.rs:108-168 | a read covered by readable clusters is the slice of their concatenation |
| `Fat16Image.Parts` | src/fs/fat/volume.rs:85-116 | on a disk holding reserved sectors, tables, root directory and clusters one after the other, each part starts where the reader looks for it; the root directory takes as few sectors as hold its records |
| `Fat16Image.RootRecords` | src/fs/fat/volume.rs:85-116 | every byte of every root record lies between the tables and cluster 2 |
| `Fat16Image.ClusterStored` | src/fs/fat/volume.rs:120-131 | a cluster is its stretch of the data part, byte by byte |
| `Fat16Image.ReadsFile` | src/fs/fat/mod.rs:108-168 | on every such disk a read of a file whose clusters the table links, up to an end mark, is the wanted slice of those clusters |
| `Words.Stored32` | src/fs/ext4/mod.rs:120-127 | a 32-bit store reads back modulo 2^32 |
| `Ext4Layout.BlocksApart` | src/fs/ext4/volume.rs:323-324 | blocks occupy disjoint sectors |
| `Ext4Layout.SlotShape` | src/fs/ext4/volume.rs:256-290 | an inode's slot is half a sector, counted from its group's table |
| `Ext4Layout.FindExtentFirst` | src/fs/ext4/volume.rs:365-391 | the search gives the block at the same distance into the first extent containing the logical block, and nothing exactly if none contains it |
| `Ext4Layout.BuiltInode` | src/fs/ext4/volume.rs:419-463 | the built inode is a 0644 regular file with one link, the extents flag and the given size, whose logical block 0, and no other, maps to the given block |
| `Ext4Layout.SectorCountIff` | src/fs/ext4/volume.rs:419-463 | the stored sector count is that of one block exactly for 4 KiB blocks |
| `Ext4Format.DescriptorRead` | src/fs/ext4/volume.rs:260-278 | on a disk whose table is the encoding of group records of 32 bytes, the bitmaps and inode table found for a group are those of its record, modulo 16 |
| `Ext4Format.DescriptorIff` | src/fs/ext4/volume.rs:260-278 | the inode table found is the group's own on every volume exactly for the first sixteen groups |
| `Ext4Format.DescriptorsFollowSuperblock` | src/fs/ext4/volume.rs:91-97 | the descriptors are looked for in the block after the one that holds byte 1024 |
| `Ext4Format.ReadsSlot` | src/fs/ext4/volume.rs:246-307 | the inode read is the slot of 256 bytes that is its own in the table of its group's record, and reading fails exactly if that cannot be read |
| `Ext4Format.InodeRead` | src/fs/ext4/inode.rs:13-55 | type and 64-bit size are those of the encoded inode |
| `Ext4Format.ExtentRuleIff` | src/fs/ext4/volume.rs:377-381 | the 32-bit sum keeps to the format's rule for an extent exactly if it does not wrap or the extent is empty |
| `Ext4Format.TreeRead` | src/fs/ext4/volume.rs:355-391 | for every encoded tree node: a leaf with the right magic number gives the block of the first extent that covers the logical one, anything else nothing |
| `Ext4Format.FileRead` | src/fs/ext4/mod.rs:239-281 | what a file holds, from the encoded fields of its inode: the bytes of the volume at the blocks its extents name |
| `Ext4Format.BuiltEncoded` | src/fs/ext4/volume.rs:419-463 | the inode built is the encoding of a regular file with mode 0644, one link, eight sectors, the extents flag and one extent |
| `Ext4Files.Read` | src/fs/ext4/mod.rs:239-281 | fills exactly the front of the buffer with the longest mapped and readable prefix of the wanted bytes |
| `Ext4Files.ReadSplit` | src/fs/ext4/mod.rs:239-281 | reads of n + m and of n then m bytes agree, the file size included |
| `Ext4Directory.FindIsFirstMatch` | src/fs/ext4/mod.rs:181-235 | on tiled records the walk finds the first listed pair with the name whose inode reads |
| `Ext4Directory.FirstMatchInserted` | src/fs/ext4/mod.rs:181-235 | after an insertion the new name gives the new inode and every other name what it gave before |
| `Ext4Directory.ListingAppend` | src/fs/ext4/mod.rs:181-235 | a directory of several blocks lists what its blocks list, in order |
| `Ext4Directory.InsertedListing` | src/fs/ext4/mod.rs:94-133 | insertion keeps the records tiling the block, keeps all pairs in order and appends the new one |
| `Ext4Directory.NameKeptIff` | src/fs/ext4/mod.rs:124-130 | a stored name reads back exactly if its length fits one byte |
| `Ext4Format.DirectoryLists` | src/fs/ext4/mod.rs:181-235 | directory records encoded one after the other tile the directory, which lists exactly those in use, in order |
| `Ext4Format.DirectorySearch` | src/fs/ext4/mod.rs:181-235 | a search through encoded records finds the first one in use with the name whose inode reads |
| `Ext4Format.NewRecordEncoded` | src/fs/ext4/mod.rs:116-131 | the record an insertion writes is the encoding of its inode, length, name and type |
| `Ext4Directory.TiledHasLast` | src/fs/ext4/mod.rs:86-137 | on tiled records the walk reaches a last record |
| `Ext4Directory.OverrunIff` | src/fs/ext4/mod.rs:86-137 | on every block of bytes: the edit, with its wrapping subtraction, leaves the buffer exactly if the walk reaches a record whose seven header bytes are cut off by the end of the block, or a last record shorter than its own name needs |
| `Ext4Directory.InsertionDone` | src/fs/ext4/mod.rs:86-133 | an edit that goes through is the insertion behind a last record with room for it |
| `Ext4Directory.TiledSafe` | src/fs/ext4/mod.rs:86-137 | tiled blocks never overrun |
| `Ext4Directory.ShortRecordOverruns` | src/fs/ext4/mod.rs:94-106 | a concrete block on which every insertion leaves the buffer |
| `Ext4Directory.CutHeader` | src/fs/ext4/mod.rs:89-91 | a header with six bytes left overruns, one with seven is refused as corrupted |
| `Ext4Volume.StoredBytes` | src/fs/ext4/volume.rs:326-344 | a stored block reads back and no other block changes |
| `Ext4Volume.ReadWhole` | src/fs/ext4/mod.rs:79-84 | the block's bytes, or an error exactly if some sector cannot be read |
| `Ext4Volume.WriteDataToBlock` | src/fs/ext4/volume.rs:316-348 | data then zeros in that block, exactly if every sector of it can be written; too much data changes nothing; no outcome changes another block |
| `Ext4Volume.FindClear` | src/fs/ext4/volume.rs:141-166 | the lowest clear bit, or none exactly if all are set |
| `Ext4Volume.BitAfter` | src/fs/ext4/volume.rs:148-149 | marking a bit changes no other |
| `Ext4Volume.AllocateInode` | src/fs/ext4/volume.rs:105-167 | reserves the lowest free inode number of the first bitmap sector, exactly if the bitmap can be read and written and is not full; any error leaves the disk as it was |
| `Ext4Volume.AllocateBlock` | src/fs/ext4/volume.rs:175-236 | reserves the lowest free block, exactly if the bitmap can be read and written and is not full; any error leaves the disk as it was |
| `Ext4Volume.WriteInode` | src/fs/ext4/volume.rs:470-530 | replaces the inode in its slot and keeps the rest of the sector; fails exactly if the slot cannot be read or written, and then leaves the disk as it was |
| `Ext4Volume.FindLast` | src/fs/ext4/mod.rs:86-137 | on any block: ends at the record reaching the block's end, reports corruption, or runs into a header cut off by the end |
| `Ext4Volume.AddEntry` | src/fs/ext4/mod.rs:69-147 | on any block: success is exactly the insertion and happens exactly if the insertion is possible and the block can be written; no space, corruption and an overrun leave the disk unchanged; a failed write touches only that block |
| `Ext4Volume.EntryOverrunIff` | src/fs/ext4/mod.rs:69-137 | the insertion leaves its buffer exactly on directories whose first block can be read and reaches a fatal record |
| `Ext4Volume.Search` | src/fs/ext4/mod.rs:181-235 | the loop over raw bytes computes `Find` and ends on any data |
| `Ext4Volume.Lookup` | src/fs/ext4/mod.rs:161-236 | looks the name up in the longest readable prefix of the directory |
| `Ext4Image.SlotsDiffer` | src/fs/ext4/volume.rs:256-290 | different inodes have different slots |
| `Ext4Image.KeepsMeta` | src/fs/ext4/volume.rs:246-307 | changing a block outside descriptors and tables changes no inode |
| `Ext4Image.SameFile` | src/fs/ext4/mod.rs:239-281 | a file none of whose blocks changed keeps every byte |
| `Ext4Image.HandedOutIff` | src/fs/ext4/volume.rs:175-236 | on every volume marked by the format's rule the block handed out is unused exactly if the first data block is 0 |
| `Ext4Create.OtherInodes` | src/fs/ext4/volume.rs:470-530 | write_inode then read_inode gives the inode back, and every other inode is as before |
| `Ext4Create.ReserveStep` | src/fs/ext4/volume.rs:105-236 | a reservation keeps the image well-formed and touches no inode and no file |
| `Ext4Create.InodeStep` | src/fs/ext4/volume.rs:470-530 | storing an inode on reserved number and block keeps every block in one role and everything in use marked |
| `Ext4Create.DirectoryStep` | src/fs/ext4/mod.rs:69-147 | add_entry on a well-formed image: the new name resolves to the new inode, every other name as before, no other file changes |
| `Ext4Create.RoomDecides` | src/fs/ext4/mod.rs:86-110 | on a well-formed image an entry can be added exactly if the last record of the first block has room for it |
| `Ext4Create.CreateFile` | src/fs/manager.rs:64-89 | succeeds exactly if, seen beforehand, an inode and a block are free, the data fits one block, the directory has room and the sectors concerned can be written; then a new well-formed image with the file under its name, its bytes exactly the data, all other inodes, files and names unchanged; no other file changes whatever happens |
| `Ext4Create.CreateAndReadBack` | src/fs/manager.rs:59-105 | under the same condition, looking the created file up and reading it from offset 0 gives exactly the data |
| `Ext4Sample.SampleImage` | src/fs/manager.rs:59-105 | a concrete image with 4 KiB blocks satisfies every hypothesis of file creation |
| `Ext4Sample.HandsOutRootBlock` | src/fs/ext4/volume.rs:91-236 | on a concrete 1 KiB image, marked by the format's rule, the next block handed out is the root directory's |
| `Ext4Sample.SecondGroup` | src/fs/ext4/volume.rs:246-307 | on a concrete volume with two groups, inode 9 is read from the second group's table |

## Left out

- AHCI, PCI, serial, PIT, GDT, IDT, framebuffer, TTY and keyboard drivers: register and port I/O; the disk is a sector map that may fail.
- Mounting: partition table, boot sector and superblock are read field by field; the model starts from their values.
- `context_switch`, `syscall_entry` and `user_mode_trampoline`: assembly; a switch is one atomic change of the on-CPU context.
- `linked_list_allocator`, `pc_keyboard` and the internals of the `x86_64` crate: only the paging calls used are given definitions.
- `TaskManager::next_task`: no caller; it follows a second discipline that does not keep the invariant.
- FAT32 geometry, directory listing of FAT volumes, MBR and initramfs parsing, the execve arm, error-to-errno tables: plumbing or single-branch facts.
- ext4 extent trees deeper than one level, free counts, inodes and blocks past the first bitmap sector: the driver does not maintain or follow them.
- Concurrency on several processors: the kernel schedules one; each section with interrupts off is one step.
- A frame holding bytes reads as an empty table and a frame holding a table reads as the bytes of its entries, so a wild pointer from data into tables is not modelled.
- ElfLoader.LoadElf: requires the pages of the segments to be unmapped before, their PML4 slots to be the task's own, and program headers to describe byte-disjoint segments inside the file and user space; reads past the end of the file count as zero.
- CopyOnWrite.ResolveCowFault: requires the faulting page to lie in a PML4 slot of the active address space that is the task's own; kernel-half faults are not followed.
- Machines.Machine.AllocateAndMapUserPage: requires a lower-half page in a slot the kernel does not share; `ConservesIffOwnSlot` states what happens otherwise.
- Syscalls.UserMemory.Brk: requires, like `Mmap`, the pages a call would map to be in slots of the task's own.
- Syscalls.UserMemory.Mmap: promises alignment and disjointness only for ranges the kernel chooses, since an explicit address is not aligned; nothing is stated about which error number is returned.
- Fat16.Read: sectors are 512 bytes, the size of the driver's buffer.
- Ext4Volume.AddEntry: states when the original leaves its buffer and that the disk is not touched by then; what it reads or overwrites in memory there is not followed.
- Ext4Volume.Lookup: header bytes past the end of what was read count as zeros, where the original reads on in memory; on tiled directories no such byte is looked at.
- Ext4Layout.FindExtent: looks at the four extents an inode has room for, however many its header claims.
- Ext4Create.CreateFile: requires a well-formed image: first data block 0, which by `HandedOutIff` is exactly what the driver's allocation needs; at most sixteen groups, which by `DescriptorIff` is as many as the driver can read; every block in one role, everything in use marked, and a root directory of complete, tiled blocks that lists only inodes in use. The name must be absent: of two records with one name a search finds the first.
- Reaper.ReapAll: no other task runs between its kills; `ReapOne` with `ReapedSpaceExists` and `SoundOwnSpaces` covers that.
- Semaphores.Step: a task removed from the CPU by an exit in the middle of `wait` is not followed.
- Scheduling.Enabled: states what the rest of the kernel guarantees to the scheduler: fresh kernel stacks, one PML4 per user task, a reaper that neither blocks nor exits.
