# A verified model of a small 32-bit x86 kernel

This project models the memory, task and file layers of a preemptive x86-32 kernel in
Dafny 4.11 and proves what they promise, alone and together:

- the physical frame allocator (`src/pmm.c`), from the Multiboot memory map to every run of
  allocations and releases;
- two-level paging (`src/vmm.c`), with page directories and tables as words in frames of
  physical memory, a translation cache, demand paging and the identity map the kernel edits
  its own tables through;
- the ELF loader (`src/elf.c`), which clones a directory, fills it inside a window with
  interrupts off, and cleans up when memory runs out;
- round-robin scheduling and the context switch (`src/task.c`, `src/switch.s`);
- the USTAR RAM disk and path lookup (`src/tar.c`, `src/vfs.c`).

`dafny verify dfyconfig.toml` checks the whole project.

## How the model is built

Code that changes state step by step is a class or a method with loops: `FrameAllocator`
(bitmap and counter), `Machine` (physical memory, page directory, CR3, translation cache),
`TaskManager` (task table, registers, stack words), `RamDisk` (node table) and the methods
of `BootMap`, `Loader`, `Tar` and `Vfs`. Each is proved against a specification function on
values, such as `MapPage`, `LoadFile`, `Dispatch` or `FindPath`. The theorems are about those
functions and about runs: finite sequences of steps, each enabled in the state it starts from.

The formats the kernel reads from memory have encoders of their own: the information
structure of section 3.3 of the Multiboot Specification 0.6.96, the file and program headers of
chapters 4 and 5 of the System V ABI, and the ustar Interchange Format of IEEE Std 1003.1. What
the code reads is proved to be what was encoded, and the results on booting, loading and reading
files are stated from the encoded fields.

Machine words are integers below 2^32. Every sum that can wrap in the code is written with
its wrap-around (`Add32`, `Sub32`), and the bit operators are defined bit by bit. A function
that ends in the code's endless `hlt` loop returns `None`, `Stopped`, `Halted` or
`ok == false`.

| files | models |
|---|---|
| Words, Bytes, LittleEndian | 32-bit words and their bits; bytes of physical and virtual memory; numbers as bytes |
| Frames, FrameRuns, BootMap, BitmapRam, BootFormat | the frame allocator, its runs, its initialisation, its bitmap in RAM, the Multiboot records it reads |
| Paging, AddressSpaces, MemoryRuns, IdentityMap, Machine, MachineRuns | page tables, clones, the translation cache, the identity map, `src/vmm.c` as it runs |
| ElfPages, ElfImage, Elf, ElfTrace, ElfTheorems, Loader | the loader page by page, segment by segment, what it leaves behind, and as it runs |
| ElfCost, ElfOutcome, ElfFormat, ElfExamples | what a load costs, its outcome from the input, the ELF format and what holds of an encoded program, two concrete loads |
| MemoryUsers | frames in use, and the setting of a load, over runs |
| Boot | from the boot information to the state the loader and the scheduler start from |
| Scheduler, SchedulerRuns, Waiting, LostTasks | the run list, its invariants, bounded waiting, tasks that are lost |
| ContextSwitch, TaskContexts, TaskRuns, TaskWork, Tasks | the switch, saved contexts over runs, what a task's work may do, `src/task.c` and `src/switch.s` as they run |
| Protocol, TaskSpaces | CR3, `current_page_directory` and the running task's directory, in the loader's window and over runs of the kernel |
| Tar, TarWalk, Vfs | the archive, its encoder, directories and paths |

## What the code needs from its surroundings

These hypotheses are `requires` clauses of the theorems that need them. The lemmas named here
give the exact conditions, or prove the hypothesis from an earlier one.

- Region calls round the base down and ignore its page offset, and the rounding sum can
  wrap. `FreeRegionExactIff` and `ReserveRegionExactIff` say exactly when the blocks are the
  right ones, `EntryFreesOwnMemoryIff` when the 32-bit casts of a map entry are harmless.
- `pmm_init` writes its bitmap over the bytes behind the kernel image without looking what is
  there. `InModule`, `BootRam` and `Setting` ask that module, boot information and file are clear
  of it; `AlwaysSurvivesIff` and `MemsetKeepsIff` say exactly when a module survives, and
  `OverlapDestroys` is a well-formed boot in which it does not.
- Block 0 is reserved, so NULL is not a block (`NullMeansExhausted`).
- A load is described for segments that do not wrap and whose file size is at most their size
  in memory; the image theorem is about segments above RAM that share no page. That RAM is
  identity-mapped and the archive reserved is proved from the boot information
  (`BootMakesSetting`) and kept until the load (`SettingAlways`).
- The boot task does not exit, and process ids have not wrapped.
- A task writes only inside its own stack, not in another task's; stacks have room for a
  switch. `StepIsWork` and `LoadIsWork` show that the kernel's own work respects this. Between
  two turns it comes back to its own directory, as the loader's window does (`WindowRestores`).
- The archive walk is described while its 32-bit pointer does not wrap; `PointerExactIff` and
  `PointerStallsIff` give the sizes at which it does.

Two assumptions are built into the steps: an allocator call is one step, and interrupt gates
run with interrupts off.

## Where code and documentation disagree

The model follows the code.

- The comments on `elf_load` (src/elf.c:20-22, src/elf.c:67-70) and line 150 of the repository's README promise that
  a failed load gives back all its blocks. It gives back at most 64 of them and none of the
  page tables made on the way. `GivesBackIff` says from the input exactly when it gives back
  everything, `FailureLeaks` how much stays taken, `DanglesExactly` which pages of the kernel
  directory then show a freed frame, and `LeakingLoad` is a concrete load that leaks.
- The comment on `elf_load` promises -1 on any failure (src/elf.c:12). When a block is the last
  free frame and its page needs a new table, the machine halts instead, with interrupts off.
  `OutcomeIff` decides between the outcomes from the input, and `HaltingLoad` is a concrete load
  that halts.
- Line 117 of the repository's README limits demand paging to addresses below 0xC0000000. The handler also resolves
  user-mode faults above that; `ResolvableIff` says exactly which.
- The comment in `task_create` describes which slots are free, but not that a zombie in the
  middle of the run list is one of them: reusing it cuts off the rest of the list.
  `MidReuseLosesTask` reaches a case from the initial table, `CreateKeepsLiveIff` says exactly
  when it happens, and `LostForever` and `RunsAgainIff` which of the tasks cut off run again.
- `tar_read` is meant to stay inside the file. Its bound is a 32-bit sum;
  `ReadStaysInsideIff` says exactly when it holds.

## Model

| member | source | states |
|---|---|---|
| Frames.FrameAllocator.BitmapSet | src/pmm.c:19-21 | setting a bit removes exactly that block from the clear ones and leaves the padding bits set |
| Frames.FrameAllocator.BitmapClear | src/pmm.c:23-25 | clearing a bit adds exactly that block to the clear ones and leaves the padding bits set |
| Frames.FrameAllocator.BitmapTest | src/pmm.c:27-29 | the masked word is non-zero exactly when the block's bit is set |
| Frames.FrameAllocator.ReserveRegion | src/pmm.c:34-47 | the free set loses exactly the blocks of the rounded range, blocks past the total ignored; the counter stays the number of taken blocks |
| Frames.FrameAllocator.FreeRegion | src/pmm.c:52-65 | the free set gains exactly the tracked blocks of the range; the counter stays the number of taken blocks |
| Frames.FrameAllocator.ScanWord | src/pmm.c:164-175 | in the first word that is not full, the bit loop finds the lowest free block of the whole bitmap, or there is none |
| Frames.FrameAllocator.FirstFree | src/pmm.c:161-178 | the scan that skips full words finds the lowest free block, and finds none only when none is free |
| Frames.FrameAllocator.AllocBlock | src/pmm.c:159-179 | returns the address of the lowest free block and takes only that one; returns 0 and changes nothing when none is free |
| Frames.FrameAllocator.FreeBlock | src/pmm.c:184-192 | the block is free afterwards if it is tracked; nothing else changes, and a second release does nothing |
| Frames.FrameAllocator.GetFreeBlocks | src/pmm.c:199-201 | total minus counter is the number of free blocks |
| FrameRuns.RunConserves | src/pmm.c:159-192 | over every run in which only live blocks are released, free and live blocks split the pool, and their numbers add up to it |
| FrameRuns.AllocationIsFresh | src/pmm.c:159-179 | after every such run an allocation gives a block of the pool that nobody holds, at a non-zero page address that does not overflow 32 bits |
| FrameRuns.ReleaseSoundIff | src/pmm.c:184-192 | a release keeps the split if and only if the block is live, already free, or not tracked at all |
| FrameRuns.Perform | src/pmm.c:159-192 | one call of the allocator is one step of such a run, with the address it hands out |
| FrameRuns.PerformAll | src/pmm.c:159-192 | any list of calls leaves bitmap, counter and addresses as the run says, so the run theorems are about the allocator |
| FrameRuns.NullMeansExhausted | src/pmm.c:173-178 | an allocation returns address 0 if and only if no block is free or block 0 is |
| FrameRuns.FreeRegionExactIff | src/pmm.c:52-56 | freeing a region frees exactly the blocks inside it if and only if the base is aligned or the region is smaller than a block |
| FrameRuns.ReserveRegionExactIff | src/pmm.c:34-38 | reserving a region takes exactly the blocks it touches if and only if the rounding does not wrap and the page offset does not reach a further block |
| BootMap.DetectRam | src/pmm.c:83-94 | the walk over variable-size entries ends and yields the highest 64-bit end of a usable entry |
| BootMap.HighestEndBounds | src/pmm.c:85-94 | no usable entry the walk meets ends above the detected RAM |
| BootMap.HighestEndAttained | src/pmm.c:85-94 | some usable entry the walk meets ends exactly there, or it is 0 |
| BootFormat.RecordReadBack | src/multiboot.h:14-19 | a map entry encoded anywhere in RAM, of any size, is read as its 64-bit base and length and is usable if and only if its type is 1 |
| BootFormat.InfoReadBack | src/multiboot.h:26-36 | encoded boot information is read as its flags, its map's address and end, and the start and end of each module |
| BootFormat.WalkMeets | src/pmm.c:85-94 | over encoded entries the walk ends, meets exactly these entries, and finds the highest end of those of type 1 |
| BootFormat.FreeFromRecords | src/pmm.c:118-148 | whatever encoded boot information RAM holds, a block is free after `pmm_init` if and only if it lies wholly inside an entry of type 1, above the first megabyte, and touches neither kernel, bitmap nor a module the flags announce |
| BootMap.FreeUsable | src/pmm.c:118-126 | the second walk frees the blocks of every usable entry, as truncated to 32 bits |
| BootMap.FreedBlocksMeaning | src/pmm.c:118-126 | a block is freed if and only if some entry met by the walk frees it |
| BootMap.ReserveFixed | src/pmm.c:128-133 | the first megabyte and the kernel image with its bitmap are taken |
| BootMap.ReserveModules | src/pmm.c:135-148 | every module's blocks are taken |
| BootMap.ModuleBlocksMeaning | src/pmm.c:144-147 | a block is taken for the modules if and only if it is one of some module's blocks |
| BootMap.Reset | src/pmm.c:104-116 | after the memset every block is taken, with a bitmap that covers the last partial word |
| BitmapRam.MemsetKeepsIff | src/pmm.c:112-115 | a module keeps its bytes through the memset if and only if it is clear of the bitmap or all it has there was 0xFF |
| BitmapRam.AlwaysSurvivesIff | src/pmm.c:19-25 | a module keeps its bytes whatever the bitmap comes to hold if and only if the two are clear of each other |
| BitmapRam.InfoSurvives | src/pmm.c:112-148 | boot information clear of the bitmap reads after the memset as before: same modules, same blocks to free, same total |
| BitmapRam.OverlapDestroys | src/pmm.c:112-115 | well-formed boots, with the map at any address, whose module lies behind the kernel and loses any byte that is not 0xFF to the bitmap |
| BitmapRam.BitmapSeen | src/pmm.c:19-29 | block b of the bitmap is bit b % 8 of byte b / 8 of RAM behind the kernel |
| BootMap.Init | src/pmm.c:70-149 | without boot information or memory map nothing changes; else total and free set are those of the whole initialisation |
| BootMap.EntryFreesOwnMemoryIff | src/pmm.c:121-123 | a usable entry frees only memory of its own if and only if it frees nothing or lies below 4 GB on a page boundary |
| BootMap.InitialFreeExact | src/pmm.c:115-148 | on a well-formed boot the free set is exactly the blocks wholly inside usable entries, above the first megabyte, and touching neither kernel, bitmap nor module |
| VirtualMemory.SplitAddress | src/vmm.c:41-42 | the shift and mask indices of an address are directory slot and table slot of its page |
| Words.PackFlags | src/vmm.c:71 | packing flags into a page-aligned base loses neither |
| Paging.DecodePacked | src/vmm.c:71 | an entry packed from a frame and twelve flag bits decodes to the frame and the low five, or to nothing without the present flag |
| Paging.MapKeepsOwned | src/vmm.c:40-75 | a map keeps every directory's tables in frames that are taken, are no directory, and serve one slot only |
| Paging.MapWalk | src/vmm.c:40-75 | for every directory and page: only the mapped page changes, in the edited directory and in those sharing the table, also when a new table is installed |
| Paging.MapRefines | src/vmm.c:40-75 | for every frame and flags, mapping refines update of the abstract map from pages to (frame, flags) at one key, or removal of it without the present flag |
| Paging.MapTakes | src/vmm.c:48-68 | a map halts exactly when a table is missing and memory is out, and else takes one frame exactly when the table was missing |
| Paging.UnmapKeepsOwned | src/vmm.c:80-92 | unmapping keeps table ownership |
| Paging.UnmapWalk | src/vmm.c:80-92 | for every directory and page: only the unmapped page loses its translation |
| Paging.UnmapRefines | src/vmm.c:80-92 | unmapping refines removal of one key from the abstract map |
| AddressSpaces.CloneKeepsOwned | src/elf.c:59-65 | adding the clone to the directories keeps table ownership |
| AddressSpaces.CloneTranslates | src/elf.c:59-65 | the clone translates every page like its original and shares exactly the tables present at that moment |
| MemoryRuns.StepWalk | src/vmm.c:40-92 | a step changes the translation of at most one page, in the active directory and in those sharing its table |
| MemoryRuns.StepKeepsSound | src/vmm.c:40-141 | ownership of tables and agreement of CR3 with the current directory are kept by every step |
| MemoryRuns.TlbAgreesAlways | src/vmm.c:71-90 | in every run of cache fills, accesses, maps, unmaps, faults, CR3 loads, clones, freed directories, data writes and frame traffic, each cached translation equals the page walk |
| MemoryRuns.InvlpgNeededIff | src/vmm.c:71-74 | leaving out the invalidation of a map is harmless if and only if the cache has no other translation of that page |
| MemoryRuns.SharingFixed | src/vmm.c:48-71 | over every run that frees neither of them, two directories go on sharing exactly the tables they shared |
| MemoryRuns.CloneIsolation | src/elf.c:60-65 | after a clone and any run that frees neither directory, a map in original or clone changes the other if and only if that slot was present when the clone was made |
| MemoryRuns.FaultResolves | src/vmm.c:115-141 | a handled fault leaves the page present, writable and user-accessible at both levels on a frame that was free, for one frame or two |
| MemoryRuns.ResolvableIff | src/vmm.c:102-115 | the handler resolves a fault if and only if bit 0 of the error code is clear, the page is not page 0, and the page is below 0xC0000 or bit 2 is set |
| MemoryRuns.DemandPageIff | src/vmm.c:128-135 | a resolved fault finds memory if and only if one frame is free, or two when the page has no table yet |
| IdentityMap.InitBuildsIdentity | src/vmm.c:185-219 | initialisation succeeds if and only if 1 + ceil(n/1024) frames are free; it takes exactly that many, maps each page below n to itself as present, writable and user, and nothing above |
| IdentityMap.MapKeepsIdentityIff | src/vmm.c:64-71 | a map keeps the identity below n if and only if it is at or above n or maps the page to itself |
| IdentityMap.IdentityAlways | src/vmm.c:64-71 | runs of such maps keep the identity map of every directory, clones included |
| IdentityMap.PointersAreRight | src/vmm.c:44-71 | with RAM identity-mapped, following frame addresses as pointers through the tables being edited has the effect of editing physical memory |
| IdentityMap.FaultAboveRam | src/vmm.c:115-141 | a handled fault never concerns identity-mapped RAM |
| IdentityMap.FaultsNeverShare | src/vmm.c:115-141 | over every run of faults and accesses no two pages above RAM show the same frame |
| VirtualMemory.Machine.Map | src/vmm.c:40-75 | in-place editing has the effect of the specified map on memory and free set, and drops that page's cached translation; fails exactly when the map halts |
| VirtualMemory.Machine.Unmap | src/vmm.c:80-92 | in-place editing has the effect of the specified unmap; the cached translation goes only if a table was there |
| VirtualMemory.Machine.PageFault | src/vmm.c:97-180 | returns if and only if bit 0 of the error code is clear, the page is not page 0, it is below 0xC0000 or bit 2 is set, and one frame is free, or two for a missing table; then memory is that of demand paging and the page's cached translation is gone; every other fault ends in a halt |
| VirtualMemory.Machine.IdentityMapRam | src/vmm.c:217-219 | the loop maps every tracked page to itself, or halts when a table cannot be allocated |
| VirtualMemory.Machine.Init | src/vmm.c:185-229 | allocates and clears a directory, builds the identity map in it and loads it; fails exactly where the code halts |
| MachineRuns.Perform | src/vmm.c:40-180 | each call of the memory manager and the allocator is one step of the memory runs: memory, free frames, CR3, directory and translation cache, so the run theorems are about the machine |
| Bytes.CopyMeaning | src/elf.c:128-131 | a byte copy onto mapped pages shows the source bytes in the target range, leaves the rest of those pages, and touches no other frame |
| ElfPages.LoadPagesEffect | src/elf.c:105-126 | a page loop places fresh, distinct, cleared frames, keeps all data in use and every translation outside the range |
| ElfPages.LoadPagesAccounts | src/elf.c:105-126 | through a page loop, also a failing one, frames gone are exactly segment blocks plus new page tables |
| ElfImage.SegmentLoads | src/elf.c:88-137 | one segment above RAM is shown as its file bytes in zeroed pages, and data in use and other pages are kept |
| ElfTheorems.ImageShown | src/elf.c:88-137 | the image theorem for the headers as the loader reads them: every loadable segment is shown as its file bytes followed by zeros |
| ElfFormat.HeaderReadBack | src/elf.h:8-23 | from an encoded file header the loader reads exactly magic, class, type, machine, entry, and place, size and number of the program headers |
| ElfFormat.ProgramHeaderReadBack | src/elf.h:25-34 | from an encoded program header anywhere in the file it reads exactly type, offset, address, file size and memory size |
| ElfFormat.AcceptedIff | src/elf.c:40-57 | the header checks pass if and only if the file's bytes 0-4 and 16-19 are those of a 32-bit executable for the Intel 80386 |
| ElfFormat.RefusedIff | src/elf.c:33-64 | for every file: a load is refused, with nothing changed, if and only if the file is shorter than 52 bytes, these bytes differ, or no frame is free |
| ElfFormat.ImageInPlace | src/elf.c:80-142 | for a file that holds an encoded program: when a load returns 0 the entry is the program's, and walking the new directory in RAM as it is, bitmap included, shows every segment as the file's bytes from its offset on followed by zeros up to its memory size |
| ElfFormat.ProgramOutcome | src/elf.c:59-156 | for such a file the encoded headers and the number of free frames decide, each by an if-and-only-if, whether the load returns 0, returns -1 or halts |
| ElfTheorems.ParentsAfter | src/elf.c:60-65 | a load changes other directories only at segment pages in a table of the kernel directory; when it returns 0 every such page shows the new program's frame, one that was free |
| ElfTrace.DirectoriesAfter | src/elf.c:60-156 | exactly which page of which older directory shows a block of the load, finished or failed, and which block; every other page is translated as before |
| ElfTrace.DanglesIff | src/elf.c:144-156 | after a failing load a page of an older directory shows a frame the cleanup freed if and only if the load had hit it and its block was among the first 64 |
| ElfOutcome.OutcomeIff | src/elf.c:24-156 | the pages the headers ask for and the number of free frames decide, each by an if-and-only-if, whether the load is refused, returns 0, returns -1 after starting, or halts |
| ElfOutcome.FailureLeaks | src/elf.c:107-156 | the frames a failing load leaves taken, computed from the input: one table per absent slot of the pages it got to, and its blocks beyond 64 |
| ElfOutcome.GivesBackIff | src/elf.c:144-156 | a failing load gives back all it took if and only if the pages it got to need no new table and are at most 64 |
| ElfOutcome.DanglesExactly | src/elf.c:144-156 | which pages of which older directory show a freed frame after a failing load, from the input |
| ElfCost.PagesEnd | src/elf.c:105-126 | the page loop goes through, fails with nothing free, or halts with one frame left, as the cost of its pages says |
| ElfExamples.LeakingLoad | src/elf.c:107-156 | a concrete machine and file on which a load fails and a frame stays taken |
| ElfExamples.HaltingLoad | src/vmm.c:48-53 | the same machine with one free frame less, on which the load halts |
| ElfTrace.UsersUndisturbed | src/elf.c:105-156 | a load, finished or failed, leaves the contents of every frame in use that holds no table, the archive among them |
| Elf.HeadersAccount | src/elf.c:80-138 | through the whole header loop frames gone are exactly segment blocks plus new page tables |
| Elf.FailureAccount | src/elf.c:144-156 | after a failing load the directory and the first 64 blocks are free, nothing else became free, and the count of taken blocks rose by exactly the new page tables plus the blocks beyond 64 |
| Elf.FailureKeepsOwned | src/elf.c:144-156 | after the cleanup the older directories own their tables as before |
| Boot.ModuleReserved | src/pmm.c:135-148 | no block of a file inside a module is ever in the initial free set |
| Boot.InitLeavesAlone | src/vmm.c:190-219 | building the identity map neither writes to a frame in use nor makes a table of it |
| Boot.BootMakesSetting | src/vmm.c:185-229 | on a well-formed boot, `vmm_init` leaves the state a load needs for every file inside a module clear of the bitmap, with the bytes it had |
| Boot.InitTakesLowest | src/vmm.c:190-219 | `vmm_init` takes exactly the lowest 1 + ceil(n/1024) of the free frames |
| Boot.InitFrames | src/pmm.c:70-149 | from RAM with boot information to total, free set and the bitmap's bytes behind the kernel |
| MemoryUsers.StepSpares | src/vmm.c:40-141 | a frame in use without tables stays so and keeps its words through every step that neither frees it nor writes to it |
| MemoryUsers.SettingAlways | src/kernel.c:259-380 | over every run that leaves file, bitmap and identity map alone, the state a load needs lasts and the file keeps its bytes |
| Boot.BootMakesInv | src/kernel.c:172-367 | with the boot stack in the kernel image, `vmm_init` leaves a state that with the initial table satisfies the invariant of the context theorems |
| TaskWork.InvAfterRun | src/kernel.c:259-367 | whatever is mapped, unmapped and faulted in before `scheduler_init`, the state after it satisfies that invariant |
| Boot.Start | src/kernel.c:172-259 | the two calls in order, the bitmap written into RAM by the first: the state a load needs, with the file's bytes as the boot loader left them; for encoded boot information it halts if and only if the records leave fewer than 1 + ceil(n/1024) free blocks, and else the frames left free are the records' free blocks without the lowest so many |
| Loader.CopyLoop | src/elf.c:130-131 | the byte loop computes the specified copy |
| Loader.PageStep | src/elf.c:107-125 | one page: memory, free set and block list follow the specification in all three outcomes |
| Loader.PagesLoop | src/elf.c:105-126 | the page loop follows the specification, with early exit |
| Loader.SegmentStep | src/elf.c:88-137 | the window: directory and CR3 are restored and interrupts on at each exit except the halt, where interrupts stay off |
| Loader.HeadersLoop | src/elf.c:80-138 | the header loop follows the specification, whose reading of headers ElfFormat.ProgramHeaderReadBack states; CR3 and directory are those it started with |
| Loader.Cleanup | src/elf.c:144-156 | gives back exactly the tracked blocks and the directory |
| Loader.ElfLoad | src/elf.c:24-157 | missing file and bad header change nothing; success, failure and halt have exactly the specified memory, entry and directory, which ElfFormat.RefusedIff, ProgramOutcome and ImageInPlace describe from the bytes of the file; CR3 is restored |
| Scheduler.ChainIsList | src/task.c:147-156 | in a table without cycles, following links from a slot gives a NULL-ended list of distinct slots |
| Scheduler.CreateList | src/task.c:147-156 | a creation turns list L, empty or not, into L up to the first place of the slot, the slot last; no cycle arises, whatever linked to the slot |
| SchedulerRuns.UpToAppends | src/task.c:147-156 | for a slot not on the list that is L followed by the slot |
| SchedulerRuns.SearchEndsIff | src/task.c:166-177 | the search loop ends if and only if the current task is on the run list or a ready task lies ahead of it or on the list |
| SchedulerRuns.OrbitFollowsPath | src/task.c:166-177 | what the loop looks at, step by step, is the rest of the current list and then the whole run list |
| SchedulerRuns.InitialSound | src/task.c:29-47 | the initial table satisfies the invariant, with the boot task alone on the list |
| SchedulerRuns.DispatchSound | src/task.c:162-189 | a turn keeps the invariant: acyclic links, boot task at the head, exactly one running task, distinct process ids, boot task ready unless current |
| SchedulerRuns.ExitSound | src/task.c:197-205 | an exit of a task other than the boot task always hands over, so the halt loop is not reached |
| SchedulerRuns.CreateSound | src/task.c:77-156 | a creation keeps the invariant, zombie slots reused or not |
| SchedulerRuns.CreateRefusedIff | src/task.c:91-103 | no slot is found if and only if all 31 slots beside the boot task's are live |
| SchedulerRuns.AlwaysSound | src/task.c:162-205 | over every run in which the boot task does not exit the invariant holds and `schedule` ends |
| SchedulerRuns.AlwaysListed | src/task.c:118-156 | over every run without reuse in the middle of the list, the list holds every slot in use |
| Waiting.CreateKeepsLiveIff | src/task.c:91-98 | a creation keeps all live tasks on the list if and only if none of them comes after the slot it reuses |
| LostTasks.LostForever | src/task.c:147-189 | a live task that is neither on the run list nor ahead of the current task never runs again, in any run, whatever ticks, exits and is created |
| LostTasks.RunsAgainIff | src/task.c:162-189 | a ready task runs again in some run if and only if the search from the current task can meet it now |
| LostTasks.PlaceBounds | src/task.c:162-189 | a ready task at place p of the search path runs within p + 1 turns, whichever tasks exit, also when the current task is off the list |
| LostTasks.OffListTurnIsLast | src/task.c:162-189 | a current task that is off the run list is lost once a tick takes the processor from it |
| LostTasks.MidReuseLosesTask | src/task.c:93-96 | a run from the initial table, of two creations, a tick, an exit and a tick, after which a creation reuses a zombie in the middle of the list and a ready task is lost |
| Waiting.DistanceBounds | src/task.c:162-189 | a ready task runs within as many turns as its cyclic distance from the current one |
| Waiting.BoundedWaiting | src/task.c:162-189 | while nothing is created, a ready task on a list of n runs within n - 1 turns, whichever tasks exit meanwhile |
| ContextSwitch.PushedSaves | src/switch.s:10-29 | the pushes save exactly the caller's registers, stack pointer, return point and stack |
| ContextSwitch.SwitchResumes | src/switch.s:31-57 | the next task continues with exactly the context found on its stack |
| ContextSwitch.SwitchLoads | src/switch.s:27-49 | after the switch CR3 is the next task's directory and the TSS stack its kernel stack, `current_page_directory` follows, and of the task table only the previous task's stack pointer changed |
| ContextSwitch.SwitchSuspends | src/switch.s:8-29 | the previous task's context is on its stack after the whole switch |
| ContextSwitch.SwitchLeavesOthers | src/switch.s:8-57 | memory outside the two stacks is not touched |
| TaskContexts.InitialInv | src/task.c:29-47 | the state after `scheduler_init` satisfies the invariant of the context theorems |
| TaskContexts.TurnResumes | src/task.c:162-189 | a turn resumes the chosen task with the context recorded for it |
| TaskContexts.TurnKeepsInv | src/task.c:162-189 | a turn keeps stacks distinct and every suspended task's context on its stack |
| TaskRuns.FramedMeaning | src/task.c:124-145 | the seven stack words are a context that enters `task_kernel_bootstrap` with the entry as argument and `task_exit` as return address |
| TaskRuns.SpawnKeepsInv | src/task.c:77-160 | a creation keeps all that, with the new stack in a fresh frame |
| TaskRuns.ContextPreserved | src/switch.s:10-57 | over every run, however long a task is suspended, it is resumed with the registers, stack pointer, return point and stack it was suspended with |
| TaskRuns.RecordedContexts | src/switch.s:8-29 | what is recorded for a task that switches away, word by word: its four registers, its stack pointer, the return point and stack above it |
| TaskRuns.SpawnMeans | src/task.c:105-156 | what a creation makes, word by word: process id, entry, directory (CR3 by default), stack bounds and state; a first context that calls `task_kernel_bootstrap` with the entry of a kernel task or `task_user_bootstrap` for a user task, and returns to `task_exit`; a cleared stack page that user mode cannot reach |
| TaskSpaces.TurnLoads | src/task.c:162-189 | a turn that changes the current task puts CR3 at the next task's directory and the TSS at its kernel stack |
| TaskSpaces.AlwaysInOwnSpace | src/switch.s:34-49 | over every run of turns, creations and work that comes back to its own directory, CR3, `current_page_directory` and the running task's directory are one |
| TaskSpaces.TurnsMatch | src/task.c:162-189 | a turn of the directory protocol and a turn of the kernel give the same CR3, directory and tasks, so what holds of the protocol's turns holds of the switch |
| TaskSpaces.SpawnsMatch | src/task.c:77-160 | the same for a creation |
| TaskWork.StepIsWork | src/vmm.c:40-141 | a step of the memory system that frees or overwrites no other task's stack or directory is work that keeps every context |
| TaskWork.LoadIsWork | src/elf.c:24-156 | a whole load by the running task, returning 0 or -1, keeps every other task's context |
| Tasks.TaskManager.SchedulerInit | src/task.c:29-47 | produces the initial table, with interrupts off |
| Tasks.TaskManager.Search | src/task.c:166-177 | the pointer-chasing loop ends and stops at the first ready task of the path, or at the current one |
| Tasks.TaskManager.SwitchTask | src/switch.s:8-57 | the instruction sequence has the specified effect on memory, saved stack pointer and registers; CR3 is the next task's directory, the TSS stack its kernel stack, and a changed CR3 moves the directory and empties the cache |
| Tasks.TaskManager.TakeTurn | src/task.c:166-188 | the part of `schedule` behind its guard, with the same effect |
| Tasks.TaskManager.Schedule | src/task.c:162-189 | nothing happens without a current task; else task states, current task and machine follow the specified turn and switch, and a new current task finds its own directory in CR3 and its own stack in the TSS |
| Tasks.TaskManager.Yield | src/task.c:191-195 | a turn; interrupts are on again only if no switch took place, else the `sti` waits until the yielding task runs again |
| Tasks.TaskManager.Exit | src/task.c:197-205 | the exiting task becomes a zombie, another one runs with interrupts off, and the halt loop is not reached |
| Tasks.TaskManager.FindFree | src/task.c:91-98 | finds the first slot after slot 0 that is unused or a zombie, or none |
| Tasks.TaskManager.Tail | src/task.c:147-155 | the walk ends at the last slot of the run list |
| Tasks.TaskManager.Enlist | src/task.c:118-156 | fills the slot and links it as the specified creation does |
| Tasks.TaskManager.BuildFrame | src/task.c:124-145 | writes exactly the seven words |
| Tasks.TaskManager.Create | src/task.c:77-160 | a full table or exhausted memory changes nothing; else the new slot's record and the seven words of its stack are those listed, the rest is the specified creation, or the map halts; interrupts are left off in each case |
| Protocol.InitialInv | src/task.c:29-47 | the state after initialisation satisfies the invariant |
| Protocol.AgreesWhenInterruptible | src/elf.c:94-136 | in every run, whenever a tick can fire, CR3, `current_page_directory` and the running task's directory agree |
| Protocol.WindowRestores | src/elf.c:94-136 | in the window both are the new directory and no tick can fire; a task, also one preempted between reading the directory and its `cli`, leaves it with everything as it was, in its own directory, and ticks can fire again |
| Protocol.BootstrapNeverSwitches | src/task.c:56-61 | in every run the directory branch of `task_user_bootstrap` changes nothing |
| Tar.GetOctal | src/tar.c:18-30 | the loop computes the octal field with its stops at NUL and space and its 32-bit wrap |
| Tar.OctalRoundTrip | src/tar.c:18-30 | a number written in octal digits is read back |
| Tar.OctalMeans | src/tar.c:18-30 | for every field, well formed or not, the result is the number of the octal digits before the first NUL or space, modulo 2^32 |
| Tar.ReadStaysInsideIff | src/tar.c:32-36 | the clamped read stays inside the file if and only if offset is past the end or offset + size does not wrap back into the file |
| Tar.ReadsConcatenate | src/tar.c:32-39 | consecutive reads of any sizes concatenate to the stretch of the file they cover |
| TarWalk.PointerExactIff | src/tar.c:186 | the 32-bit step reaches the next header if and only if the sum does not wrap |
| TarWalk.PointerStallsIff | src/tar.c:186 | the step leaves the pointer in place, so that the loop does not end, for exactly one range of sizes |
| TarWalk.NameFitsIff | src/tar.c:160-164 | a name with its NUL fits into the node's 128 bytes if and only if the copy meets a NUL among the first 128 bytes |
| TarWalk.RamDisk.Init | src/tar.c:121-187 | the walk fills the table with the first 128 nodes of the archive in order |
| TarWalk.WalkInvertsArchive | src/tar.c:129-187 | for every list of entries, walking the archive encoded from it ends and recovers each stripped name, length, kind and data offset, in order |
| TarWalk.DataInPlace | src/tar.c:166-167 | each recovered node's data is its entry's, inside the archive, and after the data of all earlier nodes |
| TarWalk.FileReadsBack | src/tar.c:32-39 | reads of a recovered file yield the data the archive was made from |
| Vfs.ScanFlat | src/tar.c:44-52 | the scan accepts exactly names whose only slash, if any, is the last character |
| Vfs.IsDirectChild | src/tar.c:41-67 | accepts exactly names with the directory as prefix and a flat rest; at the root, flat names |
| Vfs.SlashIsRoot | src/tar.c:41-52 | a directory named by a lone slash goes through the same names as the root, namely those without an inner slash |
| Vfs.Finddir | src/tar.c:105-119 | returns the first entry of the directory that matches |
| Vfs.FinddirExact | src/tar.c:105-119 | on a well-formed table the search finds entry i if and only if its name is the directory's name plus the component |
| Vfs.Readdir | src/tar.c:79-103 | index k puts the k-th child's name and number into the one static entry; past the last child it returns NULL and leaves the entry as it was |
| Vfs.ListsEachChildOnce | src/tar.c:79-103 | a directory lists exactly its direct children, each once, in table order |
| Vfs.ListedIsFound | src/tar.c:79-119 | a listed name is the child's name after the directory's, its number the child's place, and looking it up returns that child |
| Vfs.FinddirFs | src/vfs.c:39-44 | files find nothing; directories search |
| Vfs.ReaddirFs | src/vfs.c:32-37 | something is listed if and only if the node is a directory and the index is below the number of children |
| Vfs.CopyToken | src/vfs.c:54-60 | the buffer receives the next component cut to 127 characters, and the index stops at its end |
| Vfs.FindNodeByPath | src/vfs.c:46-71 | the index loop with its token buffer resolves the non-empty components one after the other |
| Vfs.CutHarmlessIff | src/vfs.c:56-58 | an over-long component is rightly not found if and only if no entry has its first 127 characters as name |
| Vfs.ResolveExact | src/vfs.c:50-70 | from any directory, components lead to entry i if and only if they spell the rest of its name |
| Vfs.PathExact | src/vfs.c:46-71 | a path leads to entry i if and only if its non-empty components joined by slashes are its name, and to the root if and only if it has none |
| Vfs.PathReadsFile | src/tar.c:121-187 | from archive to bytes: a path that spells an archived name leads to a node whose reads return that entry's data |

## Left out

- Paging.MapRefines: the abstract flags are the low five bits (present, writable, user and the two cache bits); bits 5 to 11 of an entry, which the processor also writes, are not part of a translation.
- ElfTrace.UsersUndisturbed: the words of RAM in which the kernel keeps its variables and the bitmap are not followed; the model holds those values outside its RAM, and the bitmap's bytes enter it only in BitmapRam, Boot.Start and ElfFormat.ImageInPlace.
- TarWalk.RamDisk.Init: a name too long for the 128 bytes of a node is kept whole, without the fields behind the buffer that the copy overwrites; NameFitsIff says when this cannot arise.
- Page faults raised by the loader's own stores and copies: an access to an unmapped page reads 0 and writes nothing, and the image theorem has every page it uses mapped.
- Stores by user programs through the user-writable identity map: only the kernel's own writes to directories and tables are modelled.
- The rest of `task_user_bootstrap` after its directory branch: the user stack mapping, whose allocation the code does not check, and the entry to user mode.
- Concurrency inside one allocator call: each call is one step.
- Addresses of code: `task_exit`, `task_kernel_bootstrap`, `task_user_bootstrap` and the return address of the TSS call are fixed constants.
- `write_fs`, `open_fs`, `close_fs`: no file system of this kernel provides them.
- The terminal, number printing, diagnostics and the panic text.
- src/gdt.c, src/idt.c, src/isr.s, src/timer.c, src/syscall.c, src/user_mode.c: constant tables, port I/O and thin dispatch that would add only easy members.
- src/string.c: `memset`, `memcpy`, `strlen`, `strcmp` and `strncmp` appear by what they compute.
- The boot sequence, self-tests and demo tasks of src/kernel.c and src/boot.s.
