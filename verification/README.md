# AsifOS memory and file-reading core, modelled and proved in Dafny

This project models the parts of the AsifOS kernel that hand out, map and take back memory, the
path a file's bytes take from the disk to a buffer, and four small data structures beside them. It
proves what these parts keep true over whole runs, not only call by call.

`dafny verify dfyconfig.toml` checks everything.

## What is modelled

**The memory stack.** Three layers are verified as one system.

- *Heap* (`HeapTable`, `BlockAccounts`): a first-fit allocator whose only state is a table with one
  byte per 4 KB block. `BlockAccounts` adds an account that says which run every block belongs to
  and who holds the run. The account is bookkeeping: no operation computes the table from it, and
  the lemmas show that table and account determine each other.
- *Paging* (`PageTables`, `AddressSpaces`, `KernelMemory`): the directory and the 1024 tables of an
  address space are frames of one physical memory, read and written word by word (32-bit paging
  with 4 KB pages, section 4.3 of the Intel SDM, Volume 3A). They refine one flat map from pages to
  entries. That the frames never alias is not assumed; it follows from who holds which block.
- *Process memory* (`ProcessMemory`, `UserProcess`, `ElfImage`): the allocation table of a process,
  user malloc and free, ELF segments and stack.
- *Starting programs* (`ProgramStart`): loading a file, its stack, its task and the mapping of its
  segments, as one run of the state machine; and the exact conditions under which the mapping is
  safe.
- *Ending processes* (`ProcessEnd`, `ProcessLife`): freeing a process, as a run of the state machine,
  what it gives back, and what a start followed by an end leaves behind.
- `MemorySystem` puts them together as a state machine. Its operations are task creation and
  freeing, user malloc and free by any task, kernel malloc and free, mapping kernel memory into a
  task, stores by the kernel, and stores by user programs through their own page tables.
  `MemoryTheorems` says what its invariant means, and `BootedRuns` takes it, from the heap as it is
  created, to states in which the code does not do what it is meant to do.

**Reading files** (`DiskStream`, `Fat16`): byte streams over 512-byte sectors, and the read of a
FAT16 file along its cluster chain with two streams, one on the table and one on the data. Clusters
are located as in the section "FAT Data Structure" of the Microsoft FAT32 File System Specification
1.03.

**Small structures**: the doubly linked task list with its cursor (`TaskList`), the path parser
(`PathParser`), the keyboard ring (`KeyboardBuffer`) and the line editor of user programs
(`LineEditor`).

Where the source works in place, so does the model: classes over arrays and linked nodes, whose
methods are proved equal to functions on values. The laws are then proved of those functions. Words
are integers with explicit wrap-around; `|` and `&` are defined bit by bit in `Words`. Locations of
the physical memory, heap and user window are those of `config.h`.

## Where the code departs from its intent

The code is modelled as written in all of these places. Each has a concrete counterexample or an
exact condition.

- `heap.c:51-60` takes the free run at the end of the table even if it is too short
  (`ShortTailIsHandedOut`; on the kernel's own table, `TooLargeForBootedHeap`). The run handed out
  lies inside the table exactly when the request fits (`FitsExactly`); `Heap.Malloc` says what is
  written in both cases, and the state machine covers the runs in which requests fit.
- `heap.h:35` also holds of a middle byte, so freeing stops after two blocks
  (`ThirdBlockStaysTaken`). Freeing undoes taking exactly for runs of at most two blocks
  (`FreeUndoesMalloc`), and what stays behind stays for ever (`LostForever`).
- `paging.c:124` uses a signed pointer difference: a range of 2 GB or more is reported as mapped and
  is not (`TwoGigabytesAreNotMapped`, `WholeRangeMappedExactly`).
- `process.c:344` finds address 0 in every empty slot (`FreeOfNullIsNotIgnored`), and the free loop
  then runs on the memory below the heap table (`FreeOfNullRunsBelowTable`). What is found is a live
  allocation exactly for every other address, and for 0 if no slot is empty (`FoundIsLiveExactly`).
- `process_free` (`process.c:282-305`) does not give back the memory of a process. It frees the task,
  the stack, the program and the process record, and what becomes of every block is `EndOfBlock`.
  User allocations are not freed, although the comment in `process.h:36-38` plans to, and become
  `Orphan` blocks (`FreedTaskLosesExactly`, `OneByteIsOrphaned`); stack and record have eight and
  three blocks, of which the free loop clears two (`SevenBlocksLeftOver`); and for an ELF program
  only the record of the file is freed, not what lies behind it: `elf_free` is not called. All of its
  memory comes back exactly if it has no live allocation, nothing lies behind its pointers, and
  either the end test is the intended one or none of its runs has more than two blocks
  (`GivenBackExactly`); as the code is written, with its stack, that is never. `ElfProcessEnds` is the
  balance of a start and an end, block by block.
- `loader.c:83` and `process.c:132-135` map as much memory as a header asks for from where its bytes
  lie in the file, and at any virtual address. A segment that is longer than the rest of its file
  leads to memory of others: `LongSegmentExposesDirectory` is a start on the fresh heap, with all
  its requests, after which a program can write to its own page directory. Page tables are exposed exactly if a writable segment covers
  one (`TablesExposedExactly`); a mapping keeps the invariant exactly if it stays in its run, or in
  the image of the task, and clear of the user heap window (`MapImageKeepsExactly`; for all segments
  of a program in turn `KeptThroughoutExactly`; in terms of the header `FirstSegmentKeepsExactly`,
  `OwnRunExactly`). These mappings, and only these, are outside the state machine, so what is said of
  its reachable states is said of programs with safe headers; starting such a program is a run of it
  (`ProgramStarts`).
- `loader.c:71-78` rejects a loadable segment that is empty in the file and in memory
  (`LoadStopsExactly`).
- `stream.c:30-33` counts one sector too few when a read ends one byte into a sector
  (`DeliveredExactly`, `OneByteIsLost`).
- `fat16.c:270-277,613-614` never delivers the last sector of a chain (`LastSectorNeverArrives`).
  `fat16.c:597` counts whole sectors although `fat16.c:258` shortens the step at the end of the first
  cluster, so a read that crosses it from inside a sector can end early and still report its whole
  length (`ShortStepIsNotMadeUp`); and from one byte into a sector on, every full step loses its
  last byte to `stream.c:30-33`. `ReadExactly` is the exact condition for a right read from any
  position in the first cluster. `fat16.c:592,609` does not follow the chain to a start position
  behind it: the first step can be made exactly if the read starts in the first cluster
  (`FirstStepReadable`, `SecondClusterIsNotRead`, `StartAddressRight`).
- `task.c:117-118` moves the current task but not the current process, so key events are pushed and
  popped in different buffers once the current process is freed (`CursorsSeparate`,
  `RunsStayOrdered`).
- `pparser.c` loses an empty last part (`ParseOfPrint`).

## Model

| member | source | states |
|---|---|---|
| HeapTable.FitsExactly | src/kernel/heap/heap.c:38-61 | the first-fit search answers with a run inside the table if and only if there is a free window of one block more than asked for, or the free run at the table's end is empty or long enough |
| HeapTable.StartRunIsFree | src/kernel/heap/heap.c:38-61 | a fitting answer is a run of free blocks that begins where a free run begins |
| HeapTable.FirstWindowUnique | src/kernel/heap/heap.c:54-60 | the search answers with the leftmost window of one free block more than asked for |
| HeapTable.ExactRunIsPassedOver | src/kernel/heap/heap.c:54 | a free run of exactly the size asked for is never used unless it touches the end of the table |
| HeapTable.ShortTailIsHandedOut | src/kernel/heap/heap.c:51-60 | a two-entry table on which a request for two blocks is answered with the last one |
| HeapTable.FreeTableAnswersAll | src/kernel/heap/heap.c:38-61 | an all-free table answers every request with its first block; the request fits exactly if it is not larger than the table |
| HeapTable.GrantedExactly | src/kernel/heap/heap.c:111-129 | a request is granted if and only if it is not empty and there is a free window of one block more than it needs or the last block is free |
| HeapTable.Heap.Create | src/kernel/heap/heap.c:16-32 | refused unless both ends are aligned and the size matches; otherwise the table, and nothing behind it, becomes free |
| HeapTable.Heap.GetStartBlock | src/kernel/heap/heap.c:38-61 | the scan with its two counters computes the declarative first-fit answer, for every table and size |
| HeapTable.Heap.MarkBlockTaken | src/kernel/heap/heap.c:71-95 | exactly the blocks of the run are overwritten, with first, middle and last bytes |
| HeapTable.Heap.MarkBlockFree | src/kernel/heap/heap.c:97-109 | the in-place loop clears what the recursive definition clears |
| HeapTable.Heap.Malloc | src/kernel/heap/heap.c:111-129 | null without a byte changed, or the address of the run found, with that run marked; for a fitting request nothing behind the table changes |
| HeapTable.Heap.Free | src/kernel/heap/heap.c:131-133 | a free that stops inside the table changes nothing behind it |
| HeapTable.FreeClearsOwnRunOnly | src/kernel/include/nuttle/heap.h:33-35 | freeing a complete run clears its first two blocks, or all of them under the intended end test, and no byte of a neighbour |
| HeapTable.FreeUndoesMalloc | src/kernel/heap/heap.c:71-109 | taking and freeing a run restores the table byte for byte if and only if the end test is the intended one or the run has at most two blocks |
| HeapTable.EndTestsAgree | src/kernel/include/nuttle/heap.h:33-35 | on a complete run both end tests free the same blocks if and only if it has at most two |
| HeapTable.ThirdBlockStaysTaken | src/kernel/heap/heap.c:102-108 | three blocks, taken and freed: the third stays taken |
| HeapTable.AddressRoundTrip | src/kernel/heap/heap.c:63-69 | block to address to block is the identity and addresses are page aligned |
| HeapTable.BlockRoundTrip | src/kernel/heap/heap.c:63-69 | aligned address to block to address is the identity inside the heap |
| BlockAccounts.AllotAccounts | src/kernel/heap/heap.c:71-95 | taking a free run of an accounted-for table gives blocks that were vacant, and the table again encodes whole disjoint runs |
| BlockAccounts.ReleaseAccounts | src/kernel/heap/heap.c:97-109 | freeing a held run through the bytes vacates at most two blocks, leaves the rest behind and touches no other run |
| BlockAccounts.TableDeterminesRuns | src/kernel/include/nuttle/heap.h:9-19 | the byte table is a unique encoding: two accounts of the same bytes hold the same runs and left-overs |
| BlockAccounts.AccountDeterminesTable | src/kernel/include/nuttle/heap.h:21-29 | an account has only one table |
| BlockAccounts.OneBlockRequest | src/kernel/heap/heap.c:38-61 | a one-block request always fits, succeeds exactly while a usable block is left and uses up exactly one |
| BlockAccounts.CapacityIsExact | src/kernel/heap/heap.c:38-61 | k one-block requests in a row succeed if and only if k usable blocks are left |
| PageTables.MapPageRemaps | src/kernel/paging/paging.c:161-191 | mapping a page changes one entry of the flat map, adds flags to one directory entry and leaves every table where it is |
| PageTables.MapPageRefused | src/kernel/paging/paging.c:161-175 | a page is refused, without a change, if and only if it or its frame is misaligned or it is page 0 |
| PageTables.MapRangeRemaps | src/kernel/paging/paging.c:92-105 | a range takes effect up to the wrap-around of the address space and reports success exactly when it does not reach address 0 |
| PageTables.MapToRemaps | src/kernel/paging/paging.c:107-130 | the complete outcome for all arguments: refused, silently not mapped from 2 GB on, or mapped as far as the address space goes |
| PageTables.MapToExact | src/kernel/paging/paging.c:107-130 | under the guard the flat map is updated on exactly the pages of the range and success is reported |
| PageTables.WholeRangeMappedExactly | src/kernel/paging/paging.c:107-130 | mapping a range succeeds and maps all its pages, whatever was mapped before, if and only if it is below 2 GB, starts above 0 and does not wrap |
| PageTables.TwoGigabytesAreNotMapped | src/kernel/paging/paging.c:124-126 | a range of exactly 2 GB: success is reported and memory is unchanged |
| PageTables.RemappedTranslates | src/kernel/paging/paging.c:193-215 | after a mapping every address of the range translates to its offset from the physical start |
| PageTables.TranslateReadsEntry | src/kernel/paging/paging.c:132-159 | the two-level walk with masks and shifts reads the flat map |
| AddressSpaces.HeldChunkHasNoAliases | src/kernel/paging/paging.c:8-37 | the 1026 frames of an address space are different because the heap holds them as different runs |
| AddressSpaces.ChunksDisjoint | src/kernel/paging/paging.c:8-37 | address spaces of different tasks share no frame |
| AddressSpaces.NewChunkEffect | src/kernel/paging/paging.c:8-37 | creation takes 1026 vacant blocks, maps every page to itself and changes no other frame |
| AddressSpaces.FreeChunkEffect | src/kernel/paging/paging.c:39-61 | freeing gives back exactly the blocks held as parts of this address space, each once |
| AddressSpaces.CreateMapFreeRestoresHeap | src/kernel/paging/paging.c:8-61 | create, map any pages in any order, free: the heap table is restored byte for byte |
| KernelMemory.Memory.GetIndices | src/kernel/paging/paging.c:132-159 | shifts and masks compute the indices of the flat page number |
| KernelMemory.Memory.MapPage | src/kernel/paging/paging.c:161-191 | the two stores to memory are those of the page-mapping function, with its refusals |
| KernelMemory.Memory.MapRange | src/kernel/paging/paging.c:92-105 | the loop computes the range function, including where it stops |
| KernelMemory.Memory.MapTo | src/kernel/paging/paging.c:107-130 | validation, signed page count and range over the directory the chunk points to |
| KernelMemory.Memory.GetPhysicalAddr | src/kernel/paging/paging.c:193-215 | the walk computes the translation function, error value included |
| KernelMemory.Memory.GetNew4gbChunk | src/kernel/paging/paging.c:8-37 | the two nested loops over heap and memory produce the chunk and the state of the creation function |
| KernelMemory.Memory.Free4gbChunk | src/kernel/paging/paging.c:39-61 | null is ignored; otherwise every table, the directory and the header are freed as the entries name them |
| KernelMemory.Memory.Mallock | src/kernel/heap/kheap.c:27-33 | kernel malloc moves table and account together |
| KernelMemory.Memory.Freek | src/kernel/heap/kheap.c:31-33 | kernel free of a live pointer moves table and account together |
| ProcessMemory.RoundingsAgree | src/kernel/task/process.c:355-384 | blocks taken, pages recorded and pages mapped are the same number for every non-zero size |
| ProcessMemory.WindowMapping | src/kernel/task/process.c:380-384 | the mapping user malloc asks for can never be refused, so ignoring its result is harmless |
| ProcessMemory.FreeOfNullIsNotIgnored | src/kernel/task/process.c:340-409 | address 0 counts as allocated exactly while a slot is empty, and what would then be freed is no block of the heap |
| ProcessMemory.FreeOfNullRunsBelowTable | src/kernel/heap/heap.c:97-109 | the loop that is then run starts 4096 entries below the table: it changes memory exactly if the byte there looks taken, and not the table if it stops below it |
| ProcessMemory.FoundIsLiveExactly | src/kernel/task/process.c:399-409 | a user free that finds a slot finds a live allocation, if and only if its address is not 0 or no slot is empty |
| ProcessMemory.UserMallocKeeps | src/kernel/task/process.c:364-397 | success takes vacant blocks for the first empty slot and maps them at their place in the window; failure changes nothing; the invariant of the process is kept and only its own tables change |
| ProcessMemory.UserMallocSucceedsExactly | src/kernel/task/process.c:364-397 | user malloc succeeds if and only if it is asked for something, a slot is empty and the heap grants the request; its answer is the window address of the leftmost run that fits, or of the free run at the end |
| ProcessMemory.UserFreeKeeps | src/kernel/task/process.c:399-418 | free acts on a live allocation or not at all: it gives back the run of that slot, maps its pages to themselves and keeps the invariant |
| ProcessMemory.ProcessUnconcerned | src/kernel/task/process.c:364-418 | a process keeps its invariant through any change of blocks and frames that are not its own |
| UserProcess.ProcessObject.FindSlot | src/kernel/task/process.c:325-353 | the slot searches find the first match or report that there is none |
| UserProcess.ProcessObject.AllocMalloc | src/kernel/task/process.c:364-397 | the system call over allocation array, heap table and memory computes the malloc function |
| UserProcess.ProcessObject.AllocFree | src/kernel/task/process.c:399-418 | the system call over allocation array, heap table and memory computes the free function |
| UserProcess.TaskNew | src/kernel/task/task.c:137-149 | record and address space of a new task, as the task step of the state machine |
| UserProcess.TaskFree | src/kernel/task/task.c:121-135 | null is ignored; otherwise address space and record go back to the heap |
| UserProcess.ProcessFree | src/kernel/task/process.c:282-305 | task, stack, program and record are freed in this order, null pointers skipped, as the run of operations that `ProcessEnd` is about |
| MemorySystem.MallocKeeps | src/kernel/task/process.c:364-397 | user malloc by any task keeps the invariant of the whole system |
| MemorySystem.FreeKeeps | src/kernel/task/process.c:399-418 | user free by any task keeps the invariant of the whole system |
| MemorySystem.NewTaskKeeps | src/kernel/task/task.c:22-53 | a new task gets blocks that were vacant, for its record and its address space and nothing else; every page maps to itself, and the invariant is kept |
| MemorySystem.FreeTaskKeeps | src/kernel/task/task.c:121-135 | freeing a task vacates its record and address space, leaves its user memory held for nobody and every other block as it was, and keeps the invariant |
| MemorySystem.MapImageKeeps | src/kernel/task/process.c:103-172 | mapping kernel memory into a task, inside its run or image and outside the user window, keeps the invariant |
| MemorySystem.MapImageKeepsExactly | src/kernel/task/process.c:132-135 | a mapping that starts in kernel memory keeps the invariant if and only if all of it is in that run or in the image of the task, and clear of the user window |
| MemorySystem.UserPageOwner | src/kernel/paging/paging.c:161-191 | in every state that satisfies the invariant, a page open to user mode leads to a block of the task's own allocations or image, never to a page table |
| MemorySystem.StoreKeeps | src/kernel/paging/paging.c:161-191 | no store outside the address spaces, so no user store, can disturb the invariant |
| MemorySystem.StepKeeps | src/kernel/task/process.c:282-418 | every enabled operation keeps the invariant |
| MemorySystem.ReachableStatesOk | src/kernel/heap/kheap.c:10-25 | every state reached from a fresh heap by any sequence of enabled operations satisfies the invariant |
| MemoryTheorems.TakenBlocksHaveOneHolder | src/kernel/heap/heap.c:71-133 | in every such state the taken blocks are the disjoint union of complete runs, each explained by exactly one directory, table, header, record, slot, image, kernel run or orphan, and of left-overs |
| MemoryTheorems.UserAllocationsDisjoint | src/kernel/task/process.c:375-393 | no two live user allocations, of the same or of different tasks, share a block |
| MemoryTheorems.LiveAllocationTranslates | src/kernel/task/process.c:380-393 | every address of a live allocation translates to its own block at a fixed distance and is writable from user mode |
| MemoryTheorems.UserStoreLands | src/kernel/task/process.c:380-393 | a user program can store to every page of a live allocation, and this changes exactly one word, of the block behind the page |
| MemoryTheorems.UserPagesExact | src/kernel/task/process.c:103-172 | user mode reaches exactly the pages of live slots and the image pages mapped open; all others map to themselves |
| MemoryTheorems.TasksAreIsolated | src/kernel/task/process.c:364-418 | no frame is reachable from user mode in two tasks, and none of them belongs to an address space |
| MemoryTheorems.MallocThenFree | src/kernel/task/process.c:364-418 | malloc then free restores the flat map and the slot, and the heap table exactly for requests of at most two blocks |
| MemoryTheorems.FreedPagesClosed | src/kernel/task/process.c:411-417 | after a free every page of the allocation maps to itself and is closed to user mode |
| MemoryTheorems.FreedTaskBlocks | src/kernel/task/task.c:121-135 | what becomes of every block when a task is freed: vacated exactly if record or address space, orphaned exactly if part of a live allocation |
| MemoryTheorems.FreedTaskLosesExactly | src/kernel/task/task.c:121-135 | freeing a task makes orphans if and only if the task has a live allocation |
| MemoryTheorems.LostForever | src/kernel/heap/heap.c:97-109 | no run of the system ever gives back a left-over of a multi-block free or user memory of a freed task |
| ElfImage.LoadableExactly | src/kernel/task/process.c:130-135 | an aligned segment is mapped as a whole if and only if it is smaller than 2 GB and lies inside the address space on both sides |
| ElfImage.SegmentsOverlay | src/kernel/task/process.c:111-141 | mapping loadable segments succeeds and overlays the flat map with them |
| ElfImage.MapSegmentsInOrder | src/kernel/task/process.c:111-141 | segments are mapped in order, and the first that is refused ends the mapping with its status |
| ElfImage.MapProgramExact | src/kernel/task/process.c:111-172 | with separate segments every byte translates to its base plus offset, write permission follows the segment, the stack window leads to the stack and can be written, other pages keep their entries |
| ElfImage.BinaryIsOneSegment | src/kernel/task/process.c:103-109 | a raw binary is mapped like one writable segment, so the same theorem covers it |
| ElfImage.LoadPlacesSegments | src/kernel/elf/loader.c:50-94 | exactly the loadable headers are loaded, in order; file-backed ones point into the file, the others to runs of their own that were vacant and are long enough |
| ElfImage.LoadStopsExactly | src/kernel/elf/loader.c:67-85 | a header stops the load if and only if its segment has no bytes in the file and either none in memory, or the heap has no free window for it and its last block is taken |
| ElfImage.LoadStopsAtFirst | src/kernel/elf/loader.c:63-90 | a load that fails stops at the first header without memory, which is left with address 0; those behind it are untouched |
| ElfImage.LoadRecordsAllocations | src/kernel/elf/loader.c:71-83 | after a load the table of allocations holds, in order, the addresses of exactly the segments without bytes in the file, and exactly the blocks of the runs that start there changed hands |
| ElfImage.LoadedProgramMapped | src/kernel/elf/loader.c:50-94 | load and map together: every byte of a segment translates to the memory the loader assigned |
| ElfImage.MapElf | src/kernel/task/process.c:111-141 | the loop over the headers computes the segment mapping, up to the first refusal |
| ElfImage.MapMemory | src/kernel/task/process.c:143-172 | segments, then the stack |
| ElfImage.ProcessHeaders | src/kernel/elf/loader.c:63-90 | the loop updates the headers in place and takes memory as the load function says |
| ProgramStart.SegmentsRun | src/kernel/task/process.c:111-172 | mapping segments that may be mapped is a run of the system; the image grows by exactly their pages |
| ProgramStart.ProgramIsSegments | src/kernel/task/process.c:143-172 | the stack is mapped like one more writable segment |
| ProgramStart.TablesExposedExactly | src/kernel/task/process.c:111-172 | after mapping separate segments user mode can write to a frame of some address space if and only if a writable segment covers one |
| ProgramStart.OwnRunExactly | src/kernel/elf/loader.c:71-83 | all pages of a loaded segment lead to the run its bytes or its memory lie in, if and only if it has no bytes in the file or ends inside the memory of the file |
| ProgramStart.FirstSegmentKeepsExactly | src/kernel/task/process.c:111-141 | the first segment mapped into a task keeps the invariant if and only if its header is safe: inside the memory of the file, and clear of the user window |
| ProgramStart.KeptThroughoutExactly | src/kernel/task/process.c:111-141 | mapping all segments of a program in turn keeps the invariant every time, if and only if each starts in kernel memory, is clear of the user window and leads to the runs in which it or an earlier one starts, or to the image |
| ProgramStart.LoadIsRun | src/kernel/elf/loader.c:63-90 | a load that succeeds is a run of kernel requests |
| ProgramStart.ProgramPagesExact | src/kernel/task/process.c:143-172 | in a new task user mode reaches exactly the pages of the segments and of the stack |
| ProgramStart.ProgramStarts | src/kernel/task/process.c:174-235 | loading, stack, task and mapping of a program with safe headers are a run of the system that ends with its invariant, with exactly the program's pages open to user mode, and every byte translated as the file says |
| ProcessEnd.EndIsRun | src/kernel/task/process.c:282-305 | freeing a process is a run of the system that keeps the invariant; its account is that without the task, with the runs of the pointers freed as far as the free loop clears them |
| ProcessEnd.IntendedEnd | src/kernel/include/nuttle/heap.h:33-35 | with the intended end test the same frees leave a table whose account has these runs vacant as a whole |
| ProcessEnd.EndOfBlock | src/kernel/task/process.c:282-305 | what becomes of every block: vacant, left over, orphaned, or still held with nothing left that leads to it |
| ProcessEnd.GivenBackExactly | src/kernel/task/process.c:282-305 | all memory of the process comes back if and only if there is no live allocation, nothing lies behind its pointers, and either the end test is the intended one or no run has more than two blocks |
| ProcessLife.ElfProcessStarts | src/kernel/elf/loader.c:109-158 | all requests of a start, from the process record to the stack, with task and mapping, are a run of the system; these are the runs the process then has |
| ProcessLife.ElfProcessEnds | src/kernel/task/process.c:282-305 | start and end of an ELF process, block by block: with either end test file, header list and memory-only segments stay held, everything not requested is as before, and what the free loop does not clear is left over |
| ProcessLife.SevenBlocksLeftOver | src/kernel/task/process.c:293-301 | every ELF process leaves over six blocks of its stack and one of its record |
| BootedRuns.ShortProgramStartable | src/kernel/task/process.c:174-235 | on the fresh heap a one-block file whose segment fits into it meets all conditions of a start and an end |
| BootedRuns.LongSegmentExposesDirectory | src/kernel/task/process.c:174-235 | a start on the fresh heap, with records, file, header list, stack and task in the order of the code: a segment of one file byte and twelve pages is loaded and mapped, and makes the directory of its task writable from user mode |
| BootedRuns.OneByteIsOrphaned | src/kernel/task/task.c:121-135 | a run from boot to a task with a live allocation, whose memory is an orphan when it is freed |
| BootedRuns.TooLargeForBootedHeap | src/kernel/heap/heap.c:38-61 | 25601 blocks asked of the fresh heap are answered with its first block, and end behind the table |
| DiskStream.DeliveredExactly | src/kernel/disk/stream.c:24-33 | a read is complete if and only if it does not end one byte into a sector; otherwise exactly the last byte is missing |
| DiskStream.OneByteIsLost | src/kernel/disk/stream.c:30-33 | one byte at the start of a sector: nothing is read |
| DiskStream.RoundingUpTheEndIsEnough | src/kernel/disk/stream.c:30-33 | the corrected sector count makes every read complete |
| DiskStream.Stream.Read | src/kernel/disk/stream.c:21-55 | the nested loops copy exactly the delivered bytes of the disk, in place, and advance the position by the whole length |
| Fat16.ClustersTile | src/kernel/fs/fat16.c:182-186 | clusters 2, 3, ... tile the disk from the end of the root directory on, and their two-byte table entries from the end of the reserved sectors on |
| Fat16.ClustersDisjoint | src/kernel/fs/fat16.c:182-186 | different clusters share no byte |
| Fat16.EntryMeaning | src/kernel/fs/fat16.c:194-247 | which table entries, byte by byte, lead to which next cluster, and which end the chain |
| Fat16.Volume.GetNextCluster | src/kernel/fs/fat16.c:194-247 | the successor of a cluster by its table entry; the data stream does not move |
| Fat16.Volume.ReadInternals | src/kernel/fs/fat16.c:254-290 | one step, from any byte of a cluster, yields the next bytes of the chain's contents, all or all but one, and keeps cluster, count and stream together; there is no more exactly at the end of the contents |
| Fat16.StretchInChain | src/kernel/fs/fat16.c:182-186 | a stretch of cluster number q is the stretch of the chain's contents at its place |
| Fat16.StepTaken | src/kernel/fs/fat16.c:266-286 | a step leads on in the cluster, to the next cluster, or to the end of the chain, which is the end of its contents |
| Fat16.WantedIsLeast | src/kernel/fs/fat16.c:582-588 | a read asks for the lesser of what its caller asks for and what the file has left |
| Fat16.ReadFile | src/kernel/fs/fat16.c:579-636 | from any position in the first cluster: which bytes of the chain's contents arrive, which are replaced by what the buffer held, how far the position moves and what is returned |
| Fat16.ReadExactly | src/kernel/fs/fat16.c:592-636 | the output is right and complete if and only if the last step of the chain is not needed, the short step at the end of the first cluster is made up for, and no full step starts one byte into a sector |
| Fat16.LastSectorNeverArrives | src/kernel/fs/fat16.c:270-277 | an aligned read completes if and only if it ends at least a sector before the end of the chain |
| Fat16.ShortStepIsNotMadeUp | src/kernel/fs/fat16.c:597 | 4096 bytes from position 100 of a 2048-byte cluster: 3996 arrive and the whole length is reported |
| Fat16.FirstStepReadable | src/kernel/fs/fat16.c:592-612 | the first step of a read asks for bytes that are on the disk and fit its buffer if and only if the read starts in the first cluster |
| Fat16.SecondClusterIsNotRead | src/kernel/fs/fat16.c:592-612 | one-sector clusters, read from the second one on: sectors for 4 GB are asked for |
| Fat16.StartAddressRight | src/kernel/fs/fat16.c:609 | even the address such a read starts at is right if and only if the clusters are numbered without a gap |
| TaskList.List.New | src/kernel/task/task.c:22-53 | the new task is linked at the end, the cursors stay: the creation step of the scheduler that `RunsStayOrdered` is about |
| TaskList.List.Switch | src/kernel/task/task.c:61-64 | the cursor moves to a member, the current process stays |
| TaskList.List.SwitchProcess | src/kernel/task/process.c:307-311 | both cursors move: the switching step of that scheduler |
| TaskList.List.Remove | src/kernel/task/task.c:102-119 | exactly this task leaves the chain, the cursor moves to its cyclic successor if it was on it, and the current process stays: the freeing step of that scheduler |
| TaskList.RemoveCurrentIsOneTurn | src/kernel/task/task.c:115-118 | removing the current task leaves the rest of the round in order, starting at the new current task |
| TaskList.RoundGoesOn | src/kernel/task/task.c:115-118 | after the removal of the current task the round starts at the new current task, with the others in the order in which they would have come |
| TaskList.RunsStayOrdered | src/kernel/task/process.c:307-311 | over all runs: creation order, the current task is a member, and current task and current process agree exactly while the current process has its task |
| TaskList.CursorsSeparate | src/kernel/keyboard/keyboard.c:74-126 | a run after which events are pushed to one buffer and popped from another |
| PathParser.JoinOfSplit | src/kernel/fs/pparser.c:48-86 | printing the parts of a path gives its text back, up to a slash at the end |
| PathParser.PartsHaveNoSlash | src/kernel/fs/pparser.c:69-73 | no part contains a slash |
| PathParser.SplitOfJoin | src/kernel/fs/pparser.c:48-86 | splitting printed parts gives them back, except for an empty last one |
| PathParser.AcceptedExactly | src/kernel/fs/pparser.c:19-23 | a path is accepted if and only if it is a digit, a colon and a slash, followed by any text |
| PathParser.ParseOfText | src/kernel/fs/pparser.c:25-46 | its drive is the number of the digit, and its parts are those of the text |
| PathParser.ParseOfPrint | src/kernel/fs/pparser.c:132-164 | parsing a printed path gives it back if and only if its last part, if any, is not empty |
| PathParser.PrintOfParse | src/kernel/fs/pparser.c:132-164 | printing a parsed path gives its text back, up to a slash at the end |
| PathParser.ExtractPathPart | src/kernel/fs/pparser.c:48-86 | a successful call consumes text and yields what precedes the first slash; it fails exactly at the end |
| PathParser.MakePathPart | src/kernel/fs/pparser.c:106-130 | a node for the part, linked behind the previous one |
| PathParser.ParsePath | src/kernel/fs/pparser.c:132-164 | the linked list holds exactly the parts of the path, in order; only malformed prefixes are refused |
| KeyboardBuffer.CircularIsResidue | src/kernel/keyboard/keyboard.c:50-57 | the remainder of C, which follows the sign, corrected, is the least non-negative residue, for negative n as well |
| KeyboardBuffer.Buffer.Push | src/kernel/keyboard/keyboard.c:63-98 | empty events and full buffers are refused without a change; otherwise the event becomes the newest one: the push of the queue that `RunsAreFifo` is about |
| KeyboardBuffer.Buffer.Pop | src/kernel/keyboard/keyboard.c:123-147 | the oldest event, or 0 from an empty buffer: the pop of that queue |
| KeyboardBuffer.RunsAreFifo | src/kernel/keyboard/keyboard.c:63-147 | over all runs what was popped, followed by what is pending, is what was accepted, never more than 1024 pending and never a 0 |
| LineEditor.PlainLine | programs/stdlib/src/asifos.c:3-47 | characters followed by key 13 give exactly these characters, as far as they fit |
| LineEditor.ReleasesIgnored | programs/stdlib/src/asifos.c:8-14 | dropping every key from 256 on leaves the line as it is |
| LineEditor.BackspaceUndoes | programs/stdlib/src/asifos.c:27-39 | a character and key 8 leave the line as it was, unless the character fills it, and key 8 does nothing at the start |
| LineEditor.EchoShowsLine | programs/stdlib/src/asifos.c:27-44 | with echo the screen shows the line behind what it showed before, of which nothing is removed |
| LineEditor.SilentRemovals | programs/stdlib/src/asifos.c:27-44 | without echo the same removals appear, and no characters |
| LineEditor.OutputOfKey | programs/stdlib/src/asifos.c:8-44 | the terminal calls of every key, by its code |
| LineEditor.ReadLine | programs/stdlib/src/asifos.c:3-47 | for every key stream and every size the buffer is the fold of the keys, terminated, the index stays inside it despite its steps backwards, and the terminal calls are those of the fold |

## Left out

- Port I/O, device protocols, assembly, segment and task-state tables, CR3 and the TLB: the disk is a sequence of bytes, and switching address spaces is not modelled.
- Null pointers from failed kernel allocations inside chunk and task creation: the C code does not check them; capacity for all 1027 blocks is the guard, and it is exact by `CapacityIsExact`.
- HeapTable.Heap.Free: needs the free loop to stop inside the memory it is given, which it does for every live pointer.
- Requests that do not fit are described by `Heap.Malloc`, but the state machine stops before them: what then follows the heap table in memory is overwritten.
- KernelMemory.Memory.Mallock: requests that do not fit are not covered; `Heap.Malloc` says what is written then.
- ProcessMemory.UserMallocKeeps: as for `Mallock`, requests that fit only.
- UserProcess.ProcessObject.AllocMalloc: as for `Mallock`, requests that fit only.
- MemorySystem.MallocKeeps: as for `Mallock`, requests that fit only.
- ProcessMemory.UserFreeKeeps: not for address 0 while a slot is empty; `FoundIsLiveExactly` and `FreeOfNullRunsBelowTable` say what happens then.
- UserProcess.ProcessObject.AllocFree: as for `UserFreeKeeps`, not for address 0 while a slot is empty.
- MemorySystem.FreeKeeps: as for `UserFreeKeeps`, not for address 0 while a slot is empty.
- UserProcess.TaskNew: not for heaps with fewer than 1027 usable blocks, where the C code goes on with null pointers.
- MemorySystem.MapImageKeeps: not for ranges that leave their run and the image, or that reach into the user window; `MapImageKeepsExactly` says that these, and only these, break the invariant.
- MemorySystem.StepKeeps: image mappings that `MapImageKeepsExactly` excludes are no steps of the state machine.
- ProcessLife.ElfProcessStarts: what opening and reading the file requests in between is left out; these are kernel requests like the others, and the file is not closed.
- UserProcess.ProcessFree: a process without a task, which only the error path of a start frees, is left out.
- Fat16.ReadFile: sectors of 512 bytes, and positions in the first cluster; from there on `FirstStepReadable` says that the read does not get past its first step.
- The heap table at 0x7e00 and the tables of an address space are separate arrays in the model; they cannot overlap because the heap starts at 16 MB.
- The contents of task records and process records: the slots are an array of their own, and the stores that fill records are covered by arbitrary kernel stores.
- What is written to the list of header pointers, and the unchecked bound of 16 memory-only segments, which is a precondition of `ProcessHeaders`.
- The length of a path part against its 4096-byte buffer, and the list node the parser leaks at the end of every path.
- The wrapped signed product in `paging.c:25` for tables from 512 on: the model computes the address the bits stand for.
- Opening and seeking files, directories, names, descriptors, the system call table, the terminal, and error-path cleanup: they add no hard members.
- `keyboard_backspace`, which nothing calls.
