/** Short runs from the heap as it is created, to states in which the code does not do what it is meant
    to do. */
module BootedRuns {
  import opened Words
  import opened Status
  import opened HeapTable
  import opened BlockAccounts
  import opened PageTables
  import opened MemoryState
  import opened AddressSpaces
  import opened ProcessMemory
  import opened MemorySystem
  import opened MemoryTheorems
  import opened ElfImage
  import opened ProgramStart
  import opened ProcessLife

  // ----- the heap after boot

  /** The numbers below n. */
  function Below(n: nat): (r: set<nat>)
    ensures |r| == n && forall i: nat :: i in r <==> i < n
  {
    if n == 0 then {} else Below(n - 1) + {n - 1}
  }

  lemma BootedCapacity(s: System)
    requires Boot(s)
    ensures Inv(s) && Capacity(s.mem.table) == HEAP_BLOCKS
  {
    hide ProcessOk, ExplainedCell;
    assert UsableBlocks(s.mem.table) == Below(HEAP_BLOCKS);
    ReachableStatesOk(s, []);
  }

  /** The first k blocks are held and no other. */
  ghost predicate FirstHeld(m: Mem, k: nat) {
    && Sound(m)
    && (forall b | 0 <= b < HEAP_BLOCKS :: if b < k then m.own[b].Held? else m.own[b].Vacant?)
  }

  /** The next one-block request is then given the next block. */
  lemma NextBlock(m: Mem, k: nat, who: Owner)
    requires FirstHeld(m, k) && k + 1 < HEAP_BLOCKS
    ensures Capacity(m.table) > 0 && TakePage(m, who).0 == HEAP_FRAME + k
    ensures FirstHeld(TakePage(m, who).1, k + 1)
    ensures TakePage(m, who).1.own == m.own[k := Held(k, 1, who)]
  {
    hide Capacity, Accounts;
    forall b: nat | b < HEAP_BLOCKS
      ensures Taken(m.table[b]) <==> b < k
    {
      TakenExactlyWhenHeld(m.table, m.own, b);
    }
    forall i: nat | i < k
      ensures !Window(m.table, 1, i)
    {
      assert Taken(m.table[i]);
    }
    assert FirstWindow(m.table, 1, k);
    FirstWindowUnique(m.table, 1, k);
    OneBlockRequest(m.table);
    TakePageSound(m, who);
  }

  /** A request for one block more than the heap has is answered with the first block, and the run
      handed out ends behind the table. */
  lemma TooLargeForBootedHeap(s: System, size: u32)
    requires Boot(s) && size == (HEAP_BLOCKS + 1) * BLOCK_SIZE
    ensures MallocBlock(s.mem.table, size) == Some(0) && TotalBlocks(size) == |s.mem.table| + 1
    ensures !Enabled(s, KernelMalloc(size))
  {
    FreeTableAnswersAll(s.mem.table, TotalBlocks(size));
  }

  // ----- user memory lost with its task

  /** A task is created, allocates one byte and is freed: its block is never given back. */
  lemma {:induction false} OneByteIsOrphaned(s: System)
    requires Boot(s)
    ensures Inv(s)
    ensures var r := Execute(s, [NewTask(0), Malloc(0, 1)]);
            r.Some? && Inv(r.value) && LiveSlot(r.value, 0, 0) && exists b :: LostByFree(r.value, 0, b)
  {
    hide Inv, Capacity, NewChunk, IdentityMapped, NewTaskTook, ChunkHeld, Fits, UserMalloc, MallocStep, NewTaskStep,
         LostByFree;
    BootedCapacity(s);
    NewTaskKeeps(s, 0);
    RoomForMore(s);
    var s1 := Step(s, NewTask(0));
    OneByteGranted(s1);
    MallocKeeps(s1, 0, 1);
    var s2 := Step(s1, Malloc(0, 1));
    TwoSteps(s, NewTask(0), Malloc(0, 1));
    assert LiveSlot(s2, 0, 0);
    FreedTaskLosesExactly(s2, 0);
  }

  lemma RoomForMore(s: System)
    requires Inv(s) && Enabled(s, NewTask(0)) && Capacity(s.mem.table) == HEAP_BLOCKS
    ensures Capacity(NewTaskStep(s, 0).mem.table) > 0
  {
    hide Accounts, Explained, ProcessesOk, Capacity, NewChunk, IdentityMapped, OnlyChunkTaken, TakePage, HeldFrame;
    TakePageSound(s.mem, TaskRecord(0));
    NewChunkEffect(TakePage(s.mem, TaskRecord(0)).1, 0, KERNEL_FLAGS);
  }

  lemma {:induction false} OneByteGranted(s: System)
    requires Inv(s) && NewlyCreated(s, 0) && Capacity(s.mem.table) > 0
    ensures Enabled(s, Malloc(0, 1)) && LiveSlot(MallocStep(s, 0, 1), 0, 0)
  {
    hide Accounts, Explained, ProcessesOk, ProcessOk, Capacity, Fits, MapTo, AlignUp, ChunkHeld, PagesOk, DirectoryOk,
         SlotsOk, ImageOk, ChunkOk, NoAliases, Allot, MarkTaken, UserAddress;
    TaskOf(s, 0);
    OneBlockRequest(s.mem.table);
    var p := s.procs[0];
    FirstSlotIs(p.slots, 0, 0);
    TakeSound(s.mem, 1, User(0, 0));
    WindowMapping(StartBlock(s.mem.table, 1).value, 1);
  }

  // ----- the requests of a start

  function Total(sizes: seq<u32>): nat {
    if sizes == [] then 0 else TotalBlocks(sizes[0]) + Total(sizes[1..])
  }

  /** One run behind the other, from block k on. */
  function Offsets(k: nat, sizes: seq<u32>): seq<nat>
    decreases |sizes|
  {
    if sizes == [] then [] else [k] + Offsets(k + TotalBlocks(sizes[0]), sizes[1..])
  }

  /** The next request is given the next blocks, if there is one more. */
  lemma NextBlocks(m: Mem, k: nat, size: u32)
    requires FirstHeld(m, k) && size > 0 && k + TotalBlocks(size) < HEAP_BLOCKS
    ensures Fits(m.table, TotalBlocks(size)) && MallocBlock(m.table, size) == Some(k)
    ensures FirstHeld(Take(m, size, Kernel).1, k + TotalBlocks(size))
    ensures Take(m, size, Kernel).1.own == Allot(m.own, k, TotalBlocks(size), Kernel)
    ensures Take(m, size, Kernel).0 == FileAddress(k)
  {
    hide Accounts;
    var n := TotalBlocks(size);
    forall b: nat | b < HEAP_BLOCKS
      ensures Taken(m.table[b]) <==> b < k
    {
      TakenExactlyWhenHeld(m.table, m.own, b);
    }
    forall i: nat | i < k
      ensures !Window(m.table, n, i)
    {
      assert Taken(m.table[i]);
    }
    assert FirstWindow(m.table, n, k);
    FirstWindowUnique(m.table, n, k);
    TakeSound(m, size, Kernel);
  }

  lemma {:induction false} RequestsInOrder(m: Mem, k: nat, sizes: seq<u32>)
    requires FirstHeld(m, k) && k + Total(sizes) < HEAP_BLOCKS && forall i | 0 <= i < |sizes| :: sizes[i] > 0
    ensures AllGranted(m, sizes) && StartsOf(m, sizes) == Offsets(k, sizes)
    ensures FirstHeld(Requested(m, sizes), k + Total(sizes))
    decreases |sizes|
  {
    hide FirstHeld, Fits, Take, MallocBlock, TotalBlocks;
    if sizes != [] {
      NextBlocks(m, k, sizes[0]);
      RequestsInOrder(Take(m, sizes[0], Kernel).1, k + TotalBlocks(sizes[0]), sizes[1..]);
    }
  }

  /** The records of a one-block file with one header: three blocks for the process, one for the record of
      the file, one for the file and one for the list of headers. */
  lemma {:induction false} RecordBlocks(h: ProgramHeader)
    ensures RecordSizes([h], BLOCK_SIZE) == [PROCESS_RECORD_SIZE, ELF_RECORD_SIZE, BLOCK_SIZE, POINTER_SIZE]
    ensures Total(RecordSizes([h], BLOCK_SIZE)) == 6 && Offsets(0, RecordSizes([h], BLOCK_SIZE)) == [0, 3, 4, 5]
  {
    var sizes := RecordSizes([h], BLOCK_SIZE);
    var file, list := sizes[1..][1..], sizes[1..][1..][1..];
    assert list == [POINTER_SIZE] && list[1..] == [];
    assert Total(list) == 1 && Offsets(5, list) == [5];
    assert file == [BLOCK_SIZE, POINTER_SIZE] && TotalBlocks(file[0]) == 1;
    assert Total(file) == 2 && Offsets(4, file) == [4] + Offsets(5, list);
    assert sizes[1..] == [ELF_RECORD_SIZE, BLOCK_SIZE, POINTER_SIZE] && TotalBlocks(ELF_RECORD_SIZE) == 1;
    assert Total(sizes[1..]) == 3 && Offsets(3, sizes[1..]) == [3] + Offsets(4, file);
    assert TotalBlocks(PROCESS_RECORD_SIZE) == 3;
  }

  /** Those requests on the fresh heap. */
  lemma RecordsRequested(s: System, h: ProgramHeader) returns (s1: System)
    requires Boot(s)
    ensures Inv(s) && AllGranted(s.mem, RecordSizes([h], BLOCK_SIZE))
    ensures Execute(s, MallocOps(RecordSizes([h], BLOCK_SIZE))) == Some(s1) && s1.procs == s.procs && Inv(s1)
    ensures StartsOf(s.mem, RecordSizes([h], BLOCK_SIZE)) == [0, 3, 4, 5]
    ensures s1 == System(Requested(s.mem, RecordSizes([h], BLOCK_SIZE)), s.procs)
    ensures FirstHeld(s1.mem, 6) && s1.mem.own[4] == Held(4, 1, Kernel) && FileRun(s1.mem.own, 4, 1)
  {
    hide Inv, Execute, Requested, StartsOf, AllGranted, Accounts, RecordSizes;
    var sizes := RecordSizes([h], BLOCK_SIZE);
    BootedCapacity(s);
    SoundOf(s);
    RecordBlocks(h);
    RequestsInOrder(s.mem, 0, sizes);
    NothingGranted(s);
    s1 := RequestsRun(s.mem.own, s, [], [], sizes);
    assert [] + StartsOf(s.mem, sizes) == [0, 3, 4, 5] && [] + Lengths(sizes) == Lengths(sizes);
    assert InRun([0, 3, 4, 5], Lengths(sizes), 2, 4);
  }

  // ----- a segment longer than its file

  /** A loadable header whose segment has one byte in the file, and twelve pages in memory. */
  const LONG_HEADER: ProgramHeader := ProgramHeader(PT_LOAD, 0, PROGRAM_START, 0, 1, 12 * PAGE_SIZE, PF_W)

  const LONG_SEGMENT: ProgramHeader := LONG_HEADER.(paddr := HEAP_START + 4 * PAGE_SIZE)

  /** The start of its program, up to the mapping. */
  function LongOps(): seq<Op> {
    MallocOps(RecordSizes([LONG_HEADER], BLOCK_SIZE)) + LoadOps([LONG_HEADER], 0)
    + [KernelMalloc(STACK_SIZE), NewTask(0)]
  }

  /** A task created when the first k blocks are held: its record comes next, and then its directory. */
  lemma DirectoryComesSecond(s: System, k: nat)
    requires Inv(s) && Enabled(s, NewTask(0)) && FirstHeld(s.mem, k) && k + 2 < HEAP_BLOCKS
    ensures var own := NewTaskStep(s, 0).mem.own;
            |own| == HEAP_BLOCKS && own[k + 1] == Held(k + 1, 1, Directory(0))
            && forall b | 0 <= b < k :: own[b] == s.mem.own[b]
  {
    hide Inv, Capacity, Accounts, Explained, ProcessesOk, TakePage, IdentityMapped, BuildTables;
    NextBlock(s.mem, k, TaskRecord(0));
    TakePageSound(s.mem, TaskRecord(0));
    var m1 := TakePage(s.mem, TaskRecord(0)).1;
    NextBlock(m1, k + 1, Directory(0));
    NewChunkEffect(m1, 0, KERNEL_FLAGS);
    var (c, m2) := NewChunk(m1, 0, KERNEL_FLAGS);
    assert c.directory == HEAP_FRAME + k + 1;
    assert HeldFrame(m2.own, c.directory, Directory(0));
    forall b | 0 <= b < k
      ensures m2.own[b] == s.mem.own[b]
    {
      assert m1.own[b].Held?;
    }
  }

  /** The loader accepts the header and assigns it the memory of the file. */
  lemma {:induction false} LongSegmentLoads(m: Mem)
    ensures RequestsFit(m, [LONG_HEADER], 0) && LoadOps([LONG_HEADER], 0) == []
    ensures LoadFrom(Load(AllOk, m, [LONG_HEADER], [], []), FileAddress(4), 0)
            == Load(AllOk, m, [LONG_SEGMENT], [0], [])
  {
    var l := Load(AllOk, m, [LONG_HEADER], [], []);
    var l' := LoadOne(l, FileAddress(4), 0);
    assert l'.headers == [LONG_SEGMENT];
    assert LoadFrom(l', FileAddress(4), 1) == l';
    assert LoadOps([LONG_HEADER], 1) == [];
  }

  /** Loaded into block 4, with its stack in blocks 6 to 13 and its directory in block 15. */
  lemma LongProgramLoaded(s: System) returns (s1: System, s3: System)
    requires Boot(s)
    ensures Inv(s) && Execute(s, MallocOps(RecordSizes([LONG_HEADER], BLOCK_SIZE))) == Some(s1) && Inv(s1)
    ensures Execute(s, LongOps()) == Some(s3) && 0 in s3.procs && Inv(s3) && |s3.mem.own| == HEAP_BLOCKS
    ensures s3.mem.own[4] == Held(4, 1, Kernel) && s3.mem.own[6] == Held(6, 8, Kernel)
    ensures s3.mem.own[15] == Held(15, 1, Directory(0))
  {
    hide Inv, Capacity, Accounts, Explained, ProcessesOk, Fits, Take, IdentityMapped, NewTaskTook, NewTaskStep, Execute,
         RecordSizes, MallocOps, MallocBlock;
    s1 := RecordsRequested(s, LONG_HEADER);
    LongSegmentLoads(s1.mem);
    SoundOf(s1);
    NextBlocks(s1.mem, 6, STACK_SIZE);
    StepKeeps(s1, KernelMalloc(STACK_SIZE));
    var s2 := Step(s1, KernelMalloc(STACK_SIZE));
    CapacityAfter(s2.mem, 14);
    NewTaskKeeps(s2, 0);
    s3 := Step(s2, NewTask(0));
    DirectoryComesSecond(s2, 14);
    TwoSteps(s1, KernelMalloc(STACK_SIZE), NewTask(0));
    var records, task := MallocOps(RecordSizes([LONG_HEADER], BLOCK_SIZE)), [KernelMalloc(STACK_SIZE), NewTask(0)];
    ExecuteAppend(s, records, task);
    assert LongOps() == records + task;
  }

  /** A program with that header is loaded, gets its stack and its task, and is mapped, all as in every
      start: everything succeeds, and afterwards the directory of its own task can be written from user
      mode.  Its header is well placed but does not end inside the file, and the mapping of its segment
      is the one step that is not enabled. */
  lemma {:induction false} LongSegmentExposesDirectory(s: System) returns (s1: System, s3: System)
    requires Boot(s)
    ensures WellPlaced(LONG_HEADER, FileAddress(4)) && Separate([LONG_SEGMENT]) && !SafeHeader(LONG_HEADER, 1)
    ensures Inv(s) && Execute(s, MallocOps(RecordSizes([LONG_HEADER], BLOCK_SIZE))) == Some(s1)
    ensures RequestsFit(s1.mem, [LONG_HEADER], 0)
    ensures LoadFrom(Load(AllOk, s1.mem, [LONG_HEADER], [], []), FileAddress(4), 0)
            == Load(AllOk, s1.mem, [LONG_SEGMENT], [0], [])
    ensures Execute(s, LongOps()) == Some(s3) && 0 in s3.procs && Inv(s3) && |s3.mem.own| == HEAP_BLOCKS
    ensures s3.mem.own[4] == Held(4, 1, Kernel) && s3.mem.own[6] == Held(6, 8, Kernel)
    ensures MappingSucceeds(s3, [LONG_SEGMENT], FileAddress(6))
    ensures ExposesTables(s3, 0, WithStack([LONG_SEGMENT], FileAddress(6))) && !Enabled(s3, SegmentOp(0, LONG_SEGMENT))
  {
    hide Inv, Execute, ExposesTables, MapSegments, MapProgram, LoadFrom, RequestsFit, RecordSizes, MallocOps, LongOps,
         ChunkOk;
    s1, s3 := LongProgramLoaded(s);
    LongSegmentLoads(s1.mem);
    var all := WithStack([LONG_SEGMENT], FileAddress(6));
    LongSegmentShape();
    StackLoadable(FileAddress(6));
    SeparateExactly([LONG_SEGMENT], FileAddress(6));
    assert CoversTables(s3.mem.own, all, 0, 15);
    TablesExposedExactly(s3, 0, all);
    assert !ForImage(s3.mem.own, 0, 4, 15);
    TaskOf(s3, 0);
    MapProgramPages(s3.mem.ram, s3.procs[0].chunk, [LONG_SEGMENT], FileAddress(6));
  }

  ghost predicate MappingSucceeds(s: System, segments: seq<ProgramHeader>, stack: u32) {
    && 0 in s.procs && s.procs[0].chunk.DirectoryAddress() < WORD_VALUES
    && MapProgram(s.mem.ram, s.procs[0].chunk.DirectoryAddress(), segments, stack).0 == AllOk
  }

  lemma LongSegmentShape()
    ensures WellPlaced(LONG_HEADER, FileAddress(4)) && Separate([LONG_SEGMENT]) && !SafeHeader(LONG_HEADER, 1)
    ensures Loadable(LONG_SEGMENT) && Covers(LONG_SEGMENT, 15) && Writable(LONG_SEGMENT.flags)
    ensures LONG_SEGMENT.paddr / PAGE_SIZE - HEAP_FRAME == 4
    ensures SegmentEnd(LONG_SEGMENT) / PAGE_SIZE - HEAP_FRAME == 16
  {
  }

  // ----- a program that starts

  /** The header of a segment that fits into the one block of its file. */
  const SHORT_HEADER: ProgramHeader := LONG_HEADER.(memsz := PAGE_SIZE)

  lemma CapacityAfter(m: Mem, k: nat)
    requires FirstHeld(m, k) && k <= HEAP_BLOCKS
    ensures Capacity(m.table) == HEAP_BLOCKS - k
  {
    hide Accounts;
    forall b: nat | b < HEAP_BLOCKS
      ensures Taken(m.table[b]) <==> b < k
    {
      TakenExactlyWhenHeld(m.table, m.own, b);
    }
    assert UsableBlocks(m.table) == Below(HEAP_BLOCKS) - Below(k);
    assert Below(k) <= Below(HEAP_BLOCKS);
  }

  /** A file of one block with that segment can be started on the booted heap. */
  lemma {:induction false} ShortProgramStartable(s: System)
    requires Boot(s)
    ensures ElfStartable(s, 0, [SHORT_HEADER], BLOCK_SIZE)
  {
    hide Inv, Capacity, Fits, Take, Accounts, StartBlock, Requested, StartsOf, AllGranted, RecordSizes, MallocOps;
    var s1 := RecordsRequested(s, SHORT_HEADER);
    SoundOf(s1);
    ShortHeaderShape();
    ShortSegmentLoads(s1.mem);
    NextBlocks(s1.mem, 6, STACK_SIZE);
    CapacityAfter(Take(s1.mem, STACK_SIZE, Kernel).1, 6 + TotalBlocks(STACK_SIZE));
  }

  lemma ShortHeaderShape()
    ensures WellPlaced(SHORT_HEADER, FileAddress(4)) && SafeHeader(SHORT_HEADER, 1)
  {
  }

  lemma {:induction false} ShortSegmentLoads(m: Mem)
    ensures RequestsFit(m, [SHORT_HEADER], 0)
    ensures var l := LoadFrom(Load(AllOk, m, [SHORT_HEADER], [], []), FileAddress(4), 0);
            l.status == AllOk && l.mem == m
  {
    var l := Load(AllOk, m, [SHORT_HEADER], [], []);
    var l' := LoadOne(l, FileAddress(4), 0);
    assert LoadFrom(l', FileAddress(4), 1) == l';
  }
}
