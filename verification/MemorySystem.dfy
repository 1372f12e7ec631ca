/** The memory stack as a state machine: tasks come and go, user programs allocate and free, the
    kernel allocates, frees, maps images and stores to memory, and user programs store through
    their page tables.  The invariant proved of every reachable state ties the heap table, the
    page tables of all tasks and their allocation tables together. */
module MemorySystem {
  import opened Words
  import opened Status
  import opened HeapTable
  import opened BlockAccounts
  import opened PageTables
  import opened MemoryState
  import opened AddressSpaces
  import opened ProcessMemory

  const TASK_BLOCKS: nat := CHUNK_BLOCKS + 1

  datatype System = System(mem: Mem, procs: map<nat, Process>)

  datatype Op =
    | NewTask(pid: nat)
    | FreeTask(pid: nat)
    | Malloc(pid: nat, size: u32)
    | Free(pid: nat, virt: u32)
    | KernelMalloc(size: u32)
    | KernelFree(ptr: u32)
    | MapImage(pid: nat, virt: u32, start: u32, end: u32, flags: u32)
    | UserStore(pid: nat, page: nat, slot: nat, w: u32)
    | KernelStore(frame: nat, slot: nat, w: u32)

  // ----- the invariant

  /** Why block b is held: the part of the kernel that holds it. */
  predicate ExplainedCell(cell: Cell, b: nat, procs: map<nat, Process>)
    requires cell.Held?
  {
    match cell.who
    case Kernel => true
    case Orphan => true
    case Image(pid) => pid in procs
    case TaskRecord(pid) => pid in procs && procs[pid].record == HEAP_FRAME + b
    case User(pid, k) =>
      && pid in procs && k < |procs[pid].slots|
      && procs[pid].slots[k].addr == (USER_PAGE + cell.first) * PAGE_SIZE && procs[pid].slots[k].pages == cell.len
    case ChunkHeader(pid) => pid in procs && IsChunkBlock(cell.who, procs[pid].chunk, b)
    case Directory(pid) => pid in procs && IsChunkBlock(cell.who, procs[pid].chunk, b)
    case PageTable(pid, _) => pid in procs && IsChunkBlock(cell.who, procs[pid].chunk, b)
  }

  ghost predicate Explained(own: seq<Cell>, procs: map<nat, Process>) {
    forall b | 0 <= b < |own| && own[b].Held? :: ExplainedCell(own[b], b, procs)
  }

  ghost predicate ProcessesOk(own: seq<Cell>, ram: Ram, procs: map<nat, Process>) {
    forall pid | pid in procs :: ProcessOk(own, ram, procs[pid], pid)
  }

  ghost predicate Inv(s: System) {
    Sound(s.mem) && Explained(s.mem.own, s.procs) && ProcessesOk(s.mem.own, s.mem.ram, s.procs)
  }

  // ----- what is the case around a step of one task

  lemma TaskOf(s: System, pid: nat)
    requires Inv(s) && pid in s.procs
    ensures var p := s.procs[pid];
            && ProcessOk(s.mem.own, s.mem.ram, p, pid)
            && HeldFrame(s.mem.own, p.record, TaskRecord(pid)) && ChunkHeld(s.mem.own, p.chunk, pid)
            && PagesOk(s.mem.own, s.mem.ram, p.chunk, p.image, pid) && DirectoryOk(s.mem.ram, p.chunk)
            && SlotsOk(s.mem.own, p.slots, pid) && ImageOk(s.mem.own, p.image, pid)
            && ChunkOk(s.mem.ram, p.chunk) && NoAliases(p.chunk)
            && p.chunk.DirectoryAddress() < WORD_VALUES
  {
    assert ProcessOk(s.mem.own, s.mem.ram, s.procs[pid], pid);
    ChunkKeepsItself(s.mem.own, s.mem.ram, s.procs[pid].chunk, s.procs[pid].image, pid);
  }

  /** Other tasks do not notice a change that keeps to the tables of one task and to blocks that are
      not theirs. */
  lemma OthersKeep(s: System, pid: nat, own': seq<Cell>, ram': Ram)
    requires Inv(s) && pid in s.procs
    requires OnlyTablesChange(s.mem.ram, ram', s.procs[pid].chunk)
    requires forall other | other in s.procs && other != pid :: SameBlocks(s.mem.own, own', other)
    ensures forall other | other in s.procs && other != pid :: ProcessOk(own', ram', s.procs[other], other)
  {
    hide ProcessOk, Explained, Accounts, SameBlocks;
    forall other | other in s.procs && other != pid
      ensures ProcessOk(own', ram', s.procs[other], other)
    {
      OtherFramesKept(s, pid, other, ram');
      ProcessUnconcerned(s.mem.own, s.mem.ram, own', ram', s.procs[other], other);
    }
  }

  lemma OneTaskReplaced(s: System, pid: nat, p: Process, own': seq<Cell>, ram': Ram)
    requires pid in s.procs && ProcessOk(own', ram', p, pid)
    requires forall other | other in s.procs && other != pid :: ProcessOk(own', ram', s.procs[other], other)
    ensures ProcessesOk(own', ram', s.procs[pid := p])
  {
  }

  lemma OtherFramesKept(s: System, pid: nat, other: nat, ram': Ram)
    requires Inv(s) && pid in s.procs && other in s.procs && other != pid
    requires OnlyTablesChange(s.mem.ram, ram', s.procs[pid].chunk)
    ensures SameChunkFrames(s.mem.ram, ram', s.procs[other].chunk)
  {
    hide Inv, ChunkHeld, SameFrame;
    TaskOf(s, pid);
    TaskOf(s, other);
    forall frame | 0 <= frame < PAGES && s.procs[other].chunk.Owns(frame)
      ensures SameFrame(s.mem.ram, ram', frame)
    {
      ChunksDisjoint(s.mem.own, s.procs[other].chunk, other, s.procs[pid].chunk, pid, frame);
    }
  }

  // ----- user malloc and free

  ghost predicate Enabled(s: System, op: Op) {
    match op
    case NewTask(pid) => pid !in s.procs && Capacity(s.mem.table) >= TASK_BLOCKS
    case FreeTask(pid) => pid in s.procs
    case Malloc(pid, size) => pid in s.procs && (size > 0 ==> Fits(s.mem.table, TotalBlocks(size)))
    case Free(pid, virt) => pid in s.procs && Freeable(s.procs[pid].slots, virt)
    case KernelMalloc(size) => size > 0 ==> Fits(s.mem.table, TotalBlocks(size))
    case KernelFree(ptr) => Live(s.mem, ptr) && s.mem.own[AddressBlock(HEAP_START, ptr)].who == Kernel
    case MapImage(pid, virt, start, end, flags) =>
      pid in s.procs && ImageRange(s.mem.own, pid, virt, start, end) && flags < PAGE_SIZE
    case UserStore(pid, page, slot, w) =>
      pid in s.procs && page < PAGES && slot < ENTRIES && NoAliases(s.procs[pid].chunk)
      && UserWritable(s.mem.ram, s.procs[pid].chunk, page)
    case KernelStore(frame, slot, w) => frame < PAGES && slot < ENTRIES && !HoldsTables(s.mem.own, frame)
  }

  /** User mode can reach a page: both levels present and open to user mode. */
  ghost predicate UserAccessible(ram: Ram, c: Chunk, page: nat)
    requires NoAliases(c) && page < PAGES
  {
    var pte, pde := Pte(ram, c, page), Pde(ram, c, page / ENTRIES);
    Present(pte) && Present(pde) && UserBit(pte) && UserBit(pde)
  }

  ghost predicate UserWritable(ram: Ram, c: Chunk, page: nat)
    requires NoAliases(c) && page < PAGES
  {
    UserAccessible(ram, c, page) && Writable(Pte(ram, c, page)) && Writable(Pde(ram, c, page / ENTRIES))
  }

  /** The frame belongs to the image or to a user allocation of the task. */
  predicate HoldsUserData(own: seq<Cell>, frame: nat, pid: nat) {
    && HEAP_FRAME <= frame < HEAP_FRAME + |own|
    && own[frame - HEAP_FRAME].Held?
    && (own[frame - HEAP_FRAME].who == Image(pid) || UserBlock(own, frame - HEAP_FRAME, pid))
  }

  /** The frame is part of some address space. */
  predicate HoldsTables(own: seq<Cell>, frame: nat) {
    && HEAP_FRAME <= frame < HEAP_FRAME + |own|
    && own[frame - HEAP_FRAME].Held?
    && var who := own[frame - HEAP_FRAME].who; who.ChunkHeader? || who.Directory? || who.PageTable?
  }

  /** A mapping of kernel memory into a task, as program image or stack: a well-formed range that
      starts in a run of the kernel or of the image of that task. */
  predicate ImageStart(own: seq<Cell>, pid: nat, virt: u32, start: u32, end: u32) {
    && Mappable(virt, start, end) && start < end
    && HEAP_START <= start < HEAP_START + |own| * BLOCK_SIZE
    && var cell := own[start / PAGE_SIZE - HEAP_FRAME];
    && cell.Held? && (cell.who == Kernel || cell.who == Image(pid))
  }

  /** Block b is of the same run as block a, or belongs to the image of the task. */
  predicate ForImage(own: seq<Cell>, pid: nat, a: nat, b: nat)
    requires a < |own|
  {
    b < |own| && (own[b] == own[a] || (own[b].Held? && own[b].who == Image(pid)))
  }

  /** The range neither reaches into the user heap window nor beyond the memory that is the task's to
      use. */
  ghost predicate ImageRange(own: seq<Cell>, pid: nat, virt: u32, start: u32, end: u32) {
    && ImageStart(own, pid, virt, start, end)
    && (virt + (end - start) <= USER_PAGE * PAGE_SIZE || virt >= (USER_PAGE + HEAP_BLOCKS) * PAGE_SIZE)
    && BlocksForImage(own, pid, start / PAGE_SIZE - HEAP_FRAME, end / PAGE_SIZE - HEAP_FRAME)
  }

  ghost predicate BlocksForImage(own: seq<Cell>, pid: nat, a: nat, end: int)
    requires a < |own|
  {
    forall b | a <= b < end :: ForImage(own, pid, a, b)
  }

  ghost function MallocStep(s: System, pid: nat, size: u32): System
    requires Inv(s) && Enabled(s, Malloc(pid, size))
  {
    hide Accounts, Explained, ProcessesOk, ChunkHeld, PagesOk, DirectoryOk, SlotsOk, ImageOk, ChunkOk, Fits, UserMalloc;
    TaskOf(s, pid);
    var p := s.procs[pid];
    var (ptr, m, slots) := UserMalloc(s.mem, p.chunk, p.slots, size, pid);
    System(m, s.procs[pid := p.(slots := slots)])
  }

  lemma MallocKeeps(s: System, pid: nat, size: u32)
    requires Inv(s) && Enabled(s, Malloc(pid, size))
    ensures Inv(MallocStep(s, pid, size))
  {
    hide Accounts, ProcessOk, OnlyTablesChange, Explained, UserMalloc, ChunkHeld, PagesOk, DirectoryOk, SlotsOk,
         ImageOk, ChunkOk, NoAliases, Fits;
    TaskOf(s, pid);
    var p := s.procs[pid];
    UserMallocKeeps(s.mem, p, pid, size);
    var (ptr, m, slots) := UserMalloc(s.mem, p.chunk, p.slots, size, pid);
    if ptr != 0 {
      var b, k :| UserRunTaken(s.mem.own, m.own, p.slots, slots, b, k, size, pid, ptr);
      MallocExplained(s.mem.own, m.own, s.procs, pid, slots, b, k, size, ptr);
    } else {
      assert s.procs[pid := p.(slots := slots)] == s.procs;
    }
    OthersKeep(s, pid, m.own, m.ram);
    OneTaskReplaced(s, pid, p.(slots := slots), m.own, m.ram);
  }

  lemma MallocExplained(own: seq<Cell>, own': seq<Cell>, procs: map<nat, Process>, pid: nat, slots': seq<Slot>,
                        b: nat, k: nat, size: u32, ptr: nat)
    requires Explained(own, procs) && pid in procs
    requires UserRunTaken(own, own', procs[pid].slots, slots', b, k, size, pid, ptr)
    ensures Explained(own', procs[pid := procs[pid].(slots := slots')])
    ensures forall other | other != pid :: SameBlocks(own, own', other)
  {
    hide FirstSlot;
    var procs' := procs[pid := procs[pid].(slots := slots')];
    forall i | 0 <= i < |own'| && own'[i].Held?
      ensures ExplainedCell(own'[i], i, procs')
    {
      if !(b <= i < b + TotalBlocks(size)) {
        assert ExplainedCell(own[i], i, procs);
      }
    }
  }

  ghost function FreeStep(s: System, pid: nat, virt: u32): System
    requires Inv(s) && Enabled(s, Free(pid, virt))
  {
    hide Accounts, Explained, ProcessesOk, ChunkHeld, PagesOk, DirectoryOk, SlotsOk, ImageOk, ChunkOk, NoAliases,
         FirstSlot, Live, PhysicalAddress, UserFree;
    TaskOf(s, pid);
    var p := s.procs[pid];
    UserFreeKeeps(s.mem, p, pid, virt);
    var (m, slots) := UserFree(s.mem, p.chunk, p.slots, virt);
    System(m, s.procs[pid := p.(slots := slots)])
  }

  lemma FreeKeeps(s: System, pid: nat, virt: u32)
    requires Inv(s) && Enabled(s, Free(pid, virt))
    ensures Inv(FreeStep(s, pid, virt))
  {
    hide Accounts, ProcessOk, OnlyTablesChange, Explained, UserFree, ChunkHeld, PagesOk, DirectoryOk, SlotsOk, ImageOk,
         ChunkOk, NoAliases, FirstSlot, PhysicalAddress, Live;
    TaskOf(s, pid);
    var p := s.procs[pid];
    UserFreeKeeps(s.mem, p, pid, virt);
    var (m, slots) := UserFree(s.mem, p.chunk, p.slots, virt);
    if FirstSlot(p.slots, virt).Some? {
      var b, k :| UserRunGiven(s.mem.own, m.own, p.slots, slots, b, k, pid, virt);
      FreeExplained(s.mem.table, s.mem.own, m.own, s.procs, pid, slots, b, k, virt);
    } else {
      assert s.procs[pid := p.(slots := slots)] == s.procs;
    }
    OthersKeep(s, pid, m.own, m.ram);
    OneTaskReplaced(s, pid, p.(slots := slots), m.own, m.ram);
  }

  lemma FreeExplained(t: seq<bv8>, own: seq<Cell>, own': seq<Cell>, procs: map<nat, Process>, pid: nat,
                      slots': seq<Slot>, b: nat, k: nat, virt: u32)
    requires Accounts(t, own) && Explained(own, procs) && pid in procs
    requires UserRunGiven(own, own', procs[pid].slots, slots', b, k, pid, virt)
    ensures Explained(own', procs[pid := procs[pid].(slots := slots')])
    ensures forall other | other != pid :: SameBlocks(own, own', other)
  {
    hide FirstSlot, WholeRuns, Release;
    ReleaseTouchesRunOnly(own, b);
    var procs' := procs[pid := procs[pid].(slots := slots')];
    forall i | 0 <= i < |own'| && own'[i].Held?
      ensures ExplainedCell(own'[i], i, procs')
    {
      assert own'[i] == own[i];
      assert ExplainedCell(own[i], i, procs);
    }
  }

  // ----- kernel malloc and free

  ghost function KernelMallocStep(s: System, size: u32): System
    requires Enabled(s, KernelMalloc(size))
  {
    System(Take(s.mem, size, Kernel).1, s.procs)
  }

  lemma KernelMallocKeeps(s: System, size: u32)
    requires Inv(s) && Enabled(s, KernelMalloc(size))
    ensures Inv(KernelMallocStep(s, size))
  {
    hide Accounts, ProcessOk, Fits, StartBlock, Take;
    TakeSound(s.mem, size, Kernel);
    var m := Take(s.mem, size, Kernel).1;
    if MallocBlock(s.mem.table, size).Some? {
      EveryoneKeeps(s, m.own, m.ram);
      forall b | 0 <= b < |m.own| && m.own[b].Held?
        ensures ExplainedCell(m.own[b], b, s.procs)
      {
        assert s.mem.own[b].Held? ==> ExplainedCell(s.mem.own[b], b, s.procs);
      }
    } else {
      assert m == s.mem by { NothingTaken(s.mem, size); }
    }
  }

  lemma NothingTaken(m: Mem, size: u32)
    requires (size > 0 ==> Fits(m.table, TotalBlocks(size))) && MallocBlock(m.table, size).None?
    ensures Take(m, size, Kernel).1 == m
  {
  }

  lemma EveryoneKeeps(s: System, own': seq<Cell>, ram': Ram)
    requires Inv(s)
    requires forall pid | pid in s.procs :: SameBlocks(s.mem.own, own', pid)
    requires forall pid | pid in s.procs :: SameChunkFrames(s.mem.ram, ram', s.procs[pid].chunk)
    ensures ProcessesOk(own', ram', s.procs)
  {
    hide ProcessOk, SameBlocks, SameChunkFrames;
    forall pid | pid in s.procs
      ensures ProcessOk(own', ram', s.procs[pid], pid)
    {
      ProcessUnconcerned(s.mem.own, s.mem.ram, own', ram', s.procs[pid], pid);
    }
  }

  ghost function KernelFreeStep(s: System, ptr: u32): System
    requires Enabled(s, KernelFree(ptr))
  {
    System(Give(s.mem, ptr), s.procs)
  }

  lemma KernelFreeKeeps(s: System, ptr: u32)
    requires Inv(s) && Enabled(s, KernelFree(ptr))
    ensures Inv(KernelFreeStep(s, ptr))
  {
    hide WholeRuns, ProcessOk, Release, MarkFree;
    GiveSound(s.mem, ptr);
    var b := AddressBlock(HEAP_START, ptr);
    ReleaseTouchesRunOnly(s.mem.own, b);
    var m := Give(s.mem, ptr);
    EveryoneKeeps(s, m.own, m.ram);
    forall i | 0 <= i < |m.own| && m.own[i].Held?
      ensures ExplainedCell(m.own[i], i, s.procs)
    {
      assert ExplainedCell(s.mem.own[i], i, s.procs);
    }
  }

  // ----- tasks

  function EmptySlots(): (slots: seq<Slot>)
    ensures |slots| == MAX_ALLOCATIONS
    ensures forall k | 0 <= k < |slots| :: slots[k].addr == 0
  {
    seq(MAX_ALLOCATIONS, _ => Slot(0, 0))
  }

  /** A block for the task record and an address space that maps every page to itself. */
  ghost function NewTaskStep(s: System, pid: nat): System
    requires Sound(s.mem) && Enabled(s, NewTask(pid))
  {
    TakePageSound(s.mem, TaskRecord(pid));
    var (record, m1) := TakePage(s.mem, TaskRecord(pid));
    var (c, m2) := NewChunk(m1, pid, KERNEL_FLAGS);
    System(m2, s.procs[pid := Process(record, c, EmptySlots(), map[])])
  }

  lemma NewTaskKeeps(s: System, pid: nat)
    requires Inv(s) && Enabled(s, NewTask(pid))
    ensures Inv(NewTaskStep(s, pid))
    ensures var s' := NewTaskStep(s, pid);
            && pid in s'.procs && s'.procs == s.procs[pid := s'.procs[pid]]
            && NewTaskTook(s.mem.own, s'.mem.own, s'.procs[pid].record, s'.procs[pid].chunk, pid)
            && IdentityMapped(s'.mem.ram, s'.procs[pid].chunk, KERNEL_FLAGS)
            && s'.procs[pid].slots == EmptySlots() && s'.procs[pid].image == map[]
  {
    hide Accounts, ProcessOk, Explained, Capacity, ChunkHeld, IdentityMapped, SameFrame, NewChunk, TakePage, HeldFrame,
         OnlyChunkTaken;
    TakePageSound(s.mem, TaskRecord(pid));
    var (record, m1) := TakePage(s.mem, TaskRecord(pid));
    NewChunkEffect(m1, pid, KERNEL_FLAGS);
    var (c, m2) := NewChunk(m1, pid, KERNEL_FLAGS);
    var p := Process(record, c, EmptySlots(), map[]);
    NobodyYet(s.mem.own, s.procs, pid);
    NewTaskBlocks(s.mem.own, m1.own, m2.own, record, c, pid);
    NewTaskExplained(s.mem.own, m2.own, s.procs, p, pid);
    NewTaskOk(m2.own, m2.ram, p, pid);
    forall other | other in s.procs
      ensures SameChunkFrames(s.mem.ram, m2.ram, s.procs[other].chunk)
    {
      TaskOf(s, other);
      OldFramesKept(s.mem.own, m2.own, s.mem.ram, m2.ram, s.procs[other].chunk, other, c, pid);
    }
    EveryoneKeeps(s, m2.own, m2.ram);
  }

  /** A task that is not there holds nothing. */
  lemma NobodyYet(own: seq<Cell>, procs: map<nat, Process>, pid: nat)
    requires Explained(own, procs) && pid !in procs
    ensures forall b | 0 <= b < |own| :: !Concerns(own[b], pid)
  {
    forall b | 0 <= b < |own|
      ensures !Concerns(own[b], pid)
    {
      if own[b].Held? {
        assert ExplainedCell(own[b], b, procs);
      }
    }
  }

  /** The blocks a new task takes: vacant before, and now its record and its address space. */
  ghost predicate NewTaskTook(own: seq<Cell>, own': seq<Cell>, record: nat, c: Chunk, pid: nat) {
    && |own'| == |own|
    && HeldFrame(own', record, TaskRecord(pid)) && ChunkHeld(own', c, pid)
    && forall b | 0 <= b < |own| && own'[b] != own[b] ::
         && own[b].Vacant? && own'[b].Held?
         && (own'[b].who == TaskRecord(pid) ==> HEAP_FRAME + b == record)
         && (own'[b].who == TaskRecord(pid) || (ChunkOwner(own'[b].who, pid) && IsChunkBlock(own'[b].who, c, b)))
  }

  lemma NewTaskBlocks(own: seq<Cell>, own1: seq<Cell>, own2: seq<Cell>, record: nat, c: Chunk, pid: nat)
    requires HEAP_FRAME <= record < HEAP_FRAME + |own| && own[record - HEAP_FRAME].Vacant?
    requires own1 == own[record - HEAP_FRAME := Held(record - HEAP_FRAME, 1, TaskRecord(pid))]
    requires OnlyChunkTaken(own1, own2, c, pid)
    ensures NewTaskTook(own, own2, record, c, pid)
  {
    hide ChunkHeld;
  }

  lemma NewTaskExplained(own: seq<Cell>, own': seq<Cell>, procs: map<nat, Process>, p: Process, pid: nat)
    requires Explained(own, procs) && pid !in procs
    requires NewTaskTook(own, own', p.record, p.chunk, pid)
    requires forall b | 0 <= b < |own| :: !Concerns(own[b], pid)
    ensures Explained(own', procs[pid := p])
    ensures forall other | other != pid :: SameBlocks(own, own', other)
    ensures forall b | 0 <= b < |own'| :: !UserBlock(own', b, pid)
  {
    hide ChunkHeld;
    var procs' := procs[pid := p];
    forall b | 0 <= b < |own'| && own'[b].Held?
      ensures ExplainedCell(own'[b], b, procs')
    {
      if own'[b] == own[b] {
        assert ExplainedCell(own[b], b, procs);
      }
    }
  }

  lemma NewTaskOk(own: seq<Cell>, ram: Ram, p: Process, pid: nat)
    requires HeldFrame(own, p.record, TaskRecord(pid)) && ChunkHeld(own, p.chunk, pid)
    requires IdentityMapped(ram, p.chunk, KERNEL_FLAGS)
    requires p.slots == EmptySlots() && p.image == map[]
    requires forall b | 0 <= b < |own| :: !UserBlock(own, b, pid)
    ensures ProcessOk(own, ram, p, pid)
  {
    hide ChunkHeld, HeldFrame, UserBit, Present, Writable, Or32;
    forall page | 0 <= page < PAGES
      ensures Pte(ram, p.chunk, page) == Expected(own, p.image, pid, page)
      ensures !UserBit(Pte(ram, p.chunk, page))
    {
      KernelEntry(page * PAGE_SIZE);
    }
    forall i | 0 <= i < ENTRIES
      ensures Present(Pde(ram, p.chunk, i)) && Writable(Pde(ram, p.chunk, i))
    {
      KernelEntry(p.chunk.tables[i] * PAGE_SIZE);
    }
  }

  lemma KernelEntry(a: u32)
    requires a % PAGE_SIZE == 0
    ensures Or32(a, KERNEL_FLAGS) == a + KERNEL_FLAGS
    ensures Present(Or32(a, KERNEL_FLAGS)) && Writable(Or32(a, KERNEL_FLAGS)) && !UserBit(Or32(a, KERNEL_FLAGS))
  {
    OrFlags(a, KERNEL_FLAGS);
    EntryUserBit(a, KERNEL_FLAGS);
  }

  lemma OldFramesKept(own: seq<Cell>, own': seq<Cell>, ram: Ram, ram': Ram, d: Chunk, other: nat, c: Chunk, pid: nat)
    requires pid != other && ChunkHeld(own, d, other) && ChunkHeld(own', c, pid)
    requires SameBlocks(own, own', other)
    requires forall frame | 0 <= frame < PAGES && !c.Owns(frame) :: SameFrame(ram, ram', frame)
    ensures SameChunkFrames(ram, ram', d)
  {
    hide SameFrame;
    assert ChunkHeld(own', d, other) by {
      forall i | 0 <= i < ENTRIES
        ensures HeldFrame(own', d.tables[i], PageTable(other, i))
      {
        assert HeldFrame(own, d.tables[i], PageTable(other, i));
      }
    }
    forall frame | 0 <= frame < PAGES && d.Owns(frame)
      ensures SameFrame(ram, ram', frame)
    {
      ChunksDisjoint(own', d, other, c, pid, frame);
    }
  }

  /** What is left of the holdings of a task that is gone: its user memory stays allocated, for
      nobody, and its image is plain kernel memory again. */
  function RetiredOwner(who: Owner, pid: nat): Owner {
    if who.User? && who.pid == pid then Orphan
    else if who == Image(pid) then Kernel
    else who
  }

  function RetiredCell(cell: Cell, pid: nat): Cell {
    if cell.Held? then cell.(who := RetiredOwner(cell.who, pid)) else cell
  }

  function Retire(own: seq<Cell>, pid: nat): (own': seq<Cell>)
    ensures |own'| == |own|
    ensures forall b | 0 <= b < |own| :: own'[b] == RetiredCell(own[b], pid)
  {
    seq(|own|, b requires 0 <= b < |own| => RetiredCell(own[b], pid))
  }

  /** The address space and the task record given back; user allocations are not. */
  ghost function FreeTaskStep(s: System, pid: nat): System
    requires Inv(s) && Enabled(s, FreeTask(pid))
  {
    TaskOf(s, pid);
    TaskFreed(s, pid);
    var p := s.procs[pid];
    var m := Give(FreeChunk(s.mem, p.chunk, pid), p.record * PAGE_SIZE);
    System(m.(own := Retire(m.own, pid)), s.procs - {pid})
  }

  lemma TaskFreed(s: System, pid: nat)
    requires Inv(s) && pid in s.procs
    ensures var p := s.procs[pid];
            && ChunkOk(s.mem.ram, p.chunk) && ChunkHeld(s.mem.own, p.chunk, pid)
            && var m1 := FreeChunk(s.mem, p.chunk, pid);
            && p.record * PAGE_SIZE < WORD_VALUES && Live(m1, p.record * PAGE_SIZE)
            && var m := Give(m1, p.record * PAGE_SIZE);
            && Sound(m) && m.ram == s.mem.ram
            && forall b | 0 <= b < HEAP_BLOCKS :: m.own[b] == WithoutTask(s.mem.own[b], pid)
  {
    hide Accounts, ProcessOk, Explained, ChunkOk, ChunkHeld, FreeChunk, Give, Live, ChunkOnly;
    TaskOf(s, pid);
    var p := s.procs[pid];
    OnlyItsChunk(s.mem.own, s.procs, pid);
    FreeChunkEffect(s.mem, p.chunk, pid);
    var m1 := FreeChunk(s.mem, p.chunk, pid);
    GivePage(m1, p.record, TaskRecord(pid));
    RecordOnly(s.mem.own, s.procs, pid);
  }

  function WithoutTask(cell: Cell, pid: nat): Cell {
    if cell.Held? && (ChunkOwner(cell.who, pid) || cell.who == TaskRecord(pid)) then Vacant else cell
  }

  /** The account once task `pid` is gone: its record and address space vacant, its user memory held
      for nobody, its image plain kernel memory, and all else as it was. */
  ghost predicate AccountWithout(own: seq<Cell>, own': seq<Cell>, pid: nat) {
    && |own'| == |own| == HEAP_BLOCKS
    && forall b | 0 <= b < HEAP_BLOCKS :: own'[b] == RetiredCell(WithoutTask(own[b], pid), pid)
  }

  lemma OnlyItsChunk(own: seq<Cell>, procs: map<nat, Process>, pid: nat)
    requires Explained(own, procs) && pid in procs
    ensures ChunkOnly(own, procs[pid].chunk, pid)
  {
    forall b | 0 <= b < |own| && own[b].Held? && ChunkOwner(own[b].who, pid)
      ensures IsChunkBlock(own[b].who, procs[pid].chunk, b)
    {
      assert ExplainedCell(own[b], b, procs);
    }
  }

  lemma RecordOnly(own: seq<Cell>, procs: map<nat, Process>, pid: nat)
    requires Explained(own, procs) && pid in procs
    ensures forall b | 0 <= b < |own| && own[b].Held? && own[b].who == TaskRecord(pid) ::
              HEAP_FRAME + b == procs[pid].record
  {
    forall b | 0 <= b < |own| && own[b].Held? && own[b].who == TaskRecord(pid)
      ensures HEAP_FRAME + b == procs[pid].record
    {
      assert ExplainedCell(own[b], b, procs);
    }
  }

  lemma FreeTaskKeeps(s: System, pid: nat)
    requires Inv(s) && Enabled(s, FreeTask(pid))
    ensures Inv(FreeTaskStep(s, pid))
    ensures AccountWithout(s.mem.own, FreeTaskStep(s, pid).mem.own, pid)
  {
    hide Accounts, ProcessOk, ChunkOk, ChunkHeld, FreeChunk, Give, Live;
    TaskFreed(s, pid);
    var p := s.procs[pid];
    var m := Give(FreeChunk(s.mem, p.chunk, pid), p.record * PAGE_SIZE);
    var own', procs' := Retire(m.own, pid), s.procs - {pid};
    RenamingAccounts(m.table, m.own, own');
    forall b | 0 <= b < |own'| && own'[b].Held?
      ensures ExplainedCell(own'[b], b, procs')
    {
      assert ExplainedCell(s.mem.own[b], b, s.procs);
    }
    assert forall other | other != pid :: SameBlocks(s.mem.own, own', other);
    forall other | other in procs'
      ensures ProcessOk(own', m.ram, procs'[other], other)
    {
      ProcessUnconcerned(s.mem.own, s.mem.ram, own', m.ram, s.procs[other], other);
    }
  }

  // ----- images

  /** The run that block b belongs to, handed over to the image of a task. */
  function HandOver(own: seq<Cell>, b: nat, pid: nat): (own': seq<Cell>)
    requires b < |own| && own[b].Held?
    ensures |own'| == |own|
    ensures forall i | 0 <= i < |own| ::
              own'[i] == if own[i] == own[b] then own[b].(who := Image(pid)) else own[i]
  {
    seq(|own|, i requires 0 <= i < |own| => if own[i] == own[b] then own[b].(who := Image(pid)) else own[i])
  }

  predicate InRange(page: nat, lo: nat, n: nat) {
    lo <= page < lo + n
  }

  /** The entries of a mapped range, on top of those of the image so far. */
  function ImageWith(image: map<nat, nat>, lo: nat, n: nat, phy: nat, flags: nat): (image': map<nat, nat>)
    ensures forall page :: page in image' <==> (page in image || lo <= page < lo + n)
    ensures forall page | page in image' ::
              image'[page] == if lo <= page < lo + n then phy + (page - lo) * PAGE_SIZE + flags else image[page]
  {
    image + (map page: nat | lo <= page < lo + n && InRange(page, lo, n) :: phy + (page - lo) * PAGE_SIZE + flags)
  }

  ghost function MapImageStep(s: System, pid: nat, virt: u32, start: u32, end: u32, flags: u32): System
    requires Inv(s) && pid in s.procs && ImageStart(s.mem.own, pid, virt, start, end) && flags < PAGE_SIZE
  {
    hide Inv, ProcessOk, ChunkHeld, PagesOk, DirectoryOk, SlotsOk, ImageOk, ChunkOk, NoAliases, MapTo, Mappable;
    TaskOf(s, pid);
    var p := s.procs[pid];
    var ram := MapTo(s.mem.ram, p.chunk.DirectoryAddress(), virt, start, end, flags).1;
    var own := HandOver(s.mem.own, start / PAGE_SIZE - HEAP_FRAME, pid);
    var image := ImageWith(p.image, virt / PAGE_SIZE, (end - start) / PAGE_SIZE, start, flags);
    System(Mem(s.mem.table, ram, own), s.procs[pid := p.(image := image)])
  }

  lemma MapImageKeeps(s: System, pid: nat, virt: u32, start: u32, end: u32, flags: u32)
    requires Inv(s) && pid in s.procs && ImageRange(s.mem.own, pid, virt, start, end) && flags < PAGE_SIZE
    ensures Inv(MapImageStep(s, pid, virt, start, end, flags))
  {
    hide ProcessOk, WholeRuns, Explained, ChunkHeld, HeldFrame, PagesOk, DirectoryOk, SlotsOk, ImageOk, ChunkOk,
         NoAliases, OnlyTablesChange, MapTo, HandOver, ImageWith, Remapped;
    TaskOf(s, pid);
    var p := s.procs[pid];
    var s' := MapImageStep(s, pid, virt, start, end, flags);
    var own, own' := s.mem.own, s'.mem.own;
    var lo, n := virt / PAGE_SIZE, (end - start) / PAGE_SIZE;
    var image := ImageWith(p.image, lo, n, start, flags);
    var b := start / PAGE_SIZE - HEAP_FRAME;
    MapToExact(s.mem.ram, p.chunk, virt, start, end, flags);
    RemappedKeepsChunk(s.mem.ram, s'.mem.ram, p.chunk, lo, n, start, flags);
    HandOverHoldings(s.mem.table, own, b, p, pid);
    HandOverExplained(own, b, s.procs, p.(image := image), pid);
    HandOverImage(own, p.image, pid, virt, start, end, flags);
    HandOverPages(own, s.mem.ram, s'.mem.ram, p.chunk, p.image, pid, virt, start, end, flags);
    DirectoryRemapped(s.mem.ram, s'.mem.ram, p.chunk, lo, n, start, flags);
    ImageTaskOk(own', s'.mem.ram, p.(image := image), pid);
    OthersKeep(s, pid, own', s'.mem.ram);
    OneTaskReplaced(s, pid, p.(image := image), own', s'.mem.ram);
  }

  /** The guard is exact: a mapping as the code makes it keeps the invariant if and only if its range is
      clear of the user heap window and leads to memory of the run it starts in or of the image. */
  lemma MapImageKeepsExactly(s: System, pid: nat, virt: u32, start: u32, end: u32, flags: u32)
    requires Inv(s) && pid in s.procs && ImageStart(s.mem.own, pid, virt, start, end) && flags < PAGE_SIZE
    ensures Inv(MapImageStep(s, pid, virt, start, end, flags)) <==> ImageRange(s.mem.own, pid, virt, start, end)
  {
    hide Inv, ImageStart, MapImageStep;
    if ImageRange(s.mem.own, pid, virt, start, end) {
      MapImageKeeps(s, pid, virt, start, end, flags);
    } else if Inv(MapImageStep(s, pid, virt, start, end, flags)) {
      KeptImageInRange(s, pid, virt, start, end, flags);
    }
  }

  lemma KeptImageInRange(s: System, pid: nat, virt: u32, start: u32, end: u32, flags: u32)
    requires Inv(s) && pid in s.procs && ImageStart(s.mem.own, pid, virt, start, end) && flags < PAGE_SIZE
    requires Inv(MapImageStep(s, pid, virt, start, end, flags))
    ensures ImageRange(s.mem.own, pid, virt, start, end)
  {
    hide Accounts, Explained, ProcessesOk, ProcessOk, ChunkHeld, HeldFrame, PagesOk, DirectoryOk, SlotsOk, ChunkOk,
         NoAliases, MapTo, HandOver, ImageWith;
    var s' := MapImageStep(s, pid, virt, start, end, flags);
    TaskOf(s', pid);
    var a, lo, n := start / PAGE_SIZE - HEAP_FRAME, virt / PAGE_SIZE, (end - start) / PAGE_SIZE;
    var image' := s'.procs[pid].image;
    forall page | lo <= page < lo + n
      ensures !InWindow(page) && ForImage(s.mem.own, pid, a, a + (page - lo))
    {
      ImageBlock(virt, start, end, flags, page);
      assert ImagePage(s'.mem.own, page, image'[page], pid);
    }
    forall b | a <= b < end / PAGE_SIZE - HEAP_FRAME
      ensures ForImage(s.mem.own, pid, a, b)
    {
      var page := lo + (b - a);
      assert !InWindow(page);
    }
    ClearOfWindow(virt, end - start);
  }

  /** A range of whole pages is clear of the window if each of its pages is. */
  lemma ClearOfWindow(virt: nat, size: nat)
    requires virt % PAGE_SIZE == 0 && size % PAGE_SIZE == 0 && size > 0
    requires forall page | virt / PAGE_SIZE <= page < virt / PAGE_SIZE + size / PAGE_SIZE :: !InWindow(page)
    ensures virt + size <= USER_PAGE * PAGE_SIZE || virt >= (USER_PAGE + HEAP_BLOCKS) * PAGE_SIZE
  {
    var lo, n := virt / PAGE_SIZE, size / PAGE_SIZE;
    assert n > 0 ==> !InWindow(lo);
    assert lo <= USER_PAGE < lo + n ==> !InWindow(USER_PAGE);
  }

  lemma ImageTaskOk(own: seq<Cell>, ram: Ram, p: Process, pid: nat)
    requires HeldFrame(own, p.record, TaskRecord(pid)) && ChunkHeld(own, p.chunk, pid)
    requires PagesOk(own, ram, p.chunk, p.image, pid) && DirectoryOk(ram, p.chunk)
    requires SlotsOk(own, p.slots, pid) && ImageOk(own, p.image, pid)
    ensures ProcessOk(own, ram, p, pid)
  {
  }

  /** Handing a kernel run over leaves the table and everything that is not that run. */
  lemma HandOverHoldings(t: seq<bv8>, own: seq<Cell>, b: nat, p: Process, pid: nat)
    requires Accounts(t, own) && b < |own| && own[b].Held? && (own[b].who == Kernel || own[b].who == Image(pid))
    requires HeldFrame(own, p.record, TaskRecord(pid)) && ChunkHeld(own, p.chunk, pid) && SlotsOk(own, p.slots, pid)
    ensures var own' := HandOver(own, b, pid);
            && Accounts(t, own')
            && HeldFrame(own', p.record, TaskRecord(pid)) && ChunkHeld(own', p.chunk, pid)
            && SlotsOk(own', p.slots, pid)
  {
    hide WholeRuns;
    var own' := HandOver(own, b, pid);
    RenamingAccounts(t, own, own');
    forall i | 0 <= i < ENTRIES
      ensures HeldFrame(own', p.chunk.tables[i], PageTable(pid, i))
    {
      assert HeldFrame(own, p.chunk.tables[i], PageTable(pid, i));
    }
    forall k | 0 <= k < |p.slots| && p.slots[k].addr != 0
      ensures SlotOk(own', p.slots[k], pid, k)
    {
      assert SlotOk(own, p.slots[k], pid, k);
    }
  }

  lemma HandOverExplained(own: seq<Cell>, b: nat, procs: map<nat, Process>, p: Process, pid: nat)
    requires Explained(own, procs) && pid in procs
    requires b < |own| && own[b].Held? && (own[b].who == Kernel || own[b].who == Image(pid))
    requires p.record == procs[pid].record && p.chunk == procs[pid].chunk && p.slots == procs[pid].slots
    ensures Explained(HandOver(own, b, pid), procs[pid := p])
    ensures forall other | other != pid :: SameBlocks(own, HandOver(own, b, pid), other)
  {
    var own' := HandOver(own, b, pid);
    forall i | 0 <= i < |own'| && own'[i].Held?
      ensures ExplainedCell(own'[i], i, procs[pid := p])
    {
      assert ExplainedCell(own[i], i, procs);
    }
  }

  lemma HandOverImage(own: seq<Cell>, image: map<nat, nat>, pid: nat, virt: u32, start: u32, end: u32, flags: u32)
    requires |own| == HEAP_BLOCKS && ImageOk(own, image, pid)
    requires ImageRange(own, pid, virt, start, end) && flags < PAGE_SIZE
    ensures ImageOk(HandOver(own, start / PAGE_SIZE - HEAP_FRAME, pid),
                    ImageWith(image, virt / PAGE_SIZE, (end - start) / PAGE_SIZE, start, flags), pid)
  {
    hide Mappable, HandOver, ImageWith;
    var b := start / PAGE_SIZE - HEAP_FRAME;
    var lo, n := virt / PAGE_SIZE, (end - start) / PAGE_SIZE;
    var image' := ImageWith(image, lo, n, start, flags);
    forall page | page in image'
      ensures ImagePage(HandOver(own, b, pid), page, image'[page], pid)
    {
      HandOverPage(own, b, pid, page, image'[page]);
      if lo <= page < lo + n {
        ImageBlock(virt, start, end, flags, page);
        assert ForImage(own, pid, b, b + (page - lo));
      } else {
        assert ImagePage(own, page, image[page], pid);
      }
    }
  }

  /** A page of the image, old or new, after its run has been handed over. */
  lemma HandOverPage(own: seq<Cell>, b: nat, pid: nat, page: nat, entry: nat)
    requires b < |own| && own[b].Held?
    ensures ImagePage(own, page, entry, pid) ==> ImagePage(HandOver(own, b, pid), page, entry, pid)
    ensures !InWindow(page) && entry / PAGE_SIZE >= HEAP_FRAME
            && ForImage(own, pid, b, entry / PAGE_SIZE - HEAP_FRAME) ==>
              ImagePage(HandOver(own, b, pid), page, entry, pid)
  {
  }

  lemma RunOfCell(t: seq<bv8>, own: seq<Cell>, i: nat)
    requires Accounts(t, own) && i < |own| && own[i].Held?
    ensures own[i].first <= i < own[i].first + own[i].len <= |own|
    ensures forall k | own[i].first <= k < own[i].first + own[i].len :: own[k] == own[i]
  {
    assert IsRun(own, own[i].first, own[i].len, own[i].who);
  }

  lemma ImageBlock(virt: u32, start: u32, end: u32, flags: u32, page: nat)
    requires Mappable(virt, start, end) && start < end && flags < PAGE_SIZE
    requires virt / PAGE_SIZE <= page < virt / PAGE_SIZE + (end - start) / PAGE_SIZE
    ensures var entry := start + (page - virt / PAGE_SIZE) * PAGE_SIZE + flags;
            && entry / PAGE_SIZE == start / PAGE_SIZE + (page - virt / PAGE_SIZE) < end / PAGE_SIZE
    ensures virt + (end - start) <= USER_PAGE * PAGE_SIZE || virt >= (USER_PAGE + HEAP_BLOCKS) * PAGE_SIZE ==>
              !InWindow(page)
  {
  }

  lemma HandOverPages(own: seq<Cell>, ram: Ram, ram': Ram, c: Chunk, image: map<nat, nat>, pid: nat,
                      virt: u32, start: u32, end: u32, flags: u32)
    requires |own| == HEAP_BLOCKS && PagesOk(own, ram, c, image, pid)
    requires ImageRange(own, pid, virt, start, end) && flags < PAGE_SIZE && NoAliases(c)
    requires Remapped(ram, ram', c, virt / PAGE_SIZE, (end - start) / PAGE_SIZE, start, flags)
    ensures PagesOk(HandOver(own, start / PAGE_SIZE - HEAP_FRAME, pid), ram', c,
                    ImageWith(image, virt / PAGE_SIZE, (end - start) / PAGE_SIZE, start, flags), pid)
  {
    hide PagesOk, Remapped, NoAliases, Mappable;
    var own' := HandOver(own, start / PAGE_SIZE - HEAP_FRAME, pid);
    var lo, n := virt / PAGE_SIZE, (end - start) / PAGE_SIZE;
    var image' := ImageWith(image, lo, n, start, flags);
    forall page | 0 <= page < PAGES
      ensures Expected(own', image', pid, page) ==
              if lo <= page < lo + n then start + (page - lo) * PAGE_SIZE + flags else Expected(own, image, pid, page)
    {
      if lo <= page < lo + n {
        ImageBlock(virt, start, end, flags, page);
      }
    }
    PagesRemapped(own, ram, image, own', ram', image', c, pid, lo, n, start, flags);
  }

  // ----- stores

  ghost function StoreStep(s: System, frame: nat, slot: nat, w: u32): System
    requires frame < PAGES && slot < ENTRIES
  {
    System(WithRam(s.mem, WriteWord(s.mem.ram, frame, slot, w)), s.procs)
  }

  /** What a page open to user mode leads to: a block of a live allocation or of the image of that
      very task. */
  lemma UserPageOwner(s: System, pid: nat, page: nat)
    requires Inv(s) && pid in s.procs && page < PAGES
    requires NoAliases(s.procs[pid].chunk) && UserAccessible(s.mem.ram, s.procs[pid].chunk, page)
    ensures var frame := Pte(s.mem.ram, s.procs[pid].chunk, page) / PAGE_SIZE;
            HoldsUserData(s.mem.own, frame, pid) && frame < PAGES && !HoldsTables(s.mem.own, frame)
  {
    hide Accounts, Explained, ProcessOk, ChunkHeld, HeldFrame, SlotsOk, DirectoryOk, ChunkOk, NoAliases, UserBit,
         Present;
    TaskOf(s, pid);
    var p := s.procs[pid];
    EntryUserBit(page * PAGE_SIZE, KERNEL_FLAGS);
    assert !UserBit(KERNEL_FLAGS) by { KernelEntry(0); EntryUserBit(0, KERNEL_FLAGS); }
    if page in p.image {
      assert ImagePage(s.mem.own, page, p.image[page], pid);
    }
  }

  /** A store outside the frames of all address spaces keeps everything. */
  lemma StoreKeeps(s: System, frame: nat, slot: nat, w: u32)
    requires Inv(s) && frame < PAGES && slot < ENTRIES && !HoldsTables(s.mem.own, frame)
    ensures Inv(StoreStep(s, frame, slot, w))
  {
    hide Accounts, Explained, ProcessOk, ChunkHeld, WriteWord;
    var ram' := WriteWord(s.mem.ram, frame, slot, w);
    forall pid | pid in s.procs
      ensures SameChunkFrames(s.mem.ram, ram', s.procs[pid].chunk)
    {
      TaskOf(s, pid);
      StoreMisses(s.mem.own, s.mem.ram, s.procs[pid].chunk, pid, frame, slot, w);
    }
    EveryoneKeeps(s, s.mem.own, ram');
  }

  lemma StoreMisses(own: seq<Cell>, ram: Ram, c: Chunk, pid: nat, frame: nat, slot: nat, w: u32)
    requires ChunkHeld(own, c, pid) && frame < PAGES && slot < ENTRIES && !HoldsTables(own, frame)
    ensures SameChunkFrames(ram, WriteWord(ram, frame, slot, w), c)
  {
    hide WriteWord, ChunkHeld, Word;
    forall f: nat, s: nat | f < PAGES && s < ENTRIES && c.Owns(f)
      ensures Word(WriteWord(ram, frame, slot, w), f, s) == Word(ram, f, s)
    {
      ChunkFrameOwner(own, c, pid, f);
      WriteWordReads(ram, frame, slot, w, f, s);
    }
  }

  // ----- runs

  ghost function Step(s: System, op: Op): System
    requires Inv(s) && Enabled(s, op)
  {
    hide Accounts, Explained, ProcessesOk, Capacity, NoAliases, UserAccessible, HoldsTables, Fits;
    match op
    case NewTask(pid) => NewTaskStep(s, pid)
    case FreeTask(pid) => FreeTaskStep(s, pid)
    case Malloc(pid, size) => MallocStep(s, pid, size)
    case Free(pid, virt) => FreeStep(s, pid, virt)
    case KernelMalloc(size) => KernelMallocStep(s, size)
    case KernelFree(ptr) => KernelFreeStep(s, ptr)
    case MapImage(pid, virt, start, end, flags) => MapImageStep(s, pid, virt, start, end, flags)
    case UserStore(pid, page, slot, w) =>
      UserPageOwner(s, pid, page);
      StoreStep(s, Pte(s.mem.ram, s.procs[pid].chunk, page) / PAGE_SIZE, slot, w)
    case KernelStore(frame, slot, w) => StoreStep(s, frame, slot, w)
  }

  lemma StepKeeps(s: System, op: Op)
    requires Inv(s) && Enabled(s, op)
    ensures Inv(Step(s, op))
  {
    hide Inv;
    match op
    case NewTask(pid) => NewTaskKeeps(s, pid);
    case FreeTask(pid) => FreeTaskKeeps(s, pid);
    case Malloc(pid, size) => MallocKeeps(s, pid, size);
    case Free(pid, virt) => FreeKeeps(s, pid, virt);
    case KernelMalloc(size) => KernelMallocKeeps(s, size);
    case KernelFree(ptr) => KernelFreeKeeps(s, ptr);
    case MapImage(pid, virt, start, end, flags) => MapImageKeeps(s, pid, virt, start, end, flags);
    case UserStore(pid, page, slot, w) =>
      UserPageOwner(s, pid, page);
      StoreKeeps(s, Pte(s.mem.ram, s.procs[pid].chunk, page) / PAGE_SIZE, slot, w);
    case KernelStore(frame, slot, w) => StoreKeeps(s, frame, slot, w);
  }

  /** Nobody holds anything and every table byte is free: the heap as it is created. */
  ghost predicate Boot(s: System) {
    && s.procs == map[]
    && |s.mem.table| == |s.mem.own| == HEAP_BLOCKS
    && (forall b | 0 <= b < HEAP_BLOCKS :: s.mem.table[b] == FREE && s.mem.own[b] == Vacant)
  }

  /** The state after a sequence of operations, if each is enabled where it happens. */
  ghost function Execute(s: System, ops: seq<Op>): (r: Option<System>)
    requires Inv(s)
    decreases |ops|
  {
    if ops == [] then Some(s)
    else if !Enabled(s, ops[0]) then None
    else
      StepKeeps(s, ops[0]);
      Execute(Step(s, ops[0]), ops[1..])
  }

  lemma {:induction false} ExecuteKeeps(s: System, ops: seq<Op>)
    requires Inv(s) && Execute(s, ops).Some?
    ensures Inv(Execute(s, ops).value)
    decreases |ops|
  {
    hide Inv, Enabled, Step;
    if ops != [] {
      StepKeeps(s, ops[0]);
      ExecuteKeeps(Step(s, ops[0]), ops[1..]);
    }
  }

  /** Every state reached from boot satisfies the invariant. */
  lemma {:induction false} ReachableStatesOk(s: System, ops: seq<Op>)
    requires Boot(s)
    ensures Inv(s)
    ensures Execute(s, ops).Some? ==> Inv(Execute(s, ops).value)
  {
    hide Execute;
    if Execute(s, ops).Some? {
      ExecuteKeeps(s, ops);
    }
  }
}
