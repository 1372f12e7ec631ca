/** The process object: its allocation table and the two system calls that change it. */
module UserProcess {
  import opened Words
  import opened Status
  import opened HeapTable
  import opened BlockAccounts
  import opened PageTables
  import opened MemoryState
  import opened AddressSpaces
  import opened ProcessMemory
  import opened KernelMemory
  import opened MemorySystem
  import opened ProcessEnd

  const TASK_RECORD_SIZE: u32 := 80

  class ProcessObject {
    const allocations: array<Slot>
    var chunk: u32                  // address of the chunk structure of the task
    ghost const view: Chunk
    ghost const pid: nat

    constructor (chunk: u32, ghost view: Chunk, ghost pid: nat)
      ensures this.chunk == chunk && this.view == view && this.pid == pid
      ensures fresh(allocations) && allocations.Length == MAX_ALLOCATIONS
      ensures forall k | 0 <= k < MAX_ALLOCATIONS :: allocations[k].addr == 0
    {
      allocations := new Slot[MAX_ALLOCATIONS](_ => Slot(0, 0));
      this.chunk := chunk;
      this.view := view;
      this.pid := pid;
    }

    ghost function Slots(): seq<Slot>
      reads allocations
    {
      allocations[..]
    }

    /** The chunk pointer leads to the directory of the address space. */
    ghost predicate Attached(mem: Memory)
      reads this, mem, mem.ram
    {
      && mem.ram.Length == RAM_WORDS && NoAliases(view)
      && chunk == view.Address() && Word(mem.Words(), view.header, 0) == view.DirectoryAddress()
      && allocations as object != mem.ram as object
    }

    method FindSlot(addr: u32) returns (r: Option<nat>)
      ensures r == FirstSlot(Slots(), addr)
    {
      for i := 0 to allocations.Length
        invariant forall k | 0 <= k < i :: allocations[k].addr != addr
      {
        if allocations[i].addr == addr {
          ghost var first := FirstSlot(Slots(), addr);
          return Some(i);
        }
      }
      return None;
    }

    method AllocMalloc(mem: Memory, size: u32) returns (ptr: u32)
      requires mem.Valid() && Attached(mem) && allocations as object != mem.heap.table.entries as object
      requires size > 0 ==> Fits(mem.State().table, TotalBlocks(size))
      modifies mem, mem.heap.table.entries, mem.ram, allocations
      ensures mem.Valid()
      ensures (ptr, mem.State(), Slots()) == UserMalloc(old(mem.State()), view, old(Slots()), size, pid)
    {
      hide Accounts, Fits, PageTables.MapTo, FirstSlot, AlignUp, Take, NoAliases;
      HeaderLeadsToDirectory(mem.Words(), view);
      ghost var was := mem.State();
      var slot := FindSlot(0);
      if slot.None? {
        return 0;
      }
      TakeSound(was, size, User(pid, slot.value));
      ptr := mem.Mallock(size, User(pid, slot.value));
      if ptr == 0 {
        return 0;
      }
      var heapVirt := UserAddress(ptr);
      var res := mem.MapTo(chunk, heapVirt, ptr, AlignUp(Wrap(ptr + size)), USER_FLAGS);
      ghost var slots := Slots();
      allocations[slot.value] := Slot(heapVirt, CalculatePages(size));
      assert Slots() == slots[slot.value := Slot(heapVirt, CalculatePages(size))];
      return heapVirt;
    }

    method AllocFree(mem: Memory, virt: u32)
      requires mem.Valid() && Attached(mem) && allocations as object != mem.heap.table.entries as object
      requires FirstSlot(Slots(), virt).Some? ==>
                 Live(mem.State(), PhysicalAddress(mem.Words(), view.DirectoryAddress(), virt))
      modifies mem, mem.heap.table.entries, mem.ram, allocations
      ensures mem.Valid()
      ensures (mem.State(), Slots()) == UserFree(old(mem.State()), view, old(Slots()), virt)
    {
      hide Accounts, PageTables.MapTo, FirstSlot, Give, Live, PhysicalAddress, NoAliases;
      HeaderLeadsToDirectory(mem.Words(), view);
      ghost var was := mem.State();
      var slot := FindSlot(virt);
      if slot.None? {
        return;
      }
      var phys := mem.GetPhysicalAddr(chunk, virt);
      GiveSound(was, phys);
      mem.Freek(phys);
      var end := Wrap(virt + allocations[slot.value].pages * PAGE_SIZE);
      var res := mem.MapTo(chunk, virt, virt, end, KERNEL_FLAGS);
      ghost var slots := Slots();
      allocations[slot.value] := allocations[slot.value].(addr := 0);
      assert Slots() == slots[slot.value := slots[slot.value].(addr := 0)];
    }
  }

  lemma HeaderLeadsToDirectory(ram: Ram, c: Chunk)
    requires NoAliases(c) && Word(ram, c.header, 0) == c.DirectoryAddress()
    ensures c.directory < PAGES && c.Address() < WORD_VALUES && c.DirectoryAddress() < WORD_VALUES
    ensures c.Address() / 4 < RAM_WORDS && ram[c.Address() / 4] == c.DirectoryAddress()
  {
  }

  // ----- the memory of a task

  /** The record of a new task and its address space. */
  method TaskNew(mem: Memory, ghost pid: nat) returns (task: u32, chunk: u32, ghost p: Process)
    requires mem.Valid() && Capacity(mem.State().table) >= TASK_BLOCKS
    modifies mem, mem.heap.table.entries, mem.ram
    ensures mem.Valid()
    ensures System(mem.State(), map[pid := p]) == NewTaskStep(System(old(mem.State()), map[]), pid)
    ensures task == p.record * PAGE_SIZE && chunk == p.chunk.Address()
  {
    hide Accounts, Capacity, NewChunk, Fits;
    ghost var was := mem.State();
    TakePageSound(was, TaskRecord(pid));
    TakePageIsMalloc(was, TASK_RECORD_SIZE, TaskRecord(pid));
    task := mem.Mallock(TASK_RECORD_SIZE, TaskRecord(pid));
    ghost var c;
    chunk, c := mem.GetNew4gbChunk(KERNEL_FLAGS, pid);
    p := Process(TakePage(was, TaskRecord(pid)).0, c, EmptySlots(), map[]);
  }

  /** The address space given back, then the record; what the task still had allocated is left. */
  method TaskFree(mem: Memory, task: u32, chunk: u32, ghost s: System, ghost pid: nat)
    requires mem.Valid()
    requires task != 0 ==> Inv(s) && s.mem == mem.State() && pid in s.procs
                           && task == s.procs[pid].record * PAGE_SIZE && chunk == s.procs[pid].chunk.Address()
    modifies mem, mem.heap.table.entries
    ensures mem.Valid()
    ensures mem.State() == if task == 0 then old(mem.State()) else FreeTaskStep(s, pid).mem
  {
    hide Sound, Accounts, Explained, ProcessesOk, ChunkOk, ChunkHeld, FreeChunk, Give, Live, HeldFrame;
    if task == 0 {
      return;
    }
    TaskOf(s, pid);
    TaskFreed(s, pid);
    FreeTaskKeeps(s, pid);
    ChunkAddressNotNull(s.mem.own, s.procs[pid].chunk, pid);
    mem.Free4gbChunk(chunk, s.procs[pid].chunk, pid);
    mem.Freek(task);
    mem.own := Retire(mem.own, pid);
  }

  lemma ChunkAddressNotNull(own: seq<Cell>, c: Chunk, pid: nat)
    requires ChunkHeld(own, c, pid)
    ensures c.Address() != 0
  {
  }

  // ----- the end of a process

  /** The pointers that are not null lead to the runs that start at these blocks. */
  predicate PointTo(ptrs: seq<u32>, blocks: seq<nat>)
    decreases |ptrs|
  {
    if ptrs == [] then blocks == []
    else if ptrs[0] == 0 then PointTo(ptrs[1..], blocks)
    else blocks != [] && ptrs[0] == BlockAddress(HEAP_START, blocks[0]) && PointTo(ptrs[1..], blocks[1..])
  }

  /** Memory in state s, whose runs at these blocks are the kernel's and are to be freed. */
  ghost predicate ToFree(mem: Memory, s: System, pid: nat, ptrs: seq<u32>, blocks: seq<nat>)
    reads mem, mem.heap, mem.heap.table.entries, mem.ram
  {
    && mem.Valid() && s.mem == mem.State() && Inv(s)
    && RunsOf(s.mem.own, pid, blocks) && AllKernel(s.mem.own, blocks) && PointTo(ptrs, blocks)
  }

  method FreeIfSet(mem: Memory, ptr: u32, ghost s: System, ghost pid: nat, ghost ptrs: seq<u32>, ghost blocks: seq<nat>)
    returns (ghost s': System, ghost rest: seq<nat>)
    requires ptrs != [] && ptrs[0] == ptr && ToFree(mem, s, pid, ptrs, blocks)
    modifies mem, mem.heap.table.entries
    ensures ToFree(mem, s', pid, ptrs[1..], rest) && Inv(s)
    ensures Execute(s', FreePointers(rest)) == Execute(s, FreePointers(blocks))
  {
    hide Sound, Inv, RunsOf, AllKernel, Give, Live, WholeRuns, ReleaseUnder;
    s', rest := s, blocks;
    if ptr != 0 {
      OnePointer(s, pid, blocks);
      WholeRunsOf(s);
      ReleaseKeepsOthers(s.mem.own, pid, blocks, AsWritten);
      OneThenRest(s, KernelFree(ptr), FreePointers(blocks[1..]));
      mem.Freek(ptr);
      s', rest := Step(s, KernelFree(ptr)), blocks[1..];
    }
  }

  /** The task, the stack, the program and the record of the process, each unless it is null. */
  method ProcessFree(mem: Memory, process: u32, task: u32, chunk: u32, stack: u32, program: u32,
                     ghost s: System, ghost pid: nat, ghost blocks: seq<nat>)
    requires mem.Valid()
    requires process != 0 ==> Inv(s) && s.mem == mem.State() && pid in s.procs
                              && task == s.procs[pid].record * PAGE_SIZE && chunk == s.procs[pid].chunk.Address()
                              && RunsOf(s.mem.own, pid, blocks) && PointTo([stack, program, process], blocks)
    modifies mem, mem.heap.table.entries
    ensures mem.Valid()
    ensures process == 0 ==> mem.State() == old(mem.State())
    ensures process != 0 ==> Inv(s) && Execute(s, EndOps(pid, blocks)) == Some(System(mem.State(), s.procs - {pid}))
  {
    hide Sound, Inv, RunsOf, AllKernel, FreeTaskStep, Execute, WholeRuns, PointTo;
    if process == 0 {
      return;
    }
    ghost var after := EndIsRun(s, pid, blocks);
    FreeTaskKeeps(s, pid);
    RecordNotNull(s, pid);
    TaskFree(mem, task, chunk, s, pid);
    ghost var s1, rest := Step(s, FreeTask(pid)), blocks;
    RunsWithoutTask(s.mem.own, s1.mem.own, pid, blocks);
    OneThenRest(s, FreeTask(pid), FreePointers(blocks));
    s1, rest := FreeIfSet(mem, stack, s1, pid, [stack, program, process], rest);
    s1, rest := FreeIfSet(mem, program, s1, pid, [stack, program, process][1..], rest);
    s1, rest := FreeIfSet(mem, process, s1, pid, [stack, program, process][1..][1..], rest);
    NothingToFree([stack, program, process][1..][1..][1..], s1, rest);
  }

  lemma RecordNotNull(s: System, pid: nat)
    requires Inv(s) && pid in s.procs
    ensures s.procs[pid].record * PAGE_SIZE != 0
  {
    hide Accounts, Explained, PagesOk, DirectoryOk, SlotsOk, ImageOk, ChunkHeld;
    TaskOf(s, pid);
  }

  lemma {:induction false} NothingToFree(ptrs: seq<u32>, s: System, blocks: seq<nat>)
    requires |ptrs| == 0 && PointTo(ptrs, blocks) && Inv(s)
    ensures Execute(s, FreePointers(blocks)) == Some(s)
  {
    hide Inv;
  }
}
