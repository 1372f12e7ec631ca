/** What the invariant of the memory stack means, for every state that satisfies it and so for
    every reachable one. */
module MemoryTheorems {
  import opened Words
  import opened Status
  import opened HeapTable
  import opened BlockAccounts
  import opened PageTables
  import opened MemoryState
  import opened AddressSpaces
  import opened ProcessMemory
  import opened MemorySystem

  /** The distance between a user heap address and the physical address behind it. */
  const USER_OFFSET: nat := 0x2000

  /** Slot k of a task holds an allocation. */
  predicate LiveSlot(s: System, pid: nat, k: nat) {
    pid in s.procs && k < |s.procs[pid].slots| && s.procs[pid].slots[k].addr != 0
  }

  lemma LiveSlotRun(s: System, pid: nat, k: nat)
    requires Inv(s) && LiveSlot(s, pid, k)
    ensures var slot := s.procs[pid].slots[k]; var b := slot.addr / PAGE_SIZE - USER_PAGE;
            && 0 <= b && b + slot.pages <= HEAP_BLOCKS == |s.mem.own| && slot.pages >= 1
            && slot.addr == (USER_PAGE + b) * PAGE_SIZE
            && forall i | b <= i < b + slot.pages :: s.mem.own[i] == Held(b, slot.pages, User(pid, k))
  {
    hide WholeRuns, Explained, ProcessOk;
    TaskOf(s, pid);
    var slot := s.procs[pid].slots[k];
    assert SlotOk(s.mem.own, slot, pid, k);
    RunOfCell(s.mem.table, s.mem.own, slot.addr / PAGE_SIZE - USER_PAGE);
  }

  /** The taken blocks of the heap are the disjoint union of complete runs, each accounted for by
      exactly one holder: a directory, a page table, a chunk structure or a task record of a task
      that exists, a live slot of its allocation table, its image, the kernel, or nobody; and of
      left-overs of multi-block frees. */
  lemma TakenBlocksHaveOneHolder(s: System, b: nat)
    requires Inv(s) && b < HEAP_BLOCKS
    ensures Taken(s.mem.table[b]) <==> !s.mem.own[b].Vacant?
    ensures s.mem.own[b].Held? ==>
              var c := s.mem.own[b];
              && IsRun(s.mem.own, c.first, c.len, c.who) && c.first <= b < c.first + c.len
              && RunAt(s.mem.table, c.first, c.len)
              && ExplainedCell(c, b, s.procs)
  {
    hide ProcessesOk, ProcessOk;
    TakenExactlyWhenHeld(s.mem.table, s.mem.own, b);
    if s.mem.own[b].Held? {
      var c := s.mem.own[b];
      assert IsRun(s.mem.own, c.first, c.len, c.who);
      HeldRun(s.mem.table, s.mem.own, c.first, c.len, c.who);
    }
  }

  /** Two different live user allocations, of one task or of two, share no block: their address
      ranges, which are the same distance from their physical memory everywhere, are disjoint. */
  lemma UserAllocationsDisjoint(s: System, pid: nat, k: nat, other: nat, j: nat)
    requires Inv(s) && LiveSlot(s, pid, k) && LiveSlot(s, other, j) && (pid != other || k != j)
    ensures var a, b := s.procs[pid].slots[k], s.procs[other].slots[j];
            a.addr + a.pages * PAGE_SIZE <= b.addr || b.addr + b.pages * PAGE_SIZE <= a.addr
  {
    hide Inv;
    LiveSlotRun(s, pid, k);
    LiveSlotRun(s, other, j);
    var a, b := s.procs[pid].slots[k], s.procs[other].slots[j];
    var x, y := a.addr / PAGE_SIZE - USER_PAGE, b.addr / PAGE_SIZE - USER_PAGE;
    assert s.mem.own[x] != s.mem.own[y];
    if x <= y < x + a.pages {
      assert false;
    } else if y <= x < y + b.pages {
      assert false;
    }
  }

  /** What a task finds at a virtual address. */
  ghost predicate Translates(s: System, pid: nat, v: u32, phys: nat)
    requires pid in s.procs
  {
    var c := s.procs[pid].chunk;
    && c.DirectoryAddress() < WORD_VALUES
    && PhysicalAddress(s.mem.ram, c.DirectoryAddress(), v) == phys
  }

  ghost predicate UserMayWrite(s: System, pid: nat, page: nat)
    requires pid in s.procs
  {
    page < PAGES && NoAliases(s.procs[pid].chunk) && UserWritable(s.mem.ram, s.procs[pid].chunk, page)
  }

  /** Every address of a live allocation translates to the same distance below it in its own blocks,
      and its page can be written from user mode. */
  lemma LiveAllocationTranslates(s: System, pid: nat, k: nat, v: u32)
    requires Inv(s) && LiveSlot(s, pid, k)
    requires var slot := s.procs[pid].slots[k]; slot.addr <= v < slot.addr + slot.pages * PAGE_SIZE
    ensures Translates(s, pid, v, v + USER_OFFSET) && UserMayWrite(s, pid, v / PAGE_SIZE)
  {
    hide Explained, Accounts, ProcessOk, ChunkHeld, HeldFrame, SlotsOk, ImageOk, ChunkOk, PhysicalAddress, NoAliases,
         Present, Writable, UserBit;
    TaskOf(s, pid);
    LiveSlotRun(s, pid, k);
    var slot, c := s.procs[pid].slots[k], s.procs[pid].chunk;
    var page := v / PAGE_SIZE;
    PageOfSlot(slot.addr / PAGE_SIZE - USER_PAGE, slot.pages, v);
    TranslateReadsEntry(s.mem.ram, c, v);
    var frame := HEAP_FRAME + page - USER_PAGE;
    assert Pte(s.mem.ram, c, page) == frame * PAGE_SIZE + USER_FLAGS;
    UserEntry(frame * PAGE_SIZE);
  }

  lemma PageOfSlot(b: nat, n: nat, v: nat)
    requires (USER_PAGE + b) * PAGE_SIZE <= v < (USER_PAGE + b + n) * PAGE_SIZE
    ensures USER_PAGE + b <= v / PAGE_SIZE < USER_PAGE + b + n
    ensures (HEAP_FRAME + v / PAGE_SIZE - USER_PAGE) * PAGE_SIZE + v % PAGE_SIZE == v + USER_OFFSET
  {
  }

  lemma UserEntry(a: nat)
    requires a % PAGE_SIZE == 0
    ensures Present(a + USER_FLAGS) && Writable(a + USER_FLAGS) && UserBit(a + USER_FLAGS)
    ensures (a + USER_FLAGS) - (a + USER_FLAGS) % PAGE_SIZE == a
  {
    EntryUserBit(a, USER_FLAGS);
    hide Present, Writable, UserBit;
    assert Present(7) && Writable(7) && UserBit(7) by { UserFlagsOpen(); }
    OffsetOf(a / PAGE_SIZE, USER_FLAGS);
  }

  lemma UserFlagsOpen()
    ensures Present(7) && Writable(7) && UserBit(7)
  {
  }

  lemma OffsetOf(page: nat, offset: nat)
    requires offset < PAGE_SIZE
    ensures (page * PAGE_SIZE + offset) % PAGE_SIZE == offset
  {
  }

  /** A page lies in a live allocation of the task. */
  predicate InLiveSlot(s: System, pid: nat, page: nat, k: nat) {
    && LiveSlot(s, pid, k)
    && var slot := s.procs[pid].slots[k];
    && slot.addr / PAGE_SIZE <= page < slot.addr / PAGE_SIZE + slot.pages
  }

  /** User mode reaches exactly the pages of live allocations and the pages of the image that were
      mapped present and open to it; every other page is mapped to itself. */
  lemma UserPagesExact(s: System, pid: nat, page: nat)
    requires Inv(s) && pid in s.procs && page < PAGES
    ensures NoAliases(s.procs[pid].chunk)
    ensures UserAccessible(s.mem.ram, s.procs[pid].chunk, page) <==>
              (exists k :: InLiveSlot(s, pid, page, k))
              || (page in s.procs[pid].image && Present(s.procs[pid].image[page]) && UserBit(s.procs[pid].image[page]))
    ensures (forall k :: !InLiveSlot(s, pid, page, k)) && page !in s.procs[pid].image ==>
              Pte(s.mem.ram, s.procs[pid].chunk, page) == page * PAGE_SIZE + KERNEL_FLAGS
  {
    hide Accounts, ProcessOk, ChunkHeld, HeldFrame, SlotsOk, ChunkOk, NoAliases, Present, Writable, UserBit,
         ExplainedCell;
    TaskOf(s, pid);
    var p := s.procs[pid];
    WindowPageSlot(s, pid, page);
    assert Pte(s.mem.ram, p.chunk, page) == Expected(s.mem.own, p.image, pid, page);
    KernelEntryClosed(page * PAGE_SIZE);
    if page in p.image {
      assert ImagePage(s.mem.own, page, p.image[page], pid);
    }
    if InWindow(page) && UserBlock(s.mem.own, page - USER_PAGE, pid) {
      UserEntry((HEAP_FRAME + page - USER_PAGE) * PAGE_SIZE);
    }
  }

  lemma KernelEntryClosed(a: nat)
    requires a % PAGE_SIZE == 0
    ensures !UserBit(a + KERNEL_FLAGS)
  {
    EntryUserBit(a, KERNEL_FLAGS);
  }

  /** The blocks of a task's allocations and its live slots say the same. */
  lemma WindowPageSlot(s: System, pid: nat, page: nat)
    requires Inv(s) && pid in s.procs
    ensures InWindow(page) && UserBlock(s.mem.own, page - USER_PAGE, pid) <==> exists k :: InLiveSlot(s, pid, page, k)
  {
    hide WholeRuns, ProcessOk, ProcessesOk;
    if InWindow(page) && UserBlock(s.mem.own, page - USER_PAGE, pid) {
      var cell := s.mem.own[page - USER_PAGE];
      assert ExplainedCell(cell, page - USER_PAGE, s.procs);
      RunOfCell(s.mem.table, s.mem.own, page - USER_PAGE);
      assert InLiveSlot(s, pid, page, cell.who.slot);
    }
    if k :| InLiveSlot(s, pid, page, k) {
      LiveSlotRun(s, pid, k);
      assert s.mem.own[page - USER_PAGE].who == User(pid, k);
    }
  }

  /** No page that user mode reaches in one task leads to a frame it reaches in another task, and
      none leads to a frame of any address space. */
  lemma TasksAreIsolated(s: System, pid: nat, page: nat, other: nat, otherPage: nat)
    requires Inv(s) && pid in s.procs && other in s.procs && page < PAGES && otherPage < PAGES && pid != other
    requires NoAliases(s.procs[pid].chunk) && UserAccessible(s.mem.ram, s.procs[pid].chunk, page)
    requires NoAliases(s.procs[other].chunk) && UserAccessible(s.mem.ram, s.procs[other].chunk, otherPage)
    ensures Pte(s.mem.ram, s.procs[pid].chunk, page) / PAGE_SIZE
            != Pte(s.mem.ram, s.procs[other].chunk, otherPage) / PAGE_SIZE
    ensures forall any | any in s.procs ::
              !s.procs[any].chunk.Owns(Pte(s.mem.ram, s.procs[pid].chunk, page) / PAGE_SIZE)
  {
    hide Inv, UserAccessible, Pte, NoAliases, ChunkHeld;
    UserPageOwner(s, pid, page);
    UserPageOwner(s, other, otherPage);
    var frame := Pte(s.mem.ram, s.procs[pid].chunk, page) / PAGE_SIZE;
    forall any | any in s.procs
      ensures !s.procs[any].chunk.Owns(frame)
    {
      TaskOf(s, any);
      if s.procs[any].chunk.Owns(frame) {
        ChunkFrameOwner(s.mem.own, s.procs[any].chunk, any, frame);
      }
    }
  }

  /** A store of a user program to a page of a live allocation is always possible; it changes one word of the
      block behind the page, and no other word of memory. */
  lemma {:induction false} UserStoreLands(s: System, pid: nat, page: nat, k: nat, slot: nat, w: u32)
    requires Inv(s) && InLiveSlot(s, pid, page, k) && page < PAGES && slot < ENTRIES
    ensures Enabled(s, UserStore(pid, page, slot, w))
    ensures var s' := Step(s, UserStore(pid, page, slot, w));
            && s'.procs == s.procs && s'.mem.table == s.mem.table
            && OneWordChanged(s.mem.ram, s'.mem.ram, page + 2, slot, w)
  {
    hide Inv, WriteWord, Pte, UserWritable, NoAliases, OneWordChanged;
    LiveSlotRun(s, pid, k);
    var v: u32 := page * PAGE_SIZE;
    PageOfSlot(page - USER_PAGE, 1, v);
    LiveAllocationTranslates(s, pid, k, v);
    UserPageOwner(s, pid, page) by { WritableIsAccessible(s, pid, page); }
    LivePageFrame(s, pid, page, k);
    WordsAfterStore(s.mem.ram, page + 2, slot, w);
    assert Step(s, UserStore(pid, page, slot, w)).mem.ram == WriteWord(s.mem.ram, page + 2, slot, w);
  }

  /** Exactly one word of memory is another one. */
  ghost predicate OneWordChanged(ram: Ram, ram': Ram, frame: nat, slot: nat, w: u32) {
    forall f: nat, x: nat | f < PAGES && x < ENTRIES ::
      Word(ram', f, x) == if f == frame && x == slot then w else Word(ram, f, x)
  }

  lemma WordsAfterStore(ram: Ram, frame: nat, slot: nat, w: u32)
    requires frame < PAGES && slot < ENTRIES
    ensures OneWordChanged(ram, WriteWord(ram, frame, slot, w), frame, slot, w)
  {
    forall f: nat, x: nat | f < PAGES && x < ENTRIES
      ensures Word(WriteWord(ram, frame, slot, w), f, x) == if f == frame && x == slot then w else Word(ram, f, x)
    {
      WriteWordReads(ram, frame, slot, w, f, x);
    }
  }

  lemma WritableIsAccessible(s: System, pid: nat, page: nat)
    requires pid in s.procs && page < PAGES && NoAliases(s.procs[pid].chunk)
    requires UserWritable(s.mem.ram, s.procs[pid].chunk, page)
    ensures UserAccessible(s.mem.ram, s.procs[pid].chunk, page)
  {
  }

  lemma LivePageFrame(s: System, pid: nat, page: nat, k: nat)
    requires Inv(s) && InLiveSlot(s, pid, page, k) && page < PAGES
    ensures NoAliases(s.procs[pid].chunk) && page + 2 < PAGES
    ensures Pte(s.mem.ram, s.procs[pid].chunk, page) / PAGE_SIZE == page + 2
  {
    hide Accounts, Explained, ProcessesOk, ProcessOk, ChunkHeld, HeldFrame, SlotsOk, ImageOk, ChunkOk, NoAliases,
         DirectoryOk;
    TaskOf(s, pid);
    WindowPageSlot(s, pid, page);
    assert InWindow(page) && UserBlock(s.mem.own, page - USER_PAGE, pid);
    assert Pte(s.mem.ram, s.procs[pid].chunk, page) == (HEAP_FRAME + page - USER_PAGE) * PAGE_SIZE + USER_FLAGS;
  }

  // ----- malloc and free undo each other

  /** The slot of a new allocation is the one its address is found in. */
  lemma {:induction false} NewSlotFound(own: seq<Cell>, slots: seq<Slot>, slots': seq<Slot>,
                                        b: nat, n: nat, k: nat, pid: nat, ptr: u32)
    requires SlotsOk(own, slots, pid) && FirstSlot(slots, 0) == Some(k) && ptr == (USER_PAGE + b) * PAGE_SIZE
    requires b < |own| && own[b].Vacant?
    requires slots' == slots[k := Slot(ptr, n)]
    ensures FirstSlot(slots', ptr) == Some(k)
    ensures FirstSlot(slots'[k := slots'[k].(addr := 0)], 0) == Some(k)
  {
    forall j | 0 <= j < |slots|
      ensures slots[j].addr != ptr
    {
      if slots[j].addr != 0 {
        assert SlotOk(own, slots[j], pid, j);
      }
    }
    FirstSlotIs(slots', ptr, k);
    FirstSlotIs(slots'[k := slots'[k].(addr := 0)], 0, k);
  }

  lemma {:induction false} FirstSlotIs(slots: seq<Slot>, addr: u32, k: nat)
    requires k < |slots| && slots[k].addr == addr
    requires forall j | 0 <= j < k :: slots[j].addr != addr
    ensures FirstSlot(slots, addr) == Some(k)
  {
    var r := FirstSlot(slots, addr);
    assert !(r.value < k) && !(k < r.value);
  }

  /** Blocks that were vacant, allotted and released again: vacant, except for what is left over from
      the third block on. */
  lemma AllotThenRelease(own: seq<Cell>, b: nat, n: nat, who: Owner)
    requires n >= 1 && b + n <= |own| && forall i | b <= i < b + n :: own[i].Vacant?
    ensures Allot(own, b, n, who)[b].Held?
    ensures var own2 := Release(Allot(own, b, n, who), b);
            && (forall i | 0 <= i < |own| :: own2[i] == own[i] || (!own[i].Held? && !own2[i].Held?))
            && (n <= 2 ==> own2 == own)
            && (n > 2 ==> own[b + 2].Vacant? && own2[b + 2].Leftover?)
  {
  }

  /** Tables agree exactly when the accounts leave the same blocks vacant, here all or not all. */
  lemma TablesAgree(t: seq<bv8>, u: seq<bv8>, own: seq<Cell>, own2: seq<Cell>, n: nat, i: nat)
    requires Accounts(t, own) && Accounts(u, own2) && |own| == |own2|
    requires n <= 2 ==> own2 == own
    requires n > 2 ==> i < |own| && own[i].Vacant? && own2[i].Leftover?
    ensures u == t <==> n <= 2
  {
    if n <= 2 {
      AccountDeterminesTable(t, u, own);
    } else {
      TakenExactlyWhenHeld(t, own, i);
      TakenExactlyWhenHeld(u, own2, i);
    }
  }

  /** The state between the two calls, and the one after. */
  lemma MallocThenFreeRuns(s: System, pid: nat, size: u32, ptr: u32) returns (b: nat, k: nat)
    requires Inv(s) && Enabled(s, Malloc(pid, size)) && ptr != 0
    requires NoAliases(s.procs[pid].chunk)
    requires UserMalloc(s.mem, s.procs[pid].chunk, s.procs[pid].slots, size, pid).0 == ptr
    ensures Inv(MallocStep(s, pid, size)) && Enabled(MallocStep(s, pid, size), Free(pid, ptr))
    ensures var s1 := MallocStep(s, pid, size); var p := s.procs[pid];
            && s1.procs == s.procs[pid := p.(slots := s1.procs[pid].slots)]
            && UserRunTaken(s.mem.own, s1.mem.own, p.slots, s1.procs[pid].slots, b, k, size, pid, ptr)
            && FirstSlot(s1.procs[pid].slots, ptr) == Some(k)
            && FirstSlot(s1.procs[pid].slots[k := s1.procs[pid].slots[k].(addr := 0)], 0) == Some(k)
  {
    hide Accounts, Explained, ProcessesOk, ProcessOk, OnlyTablesChange, FirstSlot, UserMalloc, SlotsOk, NoAliases;
    MallocKeeps(s, pid, size);
    TaskOf(s, pid);
    var p := s.procs[pid];
    UserMallocKeeps(s.mem, p, pid, size);
    var (_, m, slots) := UserMalloc(s.mem, p.chunk, p.slots, size, pid);
    b, k :| UserRunTaken(s.mem.own, m.own, p.slots, slots, b, k, size, pid, ptr);
    NewSlotFound(s.mem.own, p.slots, slots, b, TotalBlocks(size), k, pid, ptr);
  }

  /** A free of an address found in slot k gives back the run behind it. */
  lemma {:induction false} FreeStepRun(s: System, pid: nat, virt: u32, b: nat, k: nat)
    requires Inv(s) && Enabled(s, Free(pid, virt)) && virt == (USER_PAGE + b) * PAGE_SIZE
    requires FirstSlot(s.procs[pid].slots, virt) == Some(k)
    ensures var s' := FreeStep(s, pid, virt); var slots := s.procs[pid].slots;
            && Inv(s') && b < |s.mem.own| && s.mem.own[b].Held?
            && s'.mem.own == Release(s.mem.own, b)
            && s'.procs == s.procs[pid := s.procs[pid].(slots := slots[k := slots[k].(addr := 0)])]
  {
    hide Accounts, Explained, ProcessesOk, ProcessOk, OnlyTablesChange, FirstSlot, UserFree, Release, SlotsOk,
         NoAliases, Live, PhysicalAddress;
    FreeKeeps(s, pid, virt);
    TaskOf(s, pid);
    var p := s.procs[pid];
    UserFreeKeeps(s.mem, p, pid, virt);
    var (m, slots) := UserFree(s.mem, p.chunk, p.slots, virt);
    var b', k' :| UserRunGiven(s.mem.own, m.own, p.slots, slots, b', k', pid, virt);
    assert b' == b && k' == k;
  }

  /** The flat map of a task before and after, by its entries. */
  ghost predicate SameMapping(s: System, s': System, pid: nat) {
    && pid in s.procs && pid in s'.procs && s'.procs[pid].chunk == s.procs[pid].chunk
    && NoAliases(s.procs[pid].chunk)
    && forall page | 0 <= page < PAGES ::
         Pte(s'.mem.ram, s.procs[pid].chunk, page) == Pte(s.mem.ram, s.procs[pid].chunk, page)
  }

  lemma SameUserBlocksSameMapping(s: System, s': System, pid: nat)
    requires Inv(s) && Inv(s') && pid in s.procs && pid in s'.procs
    requires s'.procs[pid].chunk == s.procs[pid].chunk && s'.procs[pid].image == s.procs[pid].image
    requires forall b | 0 <= b < HEAP_BLOCKS && b < |s.mem.own| && b < |s'.mem.own| ::
               s'.mem.own[b] == s.mem.own[b] || (!s.mem.own[b].Held? && !s'.mem.own[b].Held?)
    ensures SameMapping(s, s', pid)
  {
    hide Accounts, Explained, ProcessesOk, ProcessOk, ChunkHeld, HeldFrame, SlotsOk, ImageOk, DirectoryOk, ChunkOk,
         NoAliases, Pde;
    TaskOf(s, pid);
    TaskOf(s', pid);
    var p := s.procs[pid];
    forall page | 0 <= page < PAGES
      ensures Expected(s'.mem.own, p.image, pid, page) == Expected(s.mem.own, p.image, pid, page)
    {
    }
  }

  /** A successful user malloc followed by the free of its result: every page of the task is mapped
      as before and the slot is empty again; the heap table is as before exactly when the request
      took at most two blocks. */
  lemma MallocThenFree(s: System, pid: nat, size: u32, ptr: u32)
    requires Inv(s) && Enabled(s, Malloc(pid, size)) && ptr != 0
    requires NoAliases(s.procs[pid].chunk)
    requires UserMalloc(s.mem, s.procs[pid].chunk, s.procs[pid].slots, size, pid).0 == ptr
    ensures Inv(MallocStep(s, pid, size)) && Enabled(MallocStep(s, pid, size), Free(pid, ptr))
    ensures var s2 := FreeStep(MallocStep(s, pid, size), pid, ptr);
            && Inv(s2) && SameMapping(s, s2, pid)
            && FirstSlot(s2.procs[pid].slots, 0) == FirstSlot(s.procs[pid].slots, 0)
            && (s2.mem.table == s.mem.table <==> TotalBlocks(size) <= 2)
  {
    hide Accounts, Explained, ProcessesOk, FirstSlot, UserMalloc, MallocStep, FreeStep, Release, Allot, NoAliases,
         SameMapping;
    var b, k := MallocThenFreeRuns(s, pid, size, ptr);
    var s1 := MallocStep(s, pid, size);
    FreeStepRun(s1, pid, ptr, b, k);
    var s2 := FreeStep(s1, pid, ptr);
    AllotThenRelease(s.mem.own, b, TotalBlocks(size), User(pid, k));
    SameUserBlocksSameMapping(s, s2, pid);
    TablesAgree(s.mem.table, s2.mem.table, s.mem.own, s2.mem.own, TotalBlocks(size), b + 2);
  }

  /** After a user free that found a slot, no page of the freed allocation is open to user mode: each
      is mapped to itself again. */
  lemma {:induction false} FreedPagesClosed(s: System, pid: nat, virt: u32, k: nat, page: nat)
    requires Inv(s) && Enabled(s, Free(pid, virt)) && virt != 0
    requires FirstSlot(s.procs[pid].slots, virt) == Some(k) && InLiveSlot(s, pid, page, k) && page < PAGES
    ensures Inv(FreeStep(s, pid, virt))
    ensures var s' := FreeStep(s, pid, virt); var c := s.procs[pid].chunk;
            && pid in s'.procs && s'.procs[pid].chunk == c && NoAliases(c)
            && Pte(s'.mem.ram, c, page) == page * PAGE_SIZE + KERNEL_FLAGS
            && !UserAccessible(s'.mem.ram, c, page)
  {
    hide Inv, Enabled, FirstSlot, FreeStep, UserAccessible, Pte, NoAliases, Release;
    LiveSlotRun(s, pid, k);
    var b := virt / PAGE_SIZE - USER_PAGE;
    FreeStepRun(s, pid, virt, b, k);
    var s' := FreeStep(s, pid, virt);
    RunReleased(s, b, page - USER_PAGE);
    WindowPageSlot(s', pid, page);
    UserPagesExact(s', pid, page);
    WindowNotImage(s', pid, page);
  }

  lemma RunReleased(s: System, b: nat, i: nat)
    requires Inv(s) && b < |s.mem.own| && s.mem.own[b].Held? && s.mem.own[b].first == b
    requires i < |s.mem.own| && s.mem.own[i] == s.mem.own[b]
    ensures !Release(s.mem.own, b)[i].Held?
  {
    hide WholeRuns, Explained, ProcessesOk, Release;
    ReleaseTouchesRunOnly(s.mem.own, b);
  }

  lemma WindowNotImage(s: System, pid: nat, page: nat)
    requires Inv(s) && pid in s.procs && InWindow(page)
    ensures page !in s.procs[pid].image
  {
    hide Accounts, Explained, ProcessesOk, ProcessOk, ChunkHeld, HeldFrame, SlotsOk, DirectoryOk, ChunkOk, PagesOk;
    TaskOf(s, pid);
  }

  // ----- what a freed task leaves behind

  predicate IsOrphan(cell: Cell) {
    cell.Held? && cell.who == Orphan
  }

  /** Block b is part of the run of live slot k. */
  predicate InLiveRun(s: System, pid: nat, b: nat, k: nat) {
    InLiveSlot(s, pid, USER_PAGE + b, k)
  }

  lemma TaskBlocks(s: System, pid: nat, b: nat)
    requires Inv(s) && pid in s.procs && b < |s.mem.own|
    ensures var cell, p := s.mem.own[b], s.procs[pid];
            cell.Held? && (ChunkOwner(cell.who, pid) || cell.who == TaskRecord(pid))
            <==> HEAP_FRAME + b == p.record || p.chunk.Owns(HEAP_FRAME + b)
  {
    hide Accounts, ProcessesOk, ProcessOk, PagesOk, DirectoryOk, SlotsOk, ImageOk, ChunkOk, NoAliases, ChunkHeld;
    TaskOf(s, pid);
    var cell, p := s.mem.own[b], s.procs[pid];
    if cell.Held? {
      assert ExplainedCell(cell, b, s.procs);
    }
    if p.chunk.Owns(HEAP_FRAME + b) {
      ChunkFrameOwner(s.mem.own, p.chunk, pid, HEAP_FRAME + b);
    }
  }

  /** What becomes of block b when its task is freed: vacant exactly if it was, or was the record or a
      frame of the address space; an orphan exactly if it was, or was part of a live allocation; and
      otherwise the same block of the same run. */
  ghost predicate FreedAs(s: System, pid: nat, b: nat, now: Cell)
    requires pid in s.procs && b < |s.mem.own|
  {
    var was, p := s.mem.own[b], s.procs[pid];
    && (now.Vacant? <==> was.Vacant? || HEAP_FRAME + b == p.record || p.chunk.Owns(HEAP_FRAME + b))
    && (IsOrphan(now) <==> IsOrphan(was) || exists k :: InLiveRun(s, pid, b, k))
    && (!now.Vacant? ==> SameRun(was, now))
  }

  lemma FreedTaskBlocks(s: System, pid: nat, own': seq<Cell>, b: nat)
    requires Inv(s) && pid in s.procs && b < HEAP_BLOCKS && AccountWithout(s.mem.own, own', pid)
    ensures FreedAs(s, pid, b, own'[b])
  {
    hide Inv, InLiveRun, Chunk.Owns;
    TaskBlocks(s, pid, b);
    LiveRunOfBlock(s, pid, b, USER_PAGE + b);
  }

  lemma LiveRunOfBlock(s: System, pid: nat, b: nat, page: nat)
    requires Inv(s) && pid in s.procs && b < HEAP_BLOCKS && page == USER_PAGE + b
    ensures UserBlock(s.mem.own, b, pid) <==> exists k :: InLiveRun(s, pid, b, k)
  {
    hide Inv, InLiveSlot;
    WindowPageSlot(s, pid, page);
    if k: nat :| InLiveSlot(s, pid, page, k) {
      assert InLiveRun(s, pid, b, k);
    }
    if k: nat :| InLiveRun(s, pid, b, k) {
      assert InLiveSlot(s, pid, page, k);
    }
  }

  /** Freeing a task loses memory exactly if the task has a live allocation. */
  lemma FreedTaskLosesExactly(s: System, pid: nat)
    requires Inv(s) && pid in s.procs
    ensures (exists b :: LostByFree(s, pid, b)) <==> exists k :: LiveSlot(s, pid, k)
  {
    hide Inv, FreeTaskStep;
    FreeTaskKeeps(s, pid);
    var own' := FreeTaskStep(s, pid).mem.own;
    if b: nat :| LostByFree(s, pid, b) {
      FreedTaskBlocks(s, pid, own', b);
      var k :| InLiveRun(s, pid, b, k);
      assert LiveSlot(s, pid, k);
    }
    if k: nat :| LiveSlot(s, pid, k) {
      LiveSlotRun(s, pid, k);
      var b := s.procs[pid].slots[k].addr / PAGE_SIZE - USER_PAGE;
      assert InLiveRun(s, pid, b, k);
      FreedTaskBlocks(s, pid, own', b);
      assert LostByFree(s, pid, b);
    }
  }

  /** Freeing the task makes an orphan of block b. */
  ghost predicate LostByFree(s: System, pid: nat, b: nat)
    requires Inv(s) && pid in s.procs
  {
    var own' := FreeTaskStep(s, pid).mem.own;
    b < |s.mem.own| && b < |own'| && IsOrphan(own'[b]) && !IsOrphan(s.mem.own[b])
  }

  // ----- what never comes back

  /** A block nothing will ever free: left over from a free of more than two blocks, or user memory
      of a task that is gone. */
  predicate Lost(cell: Cell) {
    cell.Leftover? || (cell.Held? && cell.who == Orphan)
  }

  /** The account after a step, as far as blocks that are not vacant are concerned: what was lost
      stays lost. */
  predicate KeepsLost(own: seq<Cell>, own': seq<Cell>) {
    |own'| == |own| && forall b | 0 <= b < |own| && Lost(own[b]) :: own'[b] == own[b]
  }

  lemma MallocKeepsLost(s: System, pid: nat, size: u32)
    requires Inv(s) && Enabled(s, Malloc(pid, size))
    ensures KeepsLost(s.mem.own, MallocStep(s, pid, size).mem.own)
  {
    hide Accounts, Explained, ProcessesOk, ProcessOk, OnlyTablesChange, FirstSlot, UserMalloc, SlotsOk, NoAliases;
    TaskOf(s, pid);
    var p := s.procs[pid];
    UserMallocKeeps(s.mem, p, pid, size);
    var (ptr, m, slots) := UserMalloc(s.mem, p.chunk, p.slots, size, pid);
    if ptr != 0 {
      var b, k :| UserRunTaken(s.mem.own, m.own, p.slots, slots, b, k, size, pid, ptr);
    }
  }

  lemma FreeKeepsLost(s: System, pid: nat, virt: u32)
    requires Inv(s) && Enabled(s, Free(pid, virt))
    ensures KeepsLost(s.mem.own, FreeStep(s, pid, virt).mem.own)
  {
    hide WholeRuns, Explained, ProcessesOk, ProcessOk, OnlyTablesChange, FirstSlot, UserFree, Release, SlotsOk,
         NoAliases, Live, PhysicalAddress;
    TaskOf(s, pid);
    var p := s.procs[pid];
    UserFreeKeeps(s.mem, p, pid, virt);
    var (m, slots) := UserFree(s.mem, p.chunk, p.slots, virt);
    if FirstSlot(p.slots, virt).Some? {
      var b, k :| UserRunGiven(s.mem.own, m.own, p.slots, slots, b, k, pid, virt);
      ReleaseTouchesRunOnly(s.mem.own, b);
    }
  }

  lemma NewTaskKeepsLost(s: System, pid: nat)
    requires Inv(s) && Enabled(s, NewTask(pid))
    ensures KeepsLost(s.mem.own, NewTaskStep(s, pid).mem.own)
  {
    hide Accounts, Explained, ProcessesOk, Capacity, ChunkHeld, IdentityMapped, SameFrame, NewChunk, TakePage,
         HeldFrame;
    TakePageSound(s.mem, TaskRecord(pid));
    var m1 := TakePage(s.mem, TaskRecord(pid)).1;
    NewChunkEffect(m1, pid, KERNEL_FLAGS);
  }

  lemma FreeTaskKeepsLost(s: System, pid: nat)
    requires Inv(s) && Enabled(s, FreeTask(pid))
    ensures KeepsLost(s.mem.own, FreeTaskStep(s, pid).mem.own)
  {
    hide Accounts, Explained, ProcessesOk, ChunkOk, ChunkHeld, FreeChunk, Give, Live;
    TaskFreed(s, pid);
  }

  lemma KernelKeepsLost(s: System, op: Op)
    requires Inv(s) && Enabled(s, op) && (op.KernelMalloc? || op.KernelFree? || op.MapImage?)
    ensures KeepsLost(s.mem.own, Step(s, op).mem.own)
  {
    hide WholeRuns, Explained, ProcessesOk, Fits, StartBlock, MapTo, Release, Mappable;
    match op
    case KernelMalloc(size) =>
      TakeSound(s.mem, size, Kernel);
      if MallocBlock(s.mem.table, size).None? {
        NothingTaken(s.mem, size);
      }
    case KernelFree(ptr) => ReleaseTouchesRunOnly(s.mem.own, AddressBlock(HEAP_START, ptr));
    case MapImage(pid, virt, start, end, flags) =>
  }

  /** No operation gives a lost block back ... */
  lemma StepKeepsLost(s: System, op: Op)
    requires Inv(s) && Enabled(s, op)
    ensures KeepsLost(s.mem.own, Step(s, op).mem.own)
  {
    hide Inv, Enabled, KeepsLost, NewTaskStep, FreeTaskStep, MallocStep, FreeStep, KernelMallocStep, KernelFreeStep,
         MapImageStep;
    match op
    case NewTask(pid) => NewTaskKeepsLost(s, pid);
    case FreeTask(pid) => FreeTaskKeepsLost(s, pid);
    case Malloc(pid, size) => MallocKeepsLost(s, pid, size);
    case Free(pid, virt) => FreeKeepsLost(s, pid, virt);
    case UserStore(pid, page, slot, w) => NothingLost(s.mem.own);
    case KernelStore(frame, slot, w) => NothingLost(s.mem.own);
    case _ => KernelKeepsLost(s, op);
  }

  lemma NothingLost(own: seq<Cell>)
    ensures KeepsLost(own, own)
  {
  }

  lemma LostTransitive(own: seq<Cell>, own1: seq<Cell>, own2: seq<Cell>)
    requires KeepsLost(own, own1) && KeepsLost(own1, own2)
    ensures KeepsLost(own, own2)
  {
  }

  /** ... and so no run does: the blocks a free of a run of more than two blocks leaves behind, and the
      user memory of a freed task, stay taken for ever. */
  lemma {:induction false} LostForever(s: System, ops: seq<Op>)
    requires Inv(s) && Execute(s, ops).Some?
    ensures KeepsLost(s.mem.own, Execute(s, ops).value.mem.own)
    decreases |ops|
  {
    hide Inv, Enabled, Step, KeepsLost;
    if ops == [] {
      NothingLost(s.mem.own);
    } else {
      StepKeeps(s, ops[0]);
      StepKeepsLost(s, ops[0]);
      var s' := Step(s, ops[0]);
      LostForever(s', ops[1..]);
      LostTransitive(s.mem.own, s'.mem.own, Execute(s', ops[1..]).value.mem.own);
    }
  }
}
