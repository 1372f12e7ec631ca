/** The memory of one process: its address space, its table of user allocations and the kernel
    memory mapped into it as program image and stack. */
module ProcessMemory {
  import opened Words
  import opened Status
  import opened HeapTable
  import opened BlockAccounts
  import opened PageTables
  import opened MemoryState
  import opened AddressSpaces

  const MAX_ALLOCATIONS: nat := 1024
  const USER_HEAP_VIRT: u32 := 0xff_e000
  const USER_PAGE: nat := 0xffe
  const KERNEL_FLAGS: u32 := 3      // present, writable
  const USER_FLAGS: u32 := 7        // present, writable, accessible from user mode

  /** An entry of the allocation table; address 0 marks it empty. */
  datatype Slot = Slot(addr: u32, pages: nat)

  /** A process as the memory routines see it.  `image` is bookkeeping: the entries of the pages
      that program image and stack have been mapped to. */
  datatype Process = Process(record: nat, chunk: Chunk, slots: seq<Slot>, image: map<nat, nat>)

  // ----- what the code does

  /** The first slot with the given address. */
  function FirstSlot(slots: seq<Slot>, addr: u32): (r: Option<nat>)
    ensures r.Some? ==> r.value < |slots| && slots[r.value].addr == addr
    ensures r.None? ==> forall k | 0 <= k < |slots| :: slots[k].addr != addr
    ensures r.Some? ==> forall k | 0 <= k < r.value :: slots[k].addr != addr
  {
    if slots == [] then None
    else if slots[0].addr == addr then Some(0)
    else
      match FirstSlot(slots[1..], addr)
      case None =>
        assert forall k | 0 < k < |slots| :: slots[k] == slots[1..][k - 1];
        None
      case Some(k) =>
        assert forall j | 0 < j < k + 1 :: slots[j] == slots[1..][j - 1];
        Some(k + 1)
  }

  function CalculatePages(size: u32): nat {
    CeilDiv(size, PAGE_SIZE)
  }

  /** The user address of heap memory at physical address ptr. */
  function UserAddress(ptr: u32): u32 {
    Wrap(USER_HEAP_VIRT + Wrap(ptr - HEAP_START))
  }

  /** `malloc` for a user program: null without a free slot or without memory; otherwise the new
      run is mapped into the user heap window and entered in the first free slot. */
  ghost function UserMalloc(m: Mem, c: Chunk, slots: seq<Slot>, size: u32, pid: nat): (r: (u32, Mem, seq<Slot>))
    requires size > 0 ==> Fits(m.table, TotalBlocks(size))
    requires c.directory < PAGES
  {
    hide Take, MallocBlock, Fits, FirstSlot, AlignUp, MapTo;
    match FirstSlot(slots, 0)
    case None => (0, m, slots)
    case Some(k) =>
      var (ptr, m1) := Take(m, size, User(pid, k));
      if ptr == 0 then (0, m1, slots)
      else
        var virt := UserAddress(ptr);
        var ram := MapTo(m1.ram, c.DirectoryAddress(), virt, ptr, AlignUp(Wrap(ptr + size)), USER_FLAGS).1;
        (virt, m1.(ram := ram), slots[k := Slot(virt, CalculatePages(size))])
  }

  /** `free` for a user program: addresses that are in no slot are ignored; otherwise the memory is
      given back, its pages are mapped to themselves again and the slot is emptied. */
  ghost function UserFree(m: Mem, c: Chunk, slots: seq<Slot>, virt: u32): (r: (Mem, seq<Slot>))
    requires c.directory < PAGES
    requires FirstSlot(slots, virt).Some? ==> Live(m, PhysicalAddress(m.ram, c.DirectoryAddress(), virt))
  {
    match FirstSlot(slots, virt)
    case None => (m, slots)
    case Some(k) =>
      var m1 := Give(m, PhysicalAddress(m.ram, c.DirectoryAddress(), virt));
      var end := Wrap(virt + slots[k].pages * PAGE_SIZE);
      var ram := MapTo(m1.ram, c.DirectoryAddress(), virt, virt, end, KERNEL_FLAGS).1;
      (m1.(ram := ram), slots[k := slots[k].(addr := 0)])
  }

  /** Address 0 is found in every table with an empty slot, so freeing it is not ignored: it is
      treated as an allocation, and what gets freed is the error code -2 as an address, which lies
      in no block of the heap. */
  lemma {:induction false} FreeOfNullIsNotIgnored(slots: seq<Slot>, m: Mem, c: Chunk)
    requires c.directory < PAGES && |m.own| == HEAP_BLOCKS
    ensures FirstSlot(slots, 0).Some? <==> exists k :: 0 <= k < |slots| && slots[k].addr == 0
    ensures PhysicalAddress(m.ram, c.DirectoryAddress(), 0) == 0xffff_fffe
    ensures !Live(m, PhysicalAddress(m.ram, c.DirectoryAddress(), 0))
  {
  }

  /** The free loop such a call starts runs over entries of the table counted from -4096: over the
      memory below the table, as long as its bytes look taken, up to and including the first that
      passes the end test.  If that is below the table, the table itself is not touched. */
  lemma {:induction false} FreeOfNullRunsBelowTable(below: seq<bv8>, t: seq<bv8>, m: Mem, c: Chunk)
    requires c.directory < PAGES && |below| == BLOCK_SIZE
    ensures AddressBlock(HEAP_START, PhysicalAddress(m.ram, c.DirectoryAddress(), 0)) == -4096
    ensures Stops(below, 0) ==> MarkFree(below + t, 0, AsWritten) == MarkFree(below, 0, AsWritten) + t
    ensures MarkFree(below + t, 0, AsWritten) == below + t <==> !Taken(below[0])
  {
    assert (below + t)[0] == below[0];
    if Stops(below, 0) {
      FreeStaysInside(below, t, 0);
    }
    if Taken(below[0]) {
      FirstByteCleared(below + t);
    }
  }

  lemma {:induction false} FirstByteCleared(t: seq<bv8>)
    requires |t| > 0 && Taken(t[0])
    ensures MarkFree(t, 0, AsWritten)[0] == FREE && t[0] != FREE
  {
    FreeBelowUntouched(t[0 := FREE], 1);
  }

  lemma {:induction false} FreeBelowUntouched(t: seq<bv8>, b: nat)
    requires 1 <= b
    ensures |t| > 0 ==> MarkFree(t, b, AsWritten)[0] == t[0]
    decreases |t| - b
  {
    if b < |t| && Taken(t[b]) && !IsEnd(AsWritten, t[b]) {
      FreeBelowUntouched(t[b := FREE], b + 1);
    }
  }

  // ----- the invariant of one process

  /** The heap block behind a page of the user heap window. */
  predicate InWindow(page: int) {
    USER_PAGE <= page < USER_PAGE + HEAP_BLOCKS
  }

  /** Block b is part of a live user allocation of `pid`. */
  predicate UserBlock(own: seq<Cell>, b: nat, pid: nat) {
    b < |own| && own[b].Held? && own[b].who.User? && own[b].who.pid == pid
  }

  /** The entry a page must have: a page of the window behind which a live allocation of the process
      lies leads to that block, a page of the image to its frame, every other page to itself
      without the user bit. */
  function Expected(own: seq<Cell>, image: map<nat, nat>, pid: nat, page: nat): nat {
    if InWindow(page) && UserBlock(own, page - USER_PAGE, pid)
    then (HEAP_FRAME + page - USER_PAGE) * PAGE_SIZE + USER_FLAGS
    else if page in image then image[page]
    else page * PAGE_SIZE + KERNEL_FLAGS
  }

  ghost predicate PagesOk(own: seq<Cell>, ram: Ram, c: Chunk, image: map<nat, nat>, pid: nat) {
    && ChunkOk(ram, c)
    && forall page | 0 <= page < PAGES :: Pte(ram, c, page) == Expected(own, image, pid, page)
  }

  /** Directory entries are present and writable, and let user mode through wherever a page does. */
  ghost predicate DirectoryOk(ram: Ram, c: Chunk) {
    && NoAliases(c)
    && (forall i | 0 <= i < ENTRIES :: Present(Pde(ram, c, i)) && Writable(Pde(ram, c, i)))
    && (forall page | 0 <= page < PAGES && UserBit(Pte(ram, c, page)) :: UserBit(Pde(ram, c, page / ENTRIES)))
  }

  /** Slot k holds a live run of that many blocks, at its place in the window. */
  predicate SlotOk(own: seq<Cell>, slot: Slot, pid: nat, k: nat) {
    var b := slot.addr / PAGE_SIZE - USER_PAGE;
    && slot.addr % PAGE_SIZE == 0
    && 0 <= b < |own| && slot.pages >= 1
    && own[b] == Held(b, slot.pages, User(pid, k))
  }

  ghost predicate SlotsOk(own: seq<Cell>, slots: seq<Slot>, pid: nat) {
    && |slots| == MAX_ALLOCATIONS
    && forall k | 0 <= k < |slots| && slots[k].addr != 0 :: SlotOk(own, slots[k], pid, k)
  }

  /** Image pages lie outside the window and lead to blocks held for the image of the process. */
  predicate ImagePage(own: seq<Cell>, page: nat, entry: nat, pid: nat) {
    && !InWindow(page)
    && HEAP_FRAME <= entry / PAGE_SIZE < HEAP_FRAME + |own|
    && own[entry / PAGE_SIZE - HEAP_FRAME].Held?
    && own[entry / PAGE_SIZE - HEAP_FRAME].who == Image(pid)
  }

  ghost predicate ImageOk(own: seq<Cell>, image: map<nat, nat>, pid: nat) {
    forall page | page in image :: ImagePage(own, page, image[page], pid)
  }

  ghost predicate ProcessOk(own: seq<Cell>, ram: Ram, p: Process, pid: nat) {
    && HeldFrame(own, p.record, TaskRecord(pid))
    && ChunkHeld(own, p.chunk, pid)
    && PagesOk(own, ram, p.chunk, p.image, pid)
    && DirectoryOk(ram, p.chunk)
    && SlotsOk(own, p.slots, pid)
    && ImageOk(own, p.image, pid)
  }

  // ----- changes that do not concern a process

  predicate Concerns(cell: Cell, pid: nat) {
    cell.Held? && !cell.who.Kernel? && !cell.who.Orphan? && cell.who.pid == pid
  }

  /** No block of the process changes hands. */
  ghost predicate SameBlocks(own: seq<Cell>, own': seq<Cell>, pid: nat) {
    && |own'| == |own|
    && forall b | 0 <= b < |own| && (Concerns(own[b], pid) || Concerns(own'[b], pid)) :: own'[b] == own[b]
  }

  ghost predicate SameChunkFrames(ram: Ram, ram': Ram, c: Chunk) {
    forall frame | 0 <= frame < PAGES && c.Owns(frame) :: SameFrame(ram, ram', frame)
  }

  lemma SameFramesSameView(ram: Ram, ram': Ram, c: Chunk)
    requires ChunkOk(ram, c) && SameChunkFrames(ram, ram', c)
    ensures ChunkOk(ram', c)
    ensures forall page | 0 <= page < PAGES :: Pte(ram', c, page) == Pte(ram, c, page)
    ensures forall i | 0 <= i < ENTRIES :: Pde(ram', c, i) == Pde(ram, c, i)
  {
    assert SameFrame(ram, ram', c.header) && SameFrame(ram, ram', c.directory);
    forall page | 0 <= page < PAGES
      ensures Pte(ram', c, page) == Pte(ram, c, page)
    {
      assert SameFrame(ram, ram', c.tables[page / ENTRIES]);
    }
  }

  lemma ProcessUnconcerned(own: seq<Cell>, ram: Ram, own': seq<Cell>, ram': Ram, p: Process, pid: nat)
    requires ProcessOk(own, ram, p, pid)
    requires SameBlocks(own, own', pid) && SameChunkFrames(ram, ram', p.chunk)
    ensures ProcessOk(own', ram', p, pid)
  {
    SameFramesSameView(ram, ram', p.chunk);
    HeldUnconcerned(own, own', p, pid);
    forall page | 0 <= page < PAGES
      ensures Expected(own', p.image, pid, page) == Expected(own, p.image, pid, page)
    {
      ExpectedUnconcerned(own, own', p.image, pid, page);
    }
  }

  lemma ExpectedUnconcerned(own: seq<Cell>, own': seq<Cell>, image: map<nat, nat>, pid: nat, page: nat)
    requires SameBlocks(own, own', pid)
    ensures Expected(own', image, pid, page) == Expected(own, image, pid, page)
  {
    if InWindow(page) && page - USER_PAGE < |own| {
      assert Concerns(own[page - USER_PAGE], pid) || Concerns(own'[page - USER_PAGE], pid)
             ==> own'[page - USER_PAGE] == own[page - USER_PAGE];
    }
  }

  lemma HeldUnconcerned(own: seq<Cell>, own': seq<Cell>, p: Process, pid: nat)
    requires SameBlocks(own, own', pid)
    ensures HeldFrame(own, p.record, TaskRecord(pid)) ==> HeldFrame(own', p.record, TaskRecord(pid))
    ensures ChunkHeld(own, p.chunk, pid) ==> ChunkHeld(own', p.chunk, pid)
    ensures SlotsOk(own, p.slots, pid) ==> SlotsOk(own', p.slots, pid)
    ensures ImageOk(own, p.image, pid) ==> ImageOk(own', p.image, pid)
  {
    if ChunkHeld(own, p.chunk, pid) {
      forall i | 0 <= i < ENTRIES
        ensures HeldFrame(own', p.chunk.tables[i], PageTable(pid, i))
      {
        assert HeldFrame(own, p.chunk.tables[i], PageTable(pid, i));
      }
    }
    if SlotsOk(own, p.slots, pid) {
      forall k | 0 <= k < |p.slots| && p.slots[k].addr != 0
        ensures SlotOk(own', p.slots[k], pid, k)
      {
        assert SlotOk(own, p.slots[k], pid, k);
      }
    }
    if ImageOk(own, p.image, pid) {
      forall page | page in p.image
        ensures ImagePage(own', page, p.image[page], pid)
      {
        assert ImagePage(own, page, p.image[page], pid);
      }
    }
  }

  // ----- mapping pages of a process

  lemma EntryUserBit(a: nat, flags: nat)
    requires a % PAGE_SIZE == 0 && flags < PAGE_SIZE
    ensures UserBit(a + flags) <==> UserBit(flags)
    ensures Writable(a + flags) <==> Writable(flags)
    ensures Present(a + flags) <==> Present(flags)
  {
    var m := a / PAGE_SIZE;
    Halve(2048 * m, flags);
    Halve(1024 * m, flags / 2);
    Halve(512 * m, flags / 4);
    assert (a + flags) / 4 == (a + flags) / 2 / 2;
  }

  lemma Halve(x: nat, y: nat)
    ensures (2 * x + y) / 2 == x + y / 2 && (2 * x + y) % 2 == y % 2
  {
  }

  lemma DirectoryRemapped(ram: Ram, ram': Ram, c: Chunk, lo: nat, n: nat, phy: nat, flags: nat)
    requires ChunkOk(ram, c) && DirectoryOk(ram, c) && Remapped(ram, ram', c, lo, n, phy, flags)
    requires phy % PAGE_SIZE == 0 && flags < PAGE_SIZE
    ensures DirectoryOk(ram', c)
  {
    hide ChunkOk, OnlyTablesChange, BitOr, Meets, Present, Writable, UserBit;
    forall i | 0 <= i < ENTRIES
      ensures Present(Pde(ram', c, i)) && Writable(Pde(ram', c, i))
      ensures UserBit(Pde(ram, c, i)) ==> UserBit(Pde(ram', c, i))
      ensures Meets(lo, n, i) && UserBit(flags) ==> UserBit(Pde(ram', c, i))
    {
      OrPermissions(Pde(ram, c, i), flags);
    }
    forall page | 0 <= page < PAGES && UserBit(Pte(ram', c, page))
      ensures UserBit(Pde(ram', c, page / ENTRIES))
    {
      if lo <= page < lo + n {
        PageOfRange(lo, n, phy, page);
        EntryUserBit(phy + (page - lo) * PAGE_SIZE, flags);
      }
    }
  }

  lemma PageOfRange(lo: nat, n: nat, phy: nat, page: nat)
    requires lo <= page < lo + n && phy % PAGE_SIZE == 0
    ensures Meets(lo, n, page / ENTRIES)
    ensures (phy + (page - lo) * PAGE_SIZE) % PAGE_SIZE == 0
  {
  }

  lemma PagesRemapped(own: seq<Cell>, ram: Ram, image: map<nat, nat>, own': seq<Cell>, ram': Ram, image': map<nat, nat>,
                      c: Chunk, pid: nat, lo: nat, n: nat, phy: nat, flags: nat)
    requires PagesOk(own, ram, c, image, pid) && Remapped(ram, ram', c, lo, n, phy, flags)
    requires forall page | 0 <= page < PAGES ::
               Expected(own', image', pid, page) ==
               if lo <= page < lo + n then phy + (page - lo) * PAGE_SIZE + flags else Expected(own, image, pid, page)
    ensures PagesOk(own', ram', c, image', pid)
  {
    assert NoAliases(c);
    hide ChunkOk, OnlyTablesChange, Pde, Expected;
  }

  // ----- malloc

  /** The three roundings of the path agree: blocks taken, pages recorded and pages mapped. */
  lemma RoundingsAgree(ptr: u32, size: u32)
    requires ptr % PAGE_SIZE == 0 && size > 0 && ptr + TotalBlocks(size) * BLOCK_SIZE < 0x8000_0000
    ensures CalculatePages(size) == TotalBlocks(size) >= 1
    ensures AlignUp(Wrap(ptr + size)) == ptr + TotalBlocks(size) * BLOCK_SIZE
    ensures (AlignUp(Wrap(ptr + size)) - ptr) / PAGE_SIZE == TotalBlocks(size)
  {
    SizeInBlocks(size);
    RoundedEnd(ptr / PAGE_SIZE, size);
  }

  lemma SizeInBlocks(size: u32)
    ensures size <= TotalBlocks(size) * BLOCK_SIZE < size + BLOCK_SIZE && CalculatePages(size) == TotalBlocks(size)
  {
  }

  /** A block of the heap appears in the window at its own place, and the mapping that puts it there
      cannot be refused. */
  lemma WindowMapping(b: nat, size: u32)
    requires size > 0 && b + TotalBlocks(size) <= HEAP_BLOCKS
    ensures (HEAP_FRAME + b) * PAGE_SIZE < WORD_VALUES
    ensures var ptr := (HEAP_FRAME + b) * PAGE_SIZE; var virt := UserAddress(ptr); var end := AlignUp(Wrap(ptr + size));
            && virt == (USER_PAGE + b) * PAGE_SIZE && virt != 0
            && Mappable(virt, ptr, end)
            && (end - ptr) / PAGE_SIZE == TotalBlocks(size) == CalculatePages(size)
  {
    RoundingsAgree((HEAP_FRAME + b) * PAGE_SIZE, size);
  }

  lemma AllotExpected(own: seq<Cell>, b: nat, n: nat, pid: nat, k: nat, image: map<nat, nat>, page: nat)
    requires |own| == HEAP_BLOCKS && b + n <= HEAP_BLOCKS && page < PAGES
    requires forall i | b <= i < b + n :: own[i].Vacant?
    ensures Expected(Allot(own, b, n, User(pid, k)), image, pid, page) ==
            if USER_PAGE + b <= page < USER_PAGE + b + n
            then (HEAP_FRAME + b) * PAGE_SIZE + (page - (USER_PAGE + b)) * PAGE_SIZE + USER_FLAGS
            else Expected(own, image, pid, page)
  {
  }

  /** Holdings survive a request of anyone: the blocks it is given were vacant. */
  lemma AllotKeepsHoldings(own: seq<Cell>, b: nat, n: nat, who: Owner, p: Process, pid: nat)
    requires b + n <= |own| && (forall i | b <= i < b + n :: own[i].Vacant?)
    requires HeldFrame(own, p.record, TaskRecord(pid)) && ChunkHeld(own, p.chunk, pid)
    requires SlotsOk(own, p.slots, pid) && ImageOk(own, p.image, pid)
    ensures var own' := Allot(own, b, n, who);
            && HeldFrame(own', p.record, TaskRecord(pid)) && ChunkHeld(own', p.chunk, pid)
            && SlotsOk(own', p.slots, pid) && ImageOk(own', p.image, pid)
  {
    var own' := Allot(own, b, n, who);
    forall i | 0 <= i < ENTRIES
      ensures HeldFrame(own', p.chunk.tables[i], PageTable(pid, i))
    {
      assert HeldFrame(own, p.chunk.tables[i], PageTable(pid, i));
    }
    forall k | 0 <= k < |p.slots| && p.slots[k].addr != 0
      ensures SlotOk(own', p.slots[k], pid, k)
    {
      assert SlotOk(own, p.slots[k], pid, k);
    }
    forall page | page in p.image
      ensures ImagePage(own', page, p.image[page], pid)
    {
      assert ImagePage(own, page, p.image[page], pid);
    }
  }

  lemma NewSlotOk(own: seq<Cell>, slots: seq<Slot>, pid: nat, k: nat, b: nat, n: nat)
    requires SlotsOk(own, slots, pid) && k < |slots| && n >= 1
    requires b + n <= |own| == HEAP_BLOCKS && own[b] == Held(b, n, User(pid, k))
    ensures (USER_PAGE + b) * PAGE_SIZE < WORD_VALUES
    ensures SlotsOk(own, slots[k := Slot((USER_PAGE + b) * PAGE_SIZE, n)], pid)
  {
    var slots' := slots[k := Slot((USER_PAGE + b) * PAGE_SIZE, n)];
    forall j | 0 <= j < |slots'| && slots'[j].addr != 0
      ensures SlotOk(own, slots'[j], pid, j)
    {
      if j != k {
        assert SlotOk(own, slots[j], pid, j);
      }
    }
  }

  /** What a successful user malloc does, for every request that fits: it takes vacant blocks for
      the first empty slot, enters them at their place in the window, and keeps the invariant. */
  lemma UserMallocKeeps(m: Mem, p: Process, pid: nat, size: u32)
    requires Sound(m) && ProcessOk(m.own, m.ram, p, pid)
    requires size > 0 ==> Fits(m.table, TotalBlocks(size))
    ensures var (ptr, m', slots') := UserMalloc(m, p.chunk, p.slots, size, pid);
            && Sound(m') && ProcessOk(m'.own, m'.ram, p.(slots := slots'), pid)
            && OnlyTablesChange(m.ram, m'.ram, p.chunk)
            && (ptr == 0 ==> m' == m && slots' == p.slots)
            && (ptr != 0 ==> exists b, k :: UserRunTaken(m.own, m'.own, p.slots, slots', b, k, size, pid, ptr))
  {
    hide Accounts, PagesOk, DirectoryOk, SlotsOk, ImageOk, ChunkHeld, HeldFrame, Fits, MapTo, OnlyTablesChange,
         NoAliases, Allot, StartBlock, FirstSlot, AlignUp, UserAddress, CalculatePages, TotalBlocks, Mappable;
    ChunkKeepsItself(m.own, m.ram, p.chunk, p.image, pid);
    var slot := FirstSlot(p.slots, 0);
    if slot.Some? {
      TakeSound(m, size, User(pid, slot.value));
      if MallocBlock(m.table, size).Some? {
        var k, b := slot.value, MallocBlock(m.table, size).value;
        var n := TotalBlocks(size);
        var m1 := Take(m, size, User(pid, k)).1;
        WindowMapping(b, size);
        AllotKeepsHoldings(m.own, b, n, User(pid, k), p, pid);
        WindowMapped(m.own, m.ram, p.chunk, p.image, pid, b, n, k);
        NewSlotOk(m1.own, p.slots, pid, k, b, n);
        assert UserRunTaken(m.own, m1.own, p.slots, UserMalloc(m, p.chunk, p.slots, size, pid).2, b, k, size, pid,
                            (USER_PAGE + b) * PAGE_SIZE);
      }
    }
  }

  /** User malloc succeeds exactly if it is asked for something, a slot is empty and the heap grants the
      request; and the address it answers with is that of the leftmost window of one block more than
      needed, if there is one, and otherwise that of the free run at the end of the heap. */
  lemma UserMallocSucceedsExactly(m: Mem, p: Process, pid: nat, size: u32)
    requires Sound(m) && ProcessOk(m.own, m.ram, p, pid)
    requires size > 0 ==> Fits(m.table, TotalBlocks(size))
    ensures var n, ptr := TotalBlocks(size), UserMalloc(m, p.chunk, p.slots, size, pid).0;
            && (ptr != 0 <==>
                  && size > 0 && (exists k :: 0 <= k < |p.slots| && p.slots[k].addr == 0)
                  && ((exists b: nat :: Window(m.table, n, b)) || !Taken(m.table[HEAP_BLOCKS - 1])))
            && (forall b: nat | ptr != 0 && FirstWindow(m.table, n, b) :: ptr == (USER_PAGE + b) * PAGE_SIZE)
            && (ptr != 0 && !HasWindow(m.table, n) ==> ptr == (USER_PAGE + TailStart(m.table)) * PAGE_SIZE)
  {
    hide Accounts, PagesOk, DirectoryOk, SlotsOk, ImageOk, ChunkHeld, HeldFrame, Fits, MapTo, Allot, FirstWindow,
         Window, AlignUp, UserAddress, CalculatePages, TotalBlocks, Mappable, TailStart, MarkTaken, BlockAddress;
    ChunkKeepsItself(m.own, m.ram, p.chunk, p.image, pid);
    GrantedExactly(m.table, size);
    var slot := FirstSlot(p.slots, 0);
    if slot.Some? {
      TakeSound(m, size, User(pid, slot.value));
      if MallocBlock(m.table, size).Some? {
        WindowMapping(MallocBlock(m.table, size).value, size);
        forall b: nat | FirstWindow(m.table, TotalBlocks(size), b)
          ensures MallocBlock(m.table, size).value == b
        {
          FirstWindowUnique(m.table, TotalBlocks(size), b);
        }
      }
    }
  }

  /** Blocks b to b + n, all vacant, now are the run of slot k, the first empty one, at `ptr`. */
  predicate UserRunTaken(own: seq<Cell>, own': seq<Cell>, slots: seq<Slot>, slots': seq<Slot>, b: nat, k: nat,
                         size: u32, pid: nat, ptr: nat)
  {
    var n := TotalBlocks(size);
    && n >= 1 && b + n <= |own| && (forall i | b <= i < b + n :: own[i].Vacant?)
    && own' == Allot(own, b, n, User(pid, k))
    && FirstSlot(slots, 0) == Some(k)
    && ptr == (USER_PAGE + b) * PAGE_SIZE < WORD_VALUES
    && slots' == slots[k := Slot(ptr, n)]
  }

  lemma ChunkKeepsItself(own: seq<Cell>, ram: Ram, c: Chunk, image: map<nat, nat>, pid: nat)
    requires PagesOk(own, ram, c, image, pid)
    ensures ChunkOk(ram, c) && NoAliases(c) && OnlyTablesChange(ram, ram, c)
    ensures c.directory < PAGES && c.DirectoryAddress() < WORD_VALUES
  {
  }

  /** Mapping the blocks of a new allocation keeps pages and directory right. */
  lemma WindowMapped(own: seq<Cell>, ram: Ram, c: Chunk, image: map<nat, nat>, pid: nat, b: nat, n: nat, k: nat)
    requires |own| == HEAP_BLOCKS && n >= 1 && b + n <= HEAP_BLOCKS
    requires forall i | b <= i < b + n :: own[i].Vacant?
    requires PagesOk(own, ram, c, image, pid) && DirectoryOk(ram, c)
    requires c.DirectoryAddress() < WORD_VALUES
    ensures var virt, ptr := (USER_PAGE + b) * PAGE_SIZE, (HEAP_FRAME + b) * PAGE_SIZE;
            var ram' := MapTo(ram, c.DirectoryAddress(), virt, ptr, ptr + n * PAGE_SIZE, USER_FLAGS).1;
            && PagesOk(Allot(own, b, n, User(pid, k)), ram', c, image, pid)
            && DirectoryOk(ram', c)
            && OnlyTablesChange(ram, ram', c)
  {
    hide Expected, MapTo, DirectoryOk, ChunkOk, NoAliases, PagesOk, OnlyTablesChange, Remapped, Allot;
    ChunkKeepsItself(own, ram, c, image, pid);
    var virt, ptr := (USER_PAGE + b) * PAGE_SIZE, (HEAP_FRAME + b) * PAGE_SIZE;
    var own' := Allot(own, b, n, User(pid, k));
    var ram' := MapTo(ram, c.DirectoryAddress(), virt, ptr, ptr + n * PAGE_SIZE, USER_FLAGS).1;
    MapToExact(ram, c, virt, ptr, ptr + n * PAGE_SIZE, USER_FLAGS);
    forall page | 0 <= page < PAGES
      ensures Expected(own', image, pid, page) ==
              if USER_PAGE + b <= page < USER_PAGE + b + n
              then ptr + (page - (USER_PAGE + b)) * PAGE_SIZE + USER_FLAGS
              else Expected(own, image, pid, page)
    {
      AllotExpected(own, b, n, pid, k, image, page);
    }
    RemappedKeepsChunk(ram, ram', c, USER_PAGE + b, n, ptr, USER_FLAGS);
    PagesRemapped(own, ram, image, own', ram', image, c, pid, USER_PAGE + b, n, ptr, USER_FLAGS);
    DirectoryRemapped(ram, ram', c, USER_PAGE + b, n, ptr, USER_FLAGS);
  }

  // ----- free

  /** Releasing a run leaves every cell that is not of that run, and of the run nothing held. */
  lemma ReleaseTouchesRunOnly(own: seq<Cell>, b: nat)
    requires WholeRuns(own) && b < |own| && own[b].Held? && own[b].first == b
    ensures b + own[b].len <= |own|
    ensures forall i | 0 <= i < |own| :: Release(own, b)[i] == own[i] || !Release(own, b)[i].Held?
    ensures forall i | 0 <= i < |own| && own[i] != own[b] :: Release(own, b)[i] == own[i]
    ensures forall i | 0 <= i < |own| :: own[i] == own[b] <==> b <= i < b + own[b].len
    ensures forall i | 0 <= i < |own| && own[i] == own[b] :: !Release(own, b)[i].Held?
  {
    assert IsRun(own, b, own[b].len, own[b].who);
  }

  lemma ReleaseKeepsHoldings(own: seq<Cell>, b: nat, p: Process, pid: nat)
    requires WholeRuns(own) && b < |own| && own[b].Held? && own[b].first == b
    requires own[b].who.User? || own[b].who.Kernel?
    requires HeldFrame(own, p.record, TaskRecord(pid)) && ChunkHeld(own, p.chunk, pid) && ImageOk(own, p.image, pid)
    ensures var own' := Release(own, b);
            HeldFrame(own', p.record, TaskRecord(pid)) && ChunkHeld(own', p.chunk, pid) && ImageOk(own', p.image, pid)
  {
    hide WholeRuns, Release;
    ReleaseTouchesRunOnly(own, b);
    var own' := Release(own, b);
    forall i | 0 <= i < ENTRIES
      ensures HeldFrame(own', p.chunk.tables[i], PageTable(pid, i))
    {
      assert HeldFrame(own, p.chunk.tables[i], PageTable(pid, i));
    }
    forall page | page in p.image
      ensures ImagePage(own', page, p.image[page], pid)
    {
      assert ImagePage(own, page, p.image[page], pid);
    }
  }

  lemma ReleaseKeepsSlots(own: seq<Cell>, b: nat, slots: seq<Slot>, pid: nat, k: nat)
    requires WholeRuns(own) && b < |own| && own[b].Held? && own[b].first == b && own[b].who == User(pid, k)
    requires SlotsOk(own, slots, pid) && k < |slots|
    ensures SlotsOk(Release(own, b), slots[k := slots[k].(addr := 0)], pid)
  {
    hide WholeRuns, Release;
    ReleaseTouchesRunOnly(own, b);
    var slots' := slots[k := slots[k].(addr := 0)];
    forall j | 0 <= j < |slots'| && slots'[j].addr != 0
      ensures SlotOk(Release(own, b), slots'[j], pid, j)
    {
      assert SlotOk(own, slots[j], pid, j);
    }
  }

  lemma ReleaseExpected(own: seq<Cell>, b: nat, n: nat, pid: nat, k: nat, image: map<nat, nat>, page: nat)
    requires WholeRuns(own) && |own| == HEAP_BLOCKS && b < |own| && own[b] == Held(b, n, User(pid, k))
    requires ImageOk(own, image, pid) && page < PAGES
    ensures Expected(Release(own, b), image, pid, page) ==
            if USER_PAGE + b <= page < USER_PAGE + b + n
            then (USER_PAGE + b) * PAGE_SIZE + (page - (USER_PAGE + b)) * PAGE_SIZE + KERNEL_FLAGS
            else Expected(own, image, pid, page)
  {
    hide WholeRuns, Release;
    ReleaseTouchesRunOnly(own, b);
    if page in image {
      assert ImagePage(own, page, image[page], pid);
    }
  }

  /** The page of a live slot leads to its first block. */
  lemma SlotTranslates(own: seq<Cell>, ram: Ram, p: Process, pid: nat, k: nat)
    requires |own| == HEAP_BLOCKS && PagesOk(own, ram, p.chunk, p.image, pid) && SlotsOk(own, p.slots, pid)
    requires k < |p.slots| && p.slots[k].addr != 0 && p.chunk.DirectoryAddress() < WORD_VALUES
    ensures var b := p.slots[k].addr / PAGE_SIZE - USER_PAGE;
            && 0 <= b < HEAP_BLOCKS && own[b] == Held(b, p.slots[k].pages, User(pid, k))
            && p.slots[k].addr == (USER_PAGE + b) * PAGE_SIZE
            && PhysicalAddress(ram, p.chunk.DirectoryAddress(), p.slots[k].addr) == (HEAP_FRAME + b) * PAGE_SIZE
  {
    hide PhysicalAddress;
    var virt := p.slots[k].addr;
    assert SlotOk(own, p.slots[k], pid, k);
    TranslateReadsEntry(ram, p.chunk, virt);
    var b := virt / PAGE_SIZE - USER_PAGE;
    assert Pte(ram, p.chunk, virt / PAGE_SIZE) == (HEAP_FRAME + b) * PAGE_SIZE + USER_FLAGS;
  }

  /** Mapping the pages of a freed allocation to themselves keeps pages and directory right. */
  lemma WindowUnmapped(own: seq<Cell>, ram: Ram, c: Chunk, image: map<nat, nat>, pid: nat, b: nat, n: nat, k: nat)
    requires WholeRuns(own) && |own| == HEAP_BLOCKS && b < |own| && own[b] == Held(b, n, User(pid, k))
    requires PagesOk(own, ram, c, image, pid) && DirectoryOk(ram, c) && ImageOk(own, image, pid)
    requires c.DirectoryAddress() < WORD_VALUES
    ensures b + n <= HEAP_BLOCKS
    ensures var virt := (USER_PAGE + b) * PAGE_SIZE;
            var ram' := MapTo(ram, c.DirectoryAddress(), virt, virt, virt + n * PAGE_SIZE, KERNEL_FLAGS).1;
            && PagesOk(Release(own, b), ram', c, image, pid)
            && DirectoryOk(ram', c)
            && OnlyTablesChange(ram, ram', c)
  {
    hide Expected, MapTo, DirectoryOk, ChunkOk, NoAliases, PagesOk, ImageOk, OnlyTablesChange, Remapped, WholeRuns,
         Release;
    ReleaseTouchesRunOnly(own, b);
    ChunkKeepsItself(own, ram, c, image, pid);
    var virt := (USER_PAGE + b) * PAGE_SIZE;
    var own' := Release(own, b);
    var ram' := MapTo(ram, c.DirectoryAddress(), virt, virt, virt + n * PAGE_SIZE, KERNEL_FLAGS).1;
    MapToExact(ram, c, virt, virt, virt + n * PAGE_SIZE, KERNEL_FLAGS);
    forall page | 0 <= page < PAGES
      ensures Expected(own', image, pid, page) ==
              if USER_PAGE + b <= page < USER_PAGE + b + n
              then virt + (page - (USER_PAGE + b)) * PAGE_SIZE + KERNEL_FLAGS
              else Expected(own, image, pid, page)
    {
      ReleaseExpected(own, b, n, pid, k, image, page);
    }
    RemappedKeepsChunk(ram, ram', c, USER_PAGE + b, n, virt, KERNEL_FLAGS);
    PagesRemapped(own, ram, image, own', ram', image, c, pid, USER_PAGE + b, n, virt, KERNEL_FLAGS);
    DirectoryRemapped(ram, ram', c, USER_PAGE + b, n, virt, KERNEL_FLAGS);
  }

  /** An address `free` may be called with: not null, unless no slot is empty. */
  predicate Freeable(slots: seq<Slot>, virt: u32) {
    virt != 0 || FirstSlot(slots, 0).None?
  }

  /** Slot k held the run at block b of `own`, and gives it back. */
  predicate UserRunGiven(own: seq<Cell>, own': seq<Cell>, slots: seq<Slot>, slots': seq<Slot>, b: nat, k: nat,
                         pid: nat, virt: u32)
  {
    && FirstSlot(slots, virt) == Some(k)
    && b < |own| && virt == (USER_PAGE + b) * PAGE_SIZE
    && own[b] == Held(b, slots[k].pages, User(pid, k))
    && own' == Release(own, b)
    && slots' == slots[k := slots[k].(addr := 0)]
  }

  /** A user free that finds a slot finds a live allocation, exactly for the addresses that are
      freeable. */
  lemma {:induction false} FoundIsLiveExactly(m: Mem, p: Process, pid: nat, virt: u32)
    requires Sound(m) && ProcessOk(m.own, m.ram, p, pid)
    ensures p.chunk.directory < PAGES && p.chunk.DirectoryAddress() < WORD_VALUES
    ensures (FirstSlot(p.slots, virt).Some? ==> Live(m, PhysicalAddress(m.ram, p.chunk.DirectoryAddress(), virt)))
            <==> Freeable(p.slots, virt)
  {
    hide PagesOk, DirectoryOk, SlotsOk, ImageOk, ChunkHeld, FirstSlot, UserFree, Accounts;
    ChunkKeepsItself(m.own, m.ram, p.chunk, p.image, pid);
    if Freeable(p.slots, virt) {
      UserFreeKeeps(m, p, pid, virt);
    } else {
      FreeOfNullIsNotIgnored(p.slots, m, p.chunk);
    }
  }

  /** A user free finds a live allocation or does nothing, gives back exactly the run of its slot,
      and keeps the invariant. */
  lemma {:induction false} UserFreeKeeps(m: Mem, p: Process, pid: nat, virt: u32)
    requires Sound(m) && ProcessOk(m.own, m.ram, p, pid) && Freeable(p.slots, virt)
    ensures p.chunk.directory < PAGES && p.chunk.DirectoryAddress() < WORD_VALUES
    ensures FirstSlot(p.slots, virt).Some? ==> Live(m, PhysicalAddress(m.ram, p.chunk.DirectoryAddress(), virt))
    ensures var (m', slots') := UserFree(m, p.chunk, p.slots, virt);
            && Sound(m') && ProcessOk(m'.own, m'.ram, p.(slots := slots'), pid)
            && OnlyTablesChange(m.ram, m'.ram, p.chunk)
            && (FirstSlot(p.slots, virt).None? ==> m' == m && slots' == p.slots)
            && (FirstSlot(p.slots, virt).Some? ==>
                  exists b, k :: UserRunGiven(m.own, m'.own, p.slots, slots', b, k, pid, virt))
  {
    hide WholeRuns, PagesOk, DirectoryOk, SlotsOk, ImageOk, ChunkHeld, HeldFrame, MapTo, OnlyTablesChange, NoAliases,
         Release, FirstSlot, PhysicalAddress, MarkFree;
    ChunkKeepsItself(m.own, m.ram, p.chunk, p.image, pid);
    var slot := FirstSlot(p.slots, virt);
    if slot.Some? {
      var k := slot.value;
      var b := virt / PAGE_SIZE - USER_PAGE;
      SlotTranslates(m.own, m.ram, p, pid, k);
      BlockIsFrame(b);
      GiveSound(m, (HEAP_FRAME + b) * PAGE_SIZE);
      ReleaseKeepsHoldings(m.own, b, p, pid);
      ReleaseKeepsSlots(m.own, b, p.slots, pid, k);
      WindowUnmapped(m.own, m.ram, p.chunk, p.image, pid, b, p.slots[k].pages, k);
      assert Wrap(virt + p.slots[k].pages * PAGE_SIZE) == virt + p.slots[k].pages * PAGE_SIZE;
      var r := UserFree(m, p.chunk, p.slots, virt);
      assert UserRunGiven(m.own, r.0.own, p.slots, r.1, b, k, pid, virt);
    }
  }
}
