/** The kernel's memory routines over the heap table and the words of physical memory, each
    computing what the functions of MemoryState, PageTables and AddressSpaces say. */
module KernelMemory {
  import opened Words
  import opened Status
  import opened HeapTable
  import opened BlockAccounts
  import opened PageTables
  import opened MemoryState
  import opened AddressSpaces

  class Memory {
    const heap: Heap
    const ram: array<u32>
    ghost var own: seq<Cell>

    ghost predicate Shaped()
      reads this, heap
    {
      && heap.Valid() && heap.start == HEAP_START && heap.table.size == HEAP_BLOCKS
      && heap.table.entries.Length >= HEAP_BLOCKS + PAGES
      && ram.Length == RAM_WORDS
      && ram as object != heap.table.entries as object
    }

    ghost function Words(): Ram
      requires ram.Length == RAM_WORDS
      reads ram
    {
      ram[..]
    }

    ghost function State(): (m: Mem)
      requires Shaped()
      reads this, heap, heap.table.entries, ram
      ensures m.ram == Words() && m.own == own
    {
      Mem(heap.Bytes(), Words(), own)
    }

    ghost predicate Valid()
      reads this, heap, heap.table.entries, ram
    {
      Shaped() && Sound(State())
    }

    // ----- heap

    /** What `kheap_init` leaves behind: an all-free table, and so nobody holding anything. */
    constructor (heap: Heap, ram: array<u32>)
      requires heap.Valid() && heap.start == HEAP_START && heap.table.size == HEAP_BLOCKS
      requires heap.table.entries.Length >= HEAP_BLOCKS + PAGES && ram.Length == RAM_WORDS
      requires ram as object != heap.table.entries as object
      requires forall i | 0 <= i < HEAP_BLOCKS :: heap.table.entries[i] == FREE
      ensures this.heap == heap && this.ram == ram
      ensures Valid() && forall b | 0 <= b < HEAP_BLOCKS :: own[b] == Vacant
    {
      this.heap := heap;
      this.ram := ram;
      own := seq(HEAP_BLOCKS, _ => Vacant);
    }

    method Mallock(size: u32, ghost who: Owner) returns (ptr: u32)
      requires Valid() && (size > 0 ==> Fits(State().table, TotalBlocks(size)))
      modifies this, heap.table.entries
      ensures Valid() && (ptr, State()) == Take(old(State()), size, who)
    {
      hide Accounts, Fits, MarkTaken;
      ghost var was := State();
      TakeSound(was, size, who);
      ptr := heap.Malloc(size);
      own := Take(was, size, who).1.own;
    }

    method Freek(ptr: u32)
      requires Valid() && Live(State(), ptr)
      modifies this, heap.table.entries
      ensures Valid() && State() == Give(old(State()), ptr)
    {
      hide Accounts, MarkFree, Taken, IsEnd;
      ghost var was := State();
      GiveSound(was, ptr);
      ghost var b := AddressBlock(HEAP_START, ptr);
      ghost var k :| b <= k < |was.table| && (!Taken(was.table[k]) || IsEnd(AsWritten, was.table[k]));
      assert heap.table.entries[..][k] == was.table[k];
      heap.Free(ptr);
      own := Give(was, ptr).own;
    }

    // ----- pages

    method GetIndices(virt: u32) returns (res: Status, directoryIndex: nat, tableIndex: nat, offset: u32)
      ensures res == if virt == 0 then EInvArg else AllOk
      ensures res == AllOk ==> directoryIndex == DirectoryIndex(virt) && tableIndex == TableIndex(virt)
      ensures res == AllOk ==> offset == PageOffset(virt)
      ensures directoryIndex < ENTRIES && tableIndex < ENTRIES
    {
      if virt == 0 {
        return EInvArg, 0, 0, 0;
      }
      AndLowTen(virt / 0x40_0000);
      AndLowTen(virt / PAGE_SIZE);
      return AllOk, BitAnd(virt / 0x40_0000, 0x3ff), BitAnd(virt / PAGE_SIZE, 0x3ff), PageOffset(virt);
    }

    method MapPage(directory: u32, virt: u32, phy: u32, flags: u32) returns (res: Status)
      requires ram.Length == RAM_WORDS && IsFrameAddress(directory)
      modifies ram
      ensures (res, Words()) == PageTables.MapPage(old(Words()), directory, virt, phy, flags)
    {
      hide Or32, PageBase, PageOffset, BitAnd, DirectoryIndex, TableIndex;
      if virt % PAGE_SIZE != 0 || phy % PAGE_SIZE != 0 {
        return EInvArg;
      }
      var directoryIndex, tableIndex, offset;
      res, directoryIndex, tableIndex, offset := GetIndices(virt);
      if res != AllOk {
        return;
      }
      var entry := ram[directory / 4 + directoryIndex];
      var table := PageBase(entry);
      ram[table / 4 + tableIndex] := Or32(phy, flags);
      ram[directory / 4 + directoryIndex] := Or32(entry, flags);
    }

    method MapRange(directory: u32, virt: u32, phy: u32, count: int, flags: u32) returns (res: Status)
      requires ram.Length == RAM_WORDS && IsFrameAddress(directory)
      modifies ram
      ensures (res, Words()) == PageTables.MapRange(old(Words()), directory, virt, phy, count, flags)
    {
      res := AllOk;
      var v: u32, p: u32 := virt, phy;
      var i := 0;
      while i < count
        invariant 0 <= i && (i <= count || count < 0)
        invariant res == AllOk
        invariant PageTables.MapRange(Words(), directory, v, p, count - i, flags)
                  == PageTables.MapRange(old(Words()), directory, virt, phy, count, flags)
      {
        res := MapPage(directory, v, p, flags);
        if res != AllOk {
          return;
        }
        v, p := Wrap(v + PAGE_SIZE), Wrap(p + PAGE_SIZE);
        i := i + 1;
      }
    }

    /** The directory a chunk structure points to. */
    ghost function DirectoryOf(chunk: u32): u32
      requires ram.Length == RAM_WORDS
      reads ram
    {
      ram[chunk / 4]
    }

    method MapTo(chunk: u32, virt: u32, start: u32, end: u32, flags: u32) returns (res: Status)
      requires ram.Length == RAM_WORDS && IsFrameAddress(DirectoryOf(chunk))
      modifies ram
      ensures (res, Words()) == PageTables.MapTo(old(Words()), old(DirectoryOf(chunk)), virt, start, end, flags)
    {
      if virt % PAGE_SIZE != 0 || start % PAGE_SIZE != 0 || end % PAGE_SIZE != 0 {
        return EInvArg;
      }
      if end < start {
        return EInvArg;
      }
      var totalPages := TruncDiv(Signed(Wrap(end - start)), PAGE_SIZE);
      res := MapRange(ram[chunk / 4], virt, start, totalPages, flags);
    }

    method GetPhysicalAddr(chunk: u32, virt: u32) returns (addr: u32)
      requires ram.Length == RAM_WORDS && IsFrameAddress(DirectoryOf(chunk))
      ensures addr == PhysicalAddress(Words(), DirectoryOf(chunk), virt)
    {
      hide Or32, PageBase, PageOffset, BitAnd, DirectoryIndex, TableIndex;
      var res, directoryIndex, tableIndex, offset := GetIndices(virt);
      if res != AllOk {
        return Wrap(-2);
      }
      var entry := ram[ram[chunk / 4] / 4 + directoryIndex];
      var table := PageBase(entry);
      return Or32(PageBase(ram[table / 4 + tableIndex]), offset);
    }

    // ----- whole address spaces

    /** One zeroed page from the heap. */
    method ZeroedPage(ghost who: Owner) returns (ptr: u32, ghost frame: nat)
      requires Valid() && Capacity(State().table) > 0
      modifies this, heap.table.entries, ram
      ensures Valid() && ptr == frame * PAGE_SIZE && frame == TakePage(old(State()), who).0 < PAGES
      ensures State() == WithRam(TakePage(old(State()), who).1, WriteFrame(old(Words()), frame, ZeroTable()))
    {
      hide Accounts, Capacity, Fits;
      ghost var was := State();
      TakePageIsMalloc(was, PAGE_SIZE, who);
      TakePageSound(was, who);
      frame := TakePage(was, who).0;
      ptr := Mallock(PAGE_SIZE, who);
      ghost var words := Words();
      for j := 0 to ENTRIES
        invariant Shaped() && heap.Bytes() == TakePage(was, who).1.table && own == TakePage(was, who).1.own
        invariant forall k | 0 <= k < RAM_WORDS :: ram[k] == if ptr / 4 <= k < ptr / 4 + j then 0 else words[k]
      {
        ram[ptr / 4 + j] := 0;
      }
      assert Words() == WriteFrame(words, frame, ZeroTable());
    }

    /** Table i of a new chunk: a zeroed page, filled with the 1024 identity entries and entered in
        the directory. */
    method NewTable(directory: u32, i: nat, flags: u32, ghost d: nat, ghost pid: nat) returns (ghost frame: nat)
      requires Valid() && Capacity(State().table) > 0
      requires i < ENTRIES && d < PAGES && directory == d * PAGE_SIZE
      modifies this, heap.table.entries, ram
      ensures Valid() && (frame, State()) == OneTable(old(State()), d, i, pid, flags)
    {
      hide Accounts, Capacity, Or32;
      ghost var was := State();
      TakePageSound(was, PageTable(pid, i));
      var entry;
      entry, frame := ZeroedPage(PageTable(pid, i));
      ghost var words := Words();
      for j := 0 to ENTRIES
        invariant Shaped() && heap.Bytes() == TakePage(was, PageTable(pid, i)).1.table
        invariant own == TakePage(was, PageTable(pid, i)).1.own
        invariant forall k | 0 <= k < RAM_WORDS ::
          ram[k] == if entry / 4 <= k < entry / 4 + j then IdentityTable(i, flags)[k - entry / 4] else words[k]
      {
        ram[entry / 4 + j] := Or32(i * ENTRIES * PAGE_SIZE + j * PAGE_SIZE, flags);
        assert (i * ENTRIES + j) * PAGE_SIZE == i * ENTRIES * PAGE_SIZE + j * PAGE_SIZE;
      }
      assert Words() == WriteFrame(was.ram, frame, IdentityTable(i, flags));
      ram[directory / 4 + i] := Or32(entry, flags);
      assert Words() == TableRam(was.ram, d, i, frame, flags);
    }

    method GetNew4gbChunk(flags: u32, ghost pid: nat) returns (chunk: u32, ghost c: Chunk)
      requires Valid() && Capacity(State().table) >= CHUNK_BLOCKS
      modifies this, heap.table.entries, ram
      ensures Valid() && (c, State()) == NewChunk(old(State()), pid, flags) && chunk == c.Address()
    {
      hide Accounts, Capacity, OneTable, WriteFrame;
      ghost var was := State();
      TakePageSound(was, Directory(pid));
      var directory;
      ghost var d: nat;
      directory, d := ZeroedPage(Directory(pid));
      ghost var begun := State();
      ghost var tables: seq<nat> := [];
      for i := 0 to ENTRIES
        invariant Valid() && |tables| == i && Capacity(State().table) >= ENTRIES - i + 1
        invariant BuildTables(State(), d, tables, pid, flags) == BuildTables(begun, d, [], pid, flags)
      {
        OneTableSound(State(), d, i, pid, flags);
        ghost var frame := NewTable(directory, i, flags, d, pid);
        tables := tables + [frame];
      }
      ghost var built := State();
      TakePageIsMalloc(built, 4, ChunkHeader(pid));
      TakePageSound(built, ChunkHeader(pid));
      chunk := Mallock(4, ChunkHeader(pid));
      ram[chunk / 4] := directory;
      c := Chunk(TakePage(built, ChunkHeader(pid)).0, d, tables);
    }

    /** The loop over the directory: every entry names a table, and every table is given back. */
    method FreeAllTables(directory: u32, ghost c: Chunk, ghost pid: nat)
      requires Valid() && directory == c.DirectoryAddress()
      requires ChunkOk(Words(), c) && TablesLeft(own, c, pid, 0)
      modifies this, heap.table.entries
      ensures Valid() && State() == FreeTables(old(State()), c, pid, 0)
    {
      hide Accounts, ChunkOk, TablesLeft, Live, Give, FreeTables, Sound, PageBase;
      ghost var was := State();
      for i := 0 to ENTRIES
        invariant Valid() && Words() == was.ram && TablesLeft(own, c, pid, i)
        invariant FreeTables(State(), c, pid, i) == FreeTables(was, c, pid, 0)
      {
        ChunkWords(was.ram, c, i);
        FreeTablesStep(State(), c, pid, i);
        var entry := ram[directory / 4 + i];
        Freek(PageBase(entry));
      }
      FreeTablesDone(State(), c, pid);
    }

    /** The directory and then the block of the chunk structure itself. */
    method FreeDirectoryAndHeader(chunk: u32, ghost c: Chunk, ghost pid: nat)
      requires Valid() && ChunkOk(Words(), c) && chunk == c.Address()
      requires HeldFrame(own, c.directory, Directory(pid)) && HeldFrame(own, c.header, ChunkHeader(pid))
      modifies this, heap.table.entries
      ensures Valid() && old(Live(State(), Word(Words(), c.header, 0)))
      ensures old(Live(Give(State(), Word(Words(), c.header, 0)), c.Address()))
      ensures State() == old(Give(Give(State(), Word(Words(), c.header, 0)), c.Address()))
    {
      LastTwoGiven(State(), c, pid);
      ChunkWords(Words(), c, 0);
      hide Accounts, ChunkOk, Live, Give, Sound, Word;
      Freek(ram[chunk / 4]);
      Freek(chunk);
    }

    method Free4gbChunk(chunk: u32, ghost c: Chunk, ghost pid: nat)
      requires Valid()
      requires chunk != 0 ==> chunk == c.Address() && ChunkOk(Words(), c) && ChunkHeld(own, c, pid)
      modifies this, heap.table.entries
      ensures Valid() && State() == if chunk == 0 then old(State()) else FreeChunk(old(State()), c, pid)
    {
      hide Accounts, ChunkOk, ChunkHeld, TablesLeft, Live, Give, FreeTables, FreeChunk, Sound, Word, NoAliases,
           HeldFrame;
      if chunk == 0 {
        return;
      }
      FreeChunkSteps(State(), c, pid);
      TablesDoneRestLeft(State(), c, pid);
      ChunkWords(Words(), c, 0);
      FreeAllTables(ram[chunk / 4], c, pid);
      FreeDirectoryAndHeader(chunk, c, pid);
    }
  }
}
