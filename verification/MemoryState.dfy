/** The kernel heap and physical memory together.

    The heap covers a fixed stretch of physical memory, so a heap block is a frame.  The state
    carries the account of the blocks along with the byte table; the account is bookkeeping for
    the proofs, and neither the table nor the words of memory are computed from it. */
module MemoryState {
  import opened Words
  import opened HeapTable
  import opened BlockAccounts
  import opened PageTables

  const HEAP_START: u32 := 0x100_0000
  const HEAP_FRAME: nat := 0x1000
  const HEAP_BLOCKS: nat := 25600

  datatype Mem = Mem(table: seq<bv8>, ram: Ram, own: seq<Cell>)

  ghost predicate Sound(m: Mem) {
    |m.table| == |m.own| == HEAP_BLOCKS && Accounts(m.table, m.own)
  }

  /** The address of block b is that of frame HEAP_FRAME + b, and conversely. */
  lemma BlockIsFrame(block: nat)
    requires block < HEAP_BLOCKS
    ensures BlockAddress(HEAP_START, block) == (HEAP_FRAME + block) * PAGE_SIZE
    ensures AddressBlock(HEAP_START, BlockAddress(HEAP_START, block)) == block
  {
    AddressRoundTrip(HEAP_START, HEAP_BLOCKS, block);
  }

  /** Block of a frame is held, as a one-block run, for `who`. */
  predicate HeldFrame(own: seq<Cell>, frame: nat, who: Owner) {
    && HEAP_FRAME <= frame < HEAP_FRAME + |own|
    && own[frame - HEAP_FRAME] == Held(frame - HEAP_FRAME, 1, who)
  }

  // ----- taking and giving back

  /** `malloc(size)`, a request that fits, on behalf of `who`. */
  ghost function Take(m: Mem, size: u32, who: Owner): (r: (u32, Mem))
    requires size > 0 ==> Fits(m.table, TotalBlocks(size))
  {
    match MallocBlock(m.table, size)
    case None => (0, m)
    case Some(p) =>
      FitsExactly(m.table, TotalBlocks(size));
      (BlockAddress(HEAP_START, p),
       Mem(MarkTaken(m.table, p, TotalBlocks(size)), m.ram, Allot(m.own, p, TotalBlocks(size), who)))
  }

  /** ptr is the start of a run somebody holds. */
  predicate Live(m: Mem, ptr: u32) {
    var b := AddressBlock(HEAP_START, ptr);
    0 <= b < |m.own| && m.own[b].Held? && m.own[b].first == b
  }

  /** `free(ptr)` of a live pointer. */
  function Give(m: Mem, ptr: u32): Mem
    requires Live(m, ptr)
  {
    var b := AddressBlock(HEAP_START, ptr);
    Mem(MarkFree(m.table, b, AsWritten), m.ram, Release(m.own, b))
  }

  lemma TakeSound(m: Mem, size: u32, who: Owner)
    requires Sound(m) && (size > 0 ==> Fits(m.table, TotalBlocks(size)))
    ensures Sound(Take(m, size, who).1) && Take(m, size, who).1.ram == m.ram
    ensures MallocBlock(m.table, size).Some? ==>
              var p, n := MallocBlock(m.table, size).value, TotalBlocks(size);
              && p + n <= HEAP_BLOCKS && n >= 1
              && (forall i | p <= i < p + n :: m.own[i].Vacant?)
              && Take(m, size, who).1.own == Allot(m.own, p, n, who)
              && Take(m, size, who).0 == (HEAP_FRAME + p) * PAGE_SIZE
  {
    if MallocBlock(m.table, size).Some? {
      var p, n := MallocBlock(m.table, size).value, TotalBlocks(size);
      FitsExactly(m.table, n);
      StartRunIsFree(m.table, n);
      AllotAccounts(m.table, m.own, p, n, who);
      BlockIsFrame(p);
    }
  }

  lemma GiveSound(m: Mem, ptr: u32)
    requires Sound(m) && Live(m, ptr)
    ensures Sound(Give(m, ptr)) && Give(m, ptr).ram == m.ram
    ensures Stops(m.table, AddressBlock(HEAP_START, ptr))
  {
    var b := AddressBlock(HEAP_START, ptr);
    ReleaseAccounts(m.table, m.own, b, m.own[b].len, m.own[b].who, AsWritten);
  }

  /** A one-block request, as the page tables make them: it succeeds while the table has capacity. */
  ghost function TakePage(m: Mem, who: Owner): (r: (nat, Mem))
    requires Capacity(m.table) > 0
  {
    OneBlockRequest(m.table);
    var p := StartBlock(m.table, 1).value;
    (HEAP_FRAME + p, Mem(MarkTaken(m.table, p, 1), m.ram, Allot(m.own, p, 1, who)))
  }

  lemma TakePageSound(m: Mem, who: Owner)
    requires Sound(m) && Capacity(m.table) > 0
    ensures var (frame, m') := TakePage(m, who);
            && Sound(m') && m'.ram == m.ram
            && HeldFrame(m'.own, frame, who)
            && m.own[frame - HEAP_FRAME].Vacant?
            && m'.own == m.own[frame - HEAP_FRAME := Held(frame - HEAP_FRAME, 1, who)]
            && Capacity(m'.table) == Capacity(m.table) - 1
            && frame < PAGES
  {
    OneBlockRequest(m.table);
    var p := StartBlock(m.table, 1).value;
    AllotAccounts(m.table, m.own, p, 1, who);
  }

  /** `TakePage` is `malloc` of any size up to one block. */
  lemma TakePageIsMalloc(m: Mem, size: u32, who: Owner)
    requires Sound(m) && Capacity(m.table) > 0 && 0 < size <= BLOCK_SIZE
    ensures TotalBlocks(size) == 1 && Fits(m.table, 1)
    ensures Take(m, size, who) == (TakePage(m, who).0 * PAGE_SIZE, TakePage(m, who).1)
  {
    hide StartBlock, Capacity, MarkTaken, Allot, Accounts, Fits, FreeRange, BlockAddress, AddressBlock;
    OneBlockRequest(m.table);
    BlockIsFrame(StartBlock(m.table, 1).value);
  }

  /** Giving a one-block run back vacates exactly its block. */
  lemma GivePage(m: Mem, frame: nat, who: Owner)
    requires Sound(m) && HeldFrame(m.own, frame, who)
    ensures frame * PAGE_SIZE < WORD_VALUES && Live(m, frame * PAGE_SIZE)
    ensures Sound(Give(m, frame * PAGE_SIZE))
    ensures Give(m, frame * PAGE_SIZE).own == m.own[frame - HEAP_FRAME := Vacant]
    ensures Give(m, frame * PAGE_SIZE).ram == m.ram
  {
    BlockIsFrame(frame - HEAP_FRAME);
    GiveSound(m, frame * PAGE_SIZE);
  }
}
