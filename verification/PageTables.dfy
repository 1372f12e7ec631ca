/** Two-level page tables in physical memory.

    The directory and the 1024 tables of an address space are ordinary frames of physical memory
    (32-bit paging with 4 KB pages, section 4.3 of the Intel SDM, Volume 3A).  The functions here
    are what the kernel's code does to the words of memory; the lemmas say that, as long as the
    frames of a chunk do not alias, this refines one flat map from pages to entries. */
module PageTables {
  import opened Words
  import opened Status

  const ENTRIES: nat := 1024
  const RAM_WORDS: nat := 0x4000_0000
  const IS_WRITABLE: u32 := 2

  /** Physical memory, one element for each aligned 32-bit word of the 4 GB address space. */
  type Ram = m: seq<u32> | |m| == RAM_WORDS ghost witness seq(RAM_WORDS, _ => 0)

  /** Word `slot` of a frame. */
  function Word(ram: Ram, frame: nat, slot: nat): u32
    requires frame < PAGES && slot < ENTRIES
  {
    ram[frame * ENTRIES + slot]
  }

  // ----- what the code does

  function DirectoryIndex(virt: u32): nat { virt / 0x40_0000 }

  function TableIndex(virt: u32): nat { virt / PAGE_SIZE % ENTRIES }

  /** The directory entry the code reads for a virtual address. */
  function EntryAt(directory: u32, virt: u32): nat {
    directory / 4 + DirectoryIndex(virt)
  }

  /** The table word that entry leads to. */
  function TableWordAt(entry: u32, virt: u32): (i: nat)
    ensures i < RAM_WORDS
  {
    PageBase(entry) / 4 + TableIndex(virt)
  }

  /** Where a directory lies: a page-aligned address below the end of memory. */
  predicate IsFrameAddress(a: u32) {
    a % PAGE_SIZE == 0
  }

  function MapPage(ram: Ram, directory: u32, virt: u32, phy: u32, flags: u32): (r: (Status, Ram))
    requires IsFrameAddress(directory)
  {
    if virt % PAGE_SIZE != 0 || phy % PAGE_SIZE != 0 || virt == 0 then (EInvArg, ram)
    else
      var entry := ram[EntryAt(directory, virt)];
      var ram1: Ram := ram[TableWordAt(entry, virt) := Or32(phy, flags)];
      (AllOk, ram1[EntryAt(directory, virt) := Or32(entry, flags)])
  }

  function MapRange(ram: Ram, directory: u32, virt: u32, phy: u32, count: int, flags: u32): (r: (Status, Ram))
    requires IsFrameAddress(directory)
    decreases count
  {
    if count <= 0 then (AllOk, ram)
    else
      var (res, ram') := MapPage(ram, directory, virt, phy, flags);
      if res != AllOk then (res, ram)
      else MapRange(ram', directory, Wrap(virt + PAGE_SIZE), Wrap(phy + PAGE_SIZE), count - 1, flags)
  }

  /** Pages between two physical addresses, by a signed pointer difference. */
  function SpanPages(start: u32, end: u32): int {
    TruncDiv(Signed(Wrap(end - start)), PAGE_SIZE)
  }

  function MapTo(ram: Ram, directory: u32, virt: u32, start: u32, end: u32, flags: u32): (r: (Status, Ram))
    requires IsFrameAddress(directory)
  {
    if virt % PAGE_SIZE != 0 || start % PAGE_SIZE != 0 || end % PAGE_SIZE != 0 || end < start then (EInvArg, ram)
    else MapRange(ram, directory, virt, start, SpanPages(start, end), flags)
  }

  /** The physical address behind a virtual one; for address 0 the error code -2 as a pointer. */
  function PhysicalAddress(ram: Ram, directory: u32, virt: u32): u32
    requires IsFrameAddress(directory)
  {
    if virt == 0 then Wrap(-2)
    else
      var entry := ram[EntryAt(directory, virt)];
      Or32(PageBase(ram[TableWordAt(entry, virt)]), PageOffset(virt))
  }

  function AlignUp(a: u32): u32 {
    if a % PAGE_SIZE != 0 then Wrap(a + PAGE_SIZE - a % PAGE_SIZE) else a
  }

  /** An end rounded up to a page, counted in pages. */
  lemma RoundedEnd(frame: nat, size: nat)
    requires frame * PAGE_SIZE + size <= WORD_VALUES - PAGE_SIZE
    ensures CeilDiv(size, PAGE_SIZE) * PAGE_SIZE >= size
    ensures AlignUp(Wrap(frame * PAGE_SIZE + size)) == (frame + CeilDiv(size, PAGE_SIZE)) * PAGE_SIZE
  {
    var end := frame * PAGE_SIZE + size;
    assert Wrap(end) == end;
    assert end % PAGE_SIZE == size % PAGE_SIZE;
  }

  // ----- the flat view

  /** The frames of an address space: the block with the chunk structure, the directory and the tables. */
  datatype Chunk = Chunk(header: nat, directory: nat, tables: seq<nat>) {
    predicate Owns(frame: nat) {
      frame == header || frame == directory || frame in tables
    }

    function Address(): nat { header * PAGE_SIZE }

    function DirectoryAddress(): nat { directory * PAGE_SIZE }
  }

  /** All 1026 frames of the chunk are different. */
  ghost predicate NoAliases(c: Chunk) {
    && |c.tables| == ENTRIES
    && c.header < PAGES && c.directory < PAGES && c.header != c.directory
    && (forall i | 0 <= i < ENTRIES :: c.tables[i] < PAGES && c.tables[i] != c.header && c.tables[i] != c.directory)
    && (forall i, j | 0 <= i < j < ENTRIES :: c.tables[i] != c.tables[j])
  }

  /** The chunk structure points to the directory, and directory entry i to table i. */
  ghost predicate ChunkOk(ram: Ram, c: Chunk) {
    && NoAliases(c)
    && Word(ram, c.header, 0) == c.DirectoryAddress()
    && forall i | 0 <= i < ENTRIES :: Pde(ram, c, i) / PAGE_SIZE == c.tables[i]
  }

  /** The directory entry for 4 MB region i. */
  ghost function Pde(ram: Ram, c: Chunk, i: nat): u32
    requires NoAliases(c) && i < ENTRIES
  {
    Word(ram, c.directory, i)
  }

  /** The entry of a page in the flat map. */
  ghost function Pte(ram: Ram, c: Chunk, page: nat): u32
    requires NoAliases(c) && page < PAGES
  {
    Word(ram, c.tables[page / ENTRIES], page % ENTRIES)
  }

  /** A frame in which no word differs. */
  ghost predicate SameFrame(ram: Ram, ram': Ram, frame: nat)
    requires frame < PAGES
  {
    forall slot | 0 <= slot < ENTRIES :: Word(ram', frame, slot) == Word(ram, frame, slot)
  }

  /** Every frame outside the chunk, and the frame of its structure, is left alone. */
  ghost predicate OnlyTablesChange(ram: Ram, ram': Ram, c: Chunk) {
    forall frame | 0 <= frame < PAGES && (frame == c.header || !c.Owns(frame)) :: SameFrame(ram, ram', frame)
  }

  /** Some page of [lo, lo+n) lies in 4 MB region i. */
  predicate Meets(lo: nat, n: nat, i: nat) {
    n > 0 && lo / ENTRIES <= i <= (lo + n - 1) / ENTRIES
  }

  /** ram' is ram with pages lo to lo+n mapped to consecutive frames from `phy` with `flags`: in
      the flat map exactly those pages change, and exactly the directory entries of their regions
      gain the flags. */
  ghost predicate Remapped(ram: Ram, ram': Ram, c: Chunk, lo: nat, n: nat, phy: nat, flags: nat)
    requires NoAliases(c)
  {
    && ChunkOk(ram', c)
    && OnlyTablesChange(ram, ram', c)
    && (forall page | 0 <= page < PAGES ::
          Pte(ram', c, page) ==
          if lo <= page < lo + n then phy + (page - lo) * PAGE_SIZE + flags else Pte(ram, c, page))
    && (forall i | 0 <= i < ENTRIES ::
          Pde(ram', c, i) == if Meets(lo, n, i) then BitOr(Pde(ram, c, i), flags) else Pde(ram, c, i))
  }

  lemma IndexSplit(virt: u32)
    ensures DirectoryIndex(virt) == virt / PAGE_SIZE / ENTRIES < ENTRIES
    ensures TableIndex(virt) == virt / PAGE_SIZE % ENTRIES
  {
  }

  lemma WordsDiffer(frame: nat, slot: nat, frame': nat, slot': nat)
    requires slot < ENTRIES && slot' < ENTRIES
    ensures frame * ENTRIES + slot == frame' * ENTRIES + slot' <==> frame == frame' && slot == slot'
  {
  }

  /** Where the two words written for a page lie. */
  lemma MapWords(ram: Ram, c: Chunk, virt: u32)
    requires ChunkOk(ram, c)
    ensures var page := virt / PAGE_SIZE; var entry := ram[EntryAt(c.DirectoryAddress(), virt)];
            && page < PAGES
            && entry == Pde(ram, c, page / ENTRIES)
            && EntryAt(c.DirectoryAddress(), virt) == c.directory * ENTRIES + page / ENTRIES
            && TableWordAt(entry, virt) == c.tables[page / ENTRIES] * ENTRIES + page % ENTRIES
  {
    IndexSplit(virt);
    var entry := ram[EntryAt(c.DirectoryAddress(), virt)];
    assert entry == Pde(ram, c, virt / PAGE_SIZE / ENTRIES);
    MaskPage(entry);
  }

  /** The two words `MapPage` writes, and no other, as frames and slots. */
  lemma MapPageWords(ram: Ram, c: Chunk, virt: u32, phy: u32, flags: u32, frame: nat, slot: nat)
    requires ChunkOk(ram, c) && flags < PAGE_SIZE && frame < PAGES && slot < ENTRIES
    requires virt % PAGE_SIZE == 0 && phy % PAGE_SIZE == 0 && virt != 0
    ensures virt / PAGE_SIZE < PAGES
    ensures MapPage(ram, c.DirectoryAddress(), virt, phy, flags).0 == AllOk
    ensures Word(MapPage(ram, c.DirectoryAddress(), virt, phy, flags).1, frame, slot)
            == MappedWord(ram, c, virt / PAGE_SIZE, phy, flags, frame, slot)
  {
    var page := virt / PAGE_SIZE;
    var entry := ram[EntryAt(c.DirectoryAddress(), virt)];
    MapWords(ram, c, virt);
    OrFlags(phy, flags);
    OrFlags(entry, flags);
    WordsDiffer(frame, slot, c.directory, page / ENTRIES);
    WordsDiffer(frame, slot, c.tables[page / ENTRIES], page % ENTRIES);
  }

  ghost function MappedWord(ram: Ram, c: Chunk, page: nat, phy: nat, flags: nat, frame: nat, slot: nat): nat
    requires NoAliases(c) && page < PAGES && frame < PAGES && slot < ENTRIES
  {
    if frame == c.directory && slot == page / ENTRIES then BitOr(Pde(ram, c, page / ENTRIES), flags)
    else if frame == c.tables[page / ENTRIES] && slot == page % ENTRIES then phy + flags
    else Word(ram, frame, slot)
  }

  lemma PageIndex(page: nat, other: nat)
    ensures page / ENTRIES == other / ENTRIES && page % ENTRIES == other % ENTRIES ==> page == other
    ensures Meets(page, 1, other) <==> other == page / ENTRIES
  {
  }

  lemma MappedWordsRemap(ram: Ram, ram': Ram, c: Chunk, page: nat, phy: nat, flags: nat)
    requires ChunkOk(ram, c) && flags < PAGE_SIZE && page < PAGES
    requires forall frame: nat, slot: nat | frame < PAGES && slot < ENTRIES ::
               Word(ram', frame, slot) == MappedWord(ram, c, page, phy, flags, frame, slot)
    ensures Remapped(ram, ram', c, page, 1, phy, flags)
  {
    forall other: nat | other < PAGES
      ensures Pte(ram', c, other) == if other == page then phy + flags else Pte(ram, c, other)
    {
      PageIndex(page, other);
    }
    forall i: nat | i < ENTRIES
      ensures Pde(ram', c, i) == if Meets(page, 1, i) then BitOr(Pde(ram, c, i), flags) else Pde(ram, c, i)
      ensures Pde(ram', c, i) / PAGE_SIZE == c.tables[i]
    {
      PageIndex(page, i);
      OrFlags(Pde(ram, c, i), flags);
    }
  }

  /** Mapping one page updates one entry of the flat map. */
  lemma MapPageRemaps(ram: Ram, c: Chunk, virt: u32, phy: u32, flags: u32)
    requires ChunkOk(ram, c) && flags < PAGE_SIZE
    requires virt % PAGE_SIZE == 0 && phy % PAGE_SIZE == 0 && virt != 0
    ensures var r := MapPage(ram, c.DirectoryAddress(), virt, phy, flags);
            r.0 == AllOk && Remapped(ram, r.1, c, virt / PAGE_SIZE, 1, phy, flags)
  {
    hide MapPage, MappedWord, Remapped, Word;
    var r := MapPage(ram, c.DirectoryAddress(), virt, phy, flags);
    forall frame: nat, slot: nat | frame < PAGES && slot < ENTRIES
      ensures r.0 == AllOk && virt / PAGE_SIZE < PAGES
      ensures Word(r.1, frame, slot) == MappedWord(ram, c, virt / PAGE_SIZE, phy, flags, frame, slot)
    {
      MapPageWords(ram, c, virt, phy, flags, frame, slot);
    }
    MapPageWords(ram, c, virt, phy, flags, 0, 0);
    MappedWordsRemap(ram, r.1, c, virt / PAGE_SIZE, phy, flags);
  }

  /** A page is refused exactly if it or its frame is misaligned or it is the page at address 0; then nothing
      changes. */
  lemma MapPageRefused(ram: Ram, directory: u32, virt: u32, phy: u32, flags: u32)
    requires IsFrameAddress(directory)
    ensures var r := MapPage(ram, directory, virt, phy, flags);
            && (r.0 == AllOk <==> virt % PAGE_SIZE == 0 && phy % PAGE_SIZE == 0 && virt != 0)
            && (r.0 != AllOk ==> r == (EInvArg, ram))
  {
  }

  lemma RemapsCompose(ram: Ram, ram1: Ram, ram2: Ram, c: Chunk, lo: nat, n: nat, phy: nat, flags: nat)
    requires NoAliases(c)
    requires Remapped(ram, ram1, c, lo, 1, phy, flags)
    requires Remapped(ram1, ram2, c, lo + 1, n, phy + PAGE_SIZE, flags)
    ensures Remapped(ram, ram2, c, lo, n + 1, phy, flags)
  {
    forall frame | 0 <= frame < PAGES && (frame == c.header || !c.Owns(frame))
      ensures SameFrame(ram, ram2, frame)
    {
      assert SameFrame(ram, ram1, frame) && SameFrame(ram1, ram2, frame);
    }
    forall i | 0 <= i < ENTRIES
      ensures Pde(ram2, c, i) == if Meets(lo, n + 1, i) then BitOr(Pde(ram, c, i), flags) else Pde(ram, c, i)
    {
      OrIdempotent(Pde(ram, c, i), flags);
    }
  }

  lemma RemapNothing(ram: Ram, c: Chunk, lo: nat, phy: nat, flags: nat)
    requires ChunkOk(ram, c)
    ensures NoAliases(c) && Remapped(ram, ram, c, lo, 0, phy, flags)
    ensures c.DirectoryAddress() < WORD_VALUES
  {
  }

  lemma RemappedKeepsChunk(ram: Ram, ram': Ram, c: Chunk, lo: nat, n: nat, phy: nat, flags: nat)
    requires NoAliases(c) && Remapped(ram, ram', c, lo, n, phy, flags)
    ensures ChunkOk(ram', c) && OnlyTablesChange(ram, ram', c)
  {
  }

  /** How many pages a range gets mapped before the page at address 0 stops it. */
  function MappedPages(virt: u32, count: int): nat {
    if count <= 0 || virt == 0 then 0
    else if count <= (WORD_VALUES - virt) / PAGE_SIZE then count
    else (WORD_VALUES - virt) / PAGE_SIZE
  }

  /** A mapped range takes effect page by page up to the wrap-around of the address space, and
      reports success exactly when it never reaches address 0. */
  lemma {:induction false} MapRangeRemaps(ram: Ram, c: Chunk, virt: u32, phy: u32, count: int, flags: u32)
    requires ChunkOk(ram, c) && flags < PAGE_SIZE
    requires virt % PAGE_SIZE == 0 && phy % PAGE_SIZE == 0
    requires phy + count * PAGE_SIZE <= WORD_VALUES
    ensures var r := MapRange(ram, c.DirectoryAddress(), virt, phy, count, flags);
            && Remapped(ram, r.1, c, virt / PAGE_SIZE, MappedPages(virt, count), phy, flags)
            && r.0 == (if count <= MappedPages(virt, count) then AllOk else EInvArg)
    decreases count
  {
    hide Remapped, ChunkOk, NoAliases, MapPage, Wrap;
    RemapNothing(ram, c, virt / PAGE_SIZE, phy, flags);
    if count <= 0 {
    } else if virt == 0 {
      MapRangeAtZero(ram, c.DirectoryAddress(), phy, count, flags);
    } else {
      MapPageRemaps(ram, c, virt, phy, flags);
      MappedPagesStep(virt, count);
      NextFrame(phy, count);
      var ram1 := MapPage(ram, c.DirectoryAddress(), virt, phy, flags).1;
      RemappedKeepsChunk(ram, ram1, c, virt / PAGE_SIZE, 1, phy, flags);
      var virt', phy' := Wrap(virt + PAGE_SIZE), Wrap(phy + PAGE_SIZE);
      MapRangeRemaps(ram1, c, virt', phy', count - 1, flags);
      if MappedPages(virt', count - 1) > 0 {
        var ram2 := MapRange(ram1, c.DirectoryAddress(), virt', phy', count - 1, flags).1;
        RemapsCompose(ram, ram1, ram2, c, virt / PAGE_SIZE, MappedPages(virt', count - 1), phy, flags);
      } else if count > 1 {
        MapRangeAtZero(ram1, c.DirectoryAddress(), phy', count - 1, flags);
      }
    }
  }

  lemma {:induction false} MapRangeAtZero(ram: Ram, directory: u32, phy: u32, count: int, flags: u32)
    requires IsFrameAddress(directory) && count > 0
    ensures MapRange(ram, directory, 0, phy, count, flags) == (EInvArg, ram)
  {
  }

  lemma NextFrame(phy: u32, count: int)
    requires count > 0 && phy % PAGE_SIZE == 0 && phy + count * PAGE_SIZE <= WORD_VALUES
    ensures Wrap(phy + PAGE_SIZE) % PAGE_SIZE == 0
    ensures Wrap(phy + PAGE_SIZE) + (count - 1) * PAGE_SIZE <= WORD_VALUES
    ensures count > 1 ==> Wrap(phy + PAGE_SIZE) == phy + PAGE_SIZE
  {
  }

  lemma MappedPagesStep(virt: u32, count: int)
    requires count > 0 && virt != 0 && virt % PAGE_SIZE == 0
    ensures MappedPages(virt, count) == 1 + MappedPages(Wrap(virt + PAGE_SIZE), count - 1)
    ensures virt + PAGE_SIZE < WORD_VALUES ==> Wrap(virt + PAGE_SIZE) / PAGE_SIZE == virt / PAGE_SIZE + 1
    ensures Wrap(virt + PAGE_SIZE) % PAGE_SIZE == 0
    ensures Wrap(virt + PAGE_SIZE) == 0 || virt + PAGE_SIZE < WORD_VALUES
    ensures MappedPages(Wrap(virt + PAGE_SIZE), count - 1) <= count - 1
    ensures MappedPages(Wrap(virt + PAGE_SIZE), count - 1) == 0 ==> count == 1 || Wrap(virt + PAGE_SIZE) == 0
  {
  }

  lemma SpanIsSigned(start: u32, end: u32)
    requires start % PAGE_SIZE == 0 && end % PAGE_SIZE == 0 && start <= end
    ensures end - start < 0x8000_0000 ==> SpanPages(start, end) == (end - start) / PAGE_SIZE
    ensures end - start >= 0x8000_0000 ==> SpanPages(start, end) < 0
    ensures start + (end - start) / PAGE_SIZE * PAGE_SIZE == end
  {
    assert Wrap(end - start) == end - start;
  }

  lemma {:induction false} MapNothing(ram: Ram, directory: u32, virt: u32, phy: u32, count: int, flags: u32)
    requires IsFrameAddress(directory) && count <= 0
    ensures MapRange(ram, directory, virt, phy, count, flags) == (AllOk, ram)
  {
  }

  /** What `MapTo` does, for all arguments: misaligned or reversed ranges are refused, a range of
      2 GB or more is silently not mapped at all, and any other is mapped up to the end of the
      address space. */
  lemma MapToRemaps(ram: Ram, c: Chunk, virt: u32, start: u32, end: u32, flags: u32)
    requires ChunkOk(ram, c) && flags < PAGE_SIZE
    ensures var r := MapTo(ram, c.DirectoryAddress(), virt, start, end, flags);
            var n := (end - start) / PAGE_SIZE;
            if virt % PAGE_SIZE != 0 || start % PAGE_SIZE != 0 || end % PAGE_SIZE != 0 || end < start then
              r == (EInvArg, ram)
            else if end - start >= 0x8000_0000 then
              r == (AllOk, ram)
            else
              && Remapped(ram, r.1, c, virt / PAGE_SIZE, MappedPages(virt, n), start, flags)
              && r.0 == (if n == 0 || (virt != 0 && virt + (end - start) <= WORD_VALUES) then AllOk else EInvArg)
  {
    hide Remapped, ChunkOk, MapRange;
    RemapNothing(ram, c, 0, 0, flags);
    if virt % PAGE_SIZE == 0 && start % PAGE_SIZE == 0 && end % PAGE_SIZE == 0 && start <= end {
      SpanIsSigned(start, end);
      if end - start < 0x8000_0000 {
        MapRangeRemaps(ram, c, virt, start, SpanPages(start, end), flags);
      } else {
        MapNothing(ram, c.DirectoryAddress(), virt, start, SpanPages(start, end), flags);
      }
    }
  }

  /** A non-empty aligned range is reported as mapped and is mapped as a whole, whatever was mapped
      before, exactly when it is below 2 GB, does not start at address 0 and does not wrap around. */
  lemma WholeRangeMappedExactly(c: Chunk, virt: u32, start: u32, end: u32, flags: u32)
    requires flags < PAGE_SIZE && start < end && exists ram :: ChunkOk(ram, c)
    requires virt % PAGE_SIZE == 0 && start % PAGE_SIZE == 0 && end % PAGE_SIZE == 0
    ensures (forall ram: Ram | ChunkOk(ram, c) :: WholeRangeMapped(ram, c, virt, start, end, flags)) <==>
              end - start < 0x8000_0000 && virt != 0 && virt + (end - start) <= WORD_VALUES
  {
    hide ChunkOk, Remapped, MapTo, NoAliases;
    var n := (end - start) / PAGE_SIZE;
    forall ram: Ram | ChunkOk(ram, c)
      ensures Mappable(virt, start, end) ==> WholeRangeMapped(ram, c, virt, start, end, flags)
      ensures end - start < 0x8000_0000 && !Mappable(virt, start, end) ==>
                !WholeRangeMapped(ram, c, virt, start, end, flags)
    {
      RemapNothing(ram, c, 0, 0, flags);
      MapToRemaps(ram, c, virt, start, end, flags);
    }
    if end - start >= 0x8000_0000 {
      var ram: Ram :| ChunkOk(ram, c);
      var ram' := OtherEntry(ram, c, virt / PAGE_SIZE, start + flags);
      MapToRemaps(ram', c, virt, start, end, flags);
      NotRemapped(ram', c, virt / PAGE_SIZE, n, start, flags);
      assert !WholeRangeMapped(ram', c, virt, start, end, flags);
    }
  }

  ghost predicate WholeRangeMapped(ram: Ram, c: Chunk, virt: u32, start: u32, end: u32, flags: u32)
    requires ChunkOk(ram, c)
  {
    RemapNothing(ram, c, 0, 0, 0);
    var r := MapTo(ram, c.DirectoryAddress(), virt, start, end, flags);
    r.0 == AllOk && Remapped(ram, r.1, c, virt / PAGE_SIZE, (end - start) / PAGE_SIZE, start, flags)
  }

  /** The same chunk with another entry for one page. */
  lemma OtherEntry(ram: Ram, c: Chunk, page: nat, entry: nat) returns (ram': Ram)
    requires ChunkOk(ram, c) && page < PAGES
    ensures ChunkOk(ram', c) && Pte(ram', c, page) != entry
  {
    var at := c.tables[page / ENTRIES] * ENTRIES + page % ENTRIES;
    ram' := ram[at := if entry == 0 then 1 else 0];
    forall i | 0 <= i < ENTRIES
      ensures Pde(ram', c, i) == Pde(ram, c, i)
    {
      WordsDiffer(c.directory, i, c.tables[page / ENTRIES], page % ENTRIES);
    }
    WordsDiffer(c.header, 0, c.tables[page / ENTRIES], page % ENTRIES);
  }

  lemma NotRemapped(ram: Ram, c: Chunk, lo: nat, n: nat, phy: nat, flags: nat)
    requires NoAliases(c) && lo < PAGES && n > 0 && Pte(ram, c, lo) != phy + flags
    ensures !Remapped(ram, ram, c, lo, n, phy, flags)
  {
  }

  /** Exactly 2 GB: success is reported and nothing is mapped. */
  lemma TwoGigabytesAreNotMapped(ram: Ram, c: Chunk, flags: u32)
    requires ChunkOk(ram, c) && flags < PAGE_SIZE
    ensures c.DirectoryAddress() < WORD_VALUES
    ensures MapTo(ram, c.DirectoryAddress(), 0x1000, 0, 0x8000_0000, flags) == (AllOk, ram)
  {
    hide ChunkOk, Remapped, MapTo;
    RemapNothing(ram, c, 0, 0, 0);
    MapToRemaps(ram, c, 0x1000, 0, 0x8000_0000, flags);
  }

  /** Whatever its arguments, `MapTo` leaves the chunk a chunk. */
  lemma MapToKeepsChunk(ram: Ram, c: Chunk, virt: u32, start: u32, end: u32, flags: u32)
    requires ChunkOk(ram, c) && flags < PAGE_SIZE
    ensures c.DirectoryAddress() < WORD_VALUES
    ensures ChunkOk(MapTo(ram, c.DirectoryAddress(), virt, start, end, flags).1, c)
  {
    hide ChunkOk, Remapped, MapTo, NoAliases;
    RemapNothing(ram, c, 0, 0, 0);
    MapToRemaps(ram, c, virt, start, end, flags);
    var ram' := MapTo(ram, c.DirectoryAddress(), virt, start, end, flags).1;
    if ram' != ram {
      RemappedKeepsChunk(ram, ram', c, virt / PAGE_SIZE, MappedPages(virt, (end - start) / PAGE_SIZE), start, flags);
    }
  }

  /** The guard under which `MapTo` is exact: every address of the range translates to its offset
      from `start`, with the given flags, and every other page keeps its entry.  Without the guard
      the last page of the range is not mapped. */
  predicate Mappable(virt: u32, start: u32, end: u32) {
    && virt % PAGE_SIZE == 0 && start % PAGE_SIZE == 0 && end % PAGE_SIZE == 0
    && start <= end && end - start < 0x8000_0000
    && virt != 0 && virt + (end - start) <= WORD_VALUES
  }

  lemma MapToExact(ram: Ram, c: Chunk, virt: u32, start: u32, end: u32, flags: u32)
    requires ChunkOk(ram, c) && flags < PAGE_SIZE && Mappable(virt, start, end)
    ensures var r := MapTo(ram, c.DirectoryAddress(), virt, start, end, flags);
            && r.0 == AllOk
            && Remapped(ram, r.1, c, virt / PAGE_SIZE, (end - start) / PAGE_SIZE, start, flags)
  {
    MapToRemaps(ram, c, virt, start, end, flags);
  }

  /** Every address of a mapped range translates to its offset from the physical start. */
  lemma RemappedTranslates(ram: Ram, ram': Ram, c: Chunk, virt: u32, n: nat, start: nat, flags: nat, v: u32)
    requires NoAliases(c) && Remapped(ram, ram', c, virt / PAGE_SIZE, n, start, flags) && flags < PAGE_SIZE
    requires virt % PAGE_SIZE == 0 && start % PAGE_SIZE == 0
    requires 0 < virt <= v < virt + n * PAGE_SIZE && start + n * PAGE_SIZE <= WORD_VALUES
    ensures PhysicalAddress(ram', c.DirectoryAddress(), v) == start + (v - virt)
  {
    hide PhysicalAddress;
    TranslateReadsEntry(ram', c, v);
    OffsetInRange(virt, n, start, flags, v);
    assert Pte(ram', c, v / PAGE_SIZE) == start + (v / PAGE_SIZE - virt / PAGE_SIZE) * PAGE_SIZE + flags;
  }

  lemma OffsetInRange(virt: nat, n: nat, start: nat, flags: nat, v: nat)
    requires virt % PAGE_SIZE == 0 && start % PAGE_SIZE == 0 && flags < PAGE_SIZE
    requires virt <= v < virt + n * PAGE_SIZE
    ensures virt / PAGE_SIZE <= v / PAGE_SIZE < virt / PAGE_SIZE + n
    ensures var w := start + (v / PAGE_SIZE - virt / PAGE_SIZE) * PAGE_SIZE + flags;
            w - w % PAGE_SIZE + v % PAGE_SIZE == start + (v - virt)
  {
  }

  /** Translation reads the flat map. */
  lemma TranslateReadsEntry(ram: Ram, c: Chunk, virt: u32)
    requires ChunkOk(ram, c) && virt != 0
    ensures virt / PAGE_SIZE < PAGES
    ensures var w := Pte(ram, c, virt / PAGE_SIZE);
            PhysicalAddress(ram, c.DirectoryAddress(), virt) == w - w % PAGE_SIZE + virt % PAGE_SIZE
  {
    MapWords(ram, c, virt);
    var w := Pte(ram, c, virt / PAGE_SIZE);
    hide ChunkOk, NoAliases, TableWordAt, EntryAt, BitOr, Or32, PageBase, PageOffset;
    assert w == ram[TableWordAt(ram[EntryAt(c.DirectoryAddress(), virt)], virt)];
    PageAndOffset(w, virt);
  }

  /** The frame of one word joined with the offset of another. */
  lemma PageAndOffset(w: u32, virt: u32)
    ensures Or32(PageBase(w), PageOffset(virt)) == w - w % PAGE_SIZE + virt % PAGE_SIZE
  {
    hide BitAnd, BitOr;
    var base := PageBase(w);
    assert base % PAGE_SIZE == 0 by { BaseAligned(w / PAGE_SIZE, w); }
    OrFlags(base, PageOffset(virt));
  }

  lemma BaseAligned(frame: nat, w: nat)
    requires frame == w / PAGE_SIZE
    ensures w - w % PAGE_SIZE == frame * PAGE_SIZE && (w - w % PAGE_SIZE) % PAGE_SIZE == 0
  {
  }
}
