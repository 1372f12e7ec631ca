/** Loading and mapping a program: every loadable segment of an ELF file gets physical memory, and
    segments and stack are mapped at their virtual addresses. */
module ElfImage {
  import opened Words
  import opened Status
  import opened HeapTable
  import opened BlockAccounts
  import opened PageTables
  import opened MemoryState
  import opened AddressSpaces
  import opened ProcessMemory
  import opened KernelMemory

  const PT_LOAD: u32 := 1
  const PF_W: u32 := 2
  const MAX_NOBITS: nat := 16
  const STACK_SIZE: u32 := 32768
  const STACK_TOP: u32 := 0x3f_f000
  const STACK_BOTTOM: u32 := 0x3f_7000
  const PROGRAM_START: u32 := 0x40_0000
  const MAX_SPAN: u32 := 0x7fff_f000
  const READ_ONLY_FLAGS: u32 := 5   // present, accessible from user mode

  /** The fields of a program header that loading and mapping read and write. */
  datatype ProgramHeader =
    ProgramHeader(kind: u32, offset: u32, vaddr: u32, paddr: u32, filesz: u32, memsz: u32, flags: u32)

  // ----- mapping

  function SegmentFlags(h: ProgramHeader): u32 {
    if Writable(h.flags) then Or32(READ_ONLY_FLAGS, IS_WRITABLE) else READ_ONLY_FLAGS
  }

  /** Where the mapping of a segment ends: its memory size rounded up to a page. */
  function SegmentEnd(h: ProgramHeader): u32 {
    AlignUp(Wrap(h.paddr + h.memsz))
  }

  /** The segments mapped one after the other, up to the first that is refused. */
  function MapSegments(ram: Ram, directory: u32, segments: seq<ProgramHeader>): (r: (Status, Ram))
    requires IsFrameAddress(directory)
    decreases |segments|
  {
    if segments == [] then (AllOk, ram)
    else
      var h := segments[0];
      var (res, ram') := MapTo(ram, directory, h.vaddr, h.paddr, SegmentEnd(h), SegmentFlags(h));
      if res != AllOk then (res, ram') else MapSegments(ram', directory, segments[1..])
  }

  /** Segments first, then the stack below its fixed top. */
  function MapProgram(ram: Ram, directory: u32, segments: seq<ProgramHeader>, stack: u32): (r: (Status, Ram))
    requires IsFrameAddress(directory)
  {
    var (res, ram') := MapSegments(ram, directory, segments);
    if res != AllOk then (res, ram')
    else MapTo(ram', directory, STACK_BOTTOM, stack, AlignUp(Wrap(stack + STACK_SIZE)), USER_FLAGS)
  }

  /** A segment that can be mapped: page-aligned on both sides, inside the address space, and small
      enough for the signed page count. */
  predicate Loadable(h: ProgramHeader) {
    && h.vaddr % PAGE_SIZE == 0 && h.paddr % PAGE_SIZE == 0 && h.vaddr != 0
    && h.memsz <= MAX_SPAN && h.vaddr + h.memsz <= WORD_VALUES && h.paddr + h.memsz <= WORD_VALUES - PAGE_SIZE
  }

  function FirstPage(h: ProgramHeader): nat { h.vaddr / PAGE_SIZE }

  function PageCount(h: ProgramHeader): nat { CeilDiv(h.memsz, PAGE_SIZE) }

  predicate OnSegment(h: ProgramHeader, page: nat) {
    FirstPage(h) <= page < FirstPage(h) + PageCount(h)
  }

  /** The entry of a page of a segment. */
  function SegmentEntry(h: ProgramHeader, page: nat): int {
    h.paddr + (page - FirstPage(h)) * PAGE_SIZE + SegmentFlags(h)
  }

  /** The entry of a page after mapping all segments over an address space where it was `was`:
      the last segment that covers the page decides. */
  function Overlaid(segments: seq<ProgramHeader>, page: nat, was: int): int
    decreases |segments|
  {
    if segments == [] then was
    else Overlaid(segments[1..], page, if OnSegment(segments[0], page) then SegmentEntry(segments[0], page) else was)
  }

  lemma SegmentMappable(h: ProgramHeader)
    requires Loadable(h)
    ensures Mappable(h.vaddr, h.paddr, SegmentEnd(h))
    ensures (SegmentEnd(h) - h.paddr) / PAGE_SIZE == PageCount(h)
    ensures SegmentFlags(h) == (if Writable(h.flags) then USER_FLAGS else READ_ONLY_FLAGS) < PAGE_SIZE
  {
    OrStep(5, 2);
    OrStep(2, 1);
    RoundedEnd(h.paddr / PAGE_SIZE, h.memsz);
  }

  /** The guard is exact: an aligned segment with memory is mapped as a whole if and only if it is
      met. */
  lemma LoadableExactly(h: ProgramHeader)
    requires h.memsz > 0 && h.vaddr % PAGE_SIZE == 0 && h.paddr % PAGE_SIZE == 0
    ensures Loadable(h) <==> Mappable(h.vaddr, h.paddr, SegmentEnd(h))
                             && (SegmentEnd(h) - h.paddr) / PAGE_SIZE == PageCount(h)
  {
    hide SegmentFlags, SegmentEnd, PageCount;
    if Loadable(h) {
      SegmentMappable(h);
    }
    if Mappable(h.vaddr, h.paddr, SegmentEnd(h)) && (SegmentEnd(h) - h.paddr) / PAGE_SIZE == PageCount(h) {
      MemoryFits(h.paddr, h.memsz, SegmentEnd(h)) by { PagesOf(h); }
    }
  }

  lemma PagesOf(h: ProgramHeader)
    ensures PageCount(h) == CeilDiv(h.memsz, PAGE_SIZE)
  {
  }

  /** What a range of as many pages as the memory needs says of its size. */
  lemma MemoryFits(start: u32, size: nat, end: u32)
    requires start % PAGE_SIZE == 0 && end % PAGE_SIZE == 0 && start <= end && end - start < 0x8000_0000
    requires (end - start) / PAGE_SIZE == CeilDiv(size, PAGE_SIZE)
    ensures size <= end - start && size <= MAX_SPAN && start + size <= WORD_VALUES - PAGE_SIZE
  {
    var first, last, n := start / PAGE_SIZE, end / PAGE_SIZE, CeilDiv(size, PAGE_SIZE);
    assert start == first * PAGE_SIZE && end == last * PAGE_SIZE;
    assert n == last - first && size <= n * PAGE_SIZE;
  }

  ghost predicate OverlaidMap(ram: Ram, ram': Ram, c: Chunk, segments: seq<ProgramHeader>)
    requires NoAliases(c)
  {
    && ChunkOk(ram', c)
    && forall page | 0 <= page < PAGES :: Pte(ram', c, page) == Overlaid(segments, page, Pte(ram, c, page))
  }

  /** Loadable segments are all mapped, and the flat map is the old one overlaid with them. */
  lemma {:induction false} SegmentsOverlay(ram: Ram, c: Chunk, segments: seq<ProgramHeader>)
    requires ChunkOk(ram, c)
    requires forall i | 0 <= i < |segments| :: Loadable(segments[i])
    ensures c.DirectoryAddress() < WORD_VALUES
    ensures var r := MapSegments(ram, c.DirectoryAddress(), segments);
            r.0 == AllOk && OverlaidMap(ram, r.1, c, segments)
    decreases |segments|
  {
    hide ChunkOk, Remapped, MapTo, NoAliases, SegmentEnd, SegmentFlags, Mappable, PageCount, Loadable;
    RemapNothing(ram, c, 0, 0, 0);
    if segments != [] {
      var h := segments[0];
      SegmentMappable(h);
      MapToExact(ram, c, h.vaddr, h.paddr, SegmentEnd(h), SegmentFlags(h));
      var ram1 := MapTo(ram, c.DirectoryAddress(), h.vaddr, h.paddr, SegmentEnd(h), SegmentFlags(h)).1;
      RemappedKeepsChunk(ram, ram1, c, FirstPage(h), PageCount(h), h.paddr, SegmentFlags(h));
      RemappedEntries(ram, ram1, c, FirstPage(h), PageCount(h), h.paddr, SegmentFlags(h));
      SegmentsOverlay(ram1, c, segments[1..]);
    }
  }

  /** Segments are mapped in order, and the first that is refused ends the mapping with its status. */
  lemma {:induction false} MapSegmentsInOrder(ram: Ram, directory: u32, first: seq<ProgramHeader>,
                                              rest: seq<ProgramHeader>)
    requires IsFrameAddress(directory)
    ensures var r := MapSegments(ram, directory, first);
            MapSegments(ram, directory, first + rest) == if r.0 != AllOk then r else MapSegments(r.1, directory, rest)
    ensures first != [] ==>
              var h := first[0]; var r := MapTo(ram, directory, h.vaddr, h.paddr, SegmentEnd(h), SegmentFlags(h));
              r.0 != AllOk ==> MapSegments(ram, directory, first) == r
    decreases |first|
  {
    hide MapTo, SegmentEnd, SegmentFlags;
    if first == [] {
      assert first + rest == rest;
    } else {
      var h := first[0];
      var r := MapTo(ram, directory, h.vaddr, h.paddr, SegmentEnd(h), SegmentFlags(h));
      assert (first + rest)[1..] == first[1..] + rest;
      MapSegmentsInOrder(r.1, directory, first[1..], rest);
    }
  }

  lemma RemappedEntries(ram: Ram, ram': Ram, c: Chunk, lo: nat, n: nat, phy: nat, flags: nat)
    requires NoAliases(c) && Remapped(ram, ram', c, lo, n, phy, flags)
    ensures forall page | 0 <= page < PAGES ::
              Pte(ram', c, page) ==
              if lo <= page < lo + n then phy + (page - lo) * PAGE_SIZE + flags else Pte(ram, c, page)
  {
  }

  /** No two segments share a page, and none reaches into the stack. */
  ghost predicate Separate(segments: seq<ProgramHeader>) {
    && (forall i, j | 0 <= i < j < |segments| :: ApartFrom(segments[i], segments[j]))
    && (forall i | 0 <= i < |segments| :: OffStack(segments[i]))
  }

  predicate ApartFrom(g: ProgramHeader, h: ProgramHeader) {
    FirstPage(g) + PageCount(g) <= FirstPage(h) || FirstPage(h) + PageCount(h) <= FirstPage(g)
  }

  predicate OffStack(h: ProgramHeader) {
    FirstPage(h) + PageCount(h) <= STACK_BOTTOM / PAGE_SIZE || STACK_TOP / PAGE_SIZE <= FirstPage(h)
  }

  lemma {:induction false} OverlaidOutside(segments: seq<ProgramHeader>, page: nat, was: int)
    requires forall i | 0 <= i < |segments| :: !OnSegment(segments[i], page)
    ensures Overlaid(segments, page, was) == was
    decreases |segments|
  {
    hide OnSegment;
    if segments != [] {
      OverlaidOutside(segments[1..], page, was);
    }
  }

  lemma {:induction false} OverlaidInside(segments: seq<ProgramHeader>, i: nat, page: nat, was: int)
    requires i < |segments| && OnSegment(segments[i], page)
    requires forall j, k | 0 <= j < k < |segments| :: ApartFrom(segments[j], segments[k])
    ensures Overlaid(segments, page, was) == SegmentEntry(segments[i], page)
    decreases |segments|
  {
    hide SegmentEntry, PageCount, FirstPage;
    var h := segments[0];
    if i == 0 {
      assert forall k | 0 < k < |segments| :: ApartFrom(segments[0], segments[k]);
      OverlaidOutside(segments[1..], page, SegmentEntry(h, page));
    } else {
      OverlaidInside(segments[1..], i - 1, page, if OnSegment(h, page) then SegmentEntry(h, page) else was);
    }
  }

  // ----- the mapped program

  /** The address space after mapping a program into it. */
  ghost predicate Mapped(ram: Ram, ram': Ram, c: Chunk, segments: seq<ProgramHeader>, stack: u32) {
    && ChunkOk(ram', c) && c.DirectoryAddress() < WORD_VALUES
    // every byte of every segment translates to its physical base plus offset
    && (forall i, v: u32 | 0 <= i < |segments| && segments[i].vaddr <= v < segments[i].vaddr + segments[i].memsz ::
          PhysicalAddress(ram', c.DirectoryAddress(), v) == segments[i].paddr + (v - segments[i].vaddr))
    // its pages are open to user mode, and writable exactly if the segment is
    && (forall i, page | 0 <= i < |segments| && 0 <= page < PAGES && OnSegment(segments[i], page) ::
          var w := Pte(ram', c, page);
          Present(w) && UserBit(w) && (Writable(w) <==> Writable(segments[i].flags)))
    // so does the stack, and user mode can write to it
    && (forall v: u32 | STACK_BOTTOM <= v < STACK_TOP ::
          PhysicalAddress(ram', c.DirectoryAddress(), v) == stack + (v - STACK_BOTTOM))
    && (forall page | STACK_BOTTOM / PAGE_SIZE <= page < STACK_TOP / PAGE_SIZE ::
          var w := Pte(ram', c, page); Present(w) && UserBit(w) && Writable(w))
    // all other pages keep their entries
    && (forall page | 0 <= page < PAGES && !(STACK_BOTTOM / PAGE_SIZE <= page < STACK_TOP / PAGE_SIZE)
                      && (forall i | 0 <= i < |segments| :: !OnSegment(segments[i], page)) ::
          Pte(ram', c, page) == Pte(ram, c, page))
  }

  /** The flat map of a mapped program, page by page. */
  ghost predicate ProgramPages(ram: Ram, ram': Ram, c: Chunk, segments: seq<ProgramHeader>, stack: nat) {
    && ChunkOk(ram', c) && NoAliases(c)
    && forall page | 0 <= page < PAGES ::
         Pte(ram', c, page) ==
         if STACK_BOTTOM / PAGE_SIZE <= page < STACK_TOP / PAGE_SIZE
         then stack + (page - STACK_BOTTOM / PAGE_SIZE) * PAGE_SIZE + USER_FLAGS
         else Overlaid(segments, page, Pte(ram, c, page))
  }

  lemma StackMappable(stack: u32)
    requires stack % PAGE_SIZE == 0 && stack + STACK_SIZE < WORD_VALUES
    ensures AlignUp(Wrap(stack + STACK_SIZE)) == stack + STACK_SIZE
    ensures Mappable(STACK_BOTTOM, stack, stack + STACK_SIZE)
    ensures STACK_BOTTOM / PAGE_SIZE + STACK_SIZE / PAGE_SIZE == STACK_TOP / PAGE_SIZE
  {
  }

  lemma MapProgramPages(ram: Ram, c: Chunk, segments: seq<ProgramHeader>, stack: u32)
    requires ChunkOk(ram, c) && stack % PAGE_SIZE == 0 && stack + STACK_SIZE < WORD_VALUES
    requires forall i | 0 <= i < |segments| :: Loadable(segments[i])
    ensures c.DirectoryAddress() < WORD_VALUES
    ensures var r := MapProgram(ram, c.DirectoryAddress(), segments, stack);
            r.0 == AllOk && ProgramPages(ram, r.1, c, segments, stack)
  {
    hide ChunkOk, Remapped, MapTo, NoAliases, MapSegments, Loadable, Overlaid, AlignUp;
    SegmentsOverlay(ram, c, segments);
    RemapNothing(ram, c, 0, 0, 0);
    StackMappable(stack);
    var ram1 := MapSegments(ram, c.DirectoryAddress(), segments).1;
    var ram2 := MapTo(ram1, c.DirectoryAddress(), STACK_BOTTOM, stack, stack + STACK_SIZE, USER_FLAGS).1;
    MapToExact(ram1, c, STACK_BOTTOM, stack, stack + STACK_SIZE, USER_FLAGS);
    RemappedKeepsChunk(ram1, ram2, c, STACK_BOTTOM / PAGE_SIZE, STACK_SIZE / PAGE_SIZE, stack, USER_FLAGS);
    RemappedEntries(ram1, ram2, c, STACK_BOTTOM / PAGE_SIZE, STACK_SIZE / PAGE_SIZE, stack, USER_FLAGS);
  }

  /** The page of a byte of a segment, and what its entry says of the byte. */
  lemma SegmentByte(h: ProgramHeader, v: u32)
    requires Loadable(h) && h.vaddr <= v < h.vaddr + h.memsz
    ensures OnSegment(h, v / PAGE_SIZE)
    ensures var w := SegmentEntry(h, v / PAGE_SIZE);
            w - w % PAGE_SIZE + v % PAGE_SIZE == h.paddr + (v - h.vaddr)
  {
    SegmentMappable(h);
    assert h.memsz <= PageCount(h) * PAGE_SIZE;
    OffsetInRange(h.vaddr, PageCount(h), h.paddr, SegmentFlags(h), v);
  }

  lemma SegmentPermissions(h: ProgramHeader, page: nat)
    requires Loadable(h) && OnSegment(h, page)
    ensures var w := SegmentEntry(h, page);
            w >= 0 && Present(w) && UserBit(w) && (Writable(w) <==> Writable(h.flags))
  {
    hide Present, UserBit, Writable, SegmentFlags;
    SegmentMappable(h);
    EntryUserBit(h.paddr + (page - FirstPage(h)) * PAGE_SIZE, SegmentFlags(h));
    FlagBits();
  }

  lemma FlagBits()
    ensures Present(USER_FLAGS) && Writable(USER_FLAGS) && UserBit(USER_FLAGS)
    ensures Present(READ_ONLY_FLAGS) && !Writable(READ_ONLY_FLAGS) && UserBit(READ_ONLY_FLAGS)
  {
  }

  lemma StackByte(ram: Ram, c: Chunk, stack: u32, v: u32)
    requires ChunkOk(ram, c) && stack % PAGE_SIZE == 0 && STACK_BOTTOM <= v < STACK_TOP
    requires stack + STACK_SIZE < WORD_VALUES
    requires Pte(ram, c, v / PAGE_SIZE) == stack + (v / PAGE_SIZE - STACK_BOTTOM / PAGE_SIZE) * PAGE_SIZE + USER_FLAGS
    ensures c.DirectoryAddress() < WORD_VALUES
    ensures PhysicalAddress(ram, c.DirectoryAddress(), v) == stack + (v - STACK_BOTTOM)
  {
    RemapNothing(ram, c, 0, 0, 0);
    hide ChunkOk, PhysicalAddress, Pte;
    TranslateReadsEntry(ram, c, v);
    OffsetInRange(STACK_BOTTOM, STACK_SIZE / PAGE_SIZE, stack, USER_FLAGS, v);
  }

  /** Mapping a program whose segments are page-aligned and share no pages succeeds; afterwards every
      byte of every segment translates to its physical base plus offset with the permissions of the
      segment, the stack window to the stack, and every other page keeps its entry. */
  lemma MapProgramExact(ram: Ram, c: Chunk, segments: seq<ProgramHeader>, stack: u32)
    requires ChunkOk(ram, c) && stack % PAGE_SIZE == 0 && stack + STACK_SIZE < WORD_VALUES
    requires (forall i | 0 <= i < |segments| :: Loadable(segments[i])) && Separate(segments)
    ensures c.DirectoryAddress() < WORD_VALUES
    ensures MapProgram(ram, c.DirectoryAddress(), segments, stack).0 == AllOk
    ensures Mapped(ram, MapProgram(ram, c.DirectoryAddress(), segments, stack).1, c, segments, stack)
  {
    hide ChunkOk, MapProgram, NoAliases, Loadable, Overlaid, OnSegment, SegmentEntry, PhysicalAddress, Present,
         Writable, UserBit, Pte;
    MapProgramPages(ram, c, segments, stack);
    RemapNothing(ram, c, 0, 0, 0);
    var ram' := MapProgram(ram, c.DirectoryAddress(), segments, stack).1;
    forall i, page | 0 <= i < |segments| && 0 <= page < PAGES && OnSegment(segments[i], page)
      ensures Pte(ram', c, page) == SegmentEntry(segments[i], page)
      ensures Present(Pte(ram', c, page)) && UserBit(Pte(ram', c, page))
      ensures Writable(Pte(ram', c, page)) <==> Writable(segments[i].flags)
    {
      OverlaidInside(segments, i, page, Pte(ram, c, page));
      OffStackPage(segments[i], page);
      SegmentPermissions(segments[i], page);
    }
    forall i, v: u32 | 0 <= i < |segments| && segments[i].vaddr <= v < segments[i].vaddr + segments[i].memsz
      ensures PhysicalAddress(ram', c.DirectoryAddress(), v) == segments[i].paddr + (v - segments[i].vaddr)
    {
      SegmentByte(segments[i], v);
      NotNull(segments[i], v);
      TranslateReadsEntry(ram', c, v);
    }
    forall v: u32 | STACK_BOTTOM <= v < STACK_TOP
      ensures PhysicalAddress(ram', c.DirectoryAddress(), v) == stack + (v - STACK_BOTTOM)
    {
      StackByte(ram', c, stack, v);
    }
    forall page | STACK_BOTTOM / PAGE_SIZE <= page < STACK_TOP / PAGE_SIZE
      ensures var w := Pte(ram', c, page); Present(w) && UserBit(w) && Writable(w)
    {
      FlagBits();
      EntryUserBit(stack + (page - STACK_BOTTOM / PAGE_SIZE) * PAGE_SIZE, USER_FLAGS);
    }
    forall page | 0 <= page < PAGES && !(STACK_BOTTOM / PAGE_SIZE <= page < STACK_TOP / PAGE_SIZE)
                  && (forall i | 0 <= i < |segments| :: !OnSegment(segments[i], page))
      ensures Pte(ram', c, page) == Pte(ram, c, page)
    {
      OverlaidOutside(segments, page, Pte(ram, c, page));
    }
  }

  lemma OffStackPage(h: ProgramHeader, page: nat)
    requires OffStack(h) && OnSegment(h, page)
    ensures !(STACK_BOTTOM / PAGE_SIZE <= page < STACK_TOP / PAGE_SIZE)
  {
  }

  lemma NotNull(h: ProgramHeader, v: u32)
    requires Loadable(h) && h.vaddr <= v
    ensures v != 0
  {
  }

  /** A raw binary is mapped like one writable segment at the start of the program area. */
  function MapBinary(ram: Ram, directory: u32, image: u32, size: u32): (r: (Status, Ram))
    requires IsFrameAddress(directory)
  {
    MapTo(ram, directory, PROGRAM_START, image, AlignUp(Wrap(image + size)), USER_FLAGS)
  }

  function BinarySegment(image: u32, size: u32): ProgramHeader {
    ProgramHeader(PT_LOAD, 0, PROGRAM_START, image, size, size, PF_W)
  }

  lemma {:induction false} BinaryIsOneSegment(ram: Ram, directory: u32, image: u32, size: u32)
    requires IsFrameAddress(directory)
    ensures MapBinary(ram, directory, image, size) == MapSegments(ram, directory, [BinarySegment(image, size)])
    ensures image % PAGE_SIZE == 0 && image + size <= WORD_VALUES - PAGE_SIZE && size <= MAX_SPAN ==>
              Loadable(BinarySegment(image, size)) && Separate([BinarySegment(image, size)])
  {
    hide MapTo;
    var h := BinarySegment(image, size);
    SegmentFlagsSmall(h);
    assert MapSegments(ram, directory, [h][1..]) == MapSegments(ram, directory, []);
    var r := MapTo(ram, directory, PROGRAM_START, image, SegmentEnd(h), USER_FLAGS);
    assert MapSegments(r.1, directory, [h][1..]) == (AllOk, r.1);
  }

  // ----- loading

  /** The state of the loader: the headers with the physical addresses assigned so far, the indices
      of the loadable ones, and the memory taken for segments that have no bytes in the file. */
  datatype Load = Load(status: Status, mem: Mem, headers: seq<ProgramHeader>, loaded: seq<nat>, noBits: seq<u32>)

  predicate WantsMemory(h: ProgramHeader) {
    h.kind == PT_LOAD && h.filesz == 0
  }

  /** Every request the loader makes from header i on fits when it is made. */
  ghost predicate RequestsFit(m: Mem, headers: seq<ProgramHeader>, i: nat)
    requires i <= |headers|
    decreases |headers| - i
  {
    if i == |headers| then true
    else if WantsMemory(headers[i]) then
      && (headers[i].memsz > 0 ==> Fits(m.table, TotalBlocks(headers[i].memsz)))
      && RequestsFit(Take(m, headers[i].memsz, Kernel).1, headers, i + 1)
    else RequestsFit(m, headers, i + 1)
  }

  /** One header. */
  ghost function LoadOne(l: Load, elfMem: u32, i: nat): Load
    requires i < |l.headers|
    requires WantsMemory(l.headers[i]) && l.headers[i].memsz > 0 ==> Fits(l.mem.table, TotalBlocks(l.headers[i].memsz))
  {
    var h := l.headers[i];
    if h.kind != PT_LOAD then l
    else if h.filesz == 0 then
      var (ptr, m) := Take(l.mem, h.memsz, Kernel);
      var headers := l.headers[i := h.(paddr := ptr)];
      if ptr == 0 then l.(status := ENoMem, mem := m, headers := headers)
      else Load(l.status, m, headers, l.loaded + [i], l.noBits + [ptr])
    else
      l.(headers := l.headers[i := h.(paddr := Wrap(elfMem + h.offset))], loaded := l.loaded + [i])
  }

  /** A header stops the load exactly when its segment has no bytes in the file, and either none in
      memory, or the heap has no free window of one block more and its last block is taken. */
  lemma LoadStopsExactly(l: Load, elfMem: u32, i: nat)
    requires Sound(l.mem) && i < |l.headers| && l.status == AllOk
    requires WantsMemory(l.headers[i]) && l.headers[i].memsz > 0 ==> Fits(l.mem.table, TotalBlocks(l.headers[i].memsz))
    ensures var h, t := l.headers[i], l.mem.table;
            LoadOne(l, elfMem, i).status != AllOk <==>
              h.kind == PT_LOAD && h.filesz == 0
              && (h.memsz == 0 || (Taken(t[HEAP_BLOCKS - 1]) && forall p: nat :: !Window(t, TotalBlocks(h.memsz), p)))
    ensures LoadOne(l, elfMem, i).status == AllOk || LoadOne(l, elfMem, i).status == ENoMem
  {
    hide Accounts, Fits, StartBlock;
    if WantsMemory(l.headers[i]) {
      TakeSound(l.mem, l.headers[i].memsz, Kernel);
      LastBlockTaken(l.mem.table);
    }
  }

  /** Headers i, i+1, ..., up to the first without memory. */
  ghost function LoadFrom(l: Load, elfMem: u32, i: nat): (l': Load)
    requires i <= |l.headers| && RequestsFit(l.mem, l.headers, i)
    decreases |l.headers| - i
  {
    if i == |l.headers| || l.status != AllOk then l
    else
      var l' := LoadOne(l, elfMem, i);
      if l'.status != AllOk then l'
      else
        LoadOneFits(l, elfMem, i);
        LoadFrom(l', elfMem, i + 1)
  }

  lemma {:induction false} LoadOneFits(l: Load, elfMem: u32, i: nat)
    requires i < |l.headers| && RequestsFit(l.mem, l.headers, i)
    ensures |LoadOne(l, elfMem, i).headers| == |l.headers|
    ensures RequestsFit(LoadOne(l, elfMem, i).mem, LoadOne(l, elfMem, i).headers, i + 1)
  {
    hide Take, Fits;
    var l' := LoadOne(l, elfMem, i);
    FitsIgnoresDone(l'.mem, l.headers, l'.headers, i + 1);
  }

  lemma {:induction false} FitsIgnoresDone(m: Mem, headers: seq<ProgramHeader>, headers': seq<ProgramHeader>, i: nat)
    requires i <= |headers| == |headers'|
    requires forall k | i <= k < |headers| :: headers'[k] == headers[k]
    ensures RequestsFit(m, headers, i) == RequestsFit(m, headers', i)
    decreases |headers| - i
  {
    hide Fits, Take;
    if i < |headers| {
      FitsIgnoresDone(m, headers, headers', i + 1);
      if WantsMemory(headers[i]) && (headers[i].memsz > 0 ==> Fits(m.table, TotalBlocks(headers[i].memsz))) {
        FitsIgnoresDone(Take(m, headers[i].memsz, Kernel).1, headers, headers', i + 1);
      }
    }
  }

  /** A load that fails does so at the first header that gets no memory: this one is left with address 0,
      those behind it as they were, and the loaded ones come before it. */
  lemma {:induction false} LoadStopsAtFirst(l: Load, elfMem: u32, i: nat)
    requires i <= |l.headers| && RequestsFit(l.mem, l.headers, i) && l.status == AllOk && Sound(l.mem)
    requires forall j | 0 <= j < |l.loaded| :: l.loaded[j] < i
    requires LoadFrom(l, elfMem, i).status != AllOk
    ensures var l' := LoadFrom(l, elfMem, i);
            && l'.status == ENoMem && |l'.headers| == |l.headers|
            && exists k :: i <= k < |l.headers| && StoppedAt(l, l', k)
    decreases |l.headers| - i
  {
    hide Sound, Fits, Take, StartBlock;
    var l1 := LoadOne(l, elfMem, i);
    LoadOneFits(l, elfMem, i);
    if l1.status != AllOk {
      assert StoppedAt(l, l1, i);
    } else {
      OneHeaderSound(l, elfMem, i);
      LoadStopsAtFirst(l1, elfMem, i + 1);
      var l' := LoadFrom(l1, elfMem, i + 1);
      var k :| i + 1 <= k < |l.headers| && StoppedAt(l1, l', k);
      assert StoppedAt(l, l', k);
    }
  }

  ghost predicate StoppedAt(l: Load, l': Load, k: nat) {
    && k < |l.headers| == |l'.headers| && WantsMemory(l.headers[k]) && l'.headers[k] == l.headers[k].(paddr := 0)
    && (forall j | k < j < |l.headers| :: l'.headers[j] == l.headers[j])
    && (forall j | 0 <= j < |l'.loaded| :: l'.loaded[j] < k)
  }

  lemma OneHeaderSound(l: Load, elfMem: u32, i: nat)
    requires i < |l.headers| && Sound(l.mem)
    requires WantsMemory(l.headers[i]) && l.headers[i].memsz > 0 ==> Fits(l.mem.table, TotalBlocks(l.headers[i].memsz))
    ensures Sound(LoadOne(l, elfMem, i).mem)
  {
    hide Accounts, Fits, StartBlock;
    if WantsMemory(l.headers[i]) {
      TakeSound(l.mem, l.headers[i].memsz, Kernel);
    }
  }

  /** A segment with its physical memory: bytes of the file where the file has them, and a run of its
      own, long enough for it and vacant when loading began, where it has not. */
  predicate Placed(h: ProgramHeader, h': ProgramHeader, was: seq<Cell>, own: seq<Cell>, elfMem: u32) {
    && h' == h.(paddr := h'.paddr)
    && (h.filesz != 0 ==> h'.paddr == Wrap(elfMem + h.offset))
    && (h.filesz == 0 ==>
          && h.memsz > 0 && h'.paddr % PAGE_SIZE == 0
          && var b := h'.paddr / PAGE_SIZE - HEAP_FRAME; var n := TotalBlocks(h.memsz);
          && 0 <= b && b + n <= |own| == |was| && h.memsz <= n * BLOCK_SIZE
          && forall k | b <= k < b + n :: was[k].Vacant? && own[k] == Held(b, n, Kernel))
  }

  /** The loadable headers before i, in order, are the loaded ones, and each has its memory. */
  ghost predicate LoadedSoFar(was: Load, l: Load, elfMem: u32, i: nat) {
    && Sound(l.mem) && |was.mem.own| == HEAP_BLOCKS && |l.headers| == |was.headers| && i <= |l.headers|
    && (forall b | 0 <= b < HEAP_BLOCKS && l.mem.own[b] != was.mem.own[b] :: was.mem.own[b].Vacant?)
    && (forall k | 0 <= k < i && was.headers[k].kind == PT_LOAD ::
          k in l.loaded && Placed(was.headers[k], l.headers[k], was.mem.own, l.mem.own, elfMem))
    && (forall k | 0 <= k < |l.headers| && !(k < i && was.headers[k].kind == PT_LOAD) :: l.headers[k] == was.headers[k])
    && (forall j | 0 <= j < |l.loaded| :: l.loaded[j] < i && was.headers[l.loaded[j]].kind == PT_LOAD)
    && (forall j, k | 0 <= j < k < |l.loaded| :: l.loaded[j] < l.loaded[k])
  }

  lemma LoadOneKeeps(was: Load, l: Load, elfMem: u32, i: nat)
    requires LoadedSoFar(was, l, elfMem, i) && i < |l.headers| && l.status == AllOk
    requires WantsMemory(l.headers[i]) && l.headers[i].memsz > 0 ==> Fits(l.mem.table, TotalBlocks(l.headers[i].memsz))
    ensures Sound(LoadOne(l, elfMem, i).mem)
    ensures LoadOne(l, elfMem, i).status == AllOk ==> LoadedSoFar(was, LoadOne(l, elfMem, i), elfMem, i + 1)
  {
    hide Accounts, Fits, StartBlock, Placed;
    var h, l' := l.headers[i], LoadOne(l, elfMem, i);
    if h.kind == PT_LOAD {
      if h.filesz == 0 {
        TakeSound(l.mem, h.memsz, Kernel);
      }
      if l'.status == AllOk {
        assert l'.loaded[|l.loaded|] == i;
        NewlyPlaced(was, l, elfMem, i);
        forall k | 0 <= k < i && was.headers[k].kind == PT_LOAD
          ensures k in l'.loaded && Placed(was.headers[k], l'.headers[k], was.mem.own, l'.mem.own, elfMem)
        {
          StaysPlaced(was, l, elfMem, i, k);
          var j :| 0 <= j < |l.loaded| && l.loaded[j] == k;
          assert l'.loaded[j] == k;
        }
      }
    }
  }

  lemma NewlyPlaced(was: Load, l: Load, elfMem: u32, i: nat)
    requires LoadedSoFar(was, l, elfMem, i) && i < |l.headers| && l.headers[i].kind == PT_LOAD && l.status == AllOk
    requires WantsMemory(l.headers[i]) && l.headers[i].memsz > 0 ==> Fits(l.mem.table, TotalBlocks(l.headers[i].memsz))
    requires LoadOne(l, elfMem, i).status == AllOk
    ensures Placed(was.headers[i], LoadOne(l, elfMem, i).headers[i], was.mem.own, LoadOne(l, elfMem, i).mem.own, elfMem)
  {
    hide Accounts, Fits, StartBlock;
    var h := l.headers[i];
    assert h == was.headers[i];
    if h.filesz == 0 {
      TakeSound(l.mem, h.memsz, Kernel);
    }
  }

  lemma StaysPlaced(was: Load, l: Load, elfMem: u32, i: nat, k: nat)
    requires LoadedSoFar(was, l, elfMem, i) && k < i < |l.headers|
    requires WantsMemory(l.headers[i]) && l.headers[i].memsz > 0 ==> Fits(l.mem.table, TotalBlocks(l.headers[i].memsz))
    requires Placed(was.headers[k], l.headers[k], was.mem.own, l.mem.own, elfMem)
    ensures Placed(was.headers[k], LoadOne(l, elfMem, i).headers[k], was.mem.own, LoadOne(l, elfMem, i).mem.own, elfMem)
  {
    hide Accounts, Fits, StartBlock;
    if WantsMemory(l.headers[i]) {
      TakeSound(l.mem, l.headers[i].memsz, Kernel);
    }
    var own' := LoadOne(l, elfMem, i).mem.own;
    if was.headers[k].filesz == 0 {
      var b := l.headers[k].paddr / PAGE_SIZE - HEAP_FRAME;
      var n := TotalBlocks(was.headers[k].memsz);
      forall x | b <= x < b + n
        ensures own'[x] == Held(b, n, Kernel)
      {
        assert l.mem.own[x] == Held(b, n, Kernel);
      }
    }
  }

  lemma {:induction false} LoadFromKeeps(was: Load, l: Load, elfMem: u32, i: nat)
    requires i <= |l.headers| && RequestsFit(l.mem, l.headers, i)
    requires LoadedSoFar(was, l, elfMem, i) && l.status == AllOk
    ensures LoadFrom(l, elfMem, i).status == AllOk ==>
              LoadedSoFar(was, LoadFrom(l, elfMem, i), elfMem, |l.headers|)
    decreases |l.headers| - i
  {
    hide Fits, LoadOne, LoadedSoFar;
    if i < |l.headers| {
      LoadOneKeeps(was, l, elfMem, i);
      LoadOneFits(l, elfMem, i);
      if LoadOne(l, elfMem, i).status == AllOk {
        LoadFromKeeps(was, LoadOne(l, elfMem, i), elfMem, i + 1);
      }
    }
  }

  /** A load that succeeds gives every loadable segment its physical memory; segments without bytes in
      the file get runs of the heap that nobody had, each its own. */
  lemma {:induction false} LoadPlacesSegments(m: Mem, headers: seq<ProgramHeader>, elfMem: u32)
    requires Sound(m) && RequestsFit(m, headers, 0)
    ensures var was := Load(AllOk, m, headers, [], []);
            LoadFrom(was, elfMem, 0).status == AllOk ==> LoadedSoFar(was, LoadFrom(was, elfMem, 0), elfMem, |headers|)
  {
    hide LoadFrom, RequestsFit;
    LoadFromKeeps(Load(AllOk, m, headers, [], []), Load(AllOk, m, headers, [], []), elfMem, 0);
  }

  // ----- the table of allocations

  /** The addresses of the segments before header i that have no bytes in the file, in order. */
  function NoBitsAddresses(headers: seq<ProgramHeader>, i: nat): (r: seq<u32>)
    requires i <= |headers|
  {
    if i == 0 then []
    else
      var h := headers[i - 1];
      NoBitsAddresses(headers, i - 1) + (if h.kind == 1 && h.filesz == 0 then [h.paddr] else [])
  }

  lemma {:induction false} AddressesOfPrefix(headers: seq<ProgramHeader>, headers': seq<ProgramHeader>, i: nat)
    requires i <= |headers| == |headers'| && forall k | 0 <= k < i :: headers'[k] == headers[k]
    ensures NoBitsAddresses(headers', i) == NoBitsAddresses(headers, i)
    decreases i
  {
    if i > 0 {
      AddressesOfPrefix(headers, headers', i - 1);
    }
  }

  /** The blocks that changed hands are those of the runs that start at these addresses, and were vacant. */
  ghost predicate ChangedExactly(was: seq<Cell>, own: seq<Cell>, noBits: seq<u32>) {
    && |own| == |was| == HEAP_BLOCKS
    && forall b | 0 <= b < HEAP_BLOCKS ::
         && (own[b] != was[b] <==> own[b].Held? && (HEAP_FRAME + own[b].first) * PAGE_SIZE in noBits)
         && (own[b] != was[b] ==> was[b].Vacant?)
  }

  /** The table of the loader lists the allocations it has made. */
  ghost predicate Recorded(was: seq<Cell>, l: Load, i: nat) {
    && i <= |l.headers| && l.noBits == NoBitsAddresses(l.headers, i)
    && ChangedExactly(was, l.mem.own, l.noBits)
  }

  lemma AllotChanges(was: seq<Cell>, own: seq<Cell>, noBits: seq<u32>, p: nat, n: nat, ptr: u32)
    requires ChangedExactly(was, own, noBits) && WholeRuns(own)
    requires n >= 1 && p + n <= HEAP_BLOCKS && ptr == (HEAP_FRAME + p) * PAGE_SIZE
    requires forall b | p <= b < p + n :: own[b].Vacant?
    ensures ChangedExactly(was, Allot(own, p, n, Kernel), noBits + [ptr])
  {
    hide WholeRuns;
    var own' := Allot(own, p, n, Kernel);
    forall b | 0 <= b < HEAP_BLOCKS
      ensures own'[b] != was[b] <==> own'[b].Held? && (HEAP_FRAME + own'[b].first) * PAGE_SIZE in noBits + [ptr]
      ensures own'[b] != was[b] ==> was[b].Vacant?
    {
      if !(p <= b < p + n) && own[b].Held? {
        RunBeginsHeld(own, b);
      }
    }
  }

  lemma RunBeginsHeld(own: seq<Cell>, b: nat)
    requires WholeRuns(own) && b < |own| && own[b].Held?
    ensures own[b].first < |own| && own[own[b].first] == own[b]
  {
    assert IsRun(own, own[b].first, own[b].len, own[b].who);
  }

  lemma LoadOneRecords(was: seq<Cell>, l: Load, elfMem: u32, i: nat)
    requires Sound(l.mem) && Recorded(was, l, i) && i < |l.headers| && l.status == AllOk
    requires WantsMemory(l.headers[i]) && l.headers[i].memsz > 0 ==> Fits(l.mem.table, TotalBlocks(l.headers[i].memsz))
    requires LoadOne(l, elfMem, i).status == AllOk
    ensures Sound(LoadOne(l, elfMem, i).mem) && Recorded(was, LoadOne(l, elfMem, i), i + 1)
  {
    hide WholeRuns, Fits, StartBlock, ChangedExactly, NoBitsAddresses, MarkTaken;
    var h, l' := l.headers[i], LoadOne(l, elfMem, i);
    AddressesOfPrefix(l.headers, l'.headers, i);
    OneAddressMore(l'.headers, i);
    if WantsMemory(h) {
      TakeSound(l.mem, h.memsz, Kernel);
      AllotChanges(was, l.mem.own, l.noBits, MallocBlock(l.mem.table, h.memsz).value, TotalBlocks(h.memsz),
                   Take(l.mem, h.memsz, Kernel).0);
    }
  }

  lemma {:induction false} OneAddressMore(headers: seq<ProgramHeader>, i: nat)
    requires i < |headers|
    ensures var h := headers[i];
            NoBitsAddresses(headers, i + 1)
            == NoBitsAddresses(headers, i) + (if h.kind == 1 && h.filesz == 0 then [h.paddr] else [])
  {
  }

  lemma {:induction false} LoadFromRecords(was: seq<Cell>, l: Load, elfMem: u32, i: nat)
    requires Sound(l.mem) && Recorded(was, l, i) && l.status == AllOk && RequestsFit(l.mem, l.headers, i)
    requires LoadFrom(l, elfMem, i).status == AllOk
    ensures |LoadFrom(l, elfMem, i).headers| == |l.headers| && Recorded(was, LoadFrom(l, elfMem, i), |l.headers|)
    decreases |l.headers| - i
  {
    hide Sound, Fits, LoadOne, Recorded;
    RecordedBound(was, l, i);
    if i < |l.headers| {
      LoadOneRecords(was, l, elfMem, i);
      LoadOneFits(l, elfMem, i);
      LoadFromRecords(was, LoadOne(l, elfMem, i), elfMem, i + 1);
    }
  }

  lemma RecordedBound(was: seq<Cell>, l: Load, i: nat)
    requires Recorded(was, l, i)
    ensures i <= |l.headers|
  {
  }

  /** After a load that succeeds, the table of allocations holds, in order, the addresses of exactly the
      loadable segments without bytes in the file; and the blocks that changed hands are exactly those
      of the runs that start there. */
  lemma {:induction false} LoadRecordsAllocations(m: Mem, headers: seq<ProgramHeader>, elfMem: u32)
    requires Sound(m) && RequestsFit(m, headers, 0)
    requires LoadFrom(Load(AllOk, m, headers, [], []), elfMem, 0).status == AllOk
    ensures var l := LoadFrom(Load(AllOk, m, headers, [], []), elfMem, 0);
            && |l.headers| == |headers| && l.noBits == NoBitsAddresses(l.headers, |headers|)
            && |l.noBits| == NoBitsCount(headers)
            && ChangedExactly(m.own, l.mem.own, l.noBits)
  {
    hide LoadFrom, RequestsFit, NoBitsAddresses, LoadedSoFar;
    var was := Load(AllOk, m, headers, [], []);
    NoAddressesYet(headers);
    assert Recorded(m.own, was, 0);
    LoadFromRecords(m.own, was, elfMem, 0);
    LoadPlacesSegments(m, headers, elfMem);
    KindsKept(was, LoadFrom(was, elfMem, 0), elfMem);
    CountOfAddresses(LoadFrom(was, elfMem, 0).headers, headers, |headers|);
  }

  lemma {:induction false} NoAddressesYet(headers: seq<ProgramHeader>)
    ensures NoBitsAddresses(headers, 0) == []
  {
  }

  lemma KindsKept(was: Load, l: Load, elfMem: u32)
    requires LoadedSoFar(was, l, elfMem, |was.headers|)
    ensures |l.headers| == |was.headers|
    ensures forall k | 0 <= k < |was.headers| :: WantsMemory(l.headers[k]) <==> WantsMemory(was.headers[k])
  {
    forall k | 0 <= k < |was.headers|
      ensures WantsMemory(l.headers[k]) <==> WantsMemory(was.headers[k])
    {
      assert was.headers[k].kind == PT_LOAD ==> Placed(was.headers[k], l.headers[k], was.mem.own, l.mem.own, elfMem);
    }
  }

  lemma {:induction false} CountOfAddresses(headers': seq<ProgramHeader>, headers: seq<ProgramHeader>, i: nat)
    requires i <= |headers| == |headers'|
    requires forall k | 0 <= k < |headers| :: WantsMemory(headers'[k]) <==> WantsMemory(headers[k])
    ensures |NoBitsAddresses(headers', i)| == NoBitsCount(headers[..i])
    ensures i == |headers| ==> |NoBitsAddresses(headers', i)| == NoBitsCount(headers)
    decreases i
  {
    assert headers[..|headers|] == headers;
    if i > 0 {
      CountOfAddresses(headers', headers, i - 1);
      assert headers[..i] == headers[..i - 1] + [headers[i - 1]];
      CountOneMore(headers[..i - 1], headers[i - 1]);
    }
  }

  lemma {:induction false} CountOneMore(headers: seq<ProgramHeader>, h: ProgramHeader)
    ensures NoBitsCount(headers + [h]) == NoBitsCount(headers) + (if WantsMemory(h) then 1 else 0)
    decreases |headers|
  {
    if headers == [] {
      assert ([] + [h])[1..] == [];
    } else {
      assert (headers + [h])[1..] == headers[1..] + [h];
      CountOneMore(headers[1..], h);
    }
  }

  /** The loaded headers, in order. */
  function Segments(headers: seq<ProgramHeader>, loaded: seq<nat>): (segments: seq<ProgramHeader>)
    requires forall j | 0 <= j < |loaded| :: loaded[j] < |headers|
    ensures |segments| == |loaded| && forall j | 0 <= j < |loaded| :: segments[j] == headers[loaded[j]]
  {
    seq(|loaded|, j requires 0 <= j < |loaded| => headers[loaded[j]])
  }

  /** What a file must look like for its segments to be mappable: aligned in the file and in the
      address space. */
  predicate WellPlaced(h: ProgramHeader, elfMem: u32) {
    && h.vaddr % PAGE_SIZE == 0 && h.vaddr != 0 && h.memsz <= MAX_SPAN && h.vaddr + h.memsz <= WORD_VALUES
    && (h.filesz != 0 ==>
          (elfMem + h.offset) % PAGE_SIZE == 0 && elfMem + h.offset + h.memsz <= WORD_VALUES - PAGE_SIZE)
  }

  /** Load, then map: every byte of every loadable segment translates to the physical memory the
      loader assigned to the segment, plus its offset. */
  lemma {:induction false} LoadedProgramMapped(m: Mem, headers: seq<ProgramHeader>, elfMem: u32,
                                               ram: Ram, c: Chunk, stack: u32)
    requires Sound(m) && RequestsFit(m, headers, 0)
    requires LoadFrom(Load(AllOk, m, headers, [], []), elfMem, 0).status == AllOk
    requires forall k | 0 <= k < |headers| && headers[k].kind == PT_LOAD :: WellPlaced(headers[k], elfMem)
    requires ChunkOk(ram, c) && stack % PAGE_SIZE == 0 && stack + STACK_SIZE < WORD_VALUES
    ensures var l := LoadFrom(Load(AllOk, m, headers, [], []), elfMem, 0);
            && c.DirectoryAddress() < WORD_VALUES
            && (forall j | 0 <= j < |l.loaded| :: l.loaded[j] < |l.headers|)
            && var segments := Segments(l.headers, l.loaded);
            && (Separate(segments) ==>
                  && MapProgram(ram, c.DirectoryAddress(), segments, stack).0 == AllOk
                  && Mapped(ram, MapProgram(ram, c.DirectoryAddress(), segments, stack).1, c, segments, stack))
  {
    hide LoadFrom, RequestsFit, MapProgram, Mapped, ChunkOk, Separate, Accounts, Placed, WellPlaced, Loadable;
    LoadPlacesSegments(m, headers, elfMem);
    RemapNothing(ram, c, 0, 0, 0);
    var l := LoadFrom(Load(AllOk, m, headers, [], []), elfMem, 0);
    var segments := Segments(l.headers, l.loaded);
    forall j | 0 <= j < |segments|
      ensures Loadable(segments[j])
    {
      PlacedIsLoadable(headers[l.loaded[j]], segments[j], m.own, l.mem.own, elfMem);
    }
    if Separate(segments) {
      MapProgramExact(ram, c, segments, stack);
    }
  }

  lemma PlacedIsLoadable(h: ProgramHeader, h': ProgramHeader, was: seq<Cell>, own: seq<Cell>, elfMem: u32)
    requires Placed(h, h', was, own, elfMem) && WellPlaced(h, elfMem) && |own| == HEAP_BLOCKS
    ensures Loadable(h')
  {
    if h.filesz != 0 {
      assert Wrap(elfMem + h.offset) == elfMem + h.offset;
    } else {
      assert h'.paddr / PAGE_SIZE - HEAP_FRAME + TotalBlocks(h.memsz) <= HEAP_BLOCKS;
    }
  }

  // ----- the loops of the code

  method MapElf(mem: Memory, chunk: u32, segments: seq<ProgramHeader>, ghost c: Chunk) returns (res: Status)
    requires mem.ram.Length == RAM_WORDS && ChunkOk(mem.Words(), c) && chunk == c.Address()
    modifies mem.ram
    ensures c.DirectoryAddress() < WORD_VALUES && ChunkOk(mem.Words(), c)
    ensures (res, mem.Words()) == MapSegments(old(mem.Words()), c.DirectoryAddress(), segments)
  {
    hide ChunkOk, PageTables.MapTo, AlignUp, Or32, NoAliases;
    ChunkWords(mem.Words(), c, 0);
    res := AllOk;
    for i := 0 to |segments|
      invariant res == AllOk && ChunkOk(mem.Words(), c)
      invariant MapSegments(mem.Words(), c.DirectoryAddress(), segments[i..])
                == MapSegments(old(mem.Words()), c.DirectoryAddress(), segments)
    {
      var h := segments[i];
      AndTwo(h.flags);
      var flags: u32 := READ_ONLY_FLAGS;
      if BitAnd(h.flags, PF_W) != 0 {
        flags := Or32(flags, IS_WRITABLE);
      }
      SegmentFlagsSmall(h);
      ChunkWords(mem.Words(), c, 0);
      MapToKeepsChunk(mem.Words(), c, h.vaddr, h.paddr, SegmentEnd(h), flags);
      res := mem.MapTo(chunk, h.vaddr, h.paddr, AlignUp(Wrap(h.paddr + h.memsz)), flags);
      if res != AllOk {
        return;
      }
      assert segments[i..][1..] == segments[i + 1..];
    }
  }

  lemma SegmentFlagsSmall(h: ProgramHeader)
    ensures SegmentFlags(h) < PAGE_SIZE
    ensures SegmentFlags(h) == if Writable(h.flags) then USER_FLAGS else READ_ONLY_FLAGS
  {
    OrFlags(READ_ONLY_FLAGS, IS_WRITABLE);
    OrStep(5, 2);
    OrStep(2, 1);
  }

  /** Segments of an ELF file, then the stack. */
  method MapMemory(mem: Memory, chunk: u32, segments: seq<ProgramHeader>, stack: u32, ghost c: Chunk)
    returns (res: Status)
    requires mem.ram.Length == RAM_WORDS && ChunkOk(mem.Words(), c) && chunk == c.Address()
    modifies mem.ram
    ensures c.DirectoryAddress() < WORD_VALUES
    ensures (res, mem.Words()) == MapProgram(old(mem.Words()), c.DirectoryAddress(), segments, stack)
  {
    hide ChunkOk, PageTables.MapTo, AlignUp, MapSegments, NoAliases;
    res := MapElf(mem, chunk, segments, c);
    if res != AllOk {
      return;
    }
    ChunkWords(mem.Words(), c, 0);
    res := mem.MapTo(chunk, STACK_BOTTOM, stack, AlignUp(Wrap(stack + STACK_SIZE)), USER_FLAGS);
  }

  function NoBitsCount(headers: seq<ProgramHeader>): nat {
    if headers == [] then 0 else (if WantsMemory(headers[0]) then 1 else 0) + NoBitsCount(headers[1..])
  }

  /** The loop over the program headers, which are updated where they lie in the file image. */
  method ProcessHeaders(mem: Memory, elfMem: u32, headers: array<ProgramHeader>)
    returns (res: Status, loaded: seq<nat>, noBits: seq<u32>)
    requires mem.Valid() && RequestsFit(mem.State(), headers[..], 0) && NoBitsCount(headers[..]) <= MAX_NOBITS
    requires headers as object != mem.heap.table.entries as object && headers as object != mem.ram as object
    modifies mem, mem.heap.table.entries, headers
    ensures mem.Valid()
    ensures Load(res, mem.State(), headers[..], loaded, noBits)
            == LoadFrom(Load(AllOk, old(mem.State()), old(headers[..]), [], []), elfMem, 0)
  {
    hide Accounts, Fits, Take, Sound;
    ghost var was := Load(AllOk, mem.State(), headers[..], [], []);
    loaded, noBits := [], [];
    for i := 0 to headers.Length
      invariant mem.Valid() && RequestsFit(mem.State(), headers[..], i)
      invariant LoadFrom(Load(AllOk, mem.State(), headers[..], loaded, noBits), elfMem, i) == LoadFrom(was, elfMem, 0)
    {
      ghost var l := Load(AllOk, mem.State(), headers[..], loaded, noBits);
      LoadOneFits(l, elfMem, i);
      if headers[i].kind == PT_LOAD {
        if headers[i].filesz == 0 {
          var ptr := mem.Mallock(headers[i].memsz, Kernel);
          headers[i] := headers[i].(paddr := ptr);
          if ptr == 0 {
            return ENoMem, loaded, noBits;
          }
          noBits := noBits + [ptr];
        } else {
          headers[i] := headers[i].(paddr := Wrap(elfMem + headers[i].offset));
        }
        loaded := loaded + [i];
      }
      assert LoadOne(l, elfMem, i) == Load(AllOk, mem.State(), headers[..], loaded, noBits);
    }
    return AllOk, loaded, noBits;
  }
}
