/** Starting a program as a run of the memory system: its file is loaded, its stack is allocated, its
    task is created, and its segments and stack are mapped. */
module ProgramStart {
  import opened Words
  import opened Status
  import opened HeapTable
  import opened BlockAccounts
  import opened PageTables
  import opened MemoryState
  import opened AddressSpaces
  import opened ProcessMemory
  import opened MemorySystem
  import opened MemoryTheorems
  import opened ElfImage

  // ----- accounts that only grow

  /** Blocks that were held are held as before, or have been handed over to the image of the task. */
  ghost predicate Grown(own: seq<Cell>, own': seq<Cell>, pid: nat) {
    && |own'| == |own|
    && (forall b | 0 <= b < |own| && own[b].Held? ::
          own'[b] == own[b] || (own[b].who == Kernel && own'[b] == own[b].(who := Image(pid))))
    && (forall a, b | 0 <= a < |own| && 0 <= b < |own| && own[a].Held? && own[b] == own[a] :: own'[b] == own'[a])
  }

  lemma GrownTransitive(own: seq<Cell>, own1: seq<Cell>, own2: seq<Cell>, pid: nat)
    requires Grown(own, own1, pid) && Grown(own1, own2, pid)
    ensures Grown(own, own2, pid)
  {
    forall a, b | 0 <= a < |own| && 0 <= b < |own| && own[a].Held? && own[b] == own[a]
      ensures own2[b] == own2[a]
    {
      assert own1[b] == own1[a];
    }
  }

  /** A range that may be mapped may still be mapped later. */
  lemma RangeStays(own: seq<Cell>, own': seq<Cell>, pid: nat, virt: u32, start: u32, end: u32)
    requires Grown(own, own', pid) && ImageRange(own, pid, virt, start, end)
    ensures ImageRange(own', pid, virt, start, end)
  {
    hide Mappable, BlocksForImage;
    BlocksStay(own, own', pid, start / PAGE_SIZE - HEAP_FRAME, end / PAGE_SIZE - HEAP_FRAME);
  }

  lemma BlocksStay(own: seq<Cell>, own': seq<Cell>, pid: nat, a: nat, end: int)
    requires Grown(own, own', pid) && a < |own| && own[a].Held? && BlocksForImage(own, pid, a, end)
    ensures BlocksForImage(own', pid, a, end)
  {
    forall b | a <= b < end
      ensures ForImage(own', pid, a, b)
    {
      assert ForImage(own, pid, a, b);
    }
  }

  lemma HandOverGrows(own: seq<Cell>, b: nat, pid: nat)
    requires b < |own| && own[b].Held? && (own[b].who == Kernel || own[b].who == Image(pid))
    ensures Grown(own, HandOver(own, b, pid), pid)
  {
  }

  // ----- mapping as operations

  function SegmentOp(pid: nat, h: ProgramHeader): Op {
    MapImage(pid, h.vaddr, h.paddr, SegmentEnd(h), SegmentFlags(h))
  }

  /** One operation for each segment that is not empty. */
  function SegmentOps(pid: nat, segments: seq<ProgramHeader>): seq<Op>
    decreases |segments|
  {
    if segments == [] then []
    else (if segments[0].memsz == 0 then [] else [SegmentOp(pid, segments[0])]) + SegmentOps(pid, segments[1..])
  }

  /** The memory of a segment may be mapped into the task. */
  ghost predicate Backed(own: seq<Cell>, pid: nat, h: ProgramHeader) {
    h.memsz > 0 ==> ImageRange(own, pid, h.vaddr, h.paddr, SegmentEnd(h))
  }

  /** A task in which only the image has grown, on exactly these segments. */
  ghost predicate ImageGrown(s: System, s': System, pid: nat, segments: seq<ProgramHeader>)
    requires pid in s.procs
  {
    && s'.mem.table == s.mem.table && Grown(s.mem.own, s'.mem.own, pid)
    && pid in s'.procs && s'.procs == s.procs[pid := s.procs[pid].(image := s'.procs[pid].image)]
    && (forall page :: page in s'.procs[pid].image <==> page in s.procs[pid].image || OnSome(segments, page))
  }

  ghost predicate OnSome(segments: seq<ProgramHeader>, page: nat) {
    exists i :: 0 <= i < |segments| && OnSegment(segments[i], page)
  }

  lemma OnSomeStep(segments: seq<ProgramHeader>, page: nat)
    requires segments != []
    ensures OnSome(segments, page) <==> OnSegment(segments[0], page) || OnSome(segments[1..], page)
  {
    hide OnSegment;
    if OnSome(segments[1..], page) {
      var i :| 0 <= i < |segments[1..]| && OnSegment(segments[1..][i], page);
      assert segments[i + 1] == segments[1..][i];
    }
    if i :| 0 < i < |segments| && OnSegment(segments[i], page) {
      assert segments[1..][i - 1] == segments[i];
    }
  }

  /** s' is s with the segments mapped into the task, as the code maps them. */
  ghost predicate SegmentsMapped(s: System, s': System, pid: nat, segments: seq<ProgramHeader>) {
    && pid in s.procs && s.procs[pid].chunk.DirectoryAddress() < WORD_VALUES
    && (AllOk, s'.mem.ram) == MapSegments(s.mem.ram, s.procs[pid].chunk.DirectoryAddress(), segments)
    && ImageGrown(s, s', pid, segments) && Inv(s')
  }

  /** One segment that is not empty, as an operation. */
  lemma OneSegment(s: System, pid: nat, h: ProgramHeader)
    requires Inv(s) && pid in s.procs && Loadable(h) && Backed(s.mem.own, pid, h) && h.memsz > 0
    ensures Enabled(s, SegmentOp(pid, h)) && SegmentsMapped(s, Step(s, SegmentOp(pid, h)), pid, [h])
  {
    hide Inv, ProcessOk, MapTo, ChunkHeld, PagesOk, DirectoryOk, SlotsOk, ImageOk, ChunkOk, NoAliases, HandOver,
         ImageWith, Remapped, SegmentFlags, SegmentEnd, PageCount, Loadable, Mappable;
    TaskOf(s, pid);
    SegmentMappable(h);
    StepKeeps(s, SegmentOp(pid, h));
    MapToExact(s.mem.ram, s.procs[pid].chunk, h.vaddr, h.paddr, SegmentEnd(h), SegmentFlags(h));
    HandOverGrows(s.mem.own, h.paddr / PAGE_SIZE - HEAP_FRAME, pid);
    var s' := Step(s, SegmentOp(pid, h));
    assert [h][1..] == [];
    forall page: nat
      ensures page in s'.procs[pid].image <==> page in s.procs[pid].image || OnSome([h], page)
    {
      OnSomeStep([h], page);
    }
    SingleSegment(s.mem.ram, s.procs[pid].chunk.DirectoryAddress(), h);
  }

  lemma {:induction false} SingleSegment(ram: Ram, directory: u32, h: ProgramHeader)
    requires IsFrameAddress(directory)
    ensures MapSegments(ram, directory, [h])
            == MapTo(ram, directory, h.vaddr, h.paddr, SegmentEnd(h), SegmentFlags(h))
  {
    hide MapTo;
    var r := MapTo(ram, directory, h.vaddr, h.paddr, SegmentEnd(h), SegmentFlags(h));
    assert [h][1..] == [];
    assert MapSegments(r.1, directory, [h][1..]) == (AllOk, r.1);
  }

  lemma EmptySegment(ram: Ram, directory: u32, h: ProgramHeader)
    requires IsFrameAddress(directory) && Loadable(h) && h.memsz == 0
    ensures MapTo(ram, directory, h.vaddr, h.paddr, SegmentEnd(h), SegmentFlags(h)) == (AllOk, ram)
    ensures forall page :: !OnSegment(h, page)
  {
    assert SegmentEnd(h) == h.paddr;
    MapNothing(ram, directory, h.vaddr, h.paddr, 0, SegmentFlags(h));
  }

  lemma NothingGrown(s: System, pid: nat)
    requires pid in s.procs
    ensures ImageGrown(s, s, pid, [])
  {
    assert s.procs == s.procs[pid := s.procs[pid].(image := s.procs[pid].image)];
  }

  lemma ImageGrownFurther(s: System, s1: System, s2: System, pid: nat, segments: seq<ProgramHeader>)
    requires pid in s.procs && segments != []
    requires ImageGrown(s, s1, pid, if segments[0].memsz == 0 then [] else [segments[0]])
    requires forall page :: segments[0].memsz == 0 ==> !OnSegment(segments[0], page)
    requires ImageGrown(s1, s2, pid, segments[1..])
    ensures ImageGrown(s, s2, pid, segments)
  {
    hide Grown, OnSegment, OnSome;
    GrownTransitive(s.mem.own, s1.mem.own, s2.mem.own, pid);
    forall page: nat
      ensures page in s2.procs[pid].image <==> page in s.procs[pid].image || OnSome(segments, page)
    {
      OnSomeStep(segments, page);
      OnSomeStep([segments[0]], page);
      assert [segments[0]][1..] == [];
      OnNone(page);
    }
  }

  lemma OnNone(page: nat)
    ensures !OnSome([], page)
  {
  }

  lemma BackedStays(own: seq<Cell>, own': seq<Cell>, pid: nat, h: ProgramHeader)
    requires Grown(own, own', pid) && Backed(own, pid, h)
    ensures Backed(own', pid, h)
  {
    if h.memsz > 0 {
      RangeStays(own, own', pid, h.vaddr, h.paddr, SegmentEnd(h));
    }
  }

  /** Mapping the segments is a run of the system. */
  lemma {:induction false} SegmentsRun(s: System, pid: nat, segments: seq<ProgramHeader>)
    requires Inv(s) && pid in s.procs
    requires forall i | 0 <= i < |segments| :: Loadable(segments[i]) && Backed(s.mem.own, pid, segments[i])
    ensures var r := Execute(s, SegmentOps(pid, segments));
            r.Some? && SegmentsMapped(s, r.value, pid, segments)
    decreases |segments|
  {
    hide Inv, Enabled, Step, MapTo, Loadable, SegmentOp, Backed, OnSome, Grown, OnSegment;
    TaskOf(s, pid);
    NothingGrown(s, pid);
    if segments != [] {
      var h, rest := segments[0], segments[1..];
      var s1 := s;
      if h.memsz == 0 {
        EmptySegment(s.mem.ram, s.procs[pid].chunk.DirectoryAddress(), h);
        assert SegmentOps(pid, segments) == SegmentOps(pid, rest);
      } else {
        OneSegment(s, pid, h);
        SingleSegment(s.mem.ram, s.procs[pid].chunk.DirectoryAddress(), h);
        s1 := Step(s, SegmentOp(pid, h));
        assert SegmentOps(pid, segments)[1..] == SegmentOps(pid, rest);
      }
      forall i | 0 <= i < |rest|
        ensures Loadable(rest[i]) && Backed(s1.mem.own, pid, rest[i])
      {
        assert rest[i] == segments[i + 1];
        BackedStays(s.mem.own, s1.mem.own, pid, rest[i]);
      }
      SegmentsRun(s1, pid, rest);
      var s2 := Execute(s1, SegmentOps(pid, rest)).value;
      ImageGrownFurther(s, s1, s2, pid, segments);
      assert Execute(s, SegmentOps(pid, segments)) == Some(s2);
      assert (AllOk, s1.mem.ram) == MapTo(s.mem.ram, s.procs[pid].chunk.DirectoryAddress(), h.vaddr, h.paddr,
                                          SegmentEnd(h), SegmentFlags(h));
    }
  }

  // ----- segments and stack

  /** The stack is mapped like one more writable segment. */
  function StackSegment(stack: u32): ProgramHeader {
    ProgramHeader(PT_LOAD, 0, STACK_BOTTOM, stack, STACK_SIZE, STACK_SIZE, PF_W)
  }

  function WithStack(segments: seq<ProgramHeader>, stack: u32): seq<ProgramHeader> {
    segments + [StackSegment(stack)]
  }

  lemma {:induction false} ProgramIsSegments(ram: Ram, directory: u32, segments: seq<ProgramHeader>, stack: u32)
    requires IsFrameAddress(directory)
    ensures MapProgram(ram, directory, segments, stack) == MapSegments(ram, directory, WithStack(segments, stack))
    decreases |segments|
  {
    hide MapTo, AlignUp;
    var all := WithStack(segments, stack);
    if segments == [] {
      SegmentFlagsSmall(StackSegment(stack));
      SingleSegment(ram, directory, StackSegment(stack));
      assert all == [StackSegment(stack)];
    } else {
      var h := segments[0];
      assert all[0] == h && all[1..] == WithStack(segments[1..], stack);
      var r := MapTo(ram, directory, h.vaddr, h.paddr, SegmentEnd(h), SegmentFlags(h));
      ProgramIsSegments(r.1, directory, segments[1..], stack);
    }
  }

  lemma {:induction false} StackLoadable(stack: u32)
    requires stack % PAGE_SIZE == 0 && stack + STACK_SIZE < WORD_VALUES
    ensures Loadable(StackSegment(stack))
    ensures FirstPage(StackSegment(stack)) == STACK_BOTTOM / PAGE_SIZE
    ensures FirstPage(StackSegment(stack)) + PageCount(StackSegment(stack)) == STACK_TOP / PAGE_SIZE
  {
  }

  ghost predicate PairwiseApart(segments: seq<ProgramHeader>) {
    forall i, j | 0 <= i < j < |segments| :: ApartFrom(segments[i], segments[j])
  }

  /** No two segments share a page and none reaches into the stack: the segments and the stack are
      apart. */
  lemma SeparateExactly(segments: seq<ProgramHeader>, stack: u32)
    requires stack % PAGE_SIZE == 0 && stack + STACK_SIZE < WORD_VALUES
    ensures PairwiseApart(WithStack(segments, stack)) <==> Separate(segments)
  {
    hide PageCount, FirstPage, StackSegment, Loadable;
    StackLoadable(stack);
    var all := WithStack(segments, stack);
    if PairwiseApart(all) {
      forall i | 0 <= i < |segments|
        ensures OffStack(segments[i])
      {
        assert ApartFrom(all[i], all[|segments|]);
      }
      forall i, j | 0 <= i < j < |segments|
        ensures ApartFrom(segments[i], segments[j])
      {
        assert ApartFrom(all[i], all[j]);
      }
    }
    if Separate(segments) {
      forall i, j | 0 <= i < j < |all|
        ensures ApartFrom(all[i], all[j])
      {
        assert OffStack(segments[i]);
      }
    }
  }

  // ----- when a program can write to page tables

  /** The memory of the segment, rounded up to pages, covers heap block b. */
  predicate Covers(h: ProgramHeader, b: nat) {
    h.paddr / PAGE_SIZE <= HEAP_FRAME + b < h.paddr / PAGE_SIZE + PageCount(h)
  }

  /** Some page can be written from user mode and leads to a frame of an address space. */
  ghost predicate TablesExposed(own: seq<Cell>, ram: Ram, c: Chunk, page: nat) {
    && page < PAGES && NoAliases(c)
    && UserWritable(ram, c, page) && HoldsTables(own, Pte(ram, c, page) / PAGE_SIZE)
  }

  /** ... after the segments have been mapped. */
  ghost predicate ExposesTables(s: System, pid: nat, segments: seq<ProgramHeader>)
    requires pid in s.procs
  {
    var c := s.procs[pid].chunk;
    && c.DirectoryAddress() < WORD_VALUES
    && exists page :: TablesExposed(s.mem.own, MapSegments(s.mem.ram, c.DirectoryAddress(), segments).1, c, page)
  }

  ghost predicate CoversTables(own: seq<Cell>, segments: seq<ProgramHeader>, i: nat, b: nat) {
    && i < |segments| && Writable(segments[i].flags) && Covers(segments[i], b)
    && HoldsTables(own, HEAP_FRAME + b)
  }

  lemma {:induction false} SegmentsKeepDirectory(ram: Ram, c: Chunk, segments: seq<ProgramHeader>)
    requires ChunkOk(ram, c) && DirectoryOk(ram, c)
    requires forall i | 0 <= i < |segments| :: Loadable(segments[i])
    ensures c.DirectoryAddress() < WORD_VALUES
    ensures DirectoryOk(MapSegments(ram, c.DirectoryAddress(), segments).1, c)
    decreases |segments|
  {
    hide ChunkOk, DirectoryOk, Remapped, MapTo, NoAliases, SegmentEnd, SegmentFlags, PageCount, Mappable;
    RemapNothing(ram, c, 0, 0, 0);
    if segments != [] {
      var h := segments[0];
      SegmentMappable(h);
      MapToExact(ram, c, h.vaddr, h.paddr, SegmentEnd(h), SegmentFlags(h));
      var ram1 := MapTo(ram, c.DirectoryAddress(), h.vaddr, h.paddr, SegmentEnd(h), SegmentFlags(h)).1;
      DirectoryRemapped(ram, ram1, c, FirstPage(h), PageCount(h), h.paddr, SegmentFlags(h));
      RemappedKeepsChunk(ram, ram1, c, FirstPage(h), PageCount(h), h.paddr, SegmentFlags(h));
      SegmentsKeepDirectory(ram1, c, segments[1..]);
    }
  }

  /** The frame a page of a segment leads to. */
  lemma SegmentFrame(h: ProgramHeader, page: nat)
    requires Loadable(h) && OnSegment(h, page)
    ensures page < PAGES && SegmentEntry(h, page) >= 0
    ensures SegmentEntry(h, page) / PAGE_SIZE == h.paddr / PAGE_SIZE + (page - FirstPage(h))
  {
    hide SegmentFlags;
    SegmentMappable(h);
    FrameOfEntry(h.paddr / PAGE_SIZE + (page - FirstPage(h)), SegmentFlags(h));
  }

  lemma FrameOfEntry(frame: nat, flags: nat)
    requires flags < PAGE_SIZE
    ensures (frame * PAGE_SIZE + flags) / PAGE_SIZE == frame
  {
  }

  /** After mapping separate segments, user mode can write to some page table, directory or chunk
      structure exactly if a writable segment covers a block that holds one. */
  lemma TablesExposedExactly(s: System, pid: nat, segments: seq<ProgramHeader>)
    requires Inv(s) && pid in s.procs
    requires (forall i | 0 <= i < |segments| :: Loadable(segments[i])) && PairwiseApart(segments)
    ensures ExposesTables(s, pid, segments) <==> exists i, b :: CoversTables(s.mem.own, segments, i, b)
  {
    hide Inv, MapSegments, Loadable, TablesExposed, CoversTables, DirectoryOk, ChunkOk, PairwiseApart;
    TaskOf(s, pid);
    var c := s.procs[pid].chunk;
    SegmentsOverlay(s.mem.ram, c, segments);
    SegmentsKeepDirectory(s.mem.ram, c, segments);
    var ram' := MapSegments(s.mem.ram, c.DirectoryAddress(), segments).1;
    if page: nat :| TablesExposed(s.mem.own, ram', c, page) {
      ExposedIsCovered(s, pid, ram', segments, page);
    }
    if i: nat, b: nat :| CoversTables(s.mem.own, segments, i, b) {
      CoveredIsExposed(s, pid, ram', segments, i, b);
    }
  }

  lemma ExposedIsCovered(s: System, pid: nat, ram': Ram, segments: seq<ProgramHeader>, page: nat)
    requires Inv(s) && pid in s.procs && NoAliases(s.procs[pid].chunk)
    requires (forall i | 0 <= i < |segments| :: Loadable(segments[i])) && PairwiseApart(segments)
    requires OverlaidMap(s.mem.ram, ram', s.procs[pid].chunk, segments)
    requires TablesExposed(s.mem.own, ram', s.procs[pid].chunk, page)
    ensures exists i, b :: CoversTables(s.mem.own, segments, i, b)
  {
    hide Inv, Loadable, OnSegment, SegmentEntry, FirstPage, PageCount, Present, Writable, UserBit, Overlaid, Pde,
         ChunkOk, NoAliases;
    TaskOf(s, pid);
    var c := s.procs[pid].chunk;
    if i: nat :| i < |segments| && OnSegment(segments[i], page) {
      OverlaidInside(segments, i, page, Pte(s.mem.ram, c, page));
      SegmentPermissions(segments[i], page);
      SegmentFrame(segments[i], page);
      var b := Pte(ram', c, page) / PAGE_SIZE - HEAP_FRAME;
      assert Covers(segments[i], b) by { PageCovers(segments[i], page, b); }
      assert CoversTables(s.mem.own, segments, i, b);
    } else {
      OverlaidOutside(segments, page, Pte(s.mem.ram, c, page));
      UserPageOwner(s, pid, page);
      assert false;
    }
  }

  lemma PageCovers(h: ProgramHeader, page: nat, b: nat)
    requires HEAP_FRAME + b == h.paddr / PAGE_SIZE + (page - FirstPage(h))
    ensures OnSegment(h, page) <==> Covers(h, b)
  {
  }

  lemma CoveredIsExposed(s: System, pid: nat, ram': Ram, segments: seq<ProgramHeader>, i: nat, b: nat)
    requires pid in s.procs && NoAliases(s.procs[pid].chunk) && DirectoryOk(ram', s.procs[pid].chunk)
    requires (forall i | 0 <= i < |segments| :: Loadable(segments[i])) && PairwiseApart(segments)
    requires OverlaidMap(s.mem.ram, ram', s.procs[pid].chunk, segments)
    requires CoversTables(s.mem.own, segments, i, b)
    ensures exists page :: TablesExposed(s.mem.own, ram', s.procs[pid].chunk, page)
  {
    hide Loadable, OnSegment, SegmentEntry, Present, Writable, UserBit, Overlaid, Pde, NoAliases, ChunkOk, PageCount,
         FirstPage;
    var c, h := s.procs[pid].chunk, segments[i];
    var page := FirstPage(h) + (HEAP_FRAME + b - h.paddr / PAGE_SIZE);
    PageCovers(h, page, b);
    SegmentFrame(h, page);
    OverlaidInside(segments, i, page, Pte(s.mem.ram, c, page));
    SegmentPermissions(h, page);
    assert TablesExposed(s.mem.own, ram', c, page);
  }

  // ----- what a file must be like

  /** The bytes of the file lie in a run of its own: blocks f to f + n. */
  ghost predicate FileRun(own: seq<Cell>, f: nat, n: nat) {
    IsRun(own, f, n, Kernel)
  }

  function FileAddress(f: nat): nat {
    (HEAP_FRAME + f) * PAGE_SIZE
  }

  /** A segment of the file ends inside the memory of the file, rounded up to pages as it is mapped. */
  predicate InsideFile(h: ProgramHeader, n: nat) {
    h.filesz != 0 ==> h.offset + PageCount(h) * PAGE_SIZE <= n * BLOCK_SIZE
  }

  /** A page of a segment leads to the run the loader found for the segment: the run of the file, or
      one of its own. */
  ghost predicate LeadsToOwnRun(own: seq<Cell>, h: ProgramHeader, f: nat, n: nat, page: nat) {
    var b := SegmentEntry(h, page) / PAGE_SIZE - HEAP_FRAME;
    && 0 <= b < |own| && own[b].Held? && own[b].who == Kernel
    && own[b].len == (if h.filesz != 0 then n else TotalBlocks(h.memsz))
    && own[b].first == (if h.filesz != 0 then f else h.paddr / PAGE_SIZE - HEAP_FRAME)
  }

  /** Where a loaded segment lies, in blocks. */
  lemma PlacedFrame(was: seq<Cell>, own: seq<Cell>, h: ProgramHeader, h': ProgramHeader, f: nat, n: nat)
    requires FileAddress(f) < WORD_VALUES && Placed(h, h', was, own, FileAddress(f)) && WellPlaced(h, FileAddress(f))
    ensures h'.filesz == h.filesz && h'.memsz == h.memsz
    ensures FirstPage(h') == FirstPage(h) && PageCount(h') == PageCount(h)
    ensures h.filesz != 0 ==> h'.paddr / PAGE_SIZE == HEAP_FRAME + f + h.offset / PAGE_SIZE
    ensures InsideFile(h, n) <==> h.filesz == 0 || h.offset / PAGE_SIZE + PageCount(h) <= n
    ensures PageCount(h) == TotalBlocks(h.memsz)
  {
    if h.filesz != 0 {
      assert h'.paddr == FileAddress(f) + h.offset;
      assert h.offset % PAGE_SIZE == 0;
    }
  }

  /** Every page of a loaded segment leads to the run the loader found for it, exactly if the segment has
      no bytes in the file or ends inside the memory of the file. */
  lemma OwnRunExactly(was: seq<Cell>, own: seq<Cell>, h: ProgramHeader, h': ProgramHeader, f: nat, n: nat)
    requires |own| == HEAP_BLOCKS && WholeRuns(own) && FileRun(own, f, n)
    requires FileAddress(f) < WORD_VALUES && Placed(h, h', was, own, FileAddress(f)) && WellPlaced(h, FileAddress(f))
    requires h.memsz > 0
    ensures (forall page | OnSegment(h', page) :: LeadsToOwnRun(own, h', f, n, page)) <==> InsideFile(h, n)
  {
    hide WholeRuns, Loadable, SegmentEntry, WellPlaced, InsideFile, PageCount, FirstPage, TotalBlocks;
    PlacedIsLoadable(h, h', was, own, FileAddress(f));
    PlacedFrame(was, own, h, h', f, n);
    forall page: nat | OnSegment(h', page)
      ensures InsideFile(h, n) ==> LeadsToOwnRun(own, h', f, n, page)
    {
      SegmentFrame(h', page);
    }
    if h.filesz != 0 && !InsideFile(h, n) {
      var page := FirstPage(h') + PageCount(h') - 1;
      assert PageCount(h) >= 1 by { SomePage(h); }
      SegmentFrame(h', page);
      if LeadsToOwnRun(own, h', f, n, page) {
        OwnRunOf(own, SegmentEntry(h', page) / PAGE_SIZE - HEAP_FRAME);
      }
    }
  }

  lemma SomePage(h: ProgramHeader)
    requires h.memsz > 0
    ensures PageCount(h) >= 1
  {
  }

  lemma OwnRunOf(own: seq<Cell>, b: nat)
    requires WholeRuns(own) && b < |own| && own[b].Held?
    ensures own[b].first <= b < own[b].first + own[b].len
  {
  }

  /** A segment that stays clear of the user heap window. */
  predicate OutsideWindow(h: ProgramHeader) {
    FirstPage(h) + PageCount(h) <= USER_PAGE || FirstPage(h) >= USER_PAGE + HEAP_BLOCKS
  }

  /** What a header must be like for its segment to be mapped safely, with a file of n blocks. */
  predicate SafeHeader(h: ProgramHeader, n: nat) {
    h.memsz > 0 ==> InsideFile(h, n) && OutsideWindow(h)
  }

  /** The loaded segment of a safe header may be mapped. */
  lemma SafeIsBacked(was: seq<Cell>, own: seq<Cell>, pid: nat, h: ProgramHeader, h': ProgramHeader, f: nat, n: nat)
    requires |own| == HEAP_BLOCKS && FileRun(own, f, n)
    requires FileAddress(f) < WORD_VALUES && Placed(h, h', was, own, FileAddress(f)) && WellPlaced(h, FileAddress(f))
    requires SafeHeader(h, n)
    ensures Loadable(h') && Backed(own, pid, h')
  {
    hide Loadable, WellPlaced, InsideFile, PageCount, TotalBlocks, Mappable, SegmentEnd;
    PlacedIsLoadable(h, h', was, own, FileAddress(f));
    PlacedFrame(was, own, h, h', f, n);
    if h.memsz > 0 {
      SegmentMappable(h');
      SomePage(h);
      SegmentRange(h');
      var a := h'.paddr / PAGE_SIZE - HEAP_FRAME;
      forall b | a <= b < SegmentEnd(h') / PAGE_SIZE - HEAP_FRAME
        ensures ForImage(own, pid, a, b)
      {
        assert own[b] == own[a];
      }
    }
  }

  /** The first segment of a file that is mapped into a task keeps the invariant exactly if its header is
      safe: it ends inside the memory of the file, and it is clear of the user heap window. */
  lemma FirstSegmentKeepsExactly(s: System, pid: nat, was: seq<Cell>, h: ProgramHeader, h': ProgramHeader,
                                 f: nat, n: nat)
    requires LoadedHeader(was, s.mem.own, h, h', f, n) && NoImageYet(s.mem.own, pid)
    requires h.memsz > 0 && (h.filesz != 0 ==> h.offset < n * BLOCK_SIZE)
    requires pid in s.procs && Inv(s)
    ensures ImageStart(s.mem.own, pid, h'.vaddr, h'.paddr, SegmentEnd(h'))
    ensures KeptByMapping(s, pid, h') <==> SafeHeader(h, n)
  {
    hide Inv, Loadable, WellPlaced, InsideFile, OutsideWindow, PageCount, TotalBlocks, Mappable, SegmentEnd,
         SegmentFlags, MapImageStep, IsRun;
    var own := s.mem.own;
    SoundOf(s);
    PlacedIsLoadable(h, h', was, own, FileAddress(f));
    PlacedFrame(was, own, h, h', f, n);
    SegmentMappable(h');
    SegmentRange(h');
    SomePage(h);
    RunOf(own, f, n);
    var a, end := h'.paddr / PAGE_SIZE - HEAP_FRAME, SegmentEnd(h') / PAGE_SIZE - HEAP_FRAME;
    assert ImageStart(own, pid, h'.vaddr, h'.paddr, SegmentEnd(h'));
    MapImageKeepsExactly(s, pid, h'.vaddr, h'.paddr, SegmentEnd(h'), SegmentFlags(h'));
    SameWindow(h, h');
    if h.filesz != 0 && !InsideFile(h, n) {
      assert !ForImage(own, pid, a, end - 1) by { NotInRun(s, f, n, end - 1); }
    } else {
      forall b | a <= b < end
        ensures ForImage(own, pid, a, b)
      {
        assert own[b] == own[a];
      }
    }
  }

  ghost predicate NoImageYet(own: seq<Cell>, pid: nat) {
    forall b | 0 <= b < |own| && own[b].Held? :: own[b].who != Image(pid)
  }

  /** The header of a file in blocks f to f + n, before and after loading. */
  ghost predicate LoadedHeader(was: seq<Cell>, own: seq<Cell>, h: ProgramHeader, h': ProgramHeader, f: nat, n: nat) {
    && FileRun(own, f, n) && FileAddress(f) < WORD_VALUES
    && Placed(h, h', was, own, FileAddress(f)) && WellPlaced(h, FileAddress(f))
  }

  /** Mapping the segment keeps the invariant. */
  ghost predicate KeptByMapping(s: System, pid: nat, h: ProgramHeader)
    requires Inv(s) && pid in s.procs
  {
    && ImageStart(s.mem.own, pid, h.vaddr, h.paddr, SegmentEnd(h)) && SegmentFlags(h) < PAGE_SIZE
    && Inv(MapImageStep(s, pid, h.vaddr, h.paddr, SegmentEnd(h), SegmentFlags(h)))
  }

  lemma RunOf(own: seq<Cell>, f: nat, n: nat)
    requires FileRun(own, f, n)
    ensures n >= 1 && f + n <= |own| && forall b | f <= b < f + n :: own[b] == Held(f, n, Kernel)
  {
  }

  lemma SameWindow(h: ProgramHeader, h': ProgramHeader)
    requires FirstPage(h') == FirstPage(h) && PageCount(h') == PageCount(h)
    ensures OutsideWindow(h') <==> OutsideWindow(h)
  {
  }

  lemma NotInRun(s: System, f: nat, n: nat, b: nat)
    requires Inv(s) && b >= f + n
    ensures b < |s.mem.own| ==> s.mem.own[b] != Held(f, n, Kernel)
  {
    hide Explained, ProcessesOk;
    if b < |s.mem.own| && s.mem.own[b].Held? {
      OwnRunOf(s.mem.own, b);
    }
  }

  lemma SegmentRange(h: ProgramHeader)
    requires Loadable(h) && h.memsz > 0
    ensures SegmentEnd(h) == h.paddr + PageCount(h) * PAGE_SIZE > h.paddr
    ensures SegmentEnd(h) / PAGE_SIZE == h.paddr / PAGE_SIZE + PageCount(h)
    ensures OutsideWindow(h) <==>
              h.vaddr + (SegmentEnd(h) - h.paddr) <= USER_PAGE * PAGE_SIZE
              || h.vaddr >= (USER_PAGE + HEAP_BLOCKS) * PAGE_SIZE
  {
    RoundedEnd(h.paddr / PAGE_SIZE, h.memsz);
  }

  // ----- all segments, in turn

  /** Block b is of the run in which the memory of the segment starts. */
  predicate InRunOf(own: seq<Cell>, h: ProgramHeader, b: nat) {
    var a := h.paddr / PAGE_SIZE - HEAP_FRAME;
    h.memsz > 0 && 0 <= a < |own| && b < |own| && own[b] == own[a]
  }

  /** ... for some segment up to number i. */
  ghost predicate InRunUpTo(own: seq<Cell>, segments: seq<ProgramHeader>, i: nat, b: nat) {
    exists j :: 0 <= j <= i && j < |segments| && InRunOf(own, segments[j], b)
  }

  predicate OfImage(own: seq<Cell>, pid: nat, b: nat) {
    b < |own| && own[b].Held? && own[b].who == Image(pid)
  }

  /** The mapping of segment i starts in kernel memory, stays clear of the user heap window, and leads to
      blocks of the runs in which this and the earlier segments start, or to the image as it was. */
  ghost predicate SegmentFits(own: seq<Cell>, pid: nat, segments: seq<ProgramHeader>, i: nat)
    requires i < |segments|
  {
    var h := segments[i];
    h.memsz > 0 ==>
      && ImageStart(own, pid, h.vaddr, h.paddr, SegmentEnd(h)) && OutsideUserHeap(h)
      && forall b | h.paddr / PAGE_SIZE - HEAP_FRAME <= b < SegmentEnd(h) / PAGE_SIZE - HEAP_FRAME ::
           OfImage(own, pid, b) || InRunUpTo(own, segments, i, b)
  }

  predicate OutsideUserHeap(h: ProgramHeader) {
    h.vaddr + (SegmentEnd(h) - h.paddr) <= USER_PAGE * PAGE_SIZE || h.vaddr >= (USER_PAGE + HEAP_BLOCKS) * PAGE_SIZE
  }

  /** Mapping the segments one after the other, as the code does, keeps the invariant every time. */
  ghost predicate KeptThroughout(s: System, pid: nat, segments: seq<ProgramHeader>)
    requires Inv(s) && pid in s.procs
    decreases |segments|
  {
    if segments == [] then true
    else if segments[0].memsz == 0 then KeptThroughout(s, pid, segments[1..])
    else KeptByMapping(s, pid, segments[0]) && KeptThroughout(AfterMapping(s, pid, segments[0]), pid, segments[1..])
  }

  ghost function AfterMapping(s: System, pid: nat, h: ProgramHeader): (s': System)
    requires Inv(s) && pid in s.procs && KeptByMapping(s, pid, h)
    ensures Inv(s') && pid in s'.procs
  {
    MapImageStep(s, pid, h.vaddr, h.paddr, SegmentEnd(h), SegmentFlags(h))
  }

  lemma UpToStep(own: seq<Cell>, segments: seq<ProgramHeader>, i: nat, b: nat)
    requires segments != []
    ensures InRunUpTo(own, segments, i + 1, b) <==> InRunOf(own, segments[0], b) || InRunUpTo(own, segments[1..], i, b)
    ensures InRunUpTo(own, segments, 0, b) <==> InRunOf(own, segments[0], b)
  {
    hide InRunOf;
    if InRunUpTo(own, segments[1..], i, b) {
      var j :| 0 <= j <= i && j < |segments[1..]| && InRunOf(own, segments[1..][j], b);
      assert InRunOf(own, segments[j + 1], b);
    }
    if j :| 0 < j <= i + 1 && j < |segments| && InRunOf(own, segments[j], b) {
      assert InRunOf(own, segments[1..][j - 1], b);
    }
  }

  /** What the blocks of the first segment being handed over means for the others. */
  lemma HandedOverBlocks(own: seq<Cell>, pid: nat, h: ProgramHeader, rest: seq<ProgramHeader>, i: nat, b: nat)
    requires h.memsz > 0 && ImageStart(own, pid, h.vaddr, h.paddr, SegmentEnd(h)) && i < |rest|
    ensures var own1 := HandOver(own, h.paddr / PAGE_SIZE - HEAP_FRAME, pid);
            OfImage(own1, pid, b) || InRunUpTo(own1, rest, i, b)
            <==> OfImage(own, pid, b) || InRunOf(own, h, b) || InRunUpTo(own, rest, i, b)
  {
    hide Mappable, SegmentEnd;
    var own1 := HandOver(own, h.paddr / PAGE_SIZE - HEAP_FRAME, pid);
    assert OfImage(own1, pid, b) <==> OfImage(own, pid, b) || InRunOf(own, h, b);
    if !OfImage(own1, pid, b) {
      forall j | 0 <= j < |rest|
        ensures InRunOf(own1, rest[j], b) <==> InRunOf(own, rest[j], b)
      {
      }
    }
  }

  lemma StartAfterHandOver(own: seq<Cell>, pid: nat, b: nat, h: ProgramHeader)
    requires b < |own| && own[b].Held? && (own[b].who == Kernel || own[b].who == Image(pid))
    ensures ImageStart(HandOver(own, b, pid), pid, h.vaddr, h.paddr, SegmentEnd(h))
            <==> ImageStart(own, pid, h.vaddr, h.paddr, SegmentEnd(h))
  {
    hide Mappable, SegmentEnd;
  }

  /** A later segment fits after the first has been mapped exactly if it fits among all. */
  lemma FitsAfterFirst(own: seq<Cell>, pid: nat, segments: seq<ProgramHeader>, i: nat)
    requires 0 < i < |segments|
    requires var h := segments[0]; h.memsz > 0 ==> ImageStart(own, pid, h.vaddr, h.paddr, SegmentEnd(h))
    ensures var h := segments[0];
            var own1 := if h.memsz == 0 then own else HandOver(own, h.paddr / PAGE_SIZE - HEAP_FRAME, pid);
            SegmentFits(own1, pid, segments[1..], i - 1) <==> SegmentFits(own, pid, segments, i)
  {
    hide SegmentEnd, InRunUpTo, OfImage, OutsideUserHeap, Mappable, HandOver;
    var h, rest, g := segments[0], segments[1..], segments[i];
    var own1 := if h.memsz == 0 then own else HandOver(own, h.paddr / PAGE_SIZE - HEAP_FRAME, pid);
    assert rest[i - 1] == g;
    if h.memsz > 0 {
      StartAfterHandOver(own, pid, h.paddr / PAGE_SIZE - HEAP_FRAME, g);
    }
    forall b: nat
      ensures OfImage(own1, pid, b) || InRunUpTo(own1, rest, i - 1, b)
              <==> OfImage(own, pid, b) || InRunUpTo(own, segments, i, b)
    {
      UpToStep(own, segments, i - 1, b);
      if h.memsz > 0 {
        HandedOverBlocks(own, pid, h, rest, i - 1, b);
      }
    }
  }

  /** The first segment that is not empty fits exactly if mapping it keeps the invariant. */
  lemma FirstFitsExactly(s: System, pid: nat, segments: seq<ProgramHeader>)
    requires segments != [] && segments[0].memsz > 0 && pid in s.procs && Inv(s)
    ensures KeptByMapping(s, pid, segments[0]) <==> SegmentFits(s.mem.own, pid, segments, 0)
  {
    hide Inv, SegmentEnd, SegmentFlags, Mappable, MapImageStep, InRunUpTo, BlocksForImage, OfImage;
    var own, h := s.mem.own, segments[0];
    SegmentFlagsSmall(h);
    if ImageStart(own, pid, h.vaddr, h.paddr, SegmentEnd(h)) {
      MapImageKeepsExactly(s, pid, h.vaddr, h.paddr, SegmentEnd(h), SegmentFlags(h));
      BlocksFit(own, pid, segments, SegmentEnd(h) / PAGE_SIZE - HEAP_FRAME);
    }
  }

  lemma BlocksFit(own: seq<Cell>, pid: nat, segments: seq<ProgramHeader>, end: int)
    requires segments != [] && segments[0].memsz > 0 && 0 <= segments[0].paddr / PAGE_SIZE - HEAP_FRAME < |own|
    ensures var a := segments[0].paddr / PAGE_SIZE - HEAP_FRAME;
            BlocksForImage(own, pid, a, end)
            <==> forall b | a <= b < end :: OfImage(own, pid, b) || InRunUpTo(own, segments, 0, b)
  {
    var a := segments[0].paddr / PAGE_SIZE - HEAP_FRAME;
    forall b | a <= b < end
      ensures ForImage(own, pid, a, b) <==> OfImage(own, pid, b) || InRunUpTo(own, segments, 0, b)
    {
      UpToStep(own, segments, 0, b);
    }
  }

  /** Mapping the segments of a program, one after the other, keeps the invariant every time exactly if
      every segment fits. */
  lemma {:induction false} KeptThroughoutExactly(s: System, pid: nat, segments: seq<ProgramHeader>)
    requires pid in s.procs && Inv(s)
    ensures KeptThroughout(s, pid, segments)
            <==> forall i | 0 <= i < |segments| :: SegmentFits(s.mem.own, pid, segments, i)
    decreases |segments|
  {
    hide Inv, SegmentFits, SegmentEnd, SegmentFlags, ImageStart;
    if segments != [] {
      var h, rest, own := segments[0], segments[1..], s.mem.own;
      if h.memsz == 0 {
        NothingToFit(own, pid, segments);
        KeptThroughoutExactly(s, pid, rest);
        AllFit(own, own, pid, segments);
      } else {
        FirstFitsExactly(s, pid, segments);
        if KeptByMapping(s, pid, h) {
          var s1 := AfterMapping(s, pid, h);
          KeptThroughoutExactly(s1, pid, rest);
          AllFit(own, s1.mem.own, pid, segments);
        }
      }
    }
  }

  lemma NothingToFit(own: seq<Cell>, pid: nat, segments: seq<ProgramHeader>)
    requires segments != [] && segments[0].memsz == 0
    ensures SegmentFits(own, pid, segments, 0)
  {
  }

  lemma AllFit(own: seq<Cell>, own1: seq<Cell>, pid: nat, segments: seq<ProgramHeader>)
    requires segments != [] && SegmentFits(own, pid, segments, 0)
    requires var h := segments[0];
             h.memsz > 0 ==> ImageStart(own, pid, h.vaddr, h.paddr, SegmentEnd(h))
    requires var h := segments[0];
             own1 == if h.memsz == 0 then own else HandOver(own, h.paddr / PAGE_SIZE - HEAP_FRAME, pid)
    ensures (forall i | 0 <= i < |segments| :: SegmentFits(own, pid, segments, i))
            <==> forall i | 0 <= i < |segments[1..]| :: SegmentFits(own1, pid, segments[1..], i)
  {
    hide SegmentFits, SegmentEnd, ImageStart;
    var rest := segments[1..];
    if forall i | 0 <= i < |rest| :: SegmentFits(own1, pid, rest, i) {
      forall i | 0 < i < |segments|
        ensures SegmentFits(own, pid, segments, i)
      {
        FitsAfterFirst(own, pid, segments, i);
        assert SegmentFits(own1, pid, rest, i - 1);
      }
    }
    if forall i | 0 <= i < |segments| :: SegmentFits(own, pid, segments, i) {
      forall i | 0 <= i < |rest|
        ensures SegmentFits(own1, pid, rest, i)
      {
        FitsAfterFirst(own, pid, segments, i + 1);
      }
    }
  }

  // ----- the whole start

  /** The requests the loader makes from header i on. */
  function LoadOps(headers: seq<ProgramHeader>, i: nat): seq<Op>
    requires i <= |headers|
    decreases |headers| - i
  {
    if i == |headers| then []
    else (if WantsMemory(headers[i]) then [KernelMalloc(headers[i].memsz)] else []) + LoadOps(headers, i + 1)
  }

  lemma {:induction false} LoadOpsIgnoreDone(headers: seq<ProgramHeader>, headers': seq<ProgramHeader>, i: nat)
    requires i <= |headers| == |headers'| && forall k | i <= k < |headers| :: headers'[k] == headers[k]
    ensures LoadOps(headers', i) == LoadOps(headers, i)
    decreases |headers| - i
  {
    if i < |headers| {
      LoadOpsIgnoreDone(headers, headers', i + 1);
    }
  }

  /** A load that succeeds is a run of kernel requests. */
  lemma {:induction false} LoadIsRun(s: System, l: Load, elfMem: u32, i: nat)
    requires Inv(s) && l.mem == s.mem && l.status == AllOk && i <= |l.headers| && RequestsFit(l.mem, l.headers, i)
    requires LoadFrom(l, elfMem, i).status == AllOk
    ensures Execute(s, LoadOps(l.headers, i)) == Some(System(LoadFrom(l, elfMem, i).mem, s.procs))
    decreases |l.headers| - i
  {
    hide Inv, Fits, Take;
    if i < |l.headers| {
      var h, l' := l.headers[i], LoadOne(l, elfMem, i);
      LoadOneFits(l, elfMem, i);
      LoadOpsIgnoreDone(l.headers, l'.headers, i + 1);
      var s1 := System(l'.mem, s.procs);
      if WantsMemory(h) {
        StepKeeps(s, KernelMalloc(h.memsz));
        assert s1 == Step(s, KernelMalloc(h.memsz));
        assert LoadOps(l.headers, i)[1..] == LoadOps(l.headers, i + 1);
      } else {
        assert LoadOps(l.headers, i) == LoadOps(l.headers, i + 1);
      }
      LoadIsRun(s1, l', elfMem, i + 1);
    }
  }

  lemma {:induction false} ExecuteAppend(s: System, first: seq<Op>, rest: seq<Op>)
    requires Inv(s) && Execute(s, first).Some?
    ensures Inv(Execute(s, first).value)
    ensures Execute(s, first + rest) == Execute(Execute(s, first).value, rest)
    decreases |first|
  {
    hide Inv, Enabled, Step;
    if first == [] {
      assert first + rest == rest;
    } else {
      StepKeeps(s, first[0]);
      assert (first + rest)[1..] == first[1..] + rest;
      ExecuteAppend(Step(s, first[0]), first[1..], rest);
    }
  }

  /** Everything a start needs of heap and file: requests that fit and are granted, room for the task,
      and safe headers in a file that lies in blocks f to f + n. */
  ghost predicate Startable(s: System, pid: nat, headers: seq<ProgramHeader>, f: nat, n: nat) {
    && Inv(s) && pid !in s.procs && FileRun(s.mem.own, f, n) && FileAddress(f) < WORD_VALUES
    && (forall k | 0 <= k < |headers| && headers[k].kind == PT_LOAD ::
          WellPlaced(headers[k], FileAddress(f)) && SafeHeader(headers[k], n))
    && RequestsFit(s.mem, headers, 0)
    && var l := LoadFrom(Load(AllOk, s.mem, headers, [], []), FileAddress(f), 0);
    && l.status == AllOk
    && Fits(l.mem.table, TotalBlocks(STACK_SIZE)) && MallocBlock(l.mem.table, STACK_SIZE).Some?
    && Capacity(Take(l.mem, STACK_SIZE, Kernel).1.table) >= TASK_BLOCKS
  }

  /** Where the stack of a start lies. */
  ghost function StackAddress(s: System, pid: nat, headers: seq<ProgramHeader>, f: nat, n: nat): u32
    requires Startable(s, pid, headers, f, n)
  {
    Take(LoadFrom(Load(AllOk, s.mem, headers, [], []), FileAddress(f), 0).mem, STACK_SIZE, Kernel).0
  }

  /** The outcome of a load: the memory it leaves, and the segments to be mapped. */
  ghost predicate LoadedAs(m: Mem, l: Load, segments: seq<ProgramHeader>) {
    && m == l.mem && (forall j | 0 <= j < |l.loaded| :: l.loaded[j] < |l.headers|)
    && segments == Segments(l.headers, l.loaded)
  }

  /** Loading the file. */
  lemma ProgramLoads(s: System, pid: nat, headers: seq<ProgramHeader>, f: nat, n: nat)
    returns (s1: System, segments: seq<ProgramHeader>)
    requires Startable(s, pid, headers, f, n)
    ensures Execute(s, LoadOps(headers, 0)) == Some(s1) && Inv(s1) && s1.procs == s.procs
    ensures LoadedAs(s1.mem, LoadFrom(Load(AllOk, s.mem, headers, [], []), FileAddress(f), 0), segments)
    ensures forall i | 0 <= i < |segments| :: Loadable(segments[i]) && Backed(s1.mem.own, pid, segments[i])
  {
    hide Inv, Execute, RequestsFit, LoadFrom, WellPlaced, SafeHeader, Loadable, Backed, Placed, Fits, Capacity,
         StartBlock;
    var was := Load(AllOk, s.mem, headers, [], []);
    var l := LoadFrom(was, FileAddress(f), 0);
    assert Sound(s.mem) by { SoundOf(s); }
    LoadPlacesSegments(s.mem, headers, FileAddress(f));
    LoadIsRun(s, was, FileAddress(f), 0);
    ExecuteKeeps(s, LoadOps(headers, 0));
    s1 := System(l.mem, s.procs);
    segments := Segments(l.headers, l.loaded);
    assert FileRun(l.mem.own, f, n);
    forall i | 0 <= i < |segments|
      ensures Loadable(segments[i]) && Backed(s1.mem.own, pid, segments[i])
    {
      SafeIsBacked(s.mem.own, l.mem.own, pid, headers[l.loaded[i]], segments[i], f, n);
    }
  }

  lemma SoundOf(s: System)
    requires Inv(s)
    ensures Sound(s.mem) && |s.mem.own| == HEAP_BLOCKS
  {
  }

  /** The stack, and then the task. */
  lemma StackAndTask(s1: System, pid: nat, segments: seq<ProgramHeader>)
    returns (s2: System, s3: System, stack: u32)
    requires Inv(s1) && pid !in s1.procs
    requires Fits(s1.mem.table, TotalBlocks(STACK_SIZE)) && MallocBlock(s1.mem.table, STACK_SIZE).Some?
    requires Capacity(Take(s1.mem, STACK_SIZE, Kernel).1.table) >= TASK_BLOCKS
    requires forall i | 0 <= i < |segments| :: Backed(s1.mem.own, pid, segments[i])
    ensures Execute(s1, [KernelMalloc(STACK_SIZE), NewTask(pid)]) == Some(s3) && Inv(s3) && NewlyCreated(s3, pid)
    ensures Execute(s1, [KernelMalloc(STACK_SIZE)]) == Some(s2) && TaskCreated(s2, s3, pid)
    ensures stack == Take(s1.mem, STACK_SIZE, Kernel).0 && stack % PAGE_SIZE == 0 && stack + STACK_SIZE < WORD_VALUES
    ensures var all := WithStack(segments, stack);
            forall i | 0 <= i < |all| :: Backed(s3.mem.own, pid, all[i])
  {
    hide Inv, Backed, Capacity, Fits, StartBlock, ImageRange, Execute, NewTaskStep, NewTaskTook, IdentityMapped,
         Grown, Take;
    SoundOf(s1);
    TakeSound(s1.mem, STACK_SIZE, Kernel);
    StepKeeps(s1, KernelMalloc(STACK_SIZE));
    s2 := Step(s1, KernelMalloc(STACK_SIZE));
    OneStep(s1, KernelMalloc(STACK_SIZE));
    stack := Take(s1.mem, STACK_SIZE, Kernel).0;
    NewTaskKeeps(s2, pid);
    s3 := Step(s2, NewTask(pid));
    TwoSteps(s1, KernelMalloc(STACK_SIZE), NewTask(pid));
    StackBacked(s1.mem.own, s2.mem.own, s3.mem.own, pid, stack, s3.procs[pid].record, s3.procs[pid].chunk);
    var all := WithStack(segments, stack);
    forall i | 0 <= i < |all|
      ensures Backed(s3.mem.own, pid, all[i])
    {
      if i < |segments| {
        BackedStays(s1.mem.own, s3.mem.own, pid, segments[i]);
      }
    }
  }

  /** A task as it is created: no allocations, no image. */
  ghost predicate NewlyCreated(s: System, pid: nat) {
    pid in s.procs && s.procs[pid].slots == EmptySlots() && s.procs[pid].image == map[]
  }

  /** s3 is s2 with a new task. */
  ghost predicate TaskCreated(s2: System, s3: System, pid: nat) {
    && pid !in s2.procs && pid in s3.procs && s3.procs == s2.procs[pid := s3.procs[pid]]
    && NewTaskTook(s2.mem.own, s3.mem.own, s3.procs[pid].record, s3.procs[pid].chunk, pid)
    && Inv(s2)
  }

  lemma {:induction false} OneStep(s: System, op: Op)
    requires Inv(s) && Enabled(s, op) && Inv(Step(s, op))
    ensures Execute(s, [op]) == Some(Step(s, op))
  {
    hide Inv, Enabled, Step;
    assert [op][1..] == [];
    assert Execute(Step(s, op), []) == Some(Step(s, op));
  }

  lemma {:induction false} TwoSteps(s: System, first: Op, second: Op)
    requires Inv(s) && Enabled(s, first) && Inv(Step(s, first)) && Enabled(Step(s, first), second)
    ensures Execute(s, [first, second]) == Some(Step(Step(s, first), second))
  {
    hide Inv, Enabled, Step;
    var s1 := Step(s, first);
    StepKeeps(s1, second);
    var s2 := Step(s1, second);
    assert Execute(s2, []) == Some(s2);
    assert Execute(s1, [second]) == Some(s2) by { assert [second][1..] == []; }
    assert [first, second][1..] == [second];
  }

  lemma StackBacked(own1: seq<Cell>, own2: seq<Cell>, own3: seq<Cell>, pid: nat, stack: u32, record: nat, c: Chunk)
    requires |own1| == HEAP_BLOCKS && stack % PAGE_SIZE == 0
    requires var p, n := stack / PAGE_SIZE - HEAP_FRAME, TotalBlocks(STACK_SIZE);
             && 0 <= p && p + n <= |own1| && (forall i | p <= i < p + n :: own1[i].Vacant?)
             && own2 == Allot(own1, p, n, Kernel)
    requires NewTaskTook(own2, own3, record, c, pid)
    ensures Grown(own1, own3, pid) && Backed(own3, pid, StackSegment(stack))
  {
    hide ChunkHeld;
    var a := stack / PAGE_SIZE - HEAP_FRAME;
    StackMappable(stack);
    forall b | a <= b < (stack + STACK_SIZE) / PAGE_SIZE - HEAP_FRAME
      ensures ForImage(own3, pid, a, b)
    {
      assert own2[b] == Held(a, TotalBlocks(STACK_SIZE), Kernel);
    }
  }

  lemma {:induction false} OverlaidBySome(segments: seq<ProgramHeader>, page: nat, was: int)
    requires OnSome(segments, page)
    ensures exists i :: 0 <= i < |segments| && OnSegment(segments[i], page)
                        && Overlaid(segments, page, was) == SegmentEntry(segments[i], page)
    decreases |segments|
  {
    hide OnSegment, SegmentEntry;
    var h := segments[0];
    var now := if OnSegment(h, page) then SegmentEntry(h, page) else was;
    OnSomeStep(segments, page);
    if OnSome(segments[1..], page) {
      OverlaidBySome(segments[1..], page, now);
      var i :| 0 <= i < |segments[1..]| && OnSegment(segments[1..][i], page)
               && Overlaid(segments[1..], page, now) == SegmentEntry(segments[1..][i], page);
      assert segments[i + 1] == segments[1..][i];
    } else {
      assert forall i | 0 <= i < |segments[1..]| :: !OnSegment(segments[1..][i], page);
      OverlaidOutside(segments[1..], page, now);
      assert OnSegment(segments[0], page);
    }
  }

  /** In a task that has just been created and had its program mapped, user mode reaches exactly the
      pages of the segments and of the stack. */
  lemma ProgramPagesExact(s3: System, s4: System, pid: nat, all: seq<ProgramHeader>, page: nat)
    requires Inv(s3) && NewlyCreated(s3, pid) && SegmentsMapped(s3, s4, pid, all) && page < PAGES
    requires forall i | 0 <= i < |all| :: Loadable(all[i])
    ensures NoAliases(s4.procs[pid].chunk)
    ensures UserAccessible(s4.mem.ram, s4.procs[pid].chunk, page) <==> OnSome(all, page)
  {
    hide Inv, Loadable, OnSegment, SegmentEntry, Overlaid, Present, UserBit, Writable, Grown, NoAliases, ChunkOk,
         MapSegments, UserAccessible, OnSome;
    TaskOf(s3, pid);
    UserPagesExact(s4, pid, page);
    var c := s3.procs[pid].chunk;
    SegmentsOverlay(s3.mem.ram, c, all);
    assert forall k :: !InLiveSlot(s4, pid, page, k);
    if OnSome(all, page) {
      OverlaidBySome(all, page, Pte(s3.mem.ram, c, page));
      var i :| 0 <= i < |all| && OnSegment(all[i], page)
               && Overlaid(all, page, Pte(s3.mem.ram, c, page)) == SegmentEntry(all[i], page);
      SegmentPermissions(all[i], page);
      ImageEntry(s4, pid, page);
    }
  }

  lemma ImageEntry(s: System, pid: nat, page: nat)
    requires Inv(s) && pid in s.procs && page in s.procs[pid].image && page < PAGES
    ensures NoAliases(s.procs[pid].chunk) && Pte(s.mem.ram, s.procs[pid].chunk, page) == s.procs[pid].image[page]
  {
    hide Accounts, Explained, ProcessesOk, ProcessOk, ChunkHeld, HeldFrame, SlotsOk, DirectoryOk, ChunkOk, NoAliases;
    TaskOf(s, pid);
    assert ImagePage(s.mem.own, page, s.procs[pid].image[page], pid);
  }

  /** The operations of a start. */
  function StartOps(pid: nat, headers: seq<ProgramHeader>, segments: seq<ProgramHeader>, stack: u32): seq<Op> {
    LoadOps(headers, 0) + [KernelMalloc(STACK_SIZE), NewTask(pid)] + SegmentOps(pid, WithStack(segments, stack))
  }

  /** The state s4 after a start: the invariant holds; user mode reaches exactly the pages of the segments
      and of the stack; and, if no two of them share a page, every byte translates as it should. */
  ghost predicate Started(s3: System, s4: System, pid: nat, segments: seq<ProgramHeader>, stack: u32) {
    && pid in s3.procs && pid in s4.procs && s4.procs[pid].chunk == s3.procs[pid].chunk
    && var c := s3.procs[pid].chunk;
    && NoAliases(c) && c.DirectoryAddress() < WORD_VALUES
    && (AllOk, s4.mem.ram) == MapProgram(s3.mem.ram, c.DirectoryAddress(), segments, stack)
    && (forall page | 0 <= page < PAGES ::
          UserAccessible(s4.mem.ram, c, page) <==> OnSome(WithStack(segments, stack), page))
    && (Separate(segments) ==> Mapped(s3.mem.ram, s4.mem.ram, c, segments, stack))
    && Inv(s4)
  }

  /** Starting a program with safe headers is a run of the system, so it keeps the invariant; and it makes
      of the memory of the new task exactly what the file says. */
  lemma {:induction false} ProgramStarts(s: System, pid: nat, headers: seq<ProgramHeader>, f: nat, n: nat)
    returns (s2: System, s3: System, s4: System, segments: seq<ProgramHeader>, stack: u32)
    requires Startable(s, pid, headers, f, n)
    ensures Execute(s, StartOps(pid, headers, segments, stack)) == Some(s4)
    ensures Started(s3, s4, pid, segments, stack)
    ensures Execute(s, LoadOps(headers, 0) + [KernelMalloc(STACK_SIZE)]) == Some(s2) && TaskCreated(s2, s3, pid)
    ensures pid in s3.procs && ImageGrown(s3, s4, pid, WithStack(segments, stack)) && Inv(s3) && Inv(s4)
    ensures stack == StackAddress(s, pid, headers, f, n)
  {
    hide Inv, Enabled, Step, Execute, LoadFrom, RequestsFit, WellPlaced, SafeHeader, Fits, StartBlock, Capacity, Take,
         Backed, Loadable, Mapped, UserAccessible, MapProgram, MapSegments, OnSome, Grown, NoAliases, Separate,
         TaskCreated;
    var s1;
    s1, segments := ProgramLoads(s, pid, headers, f, n);
    s2, s3, stack := StackAndTask(s1, pid, segments);
    StackLoadable(stack);
    var all := WithStack(segments, stack);
    SegmentsRun(s3, pid, all);
    s4 := Execute(s3, SegmentOps(pid, all)).value;
    var c := s3.procs[pid].chunk;
    TaskOf(s3, pid);
    ProgramIsSegments(s3.mem.ram, c.DirectoryAddress(), segments, stack);
    forall page | 0 <= page < PAGES
      ensures UserAccessible(s4.mem.ram, c, page) <==> OnSome(all, page)
    {
      ProgramPagesExact(s3, s4, pid, all, page);
    }
    if Separate(segments) {
      MapProgramExact(s3.mem.ram, c, segments, stack);
    }
    var task := [KernelMalloc(STACK_SIZE), NewTask(pid)];
    ExecuteAppend(s, LoadOps(headers, 0), task);
    ExecuteAppend(s, LoadOps(headers, 0), [KernelMalloc(STACK_SIZE)]);
    ExecuteAppend(s, LoadOps(headers, 0) + task, SegmentOps(pid, all));
  }
}
