/** The memory of an ELF process from its start to its end: every request of the start, and what is left
    of it once the process has been freed. */
module ProcessLife {
  import opened Words
  import opened Status
  import opened HeapTable
  import opened BlockAccounts
  import opened PageTables
  import opened MemoryState
  import opened AddressSpaces
  import opened ProcessMemory
  import opened MemorySystem
  import opened ElfImage
  import opened ProgramStart
  import opened ProcessEnd

  const PROCESS_RECORD_SIZE: u32 := 10404
  const ELF_RECORD_SIZE: u32 := 212
  const POINTER_SIZE: nat := 4

  // ----- requests in a row

  function MallocOps(sizes: seq<u32>): (ops: seq<Op>)
    ensures |ops| == |sizes|
  {
    seq(|sizes|, i requires 0 <= i < |sizes| => KernelMalloc(sizes[i]))
  }

  /** All requests fit when they are made, and are granted. */
  ghost predicate AllGranted(m: Mem, sizes: seq<u32>)
    decreases |sizes|
  {
    if sizes == [] then true
    else
      && sizes[0] > 0 && Fits(m.table, TotalBlocks(sizes[0])) && MallocBlock(m.table, sizes[0]).Some?
      && AllGranted(Take(m, sizes[0], Kernel).1, sizes[1..])
  }

  ghost function Requested(m: Mem, sizes: seq<u32>): Mem
    requires AllGranted(m, sizes)
    decreases |sizes|
  {
    if sizes == [] then m else Requested(Take(m, sizes[0], Kernel).1, sizes[1..])
  }

  /** Where the runs they are given start. */
  ghost function StartsOf(m: Mem, sizes: seq<u32>): (starts: seq<nat>)
    requires AllGranted(m, sizes)
    ensures |starts| == |sizes|
    decreases |sizes|
  {
    if sizes == [] then []
    else [MallocBlock(m.table, sizes[0]).value] + StartsOf(Take(m, sizes[0], Kernel).1, sizes[1..])
  }

  function Lengths(sizes: seq<u32>): (lens: seq<nat>)
    ensures |lens| == |sizes| && forall i | 0 <= i < |sizes| :: lens[i] == TotalBlocks(sizes[i])
  {
    seq(|sizes|, i requires 0 <= i < |sizes| => TotalBlocks(sizes[i]))
  }

  /** Block b is in run i. */
  predicate InRun(starts: seq<nat>, lens: seq<nat>, i: nat, b: nat) {
    i < |starts| && i < |lens| && starts[i] <= b < starts[i] + lens[i]
  }

  /** `own` is `was` with these runs, which were vacant, held by the kernel. */
  ghost predicate Granted(was: seq<Cell>, own: seq<Cell>, starts: seq<nat>, lens: seq<nat>) {
    && |own| == |was| == HEAP_BLOCKS && |starts| == |lens|
    && (forall i | 0 <= i < |starts| :: lens[i] >= 1 && starts[i] + lens[i] <= |own|)
    && (forall i, j | 0 <= i < j < |starts| :: starts[i] != starts[j])
    && (forall i: nat, b: nat | InRun(starts, lens, i, b) ::
          was[b].Vacant? && own[b] == Held(starts[i], lens[i], Kernel))
    && (forall b: nat | b < |own| && (forall i: nat :: !InRun(starts, lens, i, b)) :: own[b] == was[b])
  }

  lemma OneMoreGranted(was: seq<Cell>, own: seq<Cell>, own': seq<Cell>, starts: seq<nat>, lens: seq<nat>,
                       p: nat, n: nat)
    requires Granted(was, own, starts, lens) && n >= 1 && p + n <= |own|
    requires (forall b | p <= b < p + n :: own[b].Vacant?) && own' == Allot(own, p, n, Kernel)
    ensures Granted(was, own', starts + [p], lens + [n])
  {
    var starts', lens' := starts + [p], lens + [n];
    forall i: nat, b: nat
      ensures InRun(starts', lens', i, b) <==> InRun(starts, lens, i, b) || (i == |starts| && p <= b < p + n)
    {
    }
    forall i | 0 <= i < |starts|
      ensures starts[i] != p
    {
      assert InRun(starts, lens, i, starts[i]);
    }
    forall b: nat | b < |own| && (forall i: nat :: !InRun(starts', lens', i, b))
      ensures own'[b] == was[b]
    {
      assert !InRun(starts', lens', |starts|, b);
      forall i: nat
        ensures !InRun(starts, lens, i, b)
      {
        assert !InRun(starts', lens', i, b);
      }
    }
  }

  lemma {:induction false} RequestsRun(was: seq<Cell>, s: System, starts: seq<nat>, lens: seq<nat>, sizes: seq<u32>)
    returns (s': System)
    requires Granted(was, s.mem.own, starts, lens) && AllGranted(s.mem, sizes) && Inv(s)
    ensures Execute(s, MallocOps(sizes)) == Some(s') && s' == System(Requested(s.mem, sizes), s.procs)
    ensures Granted(was, s'.mem.own, starts + StartsOf(s.mem, sizes), lens + Lengths(sizes)) && Inv(s')
    decreases |sizes|
  {
    hide Inv, Granted, Fits, StartBlock, Take, TotalBlocks, StartsOf, Lengths, MallocOps;
    RunsInOrder(s.mem, starts, lens, sizes);
    if sizes == [] {
      s' := s;
    } else {
      var p := MallocBlock(s.mem.table, sizes[0]).value;
      StepKeeps(s, KernelMalloc(sizes[0]));
      var s1 := Step(s, KernelMalloc(sizes[0]));
      SoundOf(s);
      TakeSound(s.mem, sizes[0], Kernel);
      OneMoreGranted(was, s.mem.own, s1.mem.own, starts, lens, p, TotalBlocks(sizes[0]));
      s' := RequestsRun(was, s1, starts + [p], lens + [TotalBlocks(sizes[0])], sizes[1..]);
      OneThenRest(s, KernelMalloc(sizes[0]), MallocOps(sizes[1..]));
    }
  }

  /** The first request and the others, in each of the lists. */
  lemma {:induction false} RunsInOrder(m: Mem, starts: seq<nat>, lens: seq<nat>, sizes: seq<u32>)
    requires AllGranted(m, sizes)
    ensures sizes == [] ==> starts + StartsOf(m, sizes) == starts && lens + Lengths(sizes) == lens
    ensures sizes == [] ==> MallocOps(sizes) == []
    ensures sizes != [] ==>
              && MallocOps(sizes) == [KernelMalloc(sizes[0])] + MallocOps(sizes[1..])
              && starts + [MallocBlock(m.table, sizes[0]).value] + StartsOf(Take(m, sizes[0], Kernel).1, sizes[1..])
                 == starts + StartsOf(m, sizes)
              && lens + [TotalBlocks(sizes[0])] + Lengths(sizes[1..]) == lens + Lengths(sizes)
  {
    hide Fits, Take, MallocBlock, TotalBlocks;
  }

  lemma NothingGranted(s: System)
    requires Inv(s)
    ensures Granted(s.mem.own, s.mem.own, [], [])
  {
  }

  // ----- the loader's requests

  /** The sizes the loader asks for, from header i on. */
  function NoBitsSizes(headers: seq<ProgramHeader>, i: nat): seq<u32>
    requires i <= |headers|
    decreases |headers| - i
  {
    if i == |headers| then []
    else (if WantsMemory(headers[i]) then [headers[i].memsz] else []) + NoBitsSizes(headers, i + 1)
  }

  lemma {:induction false} LoadRequests(headers: seq<ProgramHeader>, i: nat)
    requires i <= |headers|
    ensures LoadOps(headers, i) == MallocOps(NoBitsSizes(headers, i))
    decreases |headers| - i
  {
    if i < |headers| {
      LoadRequests(headers, i + 1);
      MallocOpsAppend(if WantsMemory(headers[i]) then [headers[i].memsz] else [], NoBitsSizes(headers, i + 1));
    }
  }

  lemma MallocOpsAppend(first: seq<u32>, rest: seq<u32>)
    ensures MallocOps(first + rest) == MallocOps(first) + MallocOps(rest)
  {
  }

  lemma {:induction false} NoBitsIgnoreDone(headers: seq<ProgramHeader>, headers': seq<ProgramHeader>, i: nat)
    requires i <= |headers| == |headers'| && forall k | i <= k < |headers| :: headers'[k] == headers[k]
    ensures NoBitsSizes(headers', i) == NoBitsSizes(headers, i)
    decreases |headers| - i
  {
    if i < |headers| {
      NoBitsIgnoreDone(headers, headers', i + 1);
    }
  }

  /** A load that succeeds was granted all it asked for, and more can be asked for afterwards. */
  lemma {:induction false} LoadGranted(l: Load, elfMem: u32, i: nat, more: seq<u32>)
    requires i <= |l.headers| && l.status == AllOk && RequestsFit(l.mem, l.headers, i)
    requires LoadFrom(l, elfMem, i).status == AllOk && AllGranted(LoadFrom(l, elfMem, i).mem, more)
    requires Sound(l.mem)
    ensures AllGranted(l.mem, NoBitsSizes(l.headers, i) + more)
    decreases |l.headers| - i
  {
    hide Fits, Take, StartBlock, Sound, LoadOne, MallocBlock;
    if i == |l.headers| {
      assert NoBitsSizes(l.headers, i) + more == more;
    } else {
      var h, l' := l.headers[i], LoadOne(l, elfMem, i);
      LoadOneFits(l, elfMem, i);
      OneHeader(l, elfMem, i);
      NoBitsIgnoreDone(l.headers, l'.headers, i + 1);
      if WantsMemory(h) {
        LoadGranted(l', elfMem, i + 1, more);
        assert (NoBitsSizes(l.headers, i) + more)[1..] == NoBitsSizes(l.headers, i + 1) + more;
      } else {
        LoadGranted(l', elfMem, i + 1, more);
        assert NoBitsSizes(l.headers, i) == NoBitsSizes(l.headers, i + 1);
      }
    }
  }

  lemma OneHeader(l: Load, elfMem: u32, i: nat)
    requires i < |l.headers| && l.status == AllOk && Sound(l.mem)
    requires WantsMemory(l.headers[i]) && l.headers[i].memsz > 0 ==> Fits(l.mem.table, TotalBlocks(l.headers[i].memsz))
    ensures var h, l' := l.headers[i], LoadOne(l, elfMem, i);
            && |l'.headers| == |l.headers| && (forall k | i < k < |l.headers| :: l'.headers[k] == l.headers[k])
            && l'.mem == (if WantsMemory(h) then Take(l.mem, h.memsz, Kernel).1 else l.mem) && Sound(l'.mem)
            && (WantsMemory(h) && l'.status == AllOk ==> h.memsz > 0 && MallocBlock(l.mem.table, h.memsz).Some?)
  {
    hide Fits, StartBlock, Accounts;
    if WantsMemory(l.headers[i]) {
      TakeSound(l.mem, l.headers[i].memsz, Kernel);
    }
  }

  /** The last of the requests. */
  lemma {:induction false} LastStart(m: Mem, sizes: seq<u32>, size: u32)
    requires AllGranted(m, sizes + [size])
    ensures AllGranted(m, sizes) && AllGranted(Requested(m, sizes), [size])
    ensures StartsOf(m, sizes + [size]) == StartsOf(m, sizes) + [MallocBlock(Requested(m, sizes).table, size).value]
    decreases |sizes|
  {
    hide Fits, Take, StartBlock, MallocBlock;
    var all := sizes + [size];
    if sizes == [] {
      assert all == [size] && [size][1..] == [];
    } else {
      assert all[0] == sizes[0] && all[1..] == sizes[1..] + [size];
      LastStart(Take(m, sizes[0], Kernel).1, sizes[1..], size);
    }
  }

  // ----- the start

  /** The requests before the loader's own: the process record, the record of the file, the memory of the
      file and the list of headers. */
  function RecordSizes(headers: seq<ProgramHeader>, fileSize: u32): (sizes: seq<u32>)
    requires |headers| < 0x1_0000
    ensures |sizes| >= 3 && sizes[2] == fileSize
  {
    [PROCESS_RECORD_SIZE, ELF_RECORD_SIZE, fileSize] + (if headers == [] then [] else [POINTER_SIZE * |headers|])
  }

  /** All that starting an ELF program from its file needs. */
  ghost predicate ElfStartable(s: System, pid: nat, headers: seq<ProgramHeader>, fileSize: u32) {
    && |headers| < 0x1_0000 && pid !in s.procs
    && var sizes := RecordSizes(headers, fileSize);
    && AllGranted(s.mem, sizes)
    && Startable(System(Requested(s.mem, sizes), s.procs), pid, headers,
                 StartsOf(s.mem, sizes)[2], TotalBlocks(fileSize))
    && Inv(s)
  }

  function ElfStartOps(pid: nat, headers: seq<ProgramHeader>, fileSize: u32,
                       segments: seq<ProgramHeader>, stack: u32): seq<Op>
    requires |headers| < 0x1_0000
  {
    MallocOps(RecordSizes(headers, fileSize)) + StartOps(pid, headers, segments, stack)
  }

  /** The account after a start: these runs are held by the kernel or as the image of the task, and apart
      from them blocks that were vacant hold the record and the address space of the task. */
  ghost predicate StartAccount(was: seq<Cell>, own: seq<Cell>, pid: nat, starts: seq<nat>, lens: seq<nat>) {
    && |own| == |was| == HEAP_BLOCKS && |starts| == |lens|
    && (forall i | 0 <= i < |starts| :: lens[i] >= 1 && starts[i] + lens[i] <= |own|)
    && (forall i, j | 0 <= i < j < |starts| :: starts[i] != starts[j])
    && (forall i: nat, b: nat | InRun(starts, lens, i, b) ::
          was[b].Vacant?
          && (own[b] == Held(starts[i], lens[i], Kernel) || own[b] == Held(starts[i], lens[i], Image(pid))))
    && (forall b: nat | b < |own| && (forall i: nat :: !InRun(starts, lens, i, b)) :: KeptByStart(was[b], own[b], pid))
  }

  predicate KeptByStart(was: Cell, now: Cell, pid: nat) {
    || now == was
    || (was.Held? && was.who == Kernel && now == was.(who := Image(pid)))
    || (was.Vacant? && now.Held? && (ChunkOwner(now.who, pid) || now.who == TaskRecord(pid)))
  }

  lemma StartedAccount(was: seq<Cell>, s2: System, s3: System, s4: System, pid: nat, starts: seq<nat>, lens: seq<nat>,
                       all: seq<ProgramHeader>)
    requires Granted(was, s2.mem.own, starts, lens) && TaskCreated(s2, s3, pid) && Inv(s3)
    requires ImageGrown(s3, s4, pid, all) && Inv(s4)
    ensures StartAccount(was, s4.mem.own, pid, starts, lens)
  {
    hide Inv, NewTaskTook, Grown, OnSome;
    SameTableSameRuns(s3, s4);
    TakenByTask(s2.mem.own, s3.mem.own, s3.procs[pid].record, s3.procs[pid].chunk, pid);
    GrownCells(s3.mem.own, s4.mem.own, pid);
    SoundOf(s3);
    SoundOf(s4);
    var own2, own3, own4 := s2.mem.own, s3.mem.own, s4.mem.own;
    forall b: nat | b < HEAP_BLOCKS && own2[b] == was[b]
      ensures KeptByStart(was[b], own4[b], pid)
    {
    }
  }

  lemma SameTableSameRuns(s: System, s': System)
    requires s'.mem.table == s.mem.table && Inv(s) && Inv(s')
    ensures |s'.mem.own| == |s.mem.own| && forall b | 0 <= b < |s.mem.own| :: SameRun(s.mem.own[b], s'.mem.own[b])
  {
    hide Explained, ProcessesOk, WholeRuns;
    TableDeterminesRuns(s.mem.table, s.mem.own, s'.mem.own);
  }

  lemma TakenByTask(own: seq<Cell>, own': seq<Cell>, record: nat, c: Chunk, pid: nat)
    requires NewTaskTook(own, own', record, c, pid)
    ensures |own'| == |own| && forall b | 0 <= b < |own| && own'[b] != own[b] ::
              own[b].Vacant? && own'[b].Held? && (ChunkOwner(own'[b].who, pid) || own'[b].who == TaskRecord(pid))
  {
    hide ChunkHeld;
  }

  lemma GrownCells(own: seq<Cell>, own': seq<Cell>, pid: nat)
    requires Grown(own, own', pid)
    ensures |own'| == |own| && forall b | 0 <= b < |own| && own[b].Held? ::
              own'[b] == own[b] || (own[b].who == Kernel && own'[b] == own[b].(who := Image(pid)))
  {
  }

  /** The runs of an ELF process, from its requests in their order: its pointers lead to its stack, which
      is the last, to the record of the file and to its own record; the others lie behind the record of
      the file. */
  function ElfFootprint(starts: seq<nat>): Footprint
    requires |starts| >= 4
  {
    var last := |starts| - 1;
    Footprint([starts[last], starts[1], starts[0]], starts[2..last])
  }

  lemma ElfRuns(was: seq<Cell>, own: seq<Cell>, pid: nat, starts: seq<nat>, lens: seq<nat>)
    requires StartAccount(was, own, pid, starts, lens) && |starts| >= 4
    ensures RunsOf(own, pid, ElfFootprint(starts).Runs()) && RunsOf(own, pid, ElfFootprint(starts).pointers)
  {
    var runs, last := ElfFootprint(starts).Runs(), |starts| - 1;
    forall i | 0 <= i < |starts|
      ensures StartsRun(own, pid, starts[i])
    {
      assert InRun(starts, lens, i, starts[i]);
    }
    assert forall i | 3 <= i < |runs| :: runs[i] == starts[i - 1];
  }

  /** Starting an ELF program: every request, in the order of the code, is a step of the system, and these
      are the runs the process then has. */
  lemma {:induction false} ElfProcessStarts(s: System, pid: nat, headers: seq<ProgramHeader>, fileSize: u32)
    returns (s3: System, s4: System, segments: seq<ProgramHeader>, stack: u32, starts: seq<nat>, sizes: seq<u32>)
    requires ElfStartable(s, pid, headers, fileSize)
    ensures sizes == RecordSizes(headers, fileSize) + NoBitsSizes(headers, 0) + [STACK_SIZE]
    ensures Execute(s, ElfStartOps(pid, headers, fileSize, segments, stack)) == Some(s4)
    ensures Started(s3, s4, pid, segments, stack) && OneTaskMore(s, s4, pid) && Inv(s4)
    ensures |starts| == |sizes| && stack == BlockAddress(HEAP_START, starts[|starts| - 1])
    ensures StartAccount(s.mem.own, s4.mem.own, pid, starts, Lengths(sizes))
  {
    hide Inv, Startable, Started, Execute, Granted, StartAccount, TaskCreated, ImageGrown, AllGranted, Requested,
         StartsOf, LoadFrom, RequestsFit, Fits, StartBlock, Lengths, Take, MallocBlock, RecordSizes;
    var records := RecordSizes(headers, fileSize);
    NothingGranted(s);
    var s1 := RequestsRun(s.mem.own, s, [], [], records);
    var first := StartsOf(s.mem, records);
    assert [] + first == first && [] + Lengths(records) == Lengths(records);
    var s2;
    s2, s3, s4, segments, stack := ProgramStarts(s1, pid, headers, first[2], TotalBlocks(fileSize));
    sizes := records + NoBitsSizes(headers, 0) + [STACK_SIZE];
    starts := LoaderAndStack(s.mem.own, s1, s2, pid, headers, first, records, first[2], TotalBlocks(fileSize), stack);
    StartedAccount(s.mem.own, s2, s3, s4, pid, starts, Lengths(sizes), WithStack(segments, stack));
    ProcsOfStart(s2, s3, s4, pid, WithStack(segments, stack));
    ExecuteAppend(s, MallocOps(records), StartOps(pid, headers, segments, stack));
  }

  ghost predicate OneTaskMore(s: System, s': System, pid: nat) {
    pid !in s.procs && pid in s'.procs && s'.procs == s.procs[pid := s'.procs[pid]]
  }

  lemma ProcsOfStart(s2: System, s3: System, s4: System, pid: nat, all: seq<ProgramHeader>)
    requires TaskCreated(s2, s3, pid) && ImageGrown(s3, s4, pid, all)
    ensures OneTaskMore(s2, s4, pid)
  {
    hide Inv, NewTaskTook, Grown, OnSome;
  }

  /** The loader's requests and the stack, on top of the records. */
  lemma {:induction false} LoaderAndStack(was: seq<Cell>, s1: System, s2: System, pid: nat, headers: seq<ProgramHeader>,
                                          first: seq<nat>, records: seq<u32>, f: nat, n: nat, stack: u32)
    returns (starts: seq<nat>)
    requires |first| == |records| && Granted(was, s1.mem.own, first, Lengths(records))
    requires Startable(s1, pid, headers, f, n)
    requires Execute(s1, LoadOps(headers, 0) + [KernelMalloc(STACK_SIZE)]) == Some(s2)
    requires stack == StackAddress(s1, pid, headers, f, n)
    ensures var sizes := records + NoBitsSizes(headers, 0) + [STACK_SIZE];
            && |starts| == |sizes| && starts[..|first|] == first
            && stack == BlockAddress(HEAP_START, starts[|starts| - 1])
            && Granted(was, s2.mem.own, starts, Lengths(sizes)) && s2.procs == s1.procs
  {
    hide Inv, Execute, Granted, AllGranted, StartsOf, LoadFrom, RequestsFit, Fits, StartBlock, Lengths, WellPlaced,
         SafeHeader, Capacity, Take, MallocBlock, Requested;
    var l, sizes := LoadFrom(Load(AllOk, s1.mem, headers, [], []), FileAddress(f), 0), NoBitsSizes(headers, 0);
    SoundOf(s1);
    StackGranted(l.mem, stack);
    LoadGranted(Load(AllOk, s1.mem, headers, [], []), FileAddress(f), 0, [STACK_SIZE]);
    var s2' := RequestsRun(was, s1, first, Lengths(records), sizes + [STACK_SIZE]);
    LoadRequests(headers, 0);
    MallocOpsAppend(sizes, [STACK_SIZE]);
    assert MallocOps([STACK_SIZE]) == [KernelMalloc(STACK_SIZE)];
    LastStart(s1.mem, sizes, STACK_SIZE);
    LoadIsRun(s1, Load(AllOk, s1.mem, headers, [], []), FileAddress(f), 0);
    NothingGranted(s1);
    var sl := RequestsRun(s1.mem.own, s1, [], [], sizes);
    starts := first + StartsOf(s1.mem, sizes + [STACK_SIZE]);
    LengthsAppend(records, sizes + [STACK_SIZE]);
    assert records + (sizes + [STACK_SIZE]) == records + sizes + [STACK_SIZE];
  }

  lemma {:induction false} StackGranted(m: Mem, stack: u32)
    requires Fits(m.table, TotalBlocks(STACK_SIZE)) && MallocBlock(m.table, STACK_SIZE).Some?
    requires stack == Take(m, STACK_SIZE, Kernel).0
    ensures AllGranted(m, [STACK_SIZE]) && stack == BlockAddress(HEAP_START, MallocBlock(m.table, STACK_SIZE).value)
  {
    hide Fits, StartBlock;
    assert AllGranted(Take(m, STACK_SIZE, Kernel).1, [STACK_SIZE][1..]);
  }

  lemma LengthsAppend(first: seq<u32>, rest: seq<u32>)
    ensures Lengths(first) + Lengths(rest) == Lengths(first + rest)
  {
  }

  // ----- the end

  /** What is left of an ELF process after its end: nothing in the runs its pointers lead to, as far as the
      free loop clears them, which are the first, the second and the last; its other runs as they were
      taken; and every other block as it was before the start. */
  ghost predicate EndAccount(was: seq<Cell>, own: seq<Cell>, starts: seq<nat>, lens: seq<nat>, test: EndTest) {
    && |own| == |was| == HEAP_BLOCKS && |starts| == |lens|
    && (forall i | 0 <= i < |starts| :: starts[i] + lens[i] <= HEAP_BLOCKS)
    && (forall i: nat, b: nat | b < HEAP_BLOCKS && InRun(starts, lens, i, b) ::
          own[b] == if 2 <= i < |starts| - 1 then Held(starts[i], lens[i], Kernel)
                    else if b < starts[i] + Cleared(lens[i], test) then Vacant
                    else Leftover(b == starts[i] + lens[i] - 1))
    && (forall b: nat | b < HEAP_BLOCKS && (forall i: nat :: !InRun(starts, lens, i, b)) :: own[b] == was[b])
  }

  lemma EndedAccount(s: System, own: seq<Cell>, own': seq<Cell>, pid: nat,
                     starts: seq<nat>, lens: seq<nat>, test: EndTest)
    requires pid !in s.procs && |starts| >= 4 && Inv(s)
    requires StartAccount(s.mem.own, own, pid, starts, lens)
    requires Ended(own, own', pid, ElfFootprint(starts).pointers, test)
    ensures EndAccount(s.mem.own, own', starts, lens, test)
  {
    hide Inv;
    var was, pointers := s.mem.own, ElfFootprint(starts).pointers;
    SoundOf(s);
    NobodyThere(s, pid);
    forall i: nat, b: nat | b < HEAP_BLOCKS && InRun(starts, lens, i, b)
      ensures own'[b] == if 2 <= i < |starts| - 1 then Held(starts[i], lens[i], Kernel)
                         else if b < starts[i] + Cleared(lens[i], test) then Vacant
                         else Leftover(b == starts[i] + lens[i] - 1)
    {
      PointedTo(starts, i);
    }
    forall b: nat | b < HEAP_BLOCKS && (forall i: nat :: !InRun(starts, lens, i, b))
      ensures own'[b] == was[b]
    {
      NotPointedTo(s, own, pid, starts, lens, b);
    }
  }

  lemma NobodyThere(s: System, pid: nat)
    requires pid !in s.procs && Inv(s)
    ensures forall b | 0 <= b < |s.mem.own| :: !Concerns(s.mem.own[b], pid)
  {
    hide Accounts, ProcessesOk;
    NobodyYet(s.mem.own, s.procs, pid);
  }

  /** A run is freed exactly if it is one of the three. */
  lemma PointedTo(starts: seq<nat>, i: nat)
    requires i < |starts| && |starts| >= 4 && forall i, j | 0 <= i < j < |starts| :: starts[i] != starts[j]
    ensures starts[i] in ElfFootprint(starts).pointers <==> !(2 <= i < |starts| - 1)
  {
    var pointers := ElfFootprint(starts).pointers;
    assert pointers[0] == starts[|starts| - 1] && pointers[1] == starts[1] && pointers[2] == starts[0];
  }

  /** A run from before the start does not begin where one of the new ones does. */
  lemma NotPointedTo(s: System, own: seq<Cell>, pid: nat, starts: seq<nat>, lens: seq<nat>, b: nat)
    requires StartAccount(s.mem.own, own, pid, starts, lens) && |starts| >= 4 && b < HEAP_BLOCKS && Inv(s)
    ensures s.mem.own[b].Held? ==> s.mem.own[b].first !in ElfFootprint(starts).pointers
  {
    hide Explained, ProcessesOk;
    var c := s.mem.own[b];
    if c.Held? {
      assert IsRun(s.mem.own, c.first, c.len, c.who);
      assert s.mem.own[c.first] == c;
      forall i | 0 <= i < |starts|
        ensures starts[i] != c.first
      {
        assert InRun(starts, lens, i, starts[i]);
      }
    }
  }

  /** Start and end of an ELF process, one after the other: a run of the system, after which the memory of
      the file, the list of headers and the runs of segments without bytes in the file are still held,
      and of the stack and the process record all but two blocks are left over.  With the intended end
      test nothing would be left over, but the same runs would still be held. */
  lemma {:induction false} ElfProcessEnds(s: System, pid: nat, headers: seq<ProgramHeader>, fileSize: u32)
    returns (s4: System, s5: System, ops: seq<Op>, own': seq<Cell>, starts: seq<nat>, sizes: seq<u32>)
    requires ElfStartable(s, pid, headers, fileSize)
    ensures sizes == RecordSizes(headers, fileSize) + NoBitsSizes(headers, 0) + [STACK_SIZE] && |starts| == |sizes| >= 4
    ensures Execute(s, ops) == Some(s4) && Execute(s, ops + EndOps(pid, ElfFootprint(starts).pointers)) == Some(s5)
    ensures EndAccount(s.mem.own, s5.mem.own, starts, Lengths(sizes), AsWritten) && s5.procs == s.procs && Inv(s5)
    ensures EndAccount(s.mem.own, own', starts, Lengths(sizes), Intended)
    ensures pid in s4.procs && Inv(s4) && EndsIntended(s4, pid, ElfFootprint(starts).pointers, own')
  {
    hide Inv, Execute, ElfStartable, Started, StartAccount, EndAccount, Ended, RunsOf, RecordSizes, Lengths,
         EndsIntended;
    StartableFacts(s, pid, headers, fileSize);
    var s3, segments, stack;
    s3, s4, segments, stack, starts, sizes := ElfProcessStarts(s, pid, headers, fileSize);
    ops := ElfStartOps(pid, headers, fileSize, segments, stack);
    ElfRuns(s.mem.own, s4.mem.own, pid, starts, Lengths(sizes));
    assert s4.procs - {pid} == s.procs;
    s5 := EndIsRun(s4, pid, ElfFootprint(starts).pointers);
    own' := IntendedEnd(s4, pid, ElfFootprint(starts).pointers);
    ExecuteAppend(s, ops, EndOps(pid, ElfFootprint(starts).pointers));
    EndedAccount(s, s4.mem.own, s5.mem.own, pid, starts, Lengths(sizes), AsWritten);
    EndedAccount(s, s4.mem.own, own', pid, starts, Lengths(sizes), Intended);
  }

  lemma StartableFacts(s: System, pid: nat, headers: seq<ProgramHeader>, fileSize: u32)
    requires ElfStartable(s, pid, headers, fileSize)
    ensures pid !in s.procs && Inv(s) && |headers| < 0x1_0000
    ensures |RecordSizes(headers, fileSize)| >= 3
  {
  }

  /** Seven blocks of every ELF process are left over: one of the three of its record, and six of the eight
      of its stack. */
  lemma SevenBlocksLeftOver(was: seq<Cell>, own: seq<Cell>, starts: seq<nat>, sizes: seq<u32>)
    requires |starts| == |sizes| >= 4 && sizes[0] == PROCESS_RECORD_SIZE && sizes[|sizes| - 1] == STACK_SIZE
    requires EndAccount(was, own, starts, Lengths(sizes), AsWritten)
    ensures starts[0] + 3 <= HEAP_BLOCKS && own[starts[0] + 2].Leftover?
    ensures var stack := starts[|starts| - 1];
            stack + 8 <= HEAP_BLOCKS && forall b | stack + 2 <= b < stack + 8 :: own[b].Leftover?
  {
    var lens, last := Lengths(sizes), |starts| - 1;
    assert lens[0] == 3 && lens[last] == 8;
    assert InRun(starts, lens, 0, starts[0] + 2);
    forall b | starts[last] + 2 <= b < starts[last] + 8
      ensures own[b].Leftover?
    {
      assert InRun(starts, lens, last, b);
    }
  }
}
