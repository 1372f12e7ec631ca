/** Freeing a process: its task, and then the runs its pointers lead to.  What comes back, and what does
    not. */
module ProcessEnd {
  import opened Words
  import opened Status
  import opened HeapTable
  import opened BlockAccounts
  import opened PageTables
  import opened MemoryState
  import opened ProcessMemory
  import opened MemorySystem
  import opened MemoryTheorems
  import opened ProgramStart

  /** The kernel memory of a process, by the first blocks of its runs: those its pointers lead to, which
      are its stack, its program and its own record, without the null ones; and those behind them, which
      are, for an ELF program, the memory of the file, the list of headers and the runs of segments
      without bytes in the file. */
  datatype Footprint = Footprint(pointers: seq<nat>, behind: seq<nat>) {
    function Runs(): seq<nat> { pointers + behind }
  }

  // ----- accounts

  /** Block a starts a run of the kernel, or of the image of the task. */
  predicate StartsRun(own: seq<Cell>, pid: nat, a: nat) {
    a < |own| && own[a].Held? && own[a].first == a && (own[a].who == Kernel || own[a].who == Image(pid))
  }

  /** Different runs. */
  ghost predicate RunsOf(own: seq<Cell>, pid: nat, starts: seq<nat>) {
    && (forall i | 0 <= i < |starts| :: StartsRun(own, pid, starts[i]))
    && (forall i, j | 0 <= i < j < |starts| :: starts[i] != starts[j])
  }

  /** A cell after the runs that start at `starts` have been freed. */
  function FreedCell(cell: Cell, starts: seq<nat>, b: nat, test: EndTest): Cell {
    if !cell.Held? || cell.first !in starts then cell
    else if b < cell.first + Cleared(cell.len, test) then Vacant
    else Leftover(b == cell.first + cell.len - 1)
  }

  /** The account after freeing them one after the other. */
  ghost function ReleaseAll(own: seq<Cell>, pid: nat, starts: seq<nat>, test: EndTest): (own': seq<Cell>)
    requires WholeRuns(own) && RunsOf(own, pid, starts)
    decreases |starts|
  {
    if starts == [] then own
    else
      ReleaseKeepsOthers(own, pid, starts, test);
      ReleaseAll(ReleaseUnder(own, starts[0], test), pid, starts[1..], test)
  }

  /** One run freed, cell by cell. */
  lemma ReleasedExactly(own: seq<Cell>, pid: nat, a: nat, test: EndTest)
    requires WholeRuns(own) && StartsRun(own, pid, a)
    ensures var own' := ReleaseUnder(own, a, test);
            |own'| == |own| && forall b | 0 <= b < |own| :: own'[b] == FreedCell(own[b], [a], b, test)
  {
    var own' := ReleaseUnder(own, a, test);
    assert IsRun(own, a, own[a].len, own[a].who);
    forall b | 0 <= b < |own|
      ensures own'[b] == FreedCell(own[b], [a], b, test)
    {
      if own[b].Held? && own[b].first == a {
        assert IsRun(own, a, own[b].len, own[b].who);
        assert own[a] == own[b];
      }
    }
  }

  lemma ReleaseKeepsOthers(own: seq<Cell>, pid: nat, starts: seq<nat>, test: EndTest)
    requires WholeRuns(own) && RunsOf(own, pid, starts) && starts != []
    ensures WholeRuns(ReleaseUnder(own, starts[0], test))
    ensures RunsOf(ReleaseUnder(own, starts[0], test), pid, starts[1..])
  {
    hide ReleaseUnder;
    var own' := ReleaseUnder(own, starts[0], test);
    ReleasedExactly(own, pid, starts[0], test);
    forall i | 0 <= i < |own'| && own'[i].Held?
      ensures own'[i].first <= i < own'[i].first + own'[i].len
      ensures IsRun(own', own'[i].first, own'[i].len, own'[i].who)
    {
      assert own'[i] == own[i];
      assert IsRun(own, own[i].first, own[i].len, own[i].who);
    }
    forall i | 0 <= i < |starts[1..]|
      ensures StartsRun(own', pid, starts[1..][i])
    {
      assert StartsRun(own, pid, starts[i + 1]);
    }
  }

  lemma {:induction false} AllReleased(own: seq<Cell>, pid: nat, starts: seq<nat>, test: EndTest)
    requires WholeRuns(own) && RunsOf(own, pid, starts)
    ensures var own' := ReleaseAll(own, pid, starts, test);
            |own'| == |own| && forall b | 0 <= b < |own| :: own'[b] == FreedCell(own[b], starts, b, test)
    decreases |starts|
  {
    hide WholeRuns, RunsOf, ReleaseUnder;
    if starts != [] {
      FirstStarts(own, pid, starts);
      ReleaseKeepsOthers(own, pid, starts, test);
      ReleasedExactly(own, pid, starts[0], test);
      AllReleased(ReleaseUnder(own, starts[0], test), pid, starts[1..], test);
      assert starts == [starts[0]] + starts[1..];
    }
  }

  lemma FirstStarts(own: seq<Cell>, pid: nat, starts: seq<nat>)
    requires RunsOf(own, pid, starts) && starts != []
    ensures StartsRun(own, pid, starts[0]) && starts[0] !in starts[1..]
  {
  }

  // ----- the run of operations

  function FreePointers(starts: seq<nat>): seq<Op>
    decreases |starts|
  {
    if starts == [] then [] else [KernelFree(BlockAddress(HEAP_START, starts[0]))] + FreePointers(starts[1..])
  }

  /** Freeing the task first, then what the pointers lead to. */
  function EndOps(pid: nat, pointers: seq<nat>): seq<Op> {
    [FreeTask(pid)] + FreePointers(pointers)
  }

  ghost predicate AllKernel(own: seq<Cell>, starts: seq<nat>) {
    forall i | 0 <= i < |starts| :: starts[i] < |own| && own[starts[i]].Held? && own[starts[i]].who == Kernel
  }

  /** Once the task is gone, its image is plain kernel memory. */
  lemma RunsWithoutTask(own: seq<Cell>, own': seq<Cell>, pid: nat, starts: seq<nat>)
    requires RunsOf(own, pid, starts) && AccountWithout(own, own', pid)
    ensures RunsOf(own', pid, starts) && AllKernel(own', starts)
  {
    forall i | 0 <= i < |starts|
      ensures StartsRun(own', pid, starts[i]) && own'[starts[i]].who == Kernel
    {
      assert StartsRun(own, pid, starts[i]);
    }
  }

  /** One kernel free. */
  lemma OnePointer(s: System, pid: nat, starts: seq<nat>)
    requires starts != [] && RunsOf(s.mem.own, pid, starts) && AllKernel(s.mem.own, starts) && Inv(s)
    ensures Enabled(s, KernelFree(BlockAddress(HEAP_START, starts[0])))
    ensures var s' := Step(s, KernelFree(BlockAddress(HEAP_START, starts[0])));
            && Inv(s') && s'.procs == s.procs && s'.mem.own == ReleaseUnder(s.mem.own, starts[0], AsWritten)
            && AllKernel(s'.mem.own, starts[1..])
  {
    hide Explained, ProcessesOk, Accounts, ReleaseUnder;
    assert StartsRun(s.mem.own, pid, starts[0]);
    BlockIsFrame(starts[0]);
    StepKeeps(s, KernelFree(BlockAddress(HEAP_START, starts[0])));
    WholeRunsOf(s);
    ReleasedExactly(s.mem.own, pid, starts[0], AsWritten);
    forall i | 0 <= i < |starts[1..]|
      ensures ReleaseUnder(s.mem.own, starts[0], AsWritten)[starts[1..][i]] == s.mem.own[starts[i + 1]]
    {
      assert StartsRun(s.mem.own, pid, starts[i + 1]);
    }
  }

  lemma WholeRunsOf(s: System)
    requires Inv(s)
    ensures WholeRuns(s.mem.own) && |s.mem.own| == HEAP_BLOCKS
  {
  }

  lemma {:induction false} PointersRun(s: System, pid: nat, starts: seq<nat>)
    requires RunsOf(s.mem.own, pid, starts) && AllKernel(s.mem.own, starts) && Inv(s)
    ensures WholeRuns(s.mem.own)
    ensures var r := Execute(s, FreePointers(starts));
            r.Some? && r.value.procs == s.procs && r.value.mem.own == ReleaseAll(s.mem.own, pid, starts, AsWritten)
            && Inv(r.value)
    decreases |starts|
  {
    hide Inv, Enabled, Step, RunsOf, AllKernel, WholeRuns, ReleaseUnder;
    WholeRunsOf(s);
    if starts != [] {
      OnePointer(s, pid, starts);
      ReleaseKeepsOthers(s.mem.own, pid, starts, AsWritten);
      var op := KernelFree(BlockAddress(HEAP_START, starts[0]));
      assert FreePointers(starts)[0] == op && FreePointers(starts)[1..] == FreePointers(starts[1..]);
      PointersRun(Step(s, op), pid, starts[1..]);
    }
  }

  /** The same frees on the byte table, with either end test. */
  ghost function FreeAll(t: seq<bv8>, starts: seq<nat>, test: EndTest): seq<bv8>
    decreases |starts|
  {
    if starts == [] then t else FreeAll(MarkFree(t, starts[0], test), starts[1..], test)
  }

  lemma {:induction false} FreeAllAccounts(t: seq<bv8>, own: seq<Cell>, pid: nat, starts: seq<nat>, test: EndTest)
    requires Accounts(t, own) && RunsOf(own, pid, starts)
    ensures Accounts(FreeAll(t, starts, test), ReleaseAll(own, pid, starts, test))
    decreases |starts|
  {
    hide WholeRuns, ReleaseUnder, MarkFree;
    if starts != [] {
      var a := starts[0];
      FirstStarts(own, pid, starts);
      ReleaseAccounts(t, own, a, own[a].len, own[a].who, test);
      ReleaseKeepsOthers(own, pid, starts, test);
      FreeAllAccounts(MarkFree(t, a, test), ReleaseUnder(own, a, test), pid, starts[1..], test);
    }
  }

  // ----- the end of a process

  /** What becomes of block b when a process is freed. */
  function EndCell(cell: Cell, pid: nat, pointers: seq<nat>, b: nat, test: EndTest): Cell {
    FreedCell(RetiredCell(WithoutTask(cell, pid), pid), pointers, b, test)
  }

  ghost predicate Ended(own: seq<Cell>, own': seq<Cell>, pid: nat, pointers: seq<nat>, test: EndTest) {
    |own'| == |own| == HEAP_BLOCKS
    && forall b | 0 <= b < HEAP_BLOCKS :: own'[b] == EndCell(own[b], pid, pointers, b, test)
  }

  /** Freeing a process whose pointers lead to runs of their own is a run of the system, and this is its
      account. */
  lemma {:induction false} EndIsRun(s: System, pid: nat, pointers: seq<nat>) returns (s': System)
    requires pid in s.procs && RunsOf(s.mem.own, pid, pointers) && Inv(s)
    ensures Execute(s, EndOps(pid, pointers)) == Some(s') && s'.procs == s.procs - {pid}
    ensures Ended(s.mem.own, s'.mem.own, pid, pointers, AsWritten) && Inv(s')
  {
    hide Inv, RunsOf, AllKernel, FreeTaskStep, EndCell, WholeRuns, ReleaseAll, Execute;
    FreeTaskKeeps(s, pid);
    var s1 := Step(s, FreeTask(pid));
    RunsWithoutTask(s.mem.own, s1.mem.own, pid, pointers);
    PointersRun(s1, pid, pointers);
    AllReleased(s1.mem.own, pid, pointers, AsWritten);
    s' := Execute(s1, FreePointers(pointers)).value;
    OneThenRest(s, FreeTask(pid), FreePointers(pointers));
    TaskGone(s, pid);
    EndedCells(s.mem.own, s1.mem.own, s'.mem.own, pid, pointers, AsWritten);
  }

  lemma {:induction false} OneThenRest(s: System, op: Op, rest: seq<Op>)
    requires Inv(s) && Enabled(s, op) && Inv(Step(s, op))
    ensures Execute(s, [op] + rest) == Execute(Step(s, op), rest)
  {
    hide Inv, Enabled, Step;
    assert ([op] + rest)[1..] == rest;
  }

  lemma TaskGone(s: System, pid: nat)
    requires pid in s.procs && Inv(s)
    ensures FreeTaskStep(s, pid).procs == s.procs - {pid}
  {
  }

  lemma EndedCells(own: seq<Cell>, own1: seq<Cell>, own2: seq<Cell>, pid: nat, pointers: seq<nat>, test: EndTest)
    requires AccountWithout(own, own1, pid) && |own2| == |own1|
    requires forall b | 0 <= b < |own1| :: own2[b] == FreedCell(own1[b], pointers, b, test)
    ensures Ended(own, own2, pid, pointers, test)
  {
  }

  /** own' is the account of the table that freeing the process leaves with the intended end test. */
  ghost predicate EndsIntended(s: System, pid: nat, pointers: seq<nat>, own': seq<Cell>)
    requires pid in s.procs && Inv(s)
  {
    Accounts(FreeAll(FreeTaskStep(s, pid).mem.table, pointers, Intended), own')
  }

  /** With the intended end test the free loop clears whole runs; the frees of a task, which are all of
      one block, are the same with both. */
  lemma {:induction false} IntendedEnd(s: System, pid: nat, pointers: seq<nat>) returns (own': seq<Cell>)
    requires pid in s.procs && RunsOf(s.mem.own, pid, pointers) && Inv(s)
    ensures EndsIntended(s, pid, pointers, own')
    ensures Ended(s.mem.own, own', pid, pointers, Intended)
  {
    hide Inv, RunsOf, AllKernel, FreeTaskStep, EndCell, WholeRuns, ReleaseAll, FreeAll;
    FreeTaskKeeps(s, pid);
    var s1 := FreeTaskStep(s, pid);
    RunsWithoutTask(s.mem.own, s1.mem.own, pid, pointers);
    SoundOf(s1);
    own' := ReleaseAll(s1.mem.own, pid, pointers, Intended);
    FreeAllAccounts(s1.mem.table, s1.mem.own, pid, pointers, Intended);
    AllReleased(s1.mem.own, pid, pointers, Intended);
    EndedCells(s.mem.own, s1.mem.own, own', pid, pointers, Intended);
  }

  // ----- what comes back

  /** Block b is of one of the runs that start at `starts`. */
  predicate InRuns(own: seq<Cell>, starts: seq<nat>, b: nat) {
    b < |own| && own[b].Held? && own[b].first in starts
  }

  /** What becomes of block b: vacant exactly if it was, or held a frame or the record of the task, or is
      cleared in the run of a pointer; left over exactly if it was, or is not cleared there; an orphan
      exactly if it was, or belongs to a live allocation; and what lies behind the pointers stays held,
      by the kernel, and nothing that is left leads to it. */
  ghost predicate EndsAs(s: System, pid: nat, fp: Footprint, b: nat, now: Cell, test: EndTest)
    requires pid in s.procs && b < |s.mem.own|
  {
    var was, p, own := s.mem.own[b], s.procs[pid], s.mem.own;
    && (now.Vacant? <==> was.Vacant? || HEAP_FRAME + b == p.record || p.chunk.Owns(HEAP_FRAME + b)
                         || (InRuns(own, fp.pointers, b) && b < was.first + Cleared(was.len, test)))
    && (now.Leftover? <==> was.Leftover? || (InRuns(own, fp.pointers, b) && b >= was.first + Cleared(was.len, test)))
    && (IsOrphan(now) <==> IsOrphan(was) || exists k :: InLiveRun(s, pid, b, k))
    && (InRuns(own, fp.behind, b) ==> now == was.(who := Kernel))
    && (now.Held? ==> SameRun(was, now))
  }

  /** The runs of a process belong to it alone. */
  lemma RunOwner(s: System, pid: nat, starts: seq<nat>, b: nat)
    requires RunsOf(s.mem.own, pid, starts) && InRuns(s.mem.own, starts, b) && Inv(s)
    ensures s.mem.own[b].who == Kernel || s.mem.own[b].who == Image(pid)
    ensures s.mem.own[b] == s.mem.own[s.mem.own[b].first]
    ensures s.mem.own[b].first <= b < s.mem.own[b].first + s.mem.own[b].len
  {
    hide Explained, ProcessesOk;
    var c := s.mem.own[b];
    assert IsRun(s.mem.own, c.first, c.len, c.who);
    var i :| 0 <= i < |starts| && starts[i] == c.first;
    assert StartsRun(s.mem.own, pid, starts[i]);
  }

  lemma EndOfBlock(s: System, pid: nat, fp: Footprint, own': seq<Cell>, b: nat, test: EndTest)
    requires pid in s.procs && RunsOf(s.mem.own, pid, fp.Runs()) && b < HEAP_BLOCKS && Inv(s)
    requires Ended(s.mem.own, own', pid, fp.pointers, test)
    ensures EndsAs(s, pid, fp, b, own'[b], test)
  {
    hide Inv, InLiveRun, Chunk.Owns, RunsOf;
    TaskBlocks(s, pid, b);
    LiveRunOfBlock(s, pid, b, USER_PAGE + b);
    var cell := s.mem.own[b];
    PointersAndBehind(s, pid, fp);
    if InRuns(s.mem.own, fp.Runs(), b) {
      RunOwner(s, pid, fp.Runs(), b);
    }
  }

  lemma PointersAndBehind(s: System, pid: nat, fp: Footprint)
    requires RunsOf(s.mem.own, pid, fp.Runs())
    ensures RunsOf(s.mem.own, pid, fp.pointers) && RunsOf(s.mem.own, pid, fp.behind)
    ensures forall a :: a in fp.Runs() <==> a in fp.pointers || a in fp.behind
    ensures forall a | a in fp.behind :: a !in fp.pointers
  {
    forall i | 0 <= i < |fp.pointers|
      ensures StartsRun(s.mem.own, pid, fp.pointers[i])
    {
      assert fp.Runs()[i] == fp.pointers[i];
    }
    forall i | 0 <= i < |fp.behind|
      ensures StartsRun(s.mem.own, pid, fp.behind[i])
    {
      assert fp.Runs()[|fp.pointers| + i] == fp.behind[i];
    }
    forall i, j | 0 <= i < |fp.pointers| && 0 <= j < |fp.behind|
      ensures fp.pointers[i] != fp.behind[j]
    {
      assert fp.Runs()[i] == fp.pointers[i] && fp.Runs()[|fp.pointers| + j] == fp.behind[j];
    }
    forall i, j | 0 <= i < j < |fp.behind|
      ensures fp.behind[i] != fp.behind[j]
    {
      assert fp.Runs()[|fp.pointers| + i] == fp.behind[i] && fp.Runs()[|fp.pointers| + j] == fp.behind[j];
    }
    forall i, j | 0 <= i < j < |fp.pointers|
      ensures fp.pointers[i] != fp.pointers[j]
    {
      assert fp.Runs()[i] == fp.pointers[i] && fp.Runs()[j] == fp.pointers[j];
    }
  }

  /** Block b is memory of the process: of its task, of a live allocation, or of one of its runs. */
  ghost predicate MemoryOf(s: System, pid: nat, fp: Footprint, b: nat)
    requires pid in s.procs
  {
    var p := s.procs[pid];
    || HEAP_FRAME + b == p.record || p.chunk.Owns(HEAP_FRAME + b)
    || (exists k :: InLiveRun(s, pid, b, k)) || InRuns(s.mem.own, fp.Runs(), b)
  }

  /** All memory of the process is vacant. */
  ghost predicate GivenBack(s: System, pid: nat, fp: Footprint, own': seq<Cell>)
    requires pid in s.procs
  {
    forall b: nat | b < |own'| && MemoryOf(s, pid, fp, b) :: own'[b].Vacant?
  }

  /** Freeing a process gives all of its memory back exactly if it has no live allocation, nothing lies
      behind its pointers, which means that its program is not an ELF file, and, as the end test is
      written, none of its runs has more than two blocks. */
  lemma GivenBackExactly(s: System, pid: nat, fp: Footprint, own': seq<Cell>, test: EndTest)
    requires pid in s.procs && RunsOf(s.mem.own, pid, fp.Runs()) && Inv(s)
    requires Ended(s.mem.own, own', pid, fp.pointers, test)
    ensures GivenBack(s, pid, fp, own') <==>
              && (forall k :: !LiveSlot(s, pid, k)) && fp.behind == []
              && (test.Intended? || forall i | 0 <= i < |fp.pointers| :: RunLength(s.mem.own, fp.pointers[i]) <= 2)
  {
    hide Inv, RunsOf, Ended, InLiveRun, LiveSlot, MemoryOf;
    EndedLength(s.mem.own, own', pid, fp.pointers, test);
    PointersAndBehind(s, pid, fp);
    if k: nat :| LiveSlot(s, pid, k) {
      LiveIsLost(s, pid, fp, own', k, test);
    }
    if fp.behind != [] {
      BehindIsLost(s, pid, fp, own', test);
    }
    if i :| 0 <= i < |fp.pointers| && RunLength(s.mem.own, fp.pointers[i]) > 2 {
      if test.AsWritten? {
        LongRunIsLost(s, pid, fp, own', i);
      }
    }
    if (forall k :: !LiveSlot(s, pid, k)) && fp.behind == []
       && (test.Intended? || forall i | 0 <= i < |fp.pointers| :: RunLength(s.mem.own, fp.pointers[i]) <= 2) {
      forall b: nat | b < |own'| && MemoryOf(s, pid, fp, b)
        ensures own'[b].Vacant?
      {
        AllGivenBack(s, pid, fp, own', b, test);
      }
    }
  }

  /** The length of the run that starts at a. */
  function RunLength(own: seq<Cell>, a: nat): nat {
    if a < |own| && own[a].Held? then own[a].len else 0
  }

  lemma EndedLength(own: seq<Cell>, own': seq<Cell>, pid: nat, pointers: seq<nat>, test: EndTest)
    requires Ended(own, own', pid, pointers, test)
    ensures |own'| == |own| == HEAP_BLOCKS
  {
  }

  lemma LiveIsLost(s: System, pid: nat, fp: Footprint, own': seq<Cell>, k: nat, test: EndTest)
    requires pid in s.procs && RunsOf(s.mem.own, pid, fp.Runs()) && Inv(s)
    requires Ended(s.mem.own, own', pid, fp.pointers, test) && LiveSlot(s, pid, k)
    ensures !GivenBack(s, pid, fp, own')
  {
    hide Inv, RunsOf, Ended;
    EndedLength(s.mem.own, own', pid, fp.pointers, test);
    LiveSlotRun(s, pid, k);
    var b := s.procs[pid].slots[k].addr / PAGE_SIZE - USER_PAGE;
    assert InLiveRun(s, pid, b, k);
    EndOfBlock(s, pid, fp, own', b, test);
    assert MemoryOf(s, pid, fp, b);
  }

  lemma BehindIsLost(s: System, pid: nat, fp: Footprint, own': seq<Cell>, test: EndTest)
    requires pid in s.procs && RunsOf(s.mem.own, pid, fp.Runs()) && Inv(s)
    requires Ended(s.mem.own, own', pid, fp.pointers, test) && fp.behind != []
    ensures !GivenBack(s, pid, fp, own')
  {
    hide Inv, Ended;
    EndedLength(s.mem.own, own', pid, fp.pointers, test);
    PointersAndBehind(s, pid, fp);
    var b := fp.behind[0];
    assert StartsRun(s.mem.own, pid, b);
    EndOfBlock(s, pid, fp, own', b, test);
    assert InRuns(s.mem.own, fp.behind, b) && MemoryOf(s, pid, fp, b);
  }

  lemma LongRunIsLost(s: System, pid: nat, fp: Footprint, own': seq<Cell>, i: nat)
    requires pid in s.procs && RunsOf(s.mem.own, pid, fp.Runs()) && Inv(s)
    requires Ended(s.mem.own, own', pid, fp.pointers, AsWritten)
    requires i < |fp.pointers| && RunLength(s.mem.own, fp.pointers[i]) > 2
    ensures !GivenBack(s, pid, fp, own')
  {
    hide Inv, Ended;
    EndedLength(s.mem.own, own', pid, fp.pointers, AsWritten);
    PointersAndBehind(s, pid, fp);
    var a := fp.pointers[i];
    assert StartsRun(s.mem.own, pid, a);
    var b := a + 2;
    RunCells(s, a, b);
    EndOfBlock(s, pid, fp, own', b, AsWritten);
    assert InRuns(s.mem.own, fp.pointers, b) && MemoryOf(s, pid, fp, b);
  }

  lemma RunCells(s: System, a: nat, b: nat)
    requires a < |s.mem.own| && s.mem.own[a].Held? && s.mem.own[a].first == a && a <= b < a + s.mem.own[a].len && Inv(s)
    ensures b < |s.mem.own| && s.mem.own[b] == s.mem.own[a]
  {
    hide Explained, ProcessesOk;
    assert IsRun(s.mem.own, a, s.mem.own[a].len, s.mem.own[a].who);
  }

  lemma AllGivenBack(s: System, pid: nat, fp: Footprint, own': seq<Cell>, b: nat, test: EndTest)
    requires pid in s.procs && RunsOf(s.mem.own, pid, fp.Runs()) && Inv(s)
    requires Ended(s.mem.own, own', pid, fp.pointers, test) && b < |own'| && MemoryOf(s, pid, fp, b)
    requires (forall k :: !LiveSlot(s, pid, k)) && fp.behind == []
    requires test.Intended? || forall i | 0 <= i < |fp.pointers| :: RunLength(s.mem.own, fp.pointers[i]) <= 2
    ensures own'[b].Vacant?
  {
    hide Inv, Ended;
    EndedLength(s.mem.own, own', pid, fp.pointers, test);
    EndOfBlock(s, pid, fp, own', b, test);
    if InRuns(s.mem.own, fp.Runs(), b) {
      RunOwner(s, pid, fp.Runs(), b);
      var i :| 0 <= i < |fp.pointers| && fp.pointers[i] == s.mem.own[b].first;
    }
  }
}
