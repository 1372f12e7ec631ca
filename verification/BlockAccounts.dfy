/** Who holds which heap block.

    An account assigns every block of the heap to at most one run, and every run to the part of
    the kernel that asked for it.  The byte table is the encoding of such an account: the lemmas
    here show how taking and freeing runs moves the account, and that the runs can be read back
    from the bytes. */
module BlockAccounts {
  import opened Status
  import opened HeapTable

  /** What a run of blocks was allocated for. */
  datatype Owner =
    | Kernel                            // process records, stacks, program images, buffers
    | Image(pid: nat)                   // kernel memory currently mapped into a task
    | TaskRecord(pid: nat)
    | ChunkHeader(pid: nat)
    | Directory(pid: nat)
    | PageTable(pid: nat, index: nat)
    | User(pid: nat, slot: nat)         // handed out by the user-level malloc
    | Orphan                            // user memory whose task is gone: nothing frees it

  /** A block is vacant, part of a run somebody holds, or a left-over of a freed run. */
  datatype Cell =
    | Vacant
    | Leftover(last: bool)
    | Held(first: nat, len: nat, who: Owner)

  function CellByte(c: Cell, i: nat): bv8 {
    match c
    case Vacant => FREE
    case Leftover(last) => if last then TAKEN else TAKEN | HAS_NEXT
    case Held(first, len, _) => if first <= i < first + len then RunByte(i - first, len) else FREE
  }

  ghost predicate IsRun(own: seq<Cell>, first: nat, len: nat, who: Owner) {
    && len >= 1 && first + len <= |own|
    && forall k | first <= k < first + len :: own[k] == Held(first, len, who)
  }

  /** Every held block belongs to a complete run; since a block has one cell, runs are disjoint. */
  ghost predicate WholeRuns(own: seq<Cell>) {
    forall i | 0 <= i < |own| && own[i].Held? ::
      own[i].first <= i < own[i].first + own[i].len && IsRun(own, own[i].first, own[i].len, own[i].who)
  }

  /** The table is the encoding of the account. */
  ghost predicate Accounts(t: seq<bv8>, own: seq<Cell>) {
    && |t| == |own|
    && WholeRuns(own)
    && forall i | 0 <= i < |own| :: t[i] == CellByte(own[i], i)
  }

  /** The account determines the table byte for byte. */
  lemma AccountDeterminesTable(t: seq<bv8>, u: seq<bv8>, own: seq<Cell>)
    requires Accounts(t, own) && Accounts(u, own)
    ensures t == u
  {
  }

  lemma TakenExactlyWhenHeld(t: seq<bv8>, own: seq<Cell>, i: nat)
    requires Accounts(t, own) && i < |own|
    ensures Taken(t[i]) <==> !own[i].Vacant?
    ensures !Taken(t[i]) ==> t[i] == FREE
    ensures t[i] & IS_FIRST != 0 && Taken(t[i]) <==> own[i].Held? && own[i].first == i
  {
    if own[i].Held? {
      RunByteTests(i - own[i].first, own[i].len);
    }
  }

  lemma HeldRun(t: seq<bv8>, own: seq<Cell>, p: nat, n: nat, who: Owner)
    requires Accounts(t, own) && p < |own| && own[p] == Held(p, n, who)
    ensures IsRun(own, p, n, who) && RunAt(t, p, n)
  {
    forall i | p <= i < p + n
      ensures t[i] == RunByte(i - p, n)
    {
      assert own[i] == Held(p, n, who);
    }
  }

  // ----- moving the account

  function Allot(own: seq<Cell>, p: nat, n: nat, who: Owner): (own': seq<Cell>)
    ensures |own'| == |own|
    ensures forall i | 0 <= i < |own| :: own'[i] == if p <= i < p + n then Held(p, n, who) else own[i]
  {
    seq(|own|, i requires 0 <= i < |own| => if p <= i < p + n then Held(p, n, who) else own[i])
  }

  /** Freeing the run that starts at p, with either end test: the blocks that the free loop clears become
      vacant, the others stay taken and belong to nobody. */
  function ReleaseUnder(own: seq<Cell>, p: nat, test: EndTest): (own': seq<Cell>)
    requires p < |own| && own[p].Held?
    ensures |own'| == |own|
    ensures forall i | 0 <= i < |own| :: own'[i] == ReleasedCell(own, p, i, test)
  {
    seq(|own|, i requires 0 <= i < |own| => ReleasedCell(own, p, i, test))
  }

  /** ... with the end test as it is written: the first two blocks become vacant. */
  function Release(own: seq<Cell>, p: nat): (own': seq<Cell>)
    requires p < |own| && own[p].Held?
    ensures |own'| == |own|
    ensures forall i | 0 <= i < |own| :: own'[i] == ReleasedCell(own, p, i, AsWritten)
  {
    ReleaseUnder(own, p, AsWritten)
  }

  function ReleasedCell(own: seq<Cell>, p: nat, i: nat, test: EndTest): Cell
    requires p < |own| && own[p].Held? && i < |own|
  {
    var n := own[p].len;
    if p <= i < p + Cleared(n, test) then Vacant
    else if p <= i < p + n then Leftover(i == p + n - 1)
    else own[i]
  }

  /** Taking a free run of the table moves the account to one where that run is held. */
  lemma AllotAccounts(t: seq<bv8>, own: seq<Cell>, p: nat, n: nat, who: Owner)
    requires Accounts(t, own) && n >= 1 && FreeRange(t, p, p + n)
    ensures forall i | p <= i < p + n :: own[i] == Vacant
    ensures Accounts(MarkTaken(t, p, n), Allot(own, p, n, who))
    ensures Allot(own, p, n, who)[p] == Held(p, n, who)
  {
    var own' := Allot(own, p, n, who);
    forall i | p <= i < p + n
      ensures own[i] == Vacant
    {
      TakenExactlyWhenHeld(t, own, i);
    }
    assert IsRun(own', p, n, who);
    forall i | 0 <= i < |own| && own'[i].Held?
      ensures own'[i].first <= i < own'[i].first + own'[i].len
      ensures IsRun(own', own'[i].first, own'[i].len, own'[i].who)
    {
      if !(p <= i < p + n) {
        KeepsRun(own, own', i);
      }
    }
  }

  /** A run survives a move of the account that only changes cells outside it. */
  lemma KeepsRun(own: seq<Cell>, own': seq<Cell>, i: nat)
    requires WholeRuns(own) && |own'| == |own| && i < |own| && own[i].Held?
    requires forall k | 0 <= k < |own| && own[k] == own[i] :: own'[k] == own[k]
    ensures IsRun(own', own[i].first, own[i].len, own[i].who)
  {
    var c := own[i];
    forall k | c.first <= k < c.first + c.len
      ensures own'[k] == c
    {
      assert own[k] == c;
    }
  }

  /** Freeing a held run, through the byte table, moves the account by `ReleaseUnder`. */
  lemma {:induction false} ReleaseAccounts(t: seq<bv8>, own: seq<Cell>, p: nat, n: nat, who: Owner, test: EndTest)
    requires Accounts(t, own) && p < |own| && own[p] == Held(p, n, who)
    ensures Stops(t, p)
    ensures Accounts(MarkFree(t, p, test), ReleaseUnder(own, p, test))
  {
    HeldRun(t, own, p, n, who);
    FreeClearsOwnRunOnly(t, p, n, test);
    var t', own' := MarkFree(t, p, test), ReleaseUnder(own, p, test);
    forall i | 0 <= i < |own|
      ensures t'[i] == CellByte(own'[i], i)
    {
      if p <= i < p + n {
        assert t[i] == RunByte(i - p, n);
      }
    }
    forall i | 0 <= i < |own| && own'[i].Held?
      ensures own'[i].first <= i < own'[i].first + own'[i].len
      ensures IsRun(own', own'[i].first, own'[i].len, own'[i].who)
    {
      assert own[i] == own'[i] && own[i] != own[p];
      KeepsRun(own, own', i);
    }
  }

  /** Renaming owners, one name for each run, does not touch the table. */
  lemma RenamingAccounts(t: seq<bv8>, own: seq<Cell>, own': seq<Cell>)
    requires Accounts(t, own) && |own'| == |own|
    requires forall i | 0 <= i < |own| :: SameRun(own[i], own'[i])
    requires forall i, j | 0 <= i < |own| && 0 <= j < |own| && own[i] == own[j] :: own'[i] == own'[j]
    ensures Accounts(t, own')
  {
    forall i | 0 <= i < |own| && own'[i].Held?
      ensures IsRun(own', own'[i].first, own'[i].len, own'[i].who)
      ensures own'[i].first <= i < own'[i].first + own'[i].len
    {
      var c := own[i];
      assert IsRun(own, c.first, c.len, c.who);
    }
  }

  // ----- reading the runs back

  /** The same block of the same run, whatever it was allocated for. */
  predicate SameRun(c: Cell, d: Cell) {
    match c
    case Vacant => d.Vacant?
    case Leftover(last) => d == Leftover(last)
    case Held(first, len, _) => d.Held? && d.first == first && d.len == len
  }

  lemma SameLength(t: seq<bv8>, own: seq<Cell>, other: seq<Cell>, p: nat)
    requires Accounts(t, own) && Accounts(t, other)
    requires p < |own| && own[p].Held? && own[p].first == p
    ensures SameRun(own[p], other[p])
  {
    TakenExactlyWhenHeld(t, own, p);
    TakenExactlyWhenHeld(t, other, p);
    var n, m := own[p].len, other[p].len;
    HeldRun(t, own, p, n, own[p].who);
    HeldRun(t, other, p, m, other[p].who);
    RunLengthUnique(t, p, n, m);
  }

  /** The bytes fix the length of the run that starts at p. */
  lemma RunLengthUnique(t: seq<bv8>, p: nat, n: nat, m: nat)
    requires RunAt(t, p, n) && RunAt(t, p, m)
    ensures n == m
  {
    var k := (if n < m then n else m) - 1;
    RunByteTests(k, n);
    RunByteTests(k, m);
    assert t[p + k] == RunByte(p + k - p, n);
  }

  /** The table determines its runs: two accounts of the same bytes hold the same runs and the
      same left-overs. */
  lemma TableDeterminesRuns(t: seq<bv8>, own: seq<Cell>, other: seq<Cell>)
    requires Accounts(t, own) && Accounts(t, other)
    ensures forall i | 0 <= i < |own| :: SameRun(own[i], other[i])
  {
    forall i | 0 <= i < |own|
      ensures SameRun(own[i], other[i])
    {
      TakenExactlyWhenHeld(t, own, i);
      TakenExactlyWhenHeld(t, other, i);
      if own[i].Held? {
        SameCellOfRun(t, own, other, i);
      } else if other[i].Held? {
        SameCellOfRun(t, other, own, i);
      }
    }
  }

  lemma SameCellOfRun(t: seq<bv8>, own: seq<Cell>, other: seq<Cell>, i: nat)
    requires Accounts(t, own) && Accounts(t, other)
    requires i < |own| && own[i].Held?
    ensures SameRun(own[i], other[i])
  {
    var c := own[i];
    assert IsRun(own, c.first, c.len, c.who);
    assert own[c.first] == c;
    SameLength(t, own, other, c.first);
    assert IsRun(other, c.first, c.len, other[c.first].who);
  }

  // ----- how many one-block requests a table can answer

  /** A block a one-block request may be given: free, and followed by a free block or the end. */
  predicate UsableAt(t: seq<bv8>, i: nat)
    requires i < |t|
  {
    !Taken(t[i]) && (i + 1 == |t| || !Taken(t[i + 1]))
  }

  function UsableBlocks(t: seq<bv8>): set<nat> {
    set i: nat | i < |t| && UsableAt(t, i)
  }

  function Capacity(t: seq<bv8>): nat {
    |UsableBlocks(t)|
  }

  /** A one-block request succeeds exactly while a usable block is left, always fits, and uses up
      exactly one of them. */
  lemma OneBlockRequest(t: seq<bv8>)
    ensures StartBlock(t, 1).Some? <==> Capacity(t) > 0
    ensures StartBlock(t, 1).Some? ==>
              var p := StartBlock(t, 1).value;
              Fits(t, 1) && FreeRange(t, p, p + 1) && Capacity(MarkTaken(t, p, 1)) == Capacity(t) - 1
  {
    var r := StartBlock(t, 1);
    if r.None? {
      forall i: nat | i < |t|
        ensures !UsableAt(t, i)
      {
        assert !Window(t, 1, i);
      }
      assert UsableBlocks(t) == {};
    } else {
      OneBlockChoice(t, r.value);
      OneBlockUsed(t, r.value);
    }
  }

  lemma OneBlockUsed(t: seq<bv8>, p: nat)
    requires p < |t| && UsableAt(t, p) && (p > 0 ==> Taken(t[p - 1]))
    ensures Capacity(MarkTaken(t, p, 1)) == Capacity(t) - 1
  {
    RunByteTests(0, 1);
    assert p in UsableBlocks(t);
    assert UsableBlocks(MarkTaken(t, p, 1)) == UsableBlocks(t) - {p};
  }

  lemma OneBlockChoice(t: seq<bv8>, p: nat)
    requires StartBlock(t, 1) == Some(p)
    ensures p < |t| && UsableAt(t, p) && Fits(t, 1) && p in UsableBlocks(t)
    ensures p > 0 ==> Taken(t[p - 1])
  {
    if HasWindow(t, 1) {
      assert Window(t, 1, p);
      if p > 0 {
        assert !Window(t, 1, p - 1);
      }
    } else {
      assert !Window(t, 1, p);
    }
  }

  /** The table after k one-block requests in a row, if all of them are answered. */
  ghost function AfterOneBlockRequests(t: seq<bv8>, k: nat): Option<seq<bv8>>
    decreases k
  {
    if k == 0 then Some(t)
    else
      match StartBlock(t, 1)
      case None => None
      case Some(p) => OneBlockRequest(t); AfterOneBlockRequests(MarkTaken(t, p, 1), k - 1)
  }

  /** A table can answer exactly as many one-block requests as it has usable blocks. */
  lemma {:induction false} CapacityIsExact(t: seq<bv8>, k: nat)
    ensures AfterOneBlockRequests(t, k).Some? <==> k <= Capacity(t)
    decreases k
  {
    hide Capacity;
    OneBlockRequest(t);
    if k > 0 && StartBlock(t, 1).Some? {
      CapacityIsExact(MarkTaken(t, StartBlock(t, 1).value, 1), k - 1);
    }
  }
}
