/** The first-fit block allocator.

    Its only state is a table with one byte per 4 KB block.  A run of n blocks is written as
    first / middle / last bytes; everything else about the heap has to be read back from the
    bytes.  The table is followed by other memory, so `entries` may be longer than `size`. */
module HeapTable {
  import opened Words
  import opened Status

  const BLOCK_SIZE: nat := 4096
  const FREE: bv8 := 0x01
  const TAKEN: bv8 := 0x0f
  const HAS_NEXT: bv8 := 0x80
  const IS_FIRST: bv8 := 0x40

  predicate Taken(e: bv8) {
    e & TAKEN == TAKEN
  }

  /** The test the free loop uses to stop: as the macro is written, it also holds of a middle
      byte; the intended test is that the has-next bit is clear. */
  datatype EndTest = AsWritten | Intended

  predicate IsEnd(test: EndTest, e: bv8) {
    match test
    case AsWritten => Taken(e) && e & 0xc0 != 0xc0
    case Intended => Taken(e) && e & HAS_NEXT == 0
  }

  /** The byte of block k of a run of n blocks. */
  function RunByte(k: nat, n: nat): bv8 {
    if n == 1 then TAKEN | IS_FIRST
    else if k == 0 then TAKEN | HAS_NEXT | IS_FIRST
    else if k + 1 < n then TAKEN | HAS_NEXT
    else TAKEN
  }

  function RunBytes(n: nat): seq<bv8> {
    seq(n, (k: nat) => RunByte(k, n))
  }

  // ----- the first-fit search, declaratively

  /** Blocks i up to j are all free. */
  ghost predicate FreeRange(t: seq<bv8>, i: int, j: int) {
    0 <= i <= j <= |t| && forall k | i <= k < j :: !Taken(t[k])
  }

  /** n+1 free blocks start at p: what the search stops at when asked for n. */
  ghost predicate Window(t: seq<bv8>, n: nat, p: nat) {
    FreeRange(t, p, p + n + 1)
  }

  ghost predicate FirstWindow(t: seq<bv8>, n: nat, p: nat) {
    Window(t, n, p) && forall i: nat | i < p :: !Window(t, n, i)
  }

  ghost predicate HasWindow(t: seq<bv8>, n: nat) {
    exists p: nat :: Window(t, n, p)
  }

  /** Where the free run that touches the end of the table starts. */
  function TailStart(t: seq<bv8>): (p: nat)
    ensures FreeRange(t, p, |t|)
    ensures p > 0 ==> Taken(t[p - 1])
  {
    if |t| == 0 || Taken(t[|t| - 1]) then |t|
    else
      var p := TailStart(t[..|t| - 1]);
      assert forall k | p <= k < |t| - 1 :: t[k] == t[..|t| - 1][k];
      p
  }

  lemma LeastWindow(t: seq<bv8>, n: nat, q: nat) returns (p: nat)
    requires Window(t, n, q)
    ensures FirstWindow(t, n, p)
  {
    if i: nat :| i < q && Window(t, n, i) {
      p := LeastWindow(t, n, i);
    } else {
      p := q;
    }
  }

  /** The block a request for n blocks is given: the leftmost free window of n+1 blocks; failing
      that the free run touching the end of the table, however short; failing that nothing. */
  ghost function StartBlock(t: seq<bv8>, n: nat): (r: Option<nat>)
    ensures r.Some? ==> r.value < |t| && !Taken(t[r.value])
    ensures r.None? <==> !HasWindow(t, n) && TailStart(t) == |t|
  {
    if HasWindow(t, n) then
      assert exists p: nat :: FirstWindow(t, n, p) by {
        var q: nat :| Window(t, n, q);
        var p := LeastWindow(t, n, q);
      }
      var p: nat :| FirstWindow(t, n, p);
      Some(p)
    else if TailStart(t) < |t| then Some(TailStart(t))
    else None
  }

  /** The condition a caller can check before asking for n blocks: the search finds a window, or
      the free run at the end of the table is empty or long enough. */
  ghost predicate Fits(t: seq<bv8>, n: nat) {
    HasWindow(t, n) || TailStart(t) == |t| || TailStart(t) + n <= |t|
  }

  /** The run handed out lies inside the table exactly when the request fits. */
  lemma FitsExactly(t: seq<bv8>, n: nat)
    requires StartBlock(t, n).Some?
    ensures Fits(t, n) <==> StartBlock(t, n).value + n <= |t|
  {
  }

  /** ... and then every block of it is free, and it is where a free run starts. */
  lemma StartRunIsFree(t: seq<bv8>, n: nat)
    requires StartBlock(t, n).Some?
    ensures Fits(t, n) ==> FreeRange(t, StartBlock(t, n).value, StartBlock(t, n).value + n)
    ensures StartBlock(t, n).value > 0 ==> Taken(t[StartBlock(t, n).value - 1])
  {
    var p := StartBlock(t, n).value;
    if HasWindow(t, n) && p > 0 {
      assert FirstWindow(t, n, p);
      assert !Window(t, n, p - 1);
    }
  }

  lemma FirstWindowUnique(t: seq<bv8>, n: nat, p: nat)
    requires FirstWindow(t, n, p)
    ensures StartBlock(t, n) == Some(p)
  {
    var q := StartBlock(t, n).value;
    assert FirstWindow(t, n, q);
    assert !(p < q) && !(q < p);
  }

  /** A free run of exactly n blocks that does not touch the end of the table is passed over. */
  lemma ExactRunIsPassedOver(t: seq<bv8>, n: nat, p: nat)
    requires n > 0 && p + n < |t| && FreeRange(t, p, p + n)
    requires Taken(t[p + n]) && (p > 0 ==> Taken(t[p - 1]))
    ensures StartBlock(t, n) != Some(p)
  {
    assert !Window(t, n, p);
    assert !FreeRange(t, p, |t|);
  }

  /** A table on which a two-block request is answered with the single free block at the end. */
  lemma ShortTailIsHandedOut()
    ensures StartBlock([TAKEN, FREE], 2) == Some(1) && !Fits([TAKEN, FREE], 2)
  {
    var t := [TAKEN, FREE];
    assert t[..1] == [TAKEN];
    assert TailStart(t[..1]) == 1;
    assert TailStart(t) == 1;
  }

  /** Asked of an all-free table: the request is answered with the first block whatever its size, and
      fits exactly when it is not larger than the table. */
  lemma {:induction false} FreeTableAnswersAll(t: seq<bv8>, n: nat)
    requires |t| > 0 && n > 0 && forall i | 0 <= i < |t| :: !Taken(t[i])
    ensures StartBlock(t, n) == Some(0)
    ensures Fits(t, n) <==> n <= |t|
  {
    var tail := TailStart(t);
    assert tail == 0;
    if HasWindow(t, n) {
      assert Window(t, n, 0) by {
        var q: nat :| Window(t, n, q);
      }
      FirstWindowUnique(t, n, 0);
    }
  }

  // ----- marking

  function MarkTaken(t: seq<bv8>, p: nat, n: nat): (t': seq<bv8>)
    requires p + n <= |t|
    ensures |t'| == |t|
    ensures forall i | 0 <= i < |t| :: t'[i] == if p <= i < p + n then RunByte(i - p, n) else t[i]
  {
    t[..p] + RunBytes(n) + t[p + n..]
  }

  /** Clearing from block b on: up to and including the first byte that passes the end test,
      or up to the first free byte. */
  function MarkFree(t: seq<bv8>, b: nat, test: EndTest): (t': seq<bv8>)
    ensures |t'| == |t|
    decreases |t| - b
  {
    if b >= |t| || !Taken(t[b]) then t
    else if IsEnd(test, t[b]) then t[b := FREE]
    else MarkFree(t[b := FREE], b + 1, test)
  }

  /** The free loop, started at block b, stops before it leaves the memory it was given. */
  ghost predicate Stops(t: seq<bv8>, b: int) {
    0 <= b && exists k | b <= k < |t| :: !Taken(t[k]) || IsEnd(AsWritten, t[k])
  }

  /** Bytes b, b+1, ... hold a complete run of n blocks. */
  ghost predicate RunAt(t: seq<bv8>, b: nat, n: nat) {
    n >= 1 && b + n <= |t| && forall i | b <= i < b + n :: t[i] == RunByte(i - b, n)
  }

  lemma RunByteTests(k: nat, n: nat)
    requires k < n
    ensures Taken(RunByte(k, n)) && !Taken(FREE)
    ensures IsEnd(AsWritten, RunByte(k, n)) <==> n == 1 || k >= 1
    ensures IsEnd(Intended, RunByte(k, n)) <==> k == n - 1
    ensures RunByte(k, n) & IS_FIRST != 0 <==> k == 0
    ensures RunByte(k, n) & HAS_NEXT != 0 <==> k < n - 1
  {
  }

  /** How many blocks of a run of n the free loop clears. */
  function Cleared(n: nat, test: EndTest): nat {
    if test.AsWritten? && n > 2 then 2 else n
  }

  /** Freeing a complete run clears its first blocks and touches nothing else: all of them under
      the intended end test, at most two as the test is written. */
  lemma {:induction false} FreeClearsOwnRunOnly(t: seq<bv8>, b: nat, n: nat, test: EndTest)
    requires RunAt(t, b, n)
    ensures Stops(t, b)
    ensures forall i | 0 <= i < |t| ::
              MarkFree(t, b, test)[i] == if b <= i < b + Cleared(n, test) then FREE else t[i]
  {
    RunByteTests(0, n);
    RunByteTests(n - 1, n);
    assert t[b + n - 1] == RunByte(b + n - 1 - b, n);
    FreeFrom(t, b, b, n, test);
  }

  lemma {:induction false} FreeFrom(t: seq<bv8>, b: nat, j: nat, n: nat, test: EndTest)
    requires b <= j < b + n <= |t|
    requires test.AsWritten? ==> j < b + 2
    requires forall i | j <= i < b + n :: t[i] == RunByte(i - b, n)
    ensures forall i | 0 <= i < |t| ::
              MarkFree(t, j, test)[i] == if j <= i < b + Cleared(n, test) then FREE else t[i]
    decreases b + n - j
  {
    RunByteTests(j - b, n);
    if !IsEnd(test, t[j]) {
      FreeFrom(t[j := FREE], b, j + 1, n, test);
    }
  }

  /** What lies behind the table does not matter to a free that stops inside it. */
  lemma {:induction false} FreeStaysInside(t: seq<bv8>, behind: seq<bv8>, b: nat)
    requires Stops(t, b)
    ensures MarkFree(t + behind, b, AsWritten) == MarkFree(t, b, AsWritten) + behind
    decreases |t| - b
  {
    var u := t + behind;
    assert u[b] == t[b];
    if Taken(t[b]) {
      assert u[b := FREE] == t[b := FREE] + behind;
      if !IsEnd(AsWritten, t[b]) {
        var k :| b <= k < |t| && (!Taken(t[k]) || IsEnd(AsWritten, t[k]));
        assert t[b := FREE][k] == t[k];
        FreeStaysInside(t[b := FREE], behind, b + 1);
      }
    }
  }

  /** Taking a free run and freeing it again gives the table back byte for byte: always under the
      intended end test, and as written exactly when the run has at most two blocks. */
  lemma {:induction false} FreeUndoesMalloc(t: seq<bv8>, p: nat, n: nat, test: EndTest)
    requires n >= 1 && p + n <= |t|
    requires forall i | p <= i < p + n :: t[i] == FREE
    ensures MarkFree(MarkTaken(t, p, n), p, test) == t <==> test.Intended? || n <= 2
  {
    var u := MarkTaken(t, p, n);
    assert RunAt(u, p, n);
    FreeClearsOwnRunOnly(u, p, n, test);
    var v := MarkFree(u, p, test);
    if test.Intended? || n <= 2 {
      assert v == t;
    } else {
      RunByteTests(2, n);
      assert v[p + 2] == RunByte(2, n) && t[p + 2] == FREE;
    }
  }

  /** On a complete run the two end tests free the same blocks exactly if it has at most two. */
  lemma {:induction false} EndTestsAgree(t: seq<bv8>, b: nat, n: nat)
    requires RunAt(t, b, n)
    ensures MarkFree(t, b, AsWritten) == MarkFree(t, b, Intended) <==> n <= 2
  {
    FreeClearsOwnRunOnly(t, b, n, AsWritten);
    FreeClearsOwnRunOnly(t, b, n, Intended);
    if n > 2 {
      RunByteTests(2, n);
      assert t[b + 2] == RunByte(b + 2 - b, n);
      assert MarkFree(t, b, AsWritten)[b + 2] != MarkFree(t, b, Intended)[b + 2];
    }
  }

  /** Three free blocks, taken and freed: the third stays taken. */
  lemma ThirdBlockStaysTaken()
    ensures MarkFree(MarkTaken([FREE, FREE, FREE], 0, 3), 0, AsWritten) == [FREE, FREE, TAKEN]
  {
    var t := [FREE, FREE, FREE];
    var u := MarkTaken(t, 0, 3);
    assert RunAt(u, 0, 3);
    FreeClearsOwnRunOnly(u, 0, 3, AsWritten);
    assert u[2] == RunByte(2, 3);
  }

  // ----- addresses

  function TotalBlocks(size: u32): nat {
    CeilDiv(size, BLOCK_SIZE)
  }

  /** The first block of the run `malloc(size)` hands out: none for an empty request. */
  ghost function MallocBlock(t: seq<bv8>, size: u32): (r: Option<nat>)
    ensures r.Some? ==> r.value < |t| && TotalBlocks(size) >= 1
  {
    if size == 0 then None else StartBlock(t, TotalBlocks(size))
  }

  lemma {:induction false} LastBlockTaken(t: seq<bv8>)
    requires |t| > 0
    ensures TailStart(t) == |t| <==> Taken(t[|t| - 1])
  {
  }

  /** A request is granted exactly if it is not empty and there is a free window of one block more than it
      needs or, failing that, the last block of the table is free. */
  lemma {:induction false} GrantedExactly(t: seq<bv8>, size: u32)
    requires |t| > 0
    ensures MallocBlock(t, size).Some? <==>
              size > 0 && ((exists p: nat :: Window(t, TotalBlocks(size), p)) || !Taken(t[|t| - 1]))
  {
    hide Window;
    LastBlockTaken(t);
  }

  function BlockAddress(start: u32, block: nat): u32 {
    Wrap(start + block * BLOCK_SIZE)
  }

  function AddressBlock(start: u32, address: u32): int {
    TruncDiv(Signed(Wrap(address - start)), BLOCK_SIZE)
  }

  /** Block numbers and block addresses undo each other, and block addresses are page aligned. */
  lemma AddressRoundTrip(start: u32, size: nat, block: nat)
    requires start % BLOCK_SIZE == 0 && start + size * BLOCK_SIZE <= 0x8000_0000 && block < size
    ensures BlockAddress(start, block) == start + block * BLOCK_SIZE
    ensures BlockAddress(start, block) % BLOCK_SIZE == 0
    ensures AddressBlock(start, BlockAddress(start, block)) == block
  {
    var address := start + block * BLOCK_SIZE;
    assert BlockAddress(start, block) == address;
    assert Signed(Wrap(address - start)) == block * BLOCK_SIZE;
  }

  lemma BlockRoundTrip(start: u32, size: nat, address: u32)
    requires start % BLOCK_SIZE == 0 && start + size * BLOCK_SIZE <= 0x8000_0000
    requires start <= address < start + size * BLOCK_SIZE && address % BLOCK_SIZE == 0
    ensures 0 <= AddressBlock(start, address) < size
    ensures BlockAddress(start, AddressBlock(start, address)) == address
  {
    var block := (address - start) / BLOCK_SIZE;
    assert address == start + block * BLOCK_SIZE;
    assert Signed(Wrap(address - start)) == block * BLOCK_SIZE;
  }

  // ----- the heap object

  class Table {
    const entries: array<bv8>
    const size: nat

    constructor (entries: array<bv8>, size: nat)
      ensures this.entries == entries && this.size == size
    {
      this.entries := entries;
      this.size := size;
    }
  }

  class Heap {
    var table: Table
    var start: u32

    constructor (table: Table, start: u32)
      ensures this.table == table && this.start == start
    {
      this.table := table;
      this.start := start;
    }

    ghost predicate Valid()
      reads this
    {
      && table.size <= table.entries.Length
      && table.size < 0x8000_0000
    }

    /** The table proper. */
    ghost function Bytes(): seq<bv8>
      requires Valid()
      reads this, table.entries
    {
      table.entries[..table.size]
    }

    method Create(start: u32, end: u32, table: Table) returns (res: Status)
      requires table.size <= table.entries.Length
      modifies this, table.entries
      ensures res == if start % BLOCK_SIZE == 0 && end % BLOCK_SIZE == 0
                        && Wrap(end - start) / BLOCK_SIZE == table.size then AllOk else EInvArg
      ensures res == AllOk ==> this.table == table && this.start == start
      ensures res == AllOk ==> forall i | 0 <= i < table.entries.Length ::
                table.entries[i] == if i < table.size then FREE else old(table.entries[i])
      ensures res != AllOk ==> unchanged(this) && unchanged(table.entries)
    {
      if start % BLOCK_SIZE != 0 || end % BLOCK_SIZE != 0 || Wrap(end - start) / BLOCK_SIZE != table.size {
        return EInvArg;
      }
      this.table := table;
      this.start := start;
      for i := 0 to table.size
        invariant this.table == table && this.start == start
        invariant forall k | 0 <= k < table.entries.Length ::
          table.entries[k] == if k < i then FREE else old(table.entries[k])
      {
        table.entries[i] := FREE;
      }
      return AllOk;
    }

    method GetStartBlock(blocks: nat) returns (r: Option<nat>)
      requires Valid()
      ensures r == StartBlock(Bytes(), blocks)
    {
      ghost var t := Bytes();
      var bs, bc := -1, 0;
      var i := 0;
      while i < table.size
        invariant 0 <= i <= table.size
        invariant bs == -1 ==> bc == 0 && (i > 0 ==> Taken(t[i - 1]))
        invariant bs != -1 ==> 0 <= bs < i && bc == i - bs - 1 && FreeRange(t, bs, i)
        invariant bs > 0 ==> Taken(t[bs - 1])
        invariant bc < blocks || (blocks == 0 && bs == -1)
        invariant forall j: nat | j + blocks < i :: !Window(t, blocks, j)
      {
        assert table.entries[i] == t[i];
        if Taken(table.entries[i]) {
          bs, bc := -1, 0;
          i := i + 1;
          continue;
        }
        if bs == -1 {
          bs := i;
        } else {
          bc := bc + 1;
        }
        if bc == blocks {
          assert FirstWindow(t, blocks, bs);
          FirstWindowUnique(t, blocks, bs);
          return Some(bs);
        }
        i := i + 1;
      }
      if bs < 0 {
        return None;
      }
      return Some(bs);
    }

    method MarkBlockTaken(p: nat, blocks: nat)
      requires Valid() && blocks >= 1 && p + blocks <= table.entries.Length
      modifies table.entries
      ensures table.entries[..] == MarkTaken(old(table.entries[..]), p, blocks)
    {
      ghost var was := table.entries[..];
      var e := table.entries;
      if blocks == 1 {
        e[p] := IS_FIRST | TAKEN;
      } else {
        e[p] := TAKEN | HAS_NEXT | IS_FIRST;
        var i := p + 1;
        var left := blocks - 2;
        while left != 0
          invariant left >= 0 && i == p + blocks - 1 - left
          invariant forall k | 0 <= k < e.Length ::
            e[k] == if p <= k < i then RunByte(k - p, blocks) else was[k]
        {
          e[i] := TAKEN | HAS_NEXT;
          i, left := i + 1, left - 1;
        }
        e[i] := TAKEN;
      }
      assert forall k | 0 <= k < e.Length :: e[k] == MarkTaken(was, p, blocks)[k];
    }

    method MarkBlockFree(block: nat)
      requires Valid() && Stops(table.entries[..], block)
      modifies table.entries
      ensures table.entries[..] == MarkFree(old(table.entries[..]), block, AsWritten)
    {
      var e := table.entries;
      var i := block;
      while Taken(e[i])
        invariant block <= i < e.Length
        invariant Stops(e[..], i)
        invariant MarkFree(e[..], i, AsWritten) == MarkFree(old(table.entries[..]), block, AsWritten)
        decreases e.Length - i
      {
        var last := IsEnd(AsWritten, e[i]);
        ghost var now := e[..];
        e[i] := FREE;
        assert e[..] == now[i := FREE];
        if last { break; }
        ghost var k :| i <= k < |now| && (!Taken(now[k]) || IsEnd(AsWritten, now[k]));
        assert e[..][k] == now[k];
        i := i + 1;
      }
    }

    method Malloc(size: u32) returns (ptr: u32)
      requires Valid() && table.size + TotalBlocks(size) <= table.entries.Length
      modifies table.entries
      ensures MallocBlock(old(Bytes()), size).None? ==> ptr == 0 && unchanged(table.entries)
      ensures MallocBlock(old(Bytes()), size).Some? ==>
                var p, n := MallocBlock(old(Bytes()), size).value, TotalBlocks(size);
                && ptr == BlockAddress(start, p)
                && table.entries[..] == MarkTaken(old(table.entries[..]), p, n)
                && (Fits(old(Bytes()), n) ==>
                      && Bytes() == MarkTaken(old(Bytes()), p, n)
                      && table.entries[table.size..] == old(table.entries[table.size..]))
    {
      if size == 0 {
        return 0;
      }
      var blocks := TotalBlocks(size);
      var found := GetStartBlock(blocks);
      if found.None? {
        return 0;
      }
      FitsExactly(Bytes(), blocks);
      MarkBlockTaken(found.value, blocks);
      return BlockAddress(start, found.value);
    }

    method Free(ptr: u32)
      requires Valid() && Stops(table.entries[..], AddressBlock(start, ptr))
      modifies table.entries
      ensures table.entries[..] == MarkFree(old(table.entries[..]), AddressBlock(start, ptr), AsWritten)
      ensures old(Stops(Bytes(), AddressBlock(start, ptr))) ==>
                && Bytes() == MarkFree(old(Bytes()), AddressBlock(start, ptr), AsWritten)
                && table.entries[table.size..] == old(table.entries[table.size..])
    {
      ghost var t, behind := Bytes(), table.entries[table.size..];
      assert table.entries[..] == t + behind;
      var block := AddressBlock(start, ptr);
      if Stops(t, block) {
        FreeStaysInside(t, behind, block);
      }
      MarkBlockFree(block);
    }
  }
}
