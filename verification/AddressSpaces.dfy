/** Creating and freeing a whole 4 GB address space: a directory, 1024 page tables and the block
    with the chunk structure, each a one-block heap run. */
module AddressSpaces {
  import opened Words
  import opened BlockAccounts
  import opened PageTables
  import opened MemoryState

  const CHUNK_BLOCKS: nat := ENTRIES + 2

  /** The heap holds the frames of chunk c for task `pid`. */
  predicate ChunkHeld(own: seq<Cell>, c: Chunk, pid: nat) {
    && HeldFrame(own, c.header, ChunkHeader(pid))
    && HeldFrame(own, c.directory, Directory(pid))
    && |c.tables| == ENTRIES
    && forall i | 0 <= i < ENTRIES :: HeldFrame(own, c.tables[i], PageTable(pid, i))
  }

  /** The blocks of an address space of `pid`. */
  predicate ChunkOwner(who: Owner, pid: nat) {
    who == ChunkHeader(pid) || who == Directory(pid) || (who.PageTable? && who.pid == pid)
  }

  /** Block b is the frame of chunk c that its owner says. */
  predicate IsChunkBlock(who: Owner, c: Chunk, b: nat) {
    match who
    case ChunkHeader(_) => HEAP_FRAME + b == c.header
    case Directory(_) => HEAP_FRAME + b == c.directory
    case PageTable(_, i) => i < |c.tables| && HEAP_FRAME + b == c.tables[i]
    case _ => true
  }

  /** Nothing else is held as part of an address space of `pid`. */
  ghost predicate ChunkOnly(own: seq<Cell>, c: Chunk, pid: nat) {
    forall b | 0 <= b < |own| && own[b].Held? && ChunkOwner(own[b].who, pid) :: IsChunkBlock(own[b].who, c, b)
  }

  /** Because the heap never gives a block out twice, no two frames of a chunk alias. */
  lemma HeldChunkHasNoAliases(own: seq<Cell>, c: Chunk, pid: nat)
    requires |own| == HEAP_BLOCKS && ChunkHeld(own, c, pid)
    ensures NoAliases(c)
  {
    forall i, j | 0 <= i < j < ENTRIES
      ensures c.tables[i] != c.tables[j]
    {
      assert HeldFrame(own, c.tables[i], PageTable(pid, i));
      assert HeldFrame(own, c.tables[j], PageTable(pid, j));
    }
    forall i | 0 <= i < ENTRIES
      ensures c.tables[i] < PAGES && c.tables[i] != c.header && c.tables[i] != c.directory
    {
      assert HeldFrame(own, c.tables[i], PageTable(pid, i));
    }
  }

  /** ... nor do frames of the chunks of different tasks. */
  lemma ChunksDisjoint(own: seq<Cell>, c: Chunk, pid: nat, d: Chunk, other: nat, frame: nat)
    requires ChunkHeld(own, c, pid) && ChunkHeld(own, d, other) && pid != other
    requires c.Owns(frame)
    ensures !d.Owns(frame)
  {
    ChunkFrameOwner(own, c, pid, frame);
    if d.Owns(frame) {
      ChunkFrameOwner(own, d, other, frame);
    }
  }

  lemma ChunkFrameOwner(own: seq<Cell>, c: Chunk, pid: nat, frame: nat)
    requires ChunkHeld(own, c, pid) && c.Owns(frame)
    ensures HEAP_FRAME <= frame < HEAP_FRAME + |own|
    ensures own[frame - HEAP_FRAME].Held? && ChunkOwner(own[frame - HEAP_FRAME].who, pid)
  {
    if frame in c.tables {
      var i :| 0 <= i < |c.tables| && c.tables[i] == frame;
      assert HeldFrame(own, c.tables[i], PageTable(pid, i));
    }
  }

  // ----- creation

  /** The entry for page `page` of a fresh chunk: the page itself, with the flags. */
  function IdentityEntry(page: nat, flags: u32): u32
    requires page < PAGES
  {
    Or32(page * PAGE_SIZE, flags)
  }

  /** The 1024 entries of table i of a fresh chunk. */
  function IdentityTable(i: nat, flags: u32): (t: seq<u32>)
    requires i < ENTRIES
    ensures |t| == ENTRIES
  {
    seq<u32>(ENTRIES, (j: nat) requires j < ENTRIES => IdentityEntry(i * ENTRIES + j, flags))
  }

  function ZeroTable(): (t: seq<u32>)
    ensures |t| == ENTRIES
  {
    seq(ENTRIES, _ => 0)
  }

  /** A frame overwritten with 1024 words. */
  function WriteFrame(ram: Ram, frame: nat, words: seq<u32>): (ram': Ram)
    requires frame < PAGES && |words| == ENTRIES
  {
    ram[..frame * ENTRIES] + words + ram[frame * ENTRIES + ENTRIES..]
  }

  function WriteWord(ram: Ram, frame: nat, slot: nat, w: u32): Ram
    requires frame < PAGES && slot < ENTRIES
  {
    ram[frame * ENTRIES + slot := w]
  }

  lemma WriteWordReads(ram: Ram, frame: nat, slot: nat, w: u32, f: nat, s: nat)
    requires frame < PAGES && slot < ENTRIES && f < PAGES && s < ENTRIES
    ensures Word(WriteWord(ram, frame, slot, w), f, s) == if f == frame && s == slot then w else Word(ram, f, s)
  {
    WordsDiffer(frame, slot, f, s);
  }

  lemma WriteFrameReads(ram: Ram, frame: nat, words: seq<u32>, f: nat, s: nat)
    requires frame < PAGES && |words| == ENTRIES && f < PAGES && s < ENTRIES
    ensures Word(WriteFrame(ram, frame, words), f, s) == if f == frame then words[s] else Word(ram, f, s)
  {
  }

  /** One more table for the directory in frame d: a frame from the heap, filled with identity
      entries and entered at index i. */
  ghost function OneTable(m: Mem, d: nat, i: nat, pid: nat, flags: u32): (r: (nat, Mem))
    requires i < ENTRIES && d < PAGES
    requires Sound(m) && Capacity(m.table) > 0
  {
    TakePageSound(m, PageTable(pid, i));
    var (frame, m1) := TakePage(m, PageTable(pid, i));
    (frame, m1.(ram := TableRam(m1.ram, d, i, frame, flags)))
  }

  function TableRam(ram: Ram, d: nat, i: nat, frame: nat, flags: u32): Ram
    requires i < ENTRIES && d < PAGES && frame < PAGES
  {
    WriteWord(WriteFrame(ram, frame, IdentityTable(i, flags)), d, i, Or32(frame * PAGE_SIZE, flags))
  }

  /** The remaining tables, after those in `tables`. */
  ghost function BuildTables(m: Mem, d: nat, tables: seq<nat>, pid: nat, flags: u32): (r: (seq<nat>, Mem))
    requires |tables| <= ENTRIES && d < PAGES
    requires Sound(m) && Capacity(m.table) >= ENTRIES - |tables|
    ensures Sound(r.1) && |r.0| == ENTRIES
    ensures Capacity(r.1.table) == Capacity(m.table) - (ENTRIES - |tables|)
    decreases ENTRIES - |tables|
  {
    if |tables| == ENTRIES then (tables, m)
    else
      OneTableSound(m, d, |tables|, pid, flags);
      var (frame, m1) := OneTable(m, d, |tables|, pid, flags);
      BuildTables(m1, d, tables + [frame], pid, flags)
  }

  lemma OneTableSound(m: Mem, d: nat, i: nat, pid: nat, flags: u32)
    requires i < ENTRIES && d < PAGES
    requires Sound(m) && Capacity(m.table) > 0
    ensures Sound(OneTable(m, d, i, pid, flags).1)
    ensures Capacity(OneTable(m, d, i, pid, flags).1.table) == Capacity(m.table) - 1
  {
    TakePageSound(m, PageTable(pid, i));
  }

  ghost function NewChunk(m: Mem, pid: nat, flags: u32): (r: (Chunk, Mem))
    requires Sound(m) && Capacity(m.table) >= CHUNK_BLOCKS
  {
    TakePageSound(m, Directory(pid));
    var (d, m1) := TakePage(m, Directory(pid));
    var (tables, m2) := BuildTables(m1.(ram := WriteFrame(m1.ram, d, ZeroTable())), d, [], pid, flags);
    TakePageSound(m2, ChunkHeader(pid));
    var (h, m3) := TakePage(m2, ChunkHeader(pid));
    (Chunk(h, d, tables), m3.(ram := WriteWord(m3.ram, h, 0, d * PAGE_SIZE)))
  }

  // ----- what creation achieves

  /** Table frames k of `tables`: held for `pid`, and nothing else changed hands since `was`. */
  ghost predicate TablesHeld(was: seq<Cell>, own: seq<Cell>, tables: seq<nat>, pid: nat) {
    && |own| == |was|
    && (forall k | 0 <= k < |tables| :: HeldFrame(own, tables[k], PageTable(pid, k)))
    && (forall b | 0 <= b < |own| && own[b] != was[b] ::
          && was[b].Vacant? && own[b].Held? && own[b].who.PageTable? && own[b].who.pid == pid
          && own[b].who.index < |tables| && tables[own[b].who.index] == HEAP_FRAME + b)
  }

  /** Table k maps its 4 MB region to itself, directory entry k points to it, and other frames are
      as they were. */
  ghost predicate TablesWritten(was: Ram, ram: Ram, d: nat, tables: seq<nat>, flags: u32)
    requires d < PAGES && |tables| <= ENTRIES
  {
    && (forall k | 0 <= k < |tables| :: tables[k] < PAGES)
    && (forall k, j | 0 <= k < |tables| && 0 <= j < ENTRIES ::
          Word(ram, tables[k], j) == IdentityEntry(k * ENTRIES + j, flags))
    && (forall k | 0 <= k < |tables| :: Word(ram, d, k) == Or32(tables[k] * PAGE_SIZE, flags))
    && (forall frame | 0 <= frame < PAGES && frame != d && frame !in tables :: SameFrame(was, ram, frame))
  }

  lemma OneMoreTableWritten(was: Ram, ram: Ram, d: nat, tables: seq<nat>, frame: nat, flags: u32)
    requires d < PAGES && |tables| < ENTRIES && frame < PAGES && frame != d && frame !in tables && d !in tables
    requires TablesWritten(was, ram, d, tables, flags)
    ensures TablesWritten(was, TableRam(ram, d, |tables|, frame, flags), d, tables + [frame], flags)
  {
    var i, ts := |tables|, tables + [frame];
    var mid := WriteFrame(ram, frame, IdentityTable(i, flags));
    var ram' := TableRam(ram, d, i, frame, flags);
    forall f: nat, s: nat | f < PAGES && s < ENTRIES
      ensures Word(ram', f, s) == if f == d && s == i then Or32(frame * PAGE_SIZE, flags)
                                  else if f == frame then IdentityEntry(i * ENTRIES + s, flags)
                                  else Word(ram, f, s)
    {
      WriteWordReads(mid, d, i, Or32(frame * PAGE_SIZE, flags), f, s);
      WriteFrameReads(ram, frame, IdentityTable(i, flags), f, s);
    }
    forall f | 0 <= f < PAGES && f != d && f !in ts
      ensures SameFrame(was, ram', f)
    {
      assert f !in tables && f != frame;
      assert SameFrame(was, ram, f);
    }
  }

  lemma OneMoreTableHeld(was: seq<Cell>, own: seq<Cell>, tables: seq<nat>, frame: nat, pid: nat)
    requires TablesHeld(was, own, tables, pid)
    requires HEAP_FRAME <= frame < HEAP_FRAME + |own| && own[frame - HEAP_FRAME].Vacant?
    ensures frame !in tables
    ensures TablesHeld(was, own[frame - HEAP_FRAME := Held(frame - HEAP_FRAME, 1, PageTable(pid, |tables|))],
                       tables + [frame], pid)
  {
  }

  lemma {:induction false} BuildTablesEffect(was: Mem, m: Mem, d: nat, tables: seq<nat>, pid: nat, flags: u32)
    requires |tables| <= ENTRIES && d < PAGES
    requires Sound(m) && Capacity(m.table) >= ENTRIES - |tables|
    requires HeldFrame(was.own, d, Directory(pid)) && HeldFrame(m.own, d, Directory(pid))
    requires TablesHeld(was.own, m.own, tables, pid) && TablesWritten(was.ram, m.ram, d, tables, flags)
    ensures var (ts, m') := BuildTables(m, d, tables, pid, flags);
            TablesHeld(was.own, m'.own, ts, pid) && TablesWritten(was.ram, m'.ram, d, ts, flags)
    decreases ENTRIES - |tables|
  {
    hide Sound, Capacity, OneTable, TablesHeld, TablesWritten, HeldFrame;
    if |tables| < ENTRIES {
      OneTableSound(m, d, |tables|, pid, flags);
      OneTableEffect(was, m, d, tables, pid, flags);
      var (frame, m1) := OneTable(m, d, |tables|, pid, flags);
      BuildTablesEffect(was, m1, d, tables + [frame], pid, flags);
    }
  }

  lemma OneTableEffect(was: Mem, m: Mem, d: nat, tables: seq<nat>, pid: nat, flags: u32)
    requires |tables| < ENTRIES && d < PAGES
    requires Sound(m) && Capacity(m.table) > 0
    requires HeldFrame(m.own, d, Directory(pid))
    requires TablesHeld(was.own, m.own, tables, pid) && TablesWritten(was.ram, m.ram, d, tables, flags)
    ensures var (frame, m1) := OneTable(m, d, |tables|, pid, flags);
            && HeldFrame(m1.own, d, Directory(pid))
            && TablesHeld(was.own, m1.own, tables + [frame], pid)
            && TablesWritten(was.ram, m1.ram, d, tables + [frame], flags)
  {
    hide TablesWritten, Capacity;
    TakePageSound(m, PageTable(pid, |tables|));
    var frame := TakePage(m, PageTable(pid, |tables|)).0;
    assert forall k | 0 <= k < |tables| && tables[k] == d :: HeldFrame(m.own, tables[k], PageTable(pid, k));
    OneMoreTableHeld(was.own, m.own, tables, frame, pid);
    OneMoreTableWritten(was.ram, m.ram, d, tables, frame, flags);
  }

  /** Only blocks that were vacant changed hands, and they are exactly the frames of the chunk. */
  ghost predicate OnlyChunkTaken(was: seq<Cell>, own: seq<Cell>, c: Chunk, pid: nat) {
    && |own| == |was|
    && ChunkHeld(own, c, pid)
    && forall b | 0 <= b < |own| && own[b] != was[b] ::
         was[b].Vacant? && own[b].Held? && ChunkOwner(own[b].who, pid) && IsChunkBlock(own[b].who, c, b)
  }

  /** A fresh chunk maps every page to itself with the given flags. */
  ghost predicate IdentityMapped(ram: Ram, c: Chunk, flags: u32) {
    && ChunkOk(ram, c)
    && (forall page | 0 <= page < PAGES :: Pte(ram, c, page) == IdentityEntry(page, flags))
    && (forall i | 0 <= i < ENTRIES :: Pde(ram, c, i) == Or32(c.tables[i] * PAGE_SIZE, flags))
  }

  /** Creating an address space: 1026 blocks that were vacant become its frames, every page is
      mapped to itself, and no other frame of memory changes. */
  lemma NewChunkEffect(m: Mem, pid: nat, flags: u32)
    requires Sound(m) && Capacity(m.table) >= CHUNK_BLOCKS && flags < PAGE_SIZE
    ensures var (c, m') := NewChunk(m, pid, flags);
            && Sound(m') && Capacity(m'.table) == Capacity(m.table) - CHUNK_BLOCKS
            && OnlyChunkTaken(m.own, m'.own, c, pid)
            && IdentityMapped(m'.ram, c, flags)
            && (forall frame | 0 <= frame < PAGES && !c.Owns(frame) :: SameFrame(m.ram, m'.ram, frame))
  {
    hide Accounts, Capacity, TablesWritten, TablesHeld, IdentityMapped, BuildTables, WriteFrame, WriteWord;
    TakePageSound(m, Directory(pid));
    var (d, m1) := TakePage(m, Directory(pid));
    var m1z := m1.(ram := WriteFrame(m1.ram, d, ZeroTable()));
    NoTablesYet(m1.own, m1.ram, d, pid, flags);
    SoundIgnoresRam(m1, m1z);
    BuildTablesEffect(m1z.(ram := m1.ram), m1z, d, [], pid, flags);
    var (tables, m2) := BuildTables(m1z, d, [], pid, flags);
    TakePageSound(m2, ChunkHeader(pid));
    var (h, m3) := TakePage(m2, ChunkHeader(pid));
    var c := Chunk(h, d, tables);
    ChunkAssembled(m.own, m1.own, m2.own, m3.own, c, pid);
    HeaderWritten(m.ram, m2.ram, c, flags);
  }

  lemma SoundIgnoresRam(m: Mem, m': Mem)
    requires Sound(m) && m'.table == m.table && m'.own == m.own
    ensures Sound(m')
  {
  }

  lemma NoTablesYet(own: seq<Cell>, ram: Ram, d: nat, pid: nat, flags: u32)
    requires d < PAGES
    ensures TablesHeld(own, own, [], pid)
    ensures TablesWritten(ram, WriteFrame(ram, d, ZeroTable()), d, [], flags)
  {
    var ram' := WriteFrame(ram, d, ZeroTable());
    forall frame: nat, slot: nat | frame < PAGES && frame != d && slot < ENTRIES
      ensures Word(ram', frame, slot) == Word(ram, frame, slot)
    {
      WriteFrameReads(ram, d, ZeroTable(), frame, slot);
    }
  }

  lemma ChunkAssembled(own: seq<Cell>, own1: seq<Cell>, own2: seq<Cell>, own3: seq<Cell>, c: Chunk, pid: nat)
    requires |own| == HEAP_BLOCKS && |c.tables| == ENTRIES
    requires HEAP_FRAME <= c.directory < HEAP_FRAME + |own| && own[c.directory - HEAP_FRAME].Vacant?
    requires own1 == own[c.directory - HEAP_FRAME := Held(c.directory - HEAP_FRAME, 1, Directory(pid))]
    requires TablesHeld(own1, own2, c.tables, pid)
    requires HEAP_FRAME <= c.header < HEAP_FRAME + |own| && own2[c.header - HEAP_FRAME].Vacant?
    requires own3 == own2[c.header - HEAP_FRAME := Held(c.header - HEAP_FRAME, 1, ChunkHeader(pid))]
    ensures OnlyChunkTaken(own, own3, c, pid)
    ensures NoAliases(c)
  {
    forall k | 0 <= k < ENTRIES
      ensures HeldFrame(own3, c.tables[k], PageTable(pid, k))
    {
      assert HeldFrame(own2, c.tables[k], PageTable(pid, k));
    }
    HeldChunkHasNoAliases(own3, c, pid);
  }

  lemma HeaderWritten(was: Ram, ram: Ram, c: Chunk, flags: u32)
    requires NoAliases(c) && flags < PAGE_SIZE
    requires TablesWritten(was, ram, c.directory, c.tables, flags)
    ensures c.DirectoryAddress() < WORD_VALUES
    ensures var ram' := WriteWord(ram, c.header, 0, c.DirectoryAddress());
            && IdentityMapped(ram', c, flags)
            && (forall frame | 0 <= frame < PAGES && !c.Owns(frame) :: SameFrame(was, ram', frame))
  {
    var ram' := WriteWord(ram, c.header, 0, c.DirectoryAddress());
    forall f: nat, s: nat | f < PAGES && s < ENTRIES
      ensures Word(ram', f, s) == if f == c.header && s == 0 then c.DirectoryAddress() else Word(ram, f, s)
    {
      WriteWordReads(ram, c.header, 0, c.DirectoryAddress(), f, s);
    }
    forall i | 0 <= i < ENTRIES
      ensures Pde(ram', c, i) == Or32(c.tables[i] * PAGE_SIZE, flags) && Pde(ram', c, i) / PAGE_SIZE == c.tables[i]
    {
      OrFlags(c.tables[i] * PAGE_SIZE, flags);
    }
    forall page | 0 <= page < PAGES
      ensures Pte(ram', c, page) == IdentityEntry(page, flags)
    {
      assert page / ENTRIES * ENTRIES + page % ENTRIES == page;
    }
    forall frame | 0 <= frame < PAGES && !c.Owns(frame)
      ensures SameFrame(was, ram', frame)
    {
      assert SameFrame(was, ram, frame);
    }
  }

  // ----- freeing

  /** The tables of c from index i on are still held for `pid`. */
  ghost predicate TablesLeft(own: seq<Cell>, c: Chunk, pid: nat, i: nat) {
    |c.tables| == ENTRIES && forall k | i <= k < ENTRIES :: HeldFrame(own, c.tables[k], PageTable(pid, k))
  }

  /** Table i given back, as directory entry i names it. */
  lemma OneTableGiven(m: Mem, c: Chunk, pid: nat, i: nat)
    requires i < ENTRIES && Sound(m) && ChunkOk(m.ram, c) && TablesLeft(m.own, c, pid, i)
    ensures NoAliases(c) && Live(m, PageBase(Pde(m.ram, c, i)))
    ensures ChunkOk(Give(m, PageBase(Pde(m.ram, c, i))).ram, c)
    ensures var m' := Give(m, PageBase(Pde(m.ram, c, i)));
            && Sound(m') && m'.ram == m.ram && TablesLeft(m'.own, c, pid, i + 1)
            && HEAP_FRAME <= c.tables[i] < HEAP_FRAME + HEAP_BLOCKS
            && m.own[c.tables[i] - HEAP_FRAME] == Held(c.tables[i] - HEAP_FRAME, 1, PageTable(pid, i))
            && m'.own == m.own[c.tables[i] - HEAP_FRAME := Vacant]
  {
    hide Accounts, Give, Live;
    var frame := c.tables[i];
    assert HeldFrame(m.own, frame, PageTable(pid, i));
    GivePage(m, frame, PageTable(pid, i));
    assert PageBase(Pde(m.ram, c, i)) == frame * PAGE_SIZE;
    var own' := m.own[frame - HEAP_FRAME := Vacant];
    forall k | i + 1 <= k < ENTRIES
      ensures HeldFrame(own', c.tables[k], PageTable(pid, k))
    {
      assert HeldFrame(m.own, c.tables[k], PageTable(pid, k));
    }
  }

  /** Tables i, i+1, ... given back. */
  ghost function FreeTables(m: Mem, c: Chunk, pid: nat, i: nat): (m': Mem)
    requires i <= ENTRIES && Sound(m) && ChunkOk(m.ram, c) && TablesLeft(m.own, c, pid, i)
    ensures Sound(m') && m'.ram == m.ram
    ensures forall b | 0 <= b < HEAP_BLOCKS && !(m.own[b].Held? && m.own[b].who.PageTable?) :: m'.own[b] == m.own[b]
    decreases ENTRIES - i
  {
    if i == ENTRIES then m
    else
      OneTableGiven(m, c, pid, i);
      FreeTables(Give(m, PageBase(Pde(m.ram, c, i))), c, pid, i + 1)
  }

  /** The directory and the block of the chunk structure given back, after the tables. */
  lemma LastTwoGiven(m: Mem, c: Chunk, pid: nat)
    requires Sound(m) && ChunkOk(m.ram, c)
    requires HeldFrame(m.own, c.directory, Directory(pid)) && HeldFrame(m.own, c.header, ChunkHeader(pid))
    ensures NoAliases(c) && Live(m, Word(m.ram, c.header, 0))
    ensures var m1 := Give(m, Word(m.ram, c.header, 0));
            && Sound(m1) && c.Address() < WORD_VALUES && Live(m1, c.Address())
            && var m2 := Give(m1, c.Address());
            && Sound(m2) && m2.ram == m.ram
            && m2.own == m.own[c.directory - HEAP_FRAME := Vacant][c.header - HEAP_FRAME := Vacant]
  {
    hide Accounts, Give, Live;
    GivePage(m, c.directory, Directory(pid));
    var m1 := Give(m, Word(m.ram, c.header, 0));
    GivePage(m1, c.header, ChunkHeader(pid));
  }

  /** The whole chunk given back: its tables, its directory and the block of its structure. */
  ghost function FreeChunk(m: Mem, c: Chunk, pid: nat): (m': Mem)
    requires Sound(m) && ChunkOk(m.ram, c) && ChunkHeld(m.own, c, pid)
  {
    hide Accounts, ChunkOk, Give, Live;
    var m1 := FreeTables(m, c, pid, 0);
    LastTwoGiven(m1, c, pid);
    Give(Give(m1, Word(m1.ram, c.header, 0)), c.Address())
  }

  /** How the code finds the frames of a chunk, and the steps of freeing it. */
  lemma ChunkWords(ram: Ram, c: Chunk, i: nat)
    requires ChunkOk(ram, c) && i < ENTRIES
    ensures NoAliases(c) && c.Address() < WORD_VALUES && c.DirectoryAddress() < WORD_VALUES
    ensures c.Address() / 4 < RAM_WORDS && c.DirectoryAddress() / 4 + i < RAM_WORDS
    ensures ram[c.Address() / 4] == Word(ram, c.header, 0) == c.DirectoryAddress()
    ensures ram[c.DirectoryAddress() / 4 + i] == Pde(ram, c, i)
  {
  }

  lemma {:induction false} FreeTablesStep(m: Mem, c: Chunk, pid: nat, i: nat)
    requires i < ENTRIES && Sound(m) && ChunkOk(m.ram, c) && TablesLeft(m.own, c, pid, i)
    ensures NoAliases(c) && Live(m, PageBase(Pde(m.ram, c, i)))
    ensures var m' := Give(m, PageBase(Pde(m.ram, c, i)));
            && Sound(m') && m'.ram == m.ram && TablesLeft(m'.own, c, pid, i + 1)
            && FreeTables(m, c, pid, i) == FreeTables(m', c, pid, i + 1)
  {
    hide Accounts, ChunkOk, TablesLeft, Live, Give;
    OneTableGiven(m, c, pid, i);
  }

  lemma {:induction false} FreeTablesDone(m: Mem, c: Chunk, pid: nat)
    requires Sound(m) && ChunkOk(m.ram, c) && TablesLeft(m.own, c, pid, ENTRIES)
    ensures FreeTables(m, c, pid, ENTRIES) == m
  {
  }

  lemma {:induction false} TablesDoneRestLeft(m: Mem, c: Chunk, pid: nat)
    requires Sound(m) && ChunkOk(m.ram, c) && ChunkHeld(m.own, c, pid)
    ensures TablesLeft(m.own, c, pid, 0)
    ensures var m1 := FreeTables(m, c, pid, 0);
            && Sound(m1) && m1.ram == m.ram
            && HeldFrame(m1.own, c.directory, Directory(pid)) && HeldFrame(m1.own, c.header, ChunkHeader(pid))
  {
    hide Accounts, ChunkOk, FreeTables;
  }

  lemma {:induction false} FreeChunkSteps(m: Mem, c: Chunk, pid: nat)
    requires Sound(m) && ChunkOk(m.ram, c) && ChunkHeld(m.own, c, pid)
    ensures NoAliases(c) && TablesLeft(m.own, c, pid, 0) && c.Address() < WORD_VALUES
    ensures var m1 := FreeTables(m, c, pid, 0);
            && Sound(m1) && Live(m1, Word(m1.ram, c.header, 0))
            && Live(Give(m1, Word(m1.ram, c.header, 0)), c.Address())
            && FreeChunk(m, c, pid) == Give(Give(m1, Word(m1.ram, c.header, 0)), c.Address())
  {
    ChunkWords(m.ram, c, 0);
    TablesDoneRestLeft(m, c, pid);
    hide Sound, ChunkOk, ChunkHeld, TablesLeft, Live, Give, FreeTables, HeldFrame;
    LastTwoGiven(FreeTables(m, c, pid, 0), c, pid);
  }

  /** A cell as it is once the tables of `pid` from index i on are given back. */
  function WithoutTables(cell: Cell, pid: nat, i: nat): Cell {
    if cell.Held? && cell.who.PageTable? && cell.who.pid == pid && cell.who.index >= i then Vacant else cell
  }

  function WithoutChunk(cell: Cell, pid: nat): Cell {
    if cell.Held? && ChunkOwner(cell.who, pid) then Vacant else cell
  }

  /** Every block held as a table of `pid` is the table of c with that index. */
  ghost predicate TablesOnly(own: seq<Cell>, c: Chunk, pid: nat) {
    && |c.tables| == ENTRIES
    && forall b | 0 <= b < |own| && own[b].Held? && own[b].who.PageTable? && own[b].who.pid == pid ::
         own[b].who.index < ENTRIES && c.tables[own[b].who.index] == HEAP_FRAME + b
  }

  lemma {:induction false} FreeTablesEffect(m: Mem, c: Chunk, pid: nat, i: nat)
    requires i <= ENTRIES && Sound(m) && ChunkOk(m.ram, c) && TablesOnly(m.own, c, pid)
    requires TablesLeft(m.own, c, pid, i)
    ensures forall b | 0 <= b < HEAP_BLOCKS :: FreeTables(m, c, pid, i).own[b] == WithoutTables(m.own[b], pid, i)
    decreases ENTRIES - i
  {
    hide Accounts, Give, TablesLeft, ChunkOk;
    if i < ENTRIES {
      OneTableGiven(m, c, pid, i);
      var m' := Give(m, PageBase(Pde(m.ram, c, i)));
      OneTableLess(m.own, m'.own, c, pid, i);
      FreeTablesEffect(m', c, pid, i + 1);
    }
  }

  lemma OneTableLess(own: seq<Cell>, own': seq<Cell>, c: Chunk, pid: nat, i: nat)
    requires |own| == HEAP_BLOCKS && i < ENTRIES && TablesOnly(own, c, pid)
    requires HEAP_FRAME <= c.tables[i] < HEAP_FRAME + HEAP_BLOCKS
    requires own[c.tables[i] - HEAP_FRAME] == Held(c.tables[i] - HEAP_FRAME, 1, PageTable(pid, i))
    requires own' == own[c.tables[i] - HEAP_FRAME := Vacant]
    ensures TablesOnly(own', c, pid)
    ensures forall b | 0 <= b < HEAP_BLOCKS ::
              WithoutTables(own'[b], pid, i + 1) == WithoutTables(own[b], pid, i)
  {
  }

  /** Freeing an address space gives back exactly its 1026 blocks, each once. */
  lemma FreeChunkEffect(m: Mem, c: Chunk, pid: nat)
    requires Sound(m) && ChunkOk(m.ram, c) && ChunkHeld(m.own, c, pid) && ChunkOnly(m.own, c, pid)
    ensures Sound(FreeChunk(m, c, pid)) && FreeChunk(m, c, pid).ram == m.ram
    ensures forall b | 0 <= b < HEAP_BLOCKS :: FreeChunk(m, c, pid).own[b] == WithoutChunk(m.own[b], pid)
  {
    hide Accounts, Give, ChunkOk, ChunkOnly, FreeTables;
    assert |c.tables| == ENTRIES;
    ChunkOnlyTables(m.own, c, pid);
    FreeTablesEffect(m, c, pid, 0);
    var m1 := FreeTables(m, c, pid, 0);
    LastTwoGiven(m1, c, pid);
    ChunkLess(m.own, m1.own, FreeChunk(m, c, pid).own, c, pid);
  }

  lemma ChunkOnlyTables(own: seq<Cell>, c: Chunk, pid: nat)
    requires |c.tables| == ENTRIES && ChunkOnly(own, c, pid)
    ensures TablesOnly(own, c, pid)
  {
    forall b | 0 <= b < |own| && own[b].Held? && own[b].who.PageTable? && own[b].who.pid == pid
      ensures own[b].who.index < ENTRIES && c.tables[own[b].who.index] == HEAP_FRAME + b
    {
      assert IsChunkBlock(own[b].who, c, b);
    }
  }

  lemma ChunkLess(own: seq<Cell>, own1: seq<Cell>, own2: seq<Cell>, c: Chunk, pid: nat)
    requires |own| == |own1| == |own2| == HEAP_BLOCKS
    requires ChunkHeld(own, c, pid) && ChunkOnly(own, c, pid)
    requires forall b | 0 <= b < HEAP_BLOCKS :: own1[b] == WithoutTables(own[b], pid, 0)
    requires own2 == own1[c.directory - HEAP_FRAME := Vacant][c.header - HEAP_FRAME := Vacant]
    ensures forall b | 0 <= b < HEAP_BLOCKS :: own2[b] == WithoutChunk(own[b], pid)
  {
    forall b | 0 <= b < HEAP_BLOCKS
      ensures own2[b] == WithoutChunk(own[b], pid)
    {
      if own[b].Held? && ChunkOwner(own[b].who, pid) {
        assert IsChunkBlock(own[b].who, c, b);
      }
    }
  }

  /** c can be freed, and doing so leaves this heap table. */
  ghost predicate FreesTo(m: Mem, c: Chunk, pid: nat, table: seq<bv8>) {
    Sound(m) && ChunkOk(m.ram, c) && ChunkHeld(m.own, c, pid) && FreeChunk(m, c, pid).table == table
  }

  /** The state m with other words in memory. */
  function WithRam(m: Mem, ram: Ram): Mem {
    m.(ram := ram)
  }

  /** Create an address space, let its tables change in any way that keeps their addresses, free it:
      the heap table is what it was before, byte for byte. */
  lemma ChunkRoundTrip(m: Mem, pid: nat, flags: u32, ram: Ram)
    requires Sound(m) && Capacity(m.table) >= CHUNK_BLOCKS && flags < PAGE_SIZE
    requires NoChunkOf(m.own, pid)
    requires ChunkOk(ram, NewChunk(m, pid, flags).0)
    ensures FreesTo(WithRam(NewChunk(m, pid, flags).1, ram), NewChunk(m, pid, flags).0, pid, m.table)
  {
    hide Accounts, ChunkOk, FreeChunk, NewChunk, IdentityMapped;
    NewChunkEffect(m, pid, flags);
    var (c, m') := NewChunk(m, pid, flags);
    var used := WithRam(m', ram);
    SoundIgnoresRam(m', used);
    FreshChunkOnly(m.own, used.own, c, pid);
    FreeChunkEffect(used, c, pid);
    var after := FreeChunk(used, c, pid);
    assert after.own == m.own;
    AccountDeterminesTable(after.table, m.table, m.own);
  }

  /** No block is held as part of an address space of `pid`. */
  ghost predicate NoChunkOf(own: seq<Cell>, pid: nat) {
    forall b | 0 <= b < |own| && own[b].Held? :: !ChunkOwner(own[b].who, pid)
  }

  lemma FreshChunkOnly(was: seq<Cell>, own: seq<Cell>, c: Chunk, pid: nat)
    requires OnlyChunkTaken(was, own, c, pid)
    requires NoChunkOf(was, pid)
    ensures ChunkOnly(own, c, pid)
    ensures forall b | 0 <= b < |own| :: WithoutChunk(own[b], pid) == was[b]
  {
  }

  datatype Mapping = Mapping(virt: u32, phy: u32, flags: u32)

  /** A sequence of single-page mappings, each as `MapPage` makes it. */
  ghost function MapAll(ram: Ram, c: Chunk, maps: seq<Mapping>): Ram
    requires ChunkOk(ram, c)
    requires forall i | 0 <= i < |maps| :: maps[i].flags < PAGE_SIZE
    decreases |maps|
  {
    if maps == [] then ram
    else
      MapPageKeepsChunk(ram, c, maps[0]);
      MapAll(MapPage(ram, c.DirectoryAddress(), maps[0].virt, maps[0].phy, maps[0].flags).1, c, maps[1..])
  }

  lemma MapPageKeepsChunk(ram: Ram, c: Chunk, x: Mapping)
    requires ChunkOk(ram, c) && x.flags < PAGE_SIZE
    ensures c.DirectoryAddress() < WORD_VALUES
    ensures ChunkOk(MapPage(ram, c.DirectoryAddress(), x.virt, x.phy, x.flags).1, c)
  {
    hide ChunkOk, Remapped;
    RemapNothing(ram, c, 0, 0, 0);
    if x.virt % PAGE_SIZE == 0 && x.phy % PAGE_SIZE == 0 && x.virt != 0 {
      MapPageRemaps(ram, c, x.virt, x.phy, x.flags);
      var ram1 := MapPage(ram, c.DirectoryAddress(), x.virt, x.phy, x.flags).1;
      RemappedKeepsChunk(ram, ram1, c, x.virt / PAGE_SIZE, 1, x.phy, x.flags);
    }
  }

  /** Mappings with flags below the page size never move a table. */
  lemma {:induction false} MapAllKeepsChunk(ram: Ram, c: Chunk, maps: seq<Mapping>)
    requires ChunkOk(ram, c)
    requires forall i | 0 <= i < |maps| :: maps[i].flags < PAGE_SIZE
    ensures ChunkOk(MapAll(ram, c, maps), c)
    decreases |maps|
  {
    hide ChunkOk, MapPage;
    if maps != [] {
      MapPageKeepsChunk(ram, c, maps[0]);
      MapAllKeepsChunk(MapPage(ram, c.DirectoryAddress(), maps[0].virt, maps[0].phy, maps[0].flags).1, c, maps[1..]);
    }
  }

  /** Create an address space, map any pages of it with flags below the page size, free it: all
      1026 blocks are given back exactly once and the heap table is restored byte for byte. */
  lemma {:induction false} CreateMapFreeRestoresHeap(m: Mem, pid: nat, flags: u32, maps: seq<Mapping>)
    requires Sound(m) && Capacity(m.table) >= CHUNK_BLOCKS && flags < PAGE_SIZE
    requires NoChunkOf(m.own, pid)
    requires forall i | 0 <= i < |maps| :: maps[i].flags < PAGE_SIZE
    ensures var (c, m') := NewChunk(m, pid, flags);
            ChunkOk(m'.ram, c) && FreesTo(WithRam(m', MapAll(m'.ram, c, maps)), c, pid, m.table)
  {
    hide Accounts, ChunkHeld, ChunkOk, NewChunk, FreeChunk, FreesTo;
    NewChunkEffect(m, pid, flags);
    var (c, m') := NewChunk(m, pid, flags);
    MapAllKeepsChunk(m'.ram, c, maps);
    ChunkRoundTrip(m, pid, flags, MapAll(m'.ram, c, maps));
  }
}
