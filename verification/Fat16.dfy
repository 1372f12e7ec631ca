/** Reading a file of a FAT16 volume: the walk along its cluster chain, a sector at a time.

    Cluster numbers are mapped to sectors as in the section "FAT Data Structure" of the Microsoft
    FAT32 File System Specification 1.03. */
module Fat16 {
  import opened Words
  import opened DiskStream

  const END_OF_CHAIN: nat := 0xffff
  const ENTRY_SIZE: nat := 2

  /** Where things are on the disk: fields of the volume header, and the sector the data area starts at. */
  datatype Geometry = Geometry(sectorsPerCluster: nat, reservedSectors: nat, rootEnd: nat) {
    function ClusterBytes(): nat { sectorsPerCluster * SECTOR }

    /** The first sector of a cluster; clusters 0 and 1 do not exist. */
    function ClusterSector(cluster: nat): int { rootEnd + (cluster - 2) * sectorsPerCluster }

    function ClusterStart(cluster: nat): int { ClusterSector(cluster) * SECTOR }

    function EntryPos(cluster: nat): nat { reservedSectors * SECTOR + cluster * ENTRY_SIZE }
  }

  /** A raw table entry as the successor of a cluster: last, bad, reserved and free entries all end
      the chain. */
  function Successor(raw: nat): nat {
    if raw >= 0xfff0 || raw == 0 then END_OF_CHAIN else raw
  }

  function RawEntry(disk: seq<byte>, g: Geometry, cluster: nat): nat
    requires g.EntryPos(cluster) + ENTRY_SIZE <= |disk|
  {
    var low: int, high: int := disk[g.EntryPos(cluster)], disk[g.EntryPos(cluster) + 1];
    low + 256 * high
  }

  /** Clusters 2, 3, ... tile the disk from the end of the root directory on, without gap or overlap; and
      their table entries, of two bytes each and from number 0 on, tile it from the end of the reserved
      sectors on. */
  lemma ClustersTile(g: Geometry, cluster: nat)
    ensures g.ClusterBytes() == 512 * g.sectorsPerCluster
    ensures g.ClusterStart(2) == g.rootEnd * 512
    ensures g.ClusterStart(cluster + 1) == g.ClusterStart(cluster) + 512 * g.sectorsPerCluster
    ensures g.EntryPos(0) == g.reservedSectors * 512
    ensures g.EntryPos(cluster + 1) == g.EntryPos(cluster) + 2
  {
    assert (cluster + 1 - 2) * g.sectorsPerCluster == (cluster - 2) * g.sectorsPerCluster + g.sectorsPerCluster;
  }

  /** Different clusters share no byte. */
  lemma {:induction false} ClustersDisjoint(g: Geometry, a: nat, b: nat)
    requires a < b
    ensures g.ClusterStart(a) + g.ClusterBytes() <= g.ClusterStart(b)
    decreases b
  {
    hide Geometry.ClusterStart, Geometry.ClusterBytes;
    ClustersTile(g, b - 1);
    if a + 1 < b {
      ClustersDisjoint(g, a, b - 1);
    }
  }

  /** What the two bytes of a table entry, the low one first, say of its cluster: 0 (free), 0xfff0 to 0xfff6
      (reserved), 0xfff7 (bad) and 0xfff8 to 0xffff (last) end the chain, and everything else is the
      number of the next cluster. */
  lemma EntryMeaning(disk: seq<byte>, g: Geometry, cluster: nat, next: nat)
    requires g.EntryPos(cluster) + 2 <= |disk| && next < 0x1_0000
    requires disk[g.EntryPos(cluster)] == next % 256 && disk[g.EntryPos(cluster) + 1] == next / 256
    ensures 1 <= next <= 0xffef ==> Successor(RawEntry(disk, g, cluster)) == next
    ensures next == 0 || next >= 0xfff0 ==> Successor(RawEntry(disk, g, cluster)) == 0xffff
  {
    assert RawEntry(disk, g, cluster) == next % 256 + 256 * (next / 256);
  }

  /** A disk whose every byte has a 32-bit address. */
  predicate WholeDisk(disk: seq<byte>, g: Geometry) {
    |disk| % SECTOR == 0 && |disk| < WORD_VALUES && g.sectorsPerCluster >= 1
  }

  /** A cluster whose table entry and data lie on the disk. */
  predicate OnDisk(disk: seq<byte>, g: Geometry, cluster: nat) {
    && 2 <= cluster < 0xfff0
    && g.EntryPos(cluster) + ENTRY_SIZE <= |disk|
    && 0 <= g.ClusterStart(cluster) && g.ClusterStart(cluster) + g.ClusterBytes() <= |disk|
  }

  /** The clusters of a file: each leads to the next, and the last ends the chain. */
  ghost predicate IsChain(disk: seq<byte>, g: Geometry, chain: seq<nat>) {
    && |chain| >= 1
    && (forall i | 0 <= i < |chain| :: OnDisk(disk, g, chain[i]))
    && (forall i | 0 <= i < |chain| ::
          Successor(RawEntry(disk, g, chain[i])) == if i + 1 < |chain| then chain[i + 1] else END_OF_CHAIN)
  }

  function ClusterData(disk: seq<byte>, g: Geometry, cluster: nat): seq<byte>
    requires OnDisk(disk, g, cluster)
  {
    disk[g.ClusterStart(cluster)..g.ClusterStart(cluster) + g.ClusterBytes()]
  }

  /** The contents of the chain: the data of its clusters, one after the other. */
  ghost function ChainBytes(disk: seq<byte>, g: Geometry, chain: seq<nat>): seq<byte>
    requires forall i | 0 <= i < |chain| :: OnDisk(disk, g, chain[i])
  {
    if chain == [] then []
    else
      var n := |chain| - 1;
      ChainBytes(disk, g, chain[..n]) + ClusterData(disk, g, chain[n])
  }

  /** Where cluster q of the chain begins in its contents. */
  ghost function Base(disk: seq<byte>, g: Geometry, chain: seq<nat>, q: nat): nat
    requires q <= |chain| && forall i | 0 <= i < |chain| :: OnDisk(disk, g, chain[i])
  {
    |ChainBytes(disk, g, chain[..q])|
  }

  lemma {:induction false} BaseStep(disk: seq<byte>, g: Geometry, chain: seq<nat>, q: nat)
    requires q < |chain| && forall i | 0 <= i < |chain| :: OnDisk(disk, g, chain[i])
    ensures Base(disk, g, chain, 0) == 0
    ensures Base(disk, g, chain, q + 1) == Base(disk, g, chain, q) + g.ClusterBytes()
    ensures Base(disk, g, chain, |chain|) == |ChainBytes(disk, g, chain)|
  {
    assert chain[..q + 1][..q] == chain[..q];
    assert chain[..|chain|] == chain;
  }

  /** Cluster q of the chain is where its contents from Base(q) on come from. */
  lemma {:induction false} ClusterInChain(disk: seq<byte>, g: Geometry, chain: seq<nat>, q: nat)
    requires q < |chain| && forall i | 0 <= i < |chain| :: OnDisk(disk, g, chain[i])
    ensures var b := Base(disk, g, chain, q);
            && b + g.ClusterBytes() <= |ChainBytes(disk, g, chain)|
            && ChainBytes(disk, g, chain)[b..b + g.ClusterBytes()] == ClusterData(disk, g, chain[q])
            && (q + 1 < |chain| ==> b + g.ClusterBytes() < |ChainBytes(disk, g, chain)| || g.ClusterBytes() == 0)
            && (q + 1 == |chain| ==> b + g.ClusterBytes() == |ChainBytes(disk, g, chain)|)
    decreases |chain|
  {
    var n := |chain| - 1;
    if q < n {
      ClusterInChain(disk, g, chain[..n], q);
      assert chain[..n][..q] == chain[..q];
    }
  }

  /** A stretch of a cluster, as a stretch of the contents of the chain. */
  lemma {:induction false} StretchInChain(disk: seq<byte>, g: Geometry, chain: seq<nat>, q: nat, r: nat, n: nat)
    requires q < |chain| && forall i | 0 <= i < |chain| :: OnDisk(disk, g, chain[i])
    requires r + n <= g.ClusterBytes()
    ensures var b := Base(disk, g, chain, q) + r; var p := g.ClusterStart(chain[q]) + r;
            && b + n <= |ChainBytes(disk, g, chain)| && p + n <= |disk|
            && ChainBytes(disk, g, chain)[b..b + n] == disk[p..p + n]
  {
    hide ChainBytes, Geometry.ClusterBytes, Geometry.ClusterStart;
    ClusterInChain(disk, g, chain, q);
    SubSlice(ChainBytes(disk, g, chain), Base(disk, g, chain, q), g.ClusterBytes(), r, n);
    SubSlice(disk, g.ClusterStart(chain[q]), g.ClusterBytes(), r, n);
  }

  lemma SubSlice(s: seq<byte>, b: nat, size: nat, r: nat, n: nat)
    requires b + size <= |s| && r + n <= size
    ensures s[b..b + size][r..r + n] == s[b + r..b + r + n]
  {
    var left, right := s[b..b + size][r..r + n], s[b + r..b + r + n];
    assert forall k | 0 <= k < n :: left[k] == right[k];
  }

  /** What one step of the walk has to find: the current cluster is number q of the chain, and the
      data stream is at byte `count` of it. */
  ghost predicate AtCluster(disk: seq<byte>, g: Geometry, chain: seq<nat>, q: nat, cluster: nat, count: nat, pos: nat) {
    && IsChain(disk, g, chain) && q < |chain| && cluster == chain[q]
    && count < g.ClusterBytes()
    && pos == g.ClusterStart(cluster) + count
  }

  /** The volume: its geometry, and two independent streams on the disk. */
  class Volume {
    const g: Geometry
    const table: Stream
    const data: Stream

    constructor (disk: seq<byte>, g: Geometry)
      ensures this.g == g && fresh(table) && fresh(data) && table != data
      ensures table.disk == disk && data.disk == disk
    {
      this.g := g;
      table := new Stream(disk);
      data := new Stream(disk);
    }

    ghost predicate Valid() {
      table != data && table.disk == data.disk && WholeDisk(data.disk, g)
    }

    /** Reads the table through its own stream; the data stream does not move. */
    method GetNextCluster(cluster: nat) returns (next: nat)
      requires Valid() && OnDisk(table.disk, g, cluster)
      modifies table
      ensures next == Successor(RawEntry(table.disk, g, cluster))
    {
      table.Seek(g.EntryPos(cluster));
      var entry := new byte[ENTRY_SIZE];
      EntryReadable(table.disk, g, cluster);
      table.Read(entry, 0, ENTRY_SIZE);
      EntryRead(table.disk, g, cluster, entry[..]);
      var low: int, high: int := entry[0], entry[1];
      next := low + 256 * high;
      if next >= 0xfff8 {
        return END_OF_CHAIN;
      }
      if next == 0xfff7 {
        return END_OF_CHAIN;
      }
      if 0xfff0 <= next <= 0xfff6 {
        return END_OF_CHAIN;
      }
      if next == 0 {
        return END_OF_CHAIN;
      }
    }

    /** One step of the walk: up to a sector of the current cluster into the buffer, and on to the next
        cluster when this one is used up.  After the last step of the chain there is no more. */
    method ReadInternals(cluster: nat, count: nat, out: array<byte>, ghost chain: seq<nat>, ghost q: nat,
                         ghost all: seq<byte>,
                         ghost x: nat)
      returns (more: bool, cluster': nat, count': nat, read: nat)
      requires Valid() && Walking(data.disk, g, chain, q, cluster, count, data.pos, all, x) && out.Length == SECTOR
      modifies table, data, out
      ensures read == BytesToRead(count, g.ClusterBytes()) && x + read <= |all|
      ensures out[..] == CopiedSome(old(out[..]), 0, all, x, StepArrives(count, g.ClusterBytes()))
      ensures more <==> x + read < |all|
      ensures more ==> Walking(data.disk, g, chain, NextIndex(g, q, count), cluster', count', data.pos, all, x + read)
    {
      hide ChainBytes, OnDisk, IsChain, Successor, RawEntry, Geometry.ClusterBytes, AtCluster, InChain,
           Geometry.ClusterStart, Geometry.EntryPos, Delivered, SectorCount, StepArrives, CopiedSome;
      StepReady(data.disk, g, chain, q, cluster, count, data.pos, all, x);
      StepTaken(data.disk, g, chain, q, cluster, count, data.pos, all, x);
      cluster' := cluster;
      var bytesToRead := BytesToRead(count, g.ClusterBytes());
      ghost var p, before := data.pos, out[..];
      data.Read(out, 0, bytesToRead);
      SameStretch(before, data.disk, p, all, x, bytesToRead, StepArrives(count, g.ClusterBytes()));
      count' := count + bytesToRead;
      read := bytesToRead;
      more := true;
      if count' == g.ClusterBytes() {
        cluster' := GetNextCluster(cluster);
        if cluster' == END_OF_CHAIN {
          more := false;
        } else {
          data.Seek(g.ClusterStart(cluster'));
          count' := 0;
        }
      }
    }
  }

  /** How much a step asks the stream for. */
  function BytesToRead(count: nat, clusterBytes: nat): int {
    if count + SECTOR > clusterBytes then clusterBytes - count else SECTOR
  }

  /** How much of it the stream delivers: all, or all but the last byte if the step ends one byte into a
      sector. */
  function StepArrives(count: nat, clusterBytes: nat): (n: nat)
    requires count < clusterBytes
    ensures n <= BytesToRead(count, clusterBytes) <= SECTOR
  {
    var size := BytesToRead(count, clusterBytes);
    if (count + size) % SECTOR == 1 then size - 1 else size
  }

  /** The cluster the walk is in after a step. */
  function NextIndex(g: Geometry, q: nat, count: nat): nat {
    if count + BytesToRead(count, g.ClusterBytes()) == g.ClusterBytes() then q + 1 else q
  }

  /** The walk is at position x of the contents of the chain; from the second cluster on it is aligned. */
  ghost predicate InChain(disk: seq<byte>, g: Geometry, chain: seq<nat>, q: nat, count: nat, all: seq<byte>, x: nat) {
    && q < |chain| && (forall i | 0 <= i < |chain| :: OnDisk(disk, g, chain[i]))
    && all == ChainBytes(disk, g, chain) && x == Base(disk, g, chain, q) + count
    && count < g.ClusterBytes() && (q == 0 || count % SECTOR == 0)
  }

  /** The invariant of the walk: the data stream is at byte `count` of the current cluster, which is
      number q of the chain, and that is position x of the contents of the chain. */
  ghost predicate Walking(disk: seq<byte>, g: Geometry, chain: seq<nat>, q: nat, cluster: nat, count: nat, pos: nat,
                          all: seq<byte>, x: nat)
  {
    AtCluster(disk, g, chain, q, cluster, count, pos) && InChain(disk, g, chain, q, count, all, x)
  }

  /** A step can be made: its bytes are on the disk and are those of the chain from x on. */
  lemma StepReady(disk: seq<byte>, g: Geometry, chain: seq<nat>, q: nat, cluster: nat, count: nat, pos: nat,
                  all: seq<byte>, x: nat)
    requires WholeDisk(disk, g) && Walking(disk, g, chain, q, cluster, count, pos, all, x)
    ensures OnDisk(disk, g, cluster) && count < g.ClusterBytes() && pos < WORD_VALUES
    ensures var size := BytesToRead(count, g.ClusterBytes());
            && 0 < size <= SECTOR && pos + size <= |disk| && x + size <= |all|
            && disk[pos..pos + size] == all[x..x + size]
            && Delivered(pos, size) == StepArrives(count, g.ClusterBytes())
            && (pos / SECTOR + SectorCount(pos, size)) * SECTOR <= |disk|
  {
    hide ChainBytes, OnDisk, IsChain, Base, Delivered, SectorCount, StepArrives, Geometry.ClusterBytes,
         Geometry.ClusterStart;
    OnDiskFacts(disk, g, cluster);
    StretchInChain(disk, g, chain, q, count, BytesToRead(count, g.ClusterBytes()));
    StepReadable(g.ClusterStart(cluster), g.ClusterBytes(), count, |disk|);
  }

  lemma StepReadable(start: nat, clusterBytes: nat, count: nat, end: nat)
    requires start % SECTOR == 0 && clusterBytes % SECTOR == 0 && start + clusterBytes <= end < WORD_VALUES
    requires count < clusterBytes
    ensures var size := BytesToRead(count, clusterBytes);
            && Delivered(start + count, size) == StepArrives(count, clusterBytes)
            && ((start + count) / SECTOR + SectorCount(start + count, size)) * SECTOR <= end
  {
    hide Delivered, SectorCount;
    StretchReadable(start, count, BytesToRead(count, clusterBytes), start + clusterBytes);
  }

  lemma StretchReadable(start: nat, count: nat, size: nat, end: nat)
    requires start % SECTOR == 0 && end % SECTOR == 0 && end < WORD_VALUES
    requires 0 < size <= SECTOR && start + count + size <= end
    ensures Delivered(start + count, size) == if (count + size) % SECTOR == 1 then size - 1 else size
    ensures ((start + count) / SECTOR + SectorCount(start + count, size)) * SECTOR <= end
  {
    hide Delivered;
    var pos := start + count;
    DeliveredExactly(pos, size);
    assert (pos + size) % SECTOR == (count + size) % SECTOR;
    assert SectorCount(pos, size) == CeilDiv(pos % SECTOR + size - 1, SECTOR);
    CeilCovers(pos % SECTOR + size - 1);
    assert pos / SECTOR * SECTOR + pos % SECTOR == pos;
    SectorsBelow(pos / SECTOR + SectorCount(pos, size), end);
  }

  lemma SectorsBelow(sectors: nat, end: nat)
    requires end % SECTOR == 0 && sectors * SECTOR < end + SECTOR
    ensures sectors * SECTOR <= end
  {
  }

  lemma SameStretch(buf: seq<byte>, disk: seq<byte>, p: nat, all: seq<byte>, x: nat, size: nat, n: nat)
    requires n <= size <= |buf| && p + size <= |disk| && x + size <= |all|
    requires disk[p..p + size] == all[x..x + size]
    ensures CopiedSome(buf, 0, disk, p, n) == CopiedSome(buf, 0, all, x, n)
  {
    var left, right := disk[p..p + n], all[x..x + n];
    forall k | 0 <= k < n
      ensures left[k] == right[k]
    {
      assert disk[p..p + size][k] == all[x..x + size][k];
    }
    assert left == right;
  }

  lemma OnDiskFacts(disk: seq<byte>, g: Geometry, cluster: nat)
    requires OnDisk(disk, g, cluster)
    ensures 2 <= cluster < 0xfff0
    ensures 0 <= g.ClusterStart(cluster) && g.ClusterStart(cluster) + g.ClusterBytes() <= |disk|
    ensures g.ClusterStart(cluster) % SECTOR == 0 && g.ClusterBytes() % SECTOR == 0
    ensures g.EntryPos(cluster) + ENTRY_SIZE <= |disk|
  {
  }

  lemma CountFits(g: Geometry, count: nat)
    requires count % SECTOR == 0 && count < g.ClusterBytes()
    ensures count + SECTOR <= g.ClusterBytes()
  {
    assert count == count / SECTOR * SECTOR;
  }

  /** What a step leads to: the rest of the cluster, the next cluster, or the end of the chain, which is
      the end of its contents. */
  lemma StepTaken(disk: seq<byte>, g: Geometry, chain: seq<nat>, q: nat, cluster: nat, count: nat, pos: nat,
                  all: seq<byte>, x: nat)
    requires WholeDisk(disk, g) && Walking(disk, g, chain, q, cluster, count, pos, all, x)
    ensures OnDisk(disk, g, cluster) && q < |chain|
    ensures var size := BytesToRead(count, g.ClusterBytes()); var next := Successor(RawEntry(disk, g, cluster));
            && size == StepAt(x, g.ClusterBytes()) && count + size <= g.ClusterBytes()
            && (count + size < g.ClusterBytes() ==>
                  x + size < |all| && Walking(disk, g, chain, q, cluster, count + size, pos + size, all, x + size))
            && (count + size == g.ClusterBytes() ==>
                  && (next == END_OF_CHAIN <==> x + size == |all|) && x + size <= |all|
                  && (next != END_OF_CHAIN ==>
                        && 0 <= g.ClusterStart(next) < WORD_VALUES
                        && Walking(disk, g, chain, q + 1, next, 0, g.ClusterStart(next), all, x + size)))
  {
    hide ChainBytes, OnDisk, Successor, RawEntry, Geometry.ClusterBytes, Geometry.ClusterStart;
    OnDiskFacts(disk, g, chain[q]);
    BaseStep(disk, g, chain, q);
    BaseStep(disk, g, chain, 0);
    ClusterInChain(disk, g, chain, q);
    BaseGrows(disk, g, chain, q);
    if count % SECTOR == 0 {
      CountFits(g, count);
    }
    assert Successor(RawEntry(disk, g, chain[q])) == if q + 1 < |chain| then chain[q + 1] else END_OF_CHAIN;
    if q + 1 < |chain| {
      OnDiskFacts(disk, g, chain[q + 1]);
      OneSector(g);
    }
  }

  /** From the second cluster on, the walk is behind the first. */
  lemma {:induction false} BaseGrows(disk: seq<byte>, g: Geometry, chain: seq<nat>, q: nat)
    requires q < |chain| && forall i | 0 <= i < |chain| :: OnDisk(disk, g, chain[i])
    ensures q > 0 ==> Base(disk, g, chain, q) >= g.ClusterBytes()
    decreases q
  {
    hide ChainBytes, OnDisk, Geometry.ClusterBytes;
    if q > 0 {
      BaseStep(disk, g, chain, q - 1);
      BaseGrows(disk, g, chain, q - 1);
    }
  }

  lemma OneSector(g: Geometry)
    requires g.sectorsPerCluster >= 1
    ensures g.ClusterBytes() > 0
  {
  }

  lemma EntryReadable(disk: seq<byte>, g: Geometry, cluster: nat)
    requires WholeDisk(disk, g) && OnDisk(disk, g, cluster)
    ensures g.EntryPos(cluster) < WORD_VALUES
    ensures Delivered(g.EntryPos(cluster), ENTRY_SIZE) == ENTRY_SIZE
    ensures (g.EntryPos(cluster) / SECTOR + SectorCount(g.EntryPos(cluster), ENTRY_SIZE)) * SECTOR <= |disk|
  {
    hide Delivered, SectorCount;
    TwoBytesReadable(g.EntryPos(cluster), |disk|);
  }

  lemma TwoBytesReadable(pos: u32, end: nat)
    requires pos % 2 == 0 && pos + 2 <= end && end % SECTOR == 0 && end < WORD_VALUES
    ensures Delivered(pos, 2) == 2
    ensures (pos / SECTOR + SectorCount(pos, 2)) * SECTOR <= end
  {
    EvenReadsComplete(pos, 2);
    assert Wrap(pos % SECTOR + 2 - 1) == pos % SECTOR + 1;
    assert SectorCount(pos, 2) == 1;
  }

  lemma EntryRead(disk: seq<byte>, g: Geometry, cluster: nat, entry: seq<byte>)
    requires OnDisk(disk, g, cluster) && |entry| == ENTRY_SIZE
    requires forall k | 0 <= k < ENTRY_SIZE :: entry[k] == disk[g.EntryPos(cluster) + k]
    ensures var low: int, high: int := entry[0], entry[1]; RawEntry(disk, g, cluster) == low + 256 * high
  {
  }

  // ----- reading a file

  /** What is asked for, cut off at the end of the file. */
  function Wanted(pos: nat, fileSize: nat, size: nat, nmemb: nat): nat
    requires pos <= fileSize
  {
    if pos + nmemb * size > fileSize then fileSize - pos else nmemb * size
  }

  /** The size of the step at position x: short only at the end of the first cluster. */
  function StepAt(x: nat, clusterBytes: nat): int {
    if x < clusterBytes then BytesToRead(x, clusterBytes) else SECTOR
  }

  /** The position after k steps from a position in the first cluster: steps are whole sectors, except
      that the first cluster is not overstepped. */
  function Reach(pos: nat, clusterBytes: nat, k: nat): nat
    requires pos < clusterBytes
  {
    pos + k * SECTOR - (if pos + k * SECTOR >= clusterBytes then pos % SECTOR else 0)
  }

  lemma ReachStep(pos: nat, clusterBytes: nat, k: nat)
    requires pos < clusterBytes && clusterBytes % SECTOR == 0
    ensures Reach(pos, clusterBytes, 0) == pos
    ensures Reach(pos, clusterBytes, k + 1) ==
              Reach(pos, clusterBytes, k) + StepAt(Reach(pos, clusterBytes, k), clusterBytes)
    ensures Reach(pos, clusterBytes, k) < clusterBytes ==> Reach(pos, clusterBytes, k) == pos + k * SECTOR
  {
    var here := pos + k * SECTOR;
    assert here % SECTOR == pos % SECTOR;
    var sectors := clusterBytes / SECTOR;
    assert clusterBytes == sectors * SECTOR && here == here / SECTOR * SECTOR + pos % SECTOR;
  }

  lemma ReachMonotone(pos: nat, clusterBytes: nat, k: nat, n: nat)
    requires pos < clusterBytes && k <= n
    ensures Reach(pos, clusterBytes, k) <= Reach(pos, clusterBytes, n)
  {
  }

  /** The read does not need the last step of the chain. */
  predicate Complete(pos: nat, clusterBytes: nat, total: nat, chainBytes: nat)
    requires pos < clusterBytes
  {
    Reach(pos, clusterBytes, CeilDiv(total, SECTOR)) < chainBytes
  }

  /** Where the last step of the chain starts. */
  function LastStep(pos: nat, clusterBytes: nat, chainBytes: nat): int {
    chainBytes - (if chainBytes > clusterBytes then SECTOR else SECTOR - pos % SECTOR)
  }

  /** The bytes that arrive: at most what one step for each started sector brings; and if the last step
      of the chain is among these, what the steps before it bring. */
  function Arriving(pos: nat, clusterBytes: nat, total: nat, chainBytes: nat): nat
    requires pos < clusterBytes
  {
    if Complete(pos, clusterBytes, total, chainBytes)
    then Min(total, Reach(pos, clusterBytes, CeilDiv(total, SECTOR)) - pos)
    else Max(0, LastStep(pos, clusterBytes, chainBytes) - pos)
  }

  /** Byte j of a read that started one byte into a sector is not delivered, if it is the last of a
      full step: what arrives in its place was in the buffer before. */
  predicate Stale(start: nat, clusterBytes: nat, j: nat) {
    start % SECTOR == 1 && j % SECTOR == SECTOR - 1 && start + j < clusterBytes
  }

  /** The output after n bytes, with the byte that was in the buffer before. */
  function Filled(was: seq<byte>, all: seq<byte>, start: nat, clusterBytes: nat, n: nat, stale: byte): (r: seq<byte>)
    requires n <= |was| && (n > 0 ==> start + n <= |all|)
    ensures |r| == |was|
  {
    seq<byte>(|was|, j requires 0 <= j < |was| && n <= |was| && (n > 0 ==> start + n <= |all|) =>
      if j >= n then was[j] else if Stale(start, clusterBytes, j) then stale else all[start + j])
  }

  /** The read delivers all that is wanted, and it is right. */
  ghost predicate Exact(was: seq<byte>, all: seq<byte>, pos: nat, clusterBytes: nat, total: nat, stale: byte)
    requires pos < clusterBytes && total <= |was|
  {
    && Arriving(pos, clusterBytes, total, |all|) == total && pos + total <= |all|
    && Complete(pos, clusterBytes, total, |all|)
    && forall j | 0 <= j < total :: Filled(was, all, pos, clusterBytes, total, stale)[j] == all[pos + j]
  }

  /** A read from the first cluster is right, whatever was in the buffer, exactly if it does not need
      the last step of the chain; it ends before the short step at the end of the first cluster, or the
      sectors it counts make up for that; and it does not deliver a full step from one byte into a sector
      on. */
  lemma ReadExactly(was: seq<byte>, all: seq<byte>, pos: nat, clusterBytes: nat, total: nat)
    requires pos < clusterBytes && clusterBytes % SECTOR == 0 && total <= |was|
    requires |all| % SECTOR == 0 && clusterBytes <= |all|
    ensures var sectors := CeilDiv(total, SECTOR);
            (forall stale: byte :: Exact(was, all, pos, clusterBytes, total, stale))
            <==> && Complete(pos, clusterBytes, total, |all|)
                 && (pos + sectors * SECTOR < clusterBytes || pos % SECTOR + total <= sectors * SECTOR)
                 && (pos % SECTOR == 1 ==> total < SECTOR || pos + SECTOR > clusterBytes)
  {
    var sectors := CeilDiv(total, SECTOR);
    CeilCovers(total);
    if Complete(pos, clusterBytes, total, |all|) {
      CompleteFits(pos, clusterBytes, total, |all|);
      if pos % SECTOR == 1 && total >= SECTOR && pos + SECTOR <= clusterBytes {
        var right := all[pos + SECTOR - 1];
        var wrong: byte := if right == 0 then 1 else 0;
        assert Stale(pos, clusterBytes, SECTOR - 1) by { FullStep(pos, clusterBytes); }
        if pos + total <= |all| {
          assert Filled(was, all, pos, clusterBytes, total, wrong)[SECTOR - 1] != all[pos + (SECTOR - 1)];
        }
        assert !Exact(was, all, pos, clusterBytes, total, wrong);
      } else {
        forall j | 0 <= j < total
          ensures !Stale(pos, clusterBytes, j)
        {
        }
      }
    }
    assert Exact(was, all, pos, clusterBytes, total, 0) ==> Complete(pos, clusterBytes, total, |all|);
  }

  lemma FullStep(pos: nat, clusterBytes: nat)
    requires pos % SECTOR == 1 && clusterBytes % SECTOR == 0 && pos + SECTOR <= clusterBytes
    ensures pos + SECTOR - 1 < clusterBytes
  {
  }

  lemma CompleteFits(pos: nat, clusterBytes: nat, total: nat, chainBytes: nat)
    requires pos < clusterBytes <= chainBytes && clusterBytes % SECTOR == 0 && chainBytes % SECTOR == 0
    requires Complete(pos, clusterBytes, total, chainBytes)
    ensures pos + total <= chainBytes
    ensures Arriving(pos, clusterBytes, total, chainBytes) == total <==>
              pos + CeilDiv(total, SECTOR) * SECTOR < clusterBytes
              || pos % SECTOR + total <= CeilDiv(total, SECTOR) * SECTOR
  {
    hide CeilDiv;
    CeilCovers(total);
    var sectors := CeilDiv(total, SECTOR);
    AlignedPart(pos, sectors);
    if pos + sectors * SECTOR >= clusterBytes {
      AlignedBelow(pos + sectors * SECTOR - pos % SECTOR, chainBytes);
    }
  }

  lemma AlignedPart(pos: nat, sectors: nat)
    ensures (pos + sectors * SECTOR - pos % SECTOR) % SECTOR == 0
  {
    assert pos - pos % SECTOR == pos / SECTOR * SECTOR;
    assert pos + sectors * SECTOR - pos % SECTOR == (pos / SECTOR + sectors) * SECTOR;
  }

  lemma AlignedBelow(x: nat, end: nat)
    requires x % SECTOR == 0 && end % SECTOR == 0 && x < end
    ensures x + SECTOR <= end
  {
  }

  // ----- the read loop

  class FileDescriptor {
    const firstCluster: nat
    const fileSize: nat
    var pos: nat

    constructor (firstCluster: nat, fileSize: nat)
      ensures this.firstCluster == firstCluster && this.fileSize == fileSize && pos == 0
    {
      this.firstCluster := firstCluster;
      this.fileSize := fileSize;
      pos := 0;
    }
  }

  /** The buffer between two steps: where full steps do not deliver their last byte, its last byte is
      still the one from before the read. */
  predicate StaleKept(buf: seq<byte>, start: nat, clusterBytes: nat, x: nat, stale: byte) {
    |buf| == SECTOR
    && (x < clusterBytes ==> start <= x && (x - start) % SECTOR == 0
                             && (start % SECTOR == 1 ==> buf[SECTOR - 1] == stale))
  }

  /** What one step leaves in the buffer. */
  lemma BufferAfterStep(buf: seq<byte>, buf': seq<byte>, all: seq<byte>, start: nat, clusterBytes: nat, x: nat,
                        count: nat, stale: byte)
    requires start <= x && clusterBytes % SECTOR == 0 && count < clusterBytes
    requires StaleKept(buf, start, clusterBytes, x, stale)
    requires if x < clusterBytes then count == x else count % SECTOR == 0
    requires x + BytesToRead(count, clusterBytes) <= |all|
    requires buf' == CopiedSome(buf, 0, all, x, StepArrives(count, clusterBytes))
    ensures forall k | 0 <= k < BytesToRead(count, clusterBytes) ::
              buf'[k] == if Stale(start, clusterBytes, x - start + k) then stale else all[x + k]
    ensures StaleKept(buf', start, clusterBytes, x + BytesToRead(count, clusterBytes), stale)
  {
    hide Stale, StepArrives;
    var size := BytesToRead(count, clusterBytes);
    if x < clusterBytes {
      forall k | 0 <= k < size
        ensures buf'[k] == if Stale(start, clusterBytes, x - start + k) then stale else all[x + k]
      {
        StepInFirst(start, clusterBytes, x, k);
      }
      StepInFirst(start, clusterBytes, x, 0);
    } else {
      AlignedStep(count, clusterBytes);
      BehindFirst(start, clusterBytes, x);
    }
  }

  /** A step in the first cluster misses its last byte exactly if that is a stale one. */
  lemma StepInFirst(start: nat, clusterBytes: nat, x: nat, k: nat)
    requires start <= x < clusterBytes && clusterBytes % SECTOR == 0 && (x - start) % SECTOR == 0
    requires k < BytesToRead(x, clusterBytes)
    ensures Stale(start, clusterBytes, x - start + k) <==> k >= StepArrives(x, clusterBytes)
    ensures x + BytesToRead(x, clusterBytes) < clusterBytes ==>
              BytesToRead(x, clusterBytes) == SECTOR
              && (start % SECTOR == 1 ==> StepArrives(x, clusterBytes) == SECTOR - 1)
    ensures StepArrives(x, clusterBytes) < BytesToRead(x, clusterBytes) ==>
              BytesToRead(x, clusterBytes) == SECTOR && start % SECTOR == 1
  {
    var m := (x - start) / SECTOR;
    assert x == start + m * SECTOR && x % SECTOR == start % SECTOR;
    assert (x - start + k) % SECTOR == k % SECTOR;
  }

  lemma BehindFirst(start: nat, clusterBytes: nat, x: nat)
    requires start <= x && clusterBytes <= x
    ensures forall j :: j >= x - start ==> !Stale(start, clusterBytes, j)
  {
  }

  lemma AlignedStep(count: nat, clusterBytes: nat)
    requires count < clusterBytes && count % SECTOR == 0 && clusterBytes % SECTOR == 0
    ensures BytesToRead(count, clusterBytes) == SECTOR == StepArrives(count, clusterBytes)
  {
  }

  /** Copying a step out extends the output. */
  lemma CopyNext(was: seq<byte>, all: seq<byte>, start: nat, clusterBytes: nat, done: nat, stale: byte,
                 piece: seq<byte>,
                 size: nat, c: nat)
    requires c <= size <= |piece| && done + c <= |was| && start + done + size <= |all|
    requires forall k | 0 <= k < size ::
               piece[k] == if Stale(start, clusterBytes, done + k) then stale else all[start + done + k]
    ensures Copied(Filled(was, all, start, clusterBytes, done, stale), done, piece, 0, c)
            == Filled(was, all, start, clusterBytes, done + c, stale)
  {
    hide Stale;
    var l := Copied(Filled(was, all, start, clusterBytes, done, stale), done, piece, 0, c);
    var r := Filled(was, all, start, clusterBytes, done + c, stale);
    forall j | 0 <= j < |was|
      ensures l[j] == r[j]
    {
      if done <= j < done + c {
        assert piece[j - done] ==
               if Stale(start, clusterBytes, done + (j - done)) then stale else all[start + done + (j - done)];
      }
    }
  }

  /** Where the walk is, as the copying sees it. */
  lemma WalkFacts(disk: seq<byte>, g: Geometry, chain: seq<nat>, q: nat, cluster: nat, count: nat, pos: nat,
                  all: seq<byte>,
                  x: nat)
    requires WholeDisk(disk, g) && Walking(disk, g, chain, q, cluster, count, pos, all, x)
    ensures g.ClusterBytes() % SECTOR == 0 && count < g.ClusterBytes() <= |all| && |all| % SECTOR == 0
    ensures if x < g.ClusterBytes() then count == x else count % SECTOR == 0
    ensures BytesToRead(count, g.ClusterBytes()) == StepAt(x, g.ClusterBytes()) > 0
    ensures x + StepAt(x, g.ClusterBytes()) <= |all|
  {
    hide ChainBytes, OnDisk, IsChain, Geometry.ClusterStart;
    StepReady(disk, g, chain, q, cluster, count, pos, all, x);
    StepTaken(disk, g, chain, q, cluster, count, pos, all, x);
    BaseGrows(disk, g, chain, q);
    BaseStep(disk, g, chain, 0);
    ChainAligned(disk, g, chain);
    ClusterInChain(disk, g, chain, 0);
    ClusterAligned(g);
  }

  lemma ClusterAligned(g: Geometry)
    ensures g.ClusterBytes() % SECTOR == 0
  {
  }

  lemma {:induction false} ChainAligned(disk: seq<byte>, g: Geometry, chain: seq<nat>)
    requires forall i | 0 <= i < |chain| :: OnDisk(disk, g, chain[i])
    ensures |ChainBytes(disk, g, chain)| % SECTOR == 0
    decreases |chain|
  {
    hide Geometry.ClusterBytes;
    if chain != [] {
      ChainAligned(disk, g, chain[..|chain| - 1]);
      ClusterAligned(g);
      AlignedSum(|ChainBytes(disk, g, chain[..|chain| - 1])|, g.ClusterBytes());
    }
  }

  lemma AlignedSum(a: nat, b: nat)
    requires a % SECTOR == 0 && b % SECTOR == 0
    ensures (a + b) % SECTOR == 0
  {
  }

  /** The body of the read loop: one more step along the chain, copied out as far as it is wanted, unless
      it was the last one of the chain. */
  method DeliverStep(v: Volume, desc: FileDescriptor, cluster: nat, count: nat, buf: array<byte>, out: array<byte>,
                     outptr: nat, left: nat, ghost was: seq<byte>, ghost start: nat, ghost chain: seq<nat>,
                     ghost q: nat,
                     ghost all: seq<byte>, ghost stale: byte)
    returns (more: bool, cluster': nat, count': nat, read: nat, ghost q': nat)
    requires v.Valid() && Walking(v.data.disk, v.g, chain, q, cluster, count, v.data.pos, all, start + outptr)
    requires buf.Length == SECTOR && buf != out && outptr + left <= out.Length == |was|
    requires StaleKept(buf[..], start, v.g.ClusterBytes(), start + outptr, stale)
    requires (outptr > 0 ==> start + outptr <= |all|)
    requires out[..] == Filled(was, all, start, v.g.ClusterBytes(), outptr, stale)
    modifies v.table, v.data, desc, buf, out
    ensures read == StepAt(start + outptr, v.g.ClusterBytes()) && start + outptr + read <= |all|
    ensures more <==> start + outptr + read < |all|
    ensures !more ==> out[..] == old(out[..]) && desc.pos == old(desc.pos)
    ensures more ==> Walking(v.data.disk, v.g, chain, q', cluster', count', v.data.pos, all, start + outptr + read)
    ensures more ==> StaleKept(buf[..], start, v.g.ClusterBytes(), start + outptr + read, stale)
    ensures more ==> out[..] == Filled(was, all, start, v.g.ClusterBytes(), outptr + Min(left, read), stale)
    ensures more ==> desc.pos == old(desc.pos) + Min(left, read)
  {
    hide ChainBytes, OnDisk, AtCluster, IsChain, Base, Copied, InChain, Geometry.ClusterBytes, Geometry.ClusterStart,
         WholeDisk, Walking, StaleKept, Filled, StepArrives, CopiedSome, BytesToRead, StepAt, Stale;
    WalkFacts(v.data.disk, v.g, chain, q, cluster, count, v.data.pos, all, start + outptr);
    ghost var before := buf[..];
    more, cluster', count', read := v.ReadInternals(cluster, count, buf, chain, q, all, start + outptr);
    q' := NextIndex(v.g, q, count);
    if !more {
      return;
    }
    BufferAfterStep(before, buf[..], all, start, v.g.ClusterBytes(), start + outptr, count, stale);
    CopyNext(was, all, start, v.g.ClusterBytes(), outptr, stale, buf[..], read, Min(left, read));
    if left < read {
      Stream.CopyOut(out, outptr, buf, 0, left);
      desc.pos := desc.pos + left;
    } else {
      Stream.CopyOut(out, outptr, buf, 0, read);
      desc.pos := desc.pos + read;
    }
  }

  /** A read from any position in the first cluster.  What the local buffer holds before is not known. */
  method ReadFile(v: Volume, desc: FileDescriptor, size: nat, nmemb: nat, out: array<byte>, ghost chain: seq<nat>)
    returns (res: int)
    requires v.Valid() && IsChain(v.data.disk, v.g, chain) && chain[0] == desc.firstCluster
    requires 1 <= size < 256 && nmemb * size < 0x8000_0000 && desc.fileSize < WORD_VALUES
    requires desc.pos <= desc.fileSize && desc.pos < v.g.ClusterBytes()
    requires Wanted(desc.pos, desc.fileSize, size, nmemb) <= out.Length
    modifies v.table, v.data, desc, out
    ensures var all := ChainBytes(v.data.disk, v.g, chain);
            var pos, cb, total := old(desc.pos), v.g.ClusterBytes(), Wanted(old(desc.pos), desc.fileSize, size, nmemb);
            && ReadOutcome(old(out[..]), out[..], all, pos, cb, total, desc.pos)
            && res == if Complete(pos, cb, total, |all|) then total / size else 0
  {
    hide ChainBytes, OnDisk, IsChain, Filled, Geometry.ClusterBytes, Geometry.ClusterStart, Wanted, CeilDiv, Walking,
         WholeDisk, StepAt, Reach, StaleKept, ReadOutcome, Complete, CopiedSome, Copied;
    WalkStarts(v.data.disk, v.g, chain, desc.pos);
    var total := nmemb * size;
    if desc.pos + total > desc.fileSize {
      total := desc.fileSize - desc.pos;
    }
    WantedIs(desc.pos, desc.fileSize, size, nmemb, total);
    ghost var was, start, cb := out[..], desc.pos, v.g.ClusterBytes();
    ghost var all := ChainBytes(v.data.disk, v.g, chain);
    var cluster, count := desc.firstCluster, desc.pos;
    var sectors := CeilDiv(total, SECTOR);
    ghost var steps := sectors;
    var outptr, left := 0, total;
    var buf := new byte[SECTOR];
    ghost var stale := buf[SECTOR - 1];
    ReadBegins(was, all, start, cb, buf[..], total);
    v.data.Seek(v.g.ClusterStart(cluster) + desc.pos);
    ghost var q: nat := 0;
    while sectors > 0
      invariant 0 <= sectors <= steps && 0 <= outptr && start + outptr == Reach(start, cb, steps - sectors)
      invariant fresh(buf) && Walking(v.data.disk, v.g, chain, q, cluster, count, v.data.pos, all, start + outptr)
      invariant desc.pos == start + outptr < |all| && left == total - outptr >= 0
      invariant StaleKept(buf[..], start, cb, start + outptr, stale)
      invariant out[..] == Filled(was, all, start, cb, outptr, stale)
    {
      OneStepOn(start, cb, total, |all|, steps - sectors);
      var more, read;
      more, cluster, count, read, q := DeliverStep(v, desc, cluster, count, buf, out, outptr, left, was,
                                                   start, chain, q, all,
                                                   stale);
      if !more {
        ReadStopped(was, out[..], all, start, cb, total, outptr, steps - sectors, stale);
        return 0;
      }
      sectors := sectors - 1;
      if left < read {
        outptr := outptr + left;
        ReadFinished(was, out[..], all, start, cb, total, outptr, stale);
        return total / size;
      }
      left, outptr := left - read, outptr + read;
    }
    ReadFinished(was, out[..], all, start, cb, total, outptr, stale);
    return total / size;
  }

  /** What a read does to the output and to the position. */
  ghost predicate ReadOutcome(was: seq<byte>, out: seq<byte>, all: seq<byte>, pos: nat, clusterBytes: nat, total: nat,
                              pos': nat)
    requires pos < clusterBytes
  {
    var n := Arriving(pos, clusterBytes, total, |all|);
    && n <= |was| && (n > 0 ==> pos + n <= |all|) && pos' == pos + n
    && exists stale: byte :: out == Filled(was, all, pos, clusterBytes, n, stale)
  }

  /** The last step of the chain was reached before all sectors were done. */
  lemma ReadStopped(was: seq<byte>, out: seq<byte>, all: seq<byte>, start: nat, clusterBytes: nat, total: nat,
                    n: nat, k: nat,
                    stale: byte)
    requires start < clusterBytes <= |all| && clusterBytes % SECTOR == 0 && |all| % SECTOR == 0
    requires k < CeilDiv(total, SECTOR) && start + n == Reach(start, clusterBytes, k) <= |all| && n <= |was|
    requires Reach(start, clusterBytes, k + 1) == |all| && out == Filled(was, all, start, clusterBytes, n, stale)
    ensures ReadOutcome(was, out, all, start, clusterBytes, total, start + n)
    ensures !Complete(start, clusterBytes, total, |all|)
  {
    hide Filled;
    OneStepOn(start, clusterBytes, total, |all|, k);
  }

  /** All sectors were done, and as much of the last as was wanted. */
  lemma ReadFinished(was: seq<byte>, out: seq<byte>, all: seq<byte>, start: nat, clusterBytes: nat, total: nat, n: nat,
                     stale: byte)
    requires start < clusterBytes && Reach(start, clusterBytes, CeilDiv(total, SECTOR)) < |all|
    requires n == Min(total, Reach(start, clusterBytes, CeilDiv(total, SECTOR)) - start) && n <= |was|
    requires start + n <= |all| && out == Filled(was, all, start, clusterBytes, n, stale)
    ensures ReadOutcome(was, out, all, start, clusterBytes, total, start + n)
    ensures Complete(start, clusterBytes, total, |all|)
  {
    hide Filled;
  }

  /** A read asks for no more than its caller does and than the file has left, and for all of one of
      the two. */
  lemma WantedIsLeast(pos: nat, fileSize: nat, size: nat, nmemb: nat)
    requires pos <= fileSize
    ensures var n := Wanted(pos, fileSize, size, nmemb);
            && n <= nmemb * size && pos + n <= fileSize && (n == nmemb * size || pos + n == fileSize)
  {
  }

  lemma WantedIs(pos: nat, fileSize: nat, size: nat, nmemb: nat, total: int)
    requires pos <= fileSize && total == if pos + nmemb * size > fileSize then fileSize - pos else nmemb * size
    ensures total == Wanted(pos, fileSize, size, nmemb)
  {
  }

  lemma {:induction false} WalkStarts(disk: seq<byte>, g: Geometry, chain: seq<nat>, pos: nat)
    requires WholeDisk(disk, g) && IsChain(disk, g, chain) && pos < g.ClusterBytes()
    ensures 0 <= g.ClusterStart(chain[0]) && g.ClusterStart(chain[0]) + pos < WORD_VALUES
    ensures forall i | 0 <= i < |chain| :: OnDisk(disk, g, chain[i])
    ensures var all := ChainBytes(disk, g, chain);
            && Walking(disk, g, chain, 0, chain[0], pos, g.ClusterStart(chain[0]) + pos, all, pos)
            && pos < |all| && |all| % SECTOR == 0 && g.ClusterBytes() <= |all| && g.ClusterBytes() % SECTOR == 0
  {
    hide ChainBytes, OnDisk, Geometry.ClusterBytes, Geometry.ClusterStart;
    OnDiskFacts(disk, g, chain[0]);
    BaseStep(disk, g, chain, 0);
    ClusterInChain(disk, g, chain, 0);
    ChainAligned(disk, g, chain);
  }

  lemma ReadBegins(was: seq<byte>, all: seq<byte>, start: nat, clusterBytes: nat, buf: seq<byte>, total: nat)
    requires start < clusterBytes && clusterBytes % SECTOR == 0 && |buf| == SECTOR
    ensures Filled(was, all, start, clusterBytes, 0, buf[SECTOR - 1]) == was
    ensures StaleKept(buf, start, clusterBytes, start, buf[SECTOR - 1])
    ensures Reach(start, clusterBytes, 0) == start
  {
  }

  /** How far step k gets the read: what is still wanted after it, and what it means if it is the last
      one of the chain. */
  lemma OneStepOn(start: nat, clusterBytes: nat, total: nat, chainBytes: nat, k: nat)
    requires start < clusterBytes <= chainBytes && clusterBytes % SECTOR == 0 && chainBytes % SECTOR == 0
    requires k < CeilDiv(total, SECTOR)
    ensures var x, x' := Reach(start, clusterBytes, k), Reach(start, clusterBytes, k + 1);
            && x' == x + StepAt(x, clusterBytes) && x >= start
            && (total - (x - start) < x' - x ==> k + 1 == CeilDiv(total, SECTOR))
            && (x' == chainBytes ==>
                  !Complete(start, clusterBytes, total, chainBytes) && x == LastStep(start, clusterBytes, chainBytes))
  {
    ReachStep(start, clusterBytes, k);
    CeilCovers(total);
    var x, x' := Reach(start, clusterBytes, k), Reach(start, clusterBytes, k + 1);
    if x' == chainBytes {
      ReachMonotone(start, clusterBytes, k + 1, CeilDiv(total, SECTOR));
      if x < clusterBytes {
        StepToEnd(start, clusterBytes, x, k);
      }
    }
  }

  /** The step that ends the first cluster. */
  lemma StepToEnd(start: nat, clusterBytes: nat, x: nat, k: nat)
    requires x == start + k * SECTOR && x < clusterBytes && clusterBytes % SECTOR == 0
    ensures x + BytesToRead(x, clusterBytes) >= clusterBytes ==> x == clusterBytes - SECTOR + start % SECTOR
  {
    assert x % SECTOR == start % SECTOR;
  }

  // ----- special cases

  /** From a sector-aligned position, only the last sector of the chain is missing: a read is complete
      exactly if it ends before that sector. */
  lemma LastSectorNeverArrives(pos: nat, clusterBytes: nat, total: nat, chainBytes: nat)
    requires pos % SECTOR == 0 && clusterBytes % SECTOR == 0 && chainBytes % SECTOR == 0
    requires pos < clusterBytes <= chainBytes
    ensures Complete(pos, clusterBytes, total, chainBytes) <==> total <= chainBytes - pos - SECTOR
    ensures Arriving(pos, clusterBytes, total, chainBytes) == Min(total, chainBytes - pos - SECTOR)
  {
    CeilCovers(total);
    AlignedGap(chainBytes - pos, CeilDiv(total, SECTOR));
  }

  lemma AlignedGap(room: nat, sectors: nat)
    requires room % SECTOR == 0 && room > 0
    ensures sectors * SECTOR < room <==> sectors * SECTOR <= room - SECTOR
  {
  }

  /** From position 100 of a 2048-byte cluster, 4096 bytes of a long chain: the whole length is reported and
      only 3996 bytes arrive. */
  lemma ShortStepIsNotMadeUp(chainBytes: nat)
    requires chainBytes >= 8192
    ensures Complete(100, 2048, 4096, chainBytes) && Arriving(100, 2048, 4096, chainBytes) == 3996
  {
  }

  /** The first step of a read asks the stream for something that fits its buffer and lies on the disk
      exactly if the read starts in the first cluster: the chain is not followed to a start position. */
  lemma FirstStepReadable(disk: seq<byte>, g: Geometry, chain: seq<nat>, pos: nat)
    requires WholeDisk(disk, g) && IsChain(disk, g, chain) && pos < 0x8000_0000
    ensures var start, size := Wrap(g.ClusterStart(chain[0]) + pos), Wrap(BytesToRead(pos, g.ClusterBytes()));
            size <= SECTOR && (start / SECTOR + SectorCount(start, size)) * SECTOR <= |disk| <==> pos < g.ClusterBytes()
  {
    hide OnDisk, Geometry.ClusterBytes, Geometry.ClusterStart, ChainBytes, BytesToRead, SectorCount, Wrap;
    OnDiskFacts(disk, g, chain[0]);
    FirstStepInRange(g.ClusterStart(chain[0]), g.ClusterBytes(), pos, |disk|);
  }

  lemma FirstStepInRange(first: nat, clusterBytes: nat, pos: nat, end: nat)
    requires first % SECTOR == 0 && clusterBytes % SECTOR == 0 && first + clusterBytes <= end
    requires end % SECTOR == 0 && end < WORD_VALUES && pos < 0x8000_0000
    ensures var start, size := Wrap(first + pos), Wrap(BytesToRead(pos, clusterBytes));
            size <= SECTOR && (start / SECTOR + SectorCount(start, size)) * SECTOR <= end <==> pos < clusterBytes
  {
    hide SectorCount;
    if pos < clusterBytes {
      StretchReadable(first, pos, BytesToRead(pos, clusterBytes), first + clusterBytes);
    } else if pos == clusterBytes {
      EmptyReadOverruns(Wrap(first + pos));
    }
  }

  /** A read of no bytes from the start of a sector counts all sectors of a 4 GB disk. */
  lemma EmptyReadOverruns(start: u32)
    requires start % SECTOR == 0
    ensures SectorCount(start, 0) * SECTOR == WORD_VALUES
  {
  }

  /** Even the address such a read starts at is the one of the byte asked for only if the clusters up to
      there are numbered without a gap. */
  lemma StartAddressRight(g: Geometry, chain: seq<nat>, q: nat, r: nat)
    requires q < |chain| && g.sectorsPerCluster >= 1
    ensures g.ClusterStart(chain[0]) + (q * g.ClusterBytes() + r) == g.ClusterStart(chain[q]) + r
            <==> chain[q] == chain[0] + q
  {
    var spc, d := g.sectorsPerCluster, chain[q] - chain[0] - q;
    assert g.ClusterStart(chain[q]) - g.ClusterStart(chain[0]) - q * g.ClusterBytes() == d * spc * SECTOR by {
      assert (chain[q] - 2) * spc - (chain[0] - 2) * spc - q * spc == d * spc;
      assert q * (spc * SECTOR) == q * spc * SECTOR;
    }
    if d != 0 {
      assert d * spc != 0;
    }
  }

  /** One-sector clusters, read from the second one on: 4 GB worth of sectors are asked for. */
  lemma SecondClusterIsNotRead(disk: seq<byte>, chain: seq<nat>, reserved: nat, rootEnd: nat)
    requires var g := Geometry(1, reserved, rootEnd); WholeDisk(disk, g) && IsChain(disk, g, chain) && |chain| >= 2
    ensures var g := Geometry(1, reserved, rootEnd); var start := Wrap(g.ClusterStart(chain[0]) + SECTOR);
            BytesToRead(SECTOR, g.ClusterBytes()) == 0 && SectorCount(start, 0) * SECTOR == WORD_VALUES > |disk|
  {
    hide OnDisk, Geometry.ClusterStart, SectorCount, Successor, RawEntry;
    var g := Geometry(1, reserved, rootEnd);
    OnDiskFacts(disk, g, chain[0]);
    NextSector(g.ClusterStart(chain[0]), |disk|);
    EmptyReadOverruns(Wrap(g.ClusterStart(chain[0]) + SECTOR));
  }

  lemma NextSector(first: nat, end: nat)
    requires first % SECTOR == 0 && first + SECTOR <= end < WORD_VALUES
    ensures Wrap(first + SECTOR) % SECTOR == 0
  {
  }
}
