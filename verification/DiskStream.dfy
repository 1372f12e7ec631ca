/** Byte-addressed streams over a disk of 512-byte sectors. */
module DiskStream {
  import opened Words

  const SECTOR: nat := 512

  type byte = x: int | 0 <= x < 256

  /** The sectors `Read` decides to read. */
  function SectorCount(pos: u32, total: u32): nat {
    CeilDiv(Wrap(pos % SECTOR + total - 1), SECTOR)
  }

  function Min(a: int, b: int): int { if a < b then a else b }

  function Max(a: int, b: int): int { if a < b then b else a }

  /** The bytes that come out of that many sectors: no more than asked for, and none before the
      offset in the first sector. */
  function Delivered(pos: u32, total: u32): nat {
    Min(total, Max(0, SectorCount(pos, total) * SECTOR - pos % SECTOR))
  }

  /** A read is complete exactly when it does not end one byte into a sector; if it does, the last
      byte is missing, although the position moves on by the whole length. */
  lemma DeliveredExactly(pos: u32, total: u32)
    requires 0 < total < 0x8000_0000 && pos + total <= WORD_VALUES
    ensures Delivered(pos, total) == total <==> (pos + total) % SECTOR != 1
    ensures (pos + total) % SECTOR == 1 ==> Delivered(pos, total) == total - 1
  {
    var offset := pos % SECTOR;
    assert (pos + total) % SECTOR == (offset + total) % SECTOR;
    assert SectorCount(pos, total) == CeilDiv(offset + total - 1, SECTOR);
    CeilCovers(offset + total - 1);
  }

  lemma CeilCovers(size: nat)
    ensures var n := CeilDiv(size, SECTOR) * SECTOR;
            && size <= n < size + SECTOR
            && (n < size + 1 <==> (size + 1) % SECTOR == 1)
  {
  }

  /** One byte at the start of a sector: nothing at all is read. */
  lemma OneByteIsLost(sector: nat)
    requires sector * SECTOR < WORD_VALUES
    ensures Delivered(sector * SECTOR, 1) == 0
  {
    DeliveredExactly(sector * SECTOR, 1);
  }

  /** Counting up to the byte after the last, instead of up to the last, would be enough everywhere. */
  lemma RoundingUpTheEndIsEnough(pos: u32, total: u32)
    ensures Min(total, CeilDiv(pos % SECTOR + total, SECTOR) * SECTOR - pos % SECTOR) == total
  {
    CeilCovers(pos % SECTOR + total);
  }

  /** Reads that start and end on even positions are complete. */
  lemma EvenReadsComplete(pos: u32, total: u32)
    requires pos % 2 == 0 && total % 2 == 0 && 0 < total < 0x8000_0000 && pos + total <= WORD_VALUES
    ensures Delivered(pos, total) == total
  {
    DeliveredExactly(pos, total);
  }

  /** The stretch of bytes from p on, copied over buf from index `at` on. */
  function Copied(buf: seq<byte>, at: nat, disk: seq<byte>, p: nat, n: nat): (r: seq<byte>)
    requires at + n <= |buf| && p + n <= |disk|
    ensures |r| == |buf|
    ensures forall k | 0 <= k < |buf| :: r[k] == if at <= k < at + n then disk[p + k - at] else buf[k]
  {
    buf[..at] + disk[p..p + n] + buf[at + n..]
  }

  /** Bytes copied after the first k sectors of a read. */
  function DoneAfter(pos: u32, total: u32, k: nat): nat {
    Min(total, Max(0, k * SECTOR - pos % SECTOR))
  }

  /** Where sector number k of a read starts to count. */
  function OffsetIn(pos: u32, k: nat): nat {
    if k == 0 then pos % SECTOR else 0
  }

  lemma OneMoreSector(pos: u32, total: u32, k: nat)
    ensures var left := total - DoneAfter(pos, total, k);
            && left >= 0 && OffsetIn(pos, k) < SECTOR && OffsetIn(pos, k + 1) == 0
            && DoneAfter(pos, total, k + 1) == DoneAfter(pos, total, k) + Min(left, SECTOR - OffsetIn(pos, k))
            && (left > 0 ==> (pos / SECTOR + k) * SECTOR + OffsetIn(pos, k) == pos + DoneAfter(pos, total, k))
  {
  }

  /** Copying on, from a piece that holds the next bytes. */
  lemma CopyExtends(buf: seq<byte>, at: nat, disk: seq<byte>, p: nat, m: nat, piece: seq<byte>, offset: nat, c: nat)
    requires at + m + c <= |buf| && (m + c > 0 ==> p + m + c <= |disk|) && offset + c <= |piece|
    requires c > 0 ==> piece[offset..offset + c] == disk[p + m..p + m + c]
    ensures Copied(CopiedSome(buf, at, disk, p, m), at + m, piece, offset, c) == CopiedSome(buf, at, disk, p, m + c)
  {
    var l, r := Copied(CopiedSome(buf, at, disk, p, m), at + m, piece, offset, c), CopiedSome(buf, at, disk, p, m + c);
    forall k | 0 <= k < |buf|
      ensures l[k] == r[k]
    {
      if at + m <= k < at + m + c {
        assert piece[offset..offset + c][k - at - m] == disk[p + m..p + m + c][k - at - m];
      }
    }
  }

  /** The next bytes of a read, in the sector that holds them. */
  lemma NextPiece(disk: seq<byte>, sector: nat, offset: nat, p: nat, c: nat)
    requires (sector + 1) * SECTOR <= |disk| && offset + c <= SECTOR
    requires c > 0 ==> sector * SECTOR + offset == p
    ensures c > 0 ==> p + c <= |disk|
    ensures c > 0 ==> disk[sector * SECTOR..(sector + 1) * SECTOR][offset..offset + c] == disk[p..p + c]
  {
  }

  /** `Copied`, where copying nothing asks for nothing. */
  function CopiedSome(buf: seq<byte>, at: nat, disk: seq<byte>, p: nat, n: nat): (r: seq<byte>)
    requires at + n <= |buf| && (n > 0 ==> p + n <= |disk|)
    ensures |r| == |buf|
  {
    if n == 0 then buf else Copied(buf, at, disk, p, n)
  }

  class Stream {
    const disk: seq<byte>
    var pos: u32

    constructor (disk: seq<byte>)
      ensures this.disk == disk && pos == 0
    {
      this.disk := disk;
      pos := 0;
    }

    /** The sectors a read touches exist. */
    ghost predicate OnDisk(total: u32)
      reads this
    {
      && |disk| % SECTOR == 0 && total < 0x8000_0000
      && (pos / SECTOR + SectorCount(pos, total)) * SECTOR <= |disk|
    }

    method Seek(pos: u32)
      modifies this
      ensures this.pos == pos
    {
      this.pos := pos;
    }

    method ReadBlock(sector: nat, buffer: array<byte>)
      requires buffer.Length == SECTOR && (sector + 1) * SECTOR <= |disk|
      modifies buffer
      ensures buffer[..] == disk[sector * SECTOR..(sector + 1) * SECTOR]
    {
      for i := 0 to SECTOR
        invariant buffer[..i] == disk[sector * SECTOR..sector * SECTOR + i]
      {
        buffer[i] := disk[sector * SECTOR + i];
      }
      assert buffer[..SECTOR] == buffer[..];
    }

    /** The inner loop: bytes of one sector from `offset` on, until the sector or the count ends. */
    static method CopyOut(buf: array<byte>, ptr: nat, buffer: array<byte>, offset: nat, tot: nat)
      requires buf != buffer && buffer.Length == SECTOR && offset < SECTOR && ptr + tot <= buf.Length
      modifies buf
      ensures buf[..] == Copied(old(buf[..]), ptr, buffer[..], offset, Min(tot, SECTOR - offset))
    {
      ghost var was := buf[..];
      var to, from, left := ptr, offset, tot;
      while from < SECTOR && left != 0
        invariant offset <= from <= SECTOR && 0 <= left <= tot
        invariant left == tot - (to - ptr) && to - ptr == from - offset
        invariant forall k | 0 <= k < buf.Length ::
          buf[k] == if ptr <= k < to then buffer[offset + k - ptr] else was[k]
      {
        buf[to] := buffer[from];
        to, from, left := to + 1, from + 1, left - 1;
      }
    }

    /** One sector of a read: the m bytes copied so far grow by what the sector still has to give. */
    method ReadSector(buf: array<byte>, ptr: nat, buffer: array<byte>, sector: nat, offset: nat, tot: nat,
                      ghost was: seq<byte>, ghost at: nat, ghost p: nat, ghost m: nat)
      requires buf != buffer && buffer.Length == SECTOR && (sector + 1) * SECTOR <= |disk|
      requires offset < SECTOR && ptr == at + m && ptr + tot <= buf.Length == |was|
      requires (m > 0 ==> p + m <= |disk|) && buf[..] == CopiedSome(was, at, disk, p, m)
      requires tot > 0 ==> sector * SECTOR + offset == p + m
      modifies buf, buffer
      ensures var c := Min(tot, SECTOR - offset);
              && (m + c > 0 ==> p + m + c <= |disk|)
              && buf[..] == CopiedSome(was, at, disk, p, m + c)
    {
      hide Copied, CopiedSome;
      ReadBlock(sector, buffer);
      CopyOut(buf, ptr, buffer, offset, tot);
      NextPiece(disk, sector, offset, p + m, Min(tot, SECTOR - offset));
      CopyExtends(was, at, disk, p, m, buffer[..], offset, Min(tot, SECTOR - offset));
    }

    /** Copies the delivered bytes behind `at` and moves the position on by all that was asked for. */
    method Read(buf: array<byte>, at: nat, total: u32)
      requires OnDisk(total) && at + total <= buf.Length
      modifies this, buf
      ensures pos == Wrap(old(pos) + total)
      ensures Delivered(old(pos), total) > 0 ==> old(pos) + Delivered(old(pos), total) <= |disk|
      ensures buf[..] == CopiedSome(old(buf[..]), at, disk, old(pos), Delivered(old(pos), total))
    {
      hide DoneAfter, OffsetIn, Copied, CopiedSome, Delivered, Max;
      var buffer := new byte[SECTOR];
      var sector := pos / SECTOR;
      var offset := pos % SECTOR;
      ghost var was := buf[..];
      var size := Wrap(offset + total - 1);
      var sectorsTotal := size / SECTOR;
      if size % SECTOR != 0 {
        sectorsTotal := sectorsTotal + 1;
      }
      NothingDone(pos, total, was, at, disk);
      ghost var k := 0;
      var ptr, tot := at, total;
      while sectorsTotal > 0
        invariant 0 <= sectorsTotal && k + sectorsTotal == SectorCount(pos, total) && sector == pos / SECTOR + k
        invariant fresh(buffer) && pos == old(pos) && offset == OffsetIn(pos, k)
        invariant ptr == at + DoneAfter(pos, total, k) && tot == total - DoneAfter(pos, total, k) >= 0
        invariant DoneAfter(pos, total, k) > 0 ==> pos + DoneAfter(pos, total, k) <= |disk|
        invariant buf[..] == CopiedSome(was, at, disk, pos, DoneAfter(pos, total, k))
      {
        OneMoreSector(pos, total, k);
        ReadSector(buf, ptr, buffer, sector, offset, tot, was, at, pos, DoneAfter(pos, total, k));
        ptr, tot := ptr + Min(tot, SECTOR - offset), tot - Min(tot, SECTOR - offset);
        sector, offset, sectorsTotal, k := sector + 1, 0, sectorsTotal - 1, k + 1;
      }
      AllDone(pos, total);
      pos := Wrap(pos + total);
    }
  }

  lemma NothingDone(pos: u32, total: u32, buf: seq<byte>, at: nat, disk: seq<byte>)
    requires at + total <= |buf|
    ensures DoneAfter(pos, total, 0) == 0 && OffsetIn(pos, 0) == pos % SECTOR
    ensures CopiedSome(buf, at, disk, pos, 0) == buf
  {
  }

  lemma AllDone(pos: u32, total: u32)
    ensures DoneAfter(pos, total, SectorCount(pos, total)) == Delivered(pos, total)
  {
  }
}
