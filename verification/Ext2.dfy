/**
 * kernel/fs/ext2.c: inode fetch, reading, and writing within allocated blocks, by sectors through one shared block
 * buffer.
 */
module Ext2 {
  import opened Common
  import opened Ext2Spec

  class Volume {
    const disk: array<nat>
    const buf: array<nat>
    const fs: Fs

    ghost predicate Valid() {
      FsOk(fs) && buf.Length == 4096 && disk.Length % SECTOR == 0 && disk != buf
    }

    constructor (disk: array<nat>, fs: Fs)
      requires FsOk(fs) && disk.Length % SECTOR == 0
      ensures Valid() && this.disk == disk && this.fs == fs
    {
      this.disk, this.fs := disk, fs;
      buf := new nat[4096];
    }

    /** `ata_read` of whole sectors into the buffer. */
    method ReadSectors(lba: nat, count: nat)
      requires Valid() && count * SECTOR <= 4096 && lba * SECTOR + count * SECTOR <= disk.Length
      modifies buf
      ensures buf[..count * SECTOR] == disk[lba * SECTOR..lba * SECTOR + count * SECTOR]
    {
      var n, from := count * SECTOR, lba * SECTOR;
      for i := 0 to n
        invariant buf[..i] == disk[from..from + i]
      {
        buf[i] := disk[from + i];
      }
    }

    /** `ata_write` of whole sectors from the buffer. */
    method WriteSectors(lba: nat, count: nat)
      requires Valid() && count * SECTOR <= 4096 && lba * SECTOR + count * SECTOR <= disk.Length
      modifies disk
      ensures disk[..] == old(disk[..lba * SECTOR]) + buf[..count * SECTOR] + old(disk[lba * SECTOR + count * SECTOR..])
    {
      var n, to := count * SECTOR, lba * SECTOR;
      for i := 0 to n
        invariant disk[..to] == old(disk[..to]) && disk[to..to + i] == buf[..i] && disk[to + n..] == old(disk[to + n..])
      {
        disk[to + i] := buf[i];
      }
      assert disk[..] == disk[..to] + disk[to..to + n] + disk[to + n..];
    }

    /** `ext2_read_block`: the block is in the buffer. */
    method ReadBlock(b: nat)
      requires Valid() && BlockIn(disk[..], fs, b)
      modifies buf
      ensures buf[..fs.blockSize] == disk[BlockStart(fs, b)..BlockStart(fs, b) + fs.blockSize]
    {
      hide BlockStart, Lba;
      BlockSectors(fs, b);
      ReadSectors(Lba(fs, b), fs.blockSize / SECTOR);
    }

    /** Part of a block, by way of the buffer. */
    method ReadChunk(b: nat, off: nat, chunk: nat) returns (s: seq<nat>)
      requires Valid() && BlockIn(disk[..], fs, b) && off + chunk <= fs.blockSize
      modifies buf
      ensures s == disk[BlockStart(fs, b) + off..BlockStart(fs, b) + off + chunk]
    {
      hide BlockStart, FsOk;
      BlockFits(fs);
      ReadBlock(b);
      s := buf[off..off + chunk];
      PartOf(buf[..], fs.blockSize, disk[..], BlockStart(fs, b), off, chunk);
    }

    /** One sector on its own, as `ext2_read_inode` reads it. */
    method ReadOne(lba: nat) returns (s: seq<nat>)
      requires lba * SECTOR + SECTOR <= disk.Length
      ensures s == disk[lba * SECTOR..lba * SECTOR + SECTOR]
    {
      s := disk[lba * SECTOR..lba * SECTOR + SECTOR];
    }

    /** A record of 32 or 128 bytes, through the one sector it lies in. */
    method ReadRecord(start: nat, index: nat, size: nat) returns (r: seq<nat>)
      requires Valid() && (size == 32 || size == 128) && start % SECTOR == 0
               && start + index * size + size <= disk.Length
      ensures r == disk[start + index * size..start + index * size + size]
    {
      NoStraddle(start, index, size);
      var lba := start / SECTOR + index * size / SECTOR;
      var off := index * size % SECTOR;
      SectorFits(lba, off, size, disk.Length);
      var sector := ReadOne(lba);
      r := sector[off..off + size];
    }

    /** `ext2_read_inode`: fetched sector by sector, it is the inode on the flat disk. */
    method ReadInode(ino: nat) returns (i: Inode)
      requires Valid() && InodeIn(disk[..], fs, ino)
      ensures i == InodeOf(disk[..], fs, ino) && |i.blocks| == 15
    {
      hide Little, BlockNumbers, BlockStart, Group, Slot;
      var group := Group(fs, ino);
      var index := Slot(fs, ino);
      BlockSectors(fs, fs.firstDataBlock + 1);
      var bgd := ReadRecord(BlockStart(fs, fs.firstDataBlock + 1), group, 32);
      var table := Little(bgd, 8, 4);
      LittleSlice(disk[..], DescriptorStart(fs, ino), 32, 8, 4);
      BlockSectors(fs, table);
      var raw := ReadRecord(BlockStart(fs, table), index, 128);
      i := ParseInode(raw);
    }

    /**
     * `ext2_read`: the file's bytes from pos on, as far as `ReadLength` says. The file position moves by their number.
     */
    method Read(ino: nat, pos: nat, n: nat) returns (data: seq<nat>)
      requires Valid() && InodeIn(disk[..], fs, ino) && BlocksIn(disk[..], fs, InodeOf(disk[..], fs, ino))
      modifies buf
      ensures var i := InodeOf(disk[..], fs, ino);
              |data| == ReadLength(fs, i, pos, n) && Bytes(disk[..], fs, i, pos, data)
    {
      hide InodeOf, ReadLength, FirstStop, BlockStart, Bytes, Index, Offset, FileStart, Reached;
      var i := ReadInode(ino);
      data := [];
      BytesNone(disk[..], fs, i, pos);
      if pos >= i.size {
        NothingThere(fs, i, pos, n);
        return;
      }
      var want := if pos + n > i.size then i.size - pos else n;
      ghost var d := disk[..];
      NotStarted(fs, i, pos, want);
      while |data| < want
        invariant disk[..] == d && Bytes(d, fs, i, pos, data) && Reached(fs, i, pos, |data|, want) && |data| <= want
      {
        var idx := Index(fs, pos + |data|);
        var off := Offset(fs, pos + |data|);
        if idx >= DIRECT || i.blocks[idx] == 0 {
          StoppedShort(fs, i, pos, |data|, want);
          break;
        }
        var chunk := fs.blockSize - off;
        if chunk > want - |data| {
          chunk := want - |data|;
        }
        ChunkStep(fs, i, pos, |data|, want, chunk);
        var more := ReadChunk(i.blocks[idx], off, chunk);
        BytesMore(d, fs, i, pos, data, chunk, more);
        data := data + more;
      }
      LengthReached(fs, i, pos, |data|, want, n);
    }

    /** Part of a block overwritten: the block is fetched, changed in the buffer and written back whole. */
    method WriteChunk(b: nat, off: nat, src: seq<nat>)
      requires Valid() && BlockIn(disk[..], fs, b) && off + |src| <= fs.blockSize
      modifies buf, disk
      ensures var at := BlockStart(fs, b) + off;
              disk[..] == old(disk[..at]) + src + old(disk[at + |src|..])
    {
      hide BlockStart, Lba, FsOk;
      BlockFits(fs);
      BlockSectors(fs, b);
      ghost var start, d := BlockStart(fs, b), disk[..];
      ReadBlock(b);
      ghost var before := buf[..];
      Patch(off, src);
      WriteSectors(Lba(fs, b), fs.blockSize / SECTOR);
      WrittenBack(d, start, fs.blockSize, off, src, before, buf[..]);
    }

    method Patch(off: nat, src: seq<nat>)
      requires off + |src| <= buf.Length
      modifies buf
      ensures buf[..] == old(buf[..off]) + src + old(buf[off + |src|..])
    {
      for k := 0 to |src|
        invariant buf[..off] == old(buf[..off]) && buf[off..off + k] == src[..k]
                  && buf[off + |src|..] == old(buf[off + |src|..])
      {
        buf[off + k] := src[k];
      }
      assert buf[..] == buf[..off] + buf[off..off + |src|] + buf[off + |src|..];
    }

    /**
     * `ext2_write` where no block has to be allocated: the file's bytes from pos on are overwritten, up to the last
     * direct block, and no other byte of the disk changes. The second result is the size kept in memory; the one on
     * disk stays.
     */
    method Write(ino: nat, pos: nat, src: seq<nat>, size: nat) returns (written: nat, size': nat)
      requires Valid() && InodeIn(disk[..], fs, ino) && BlocksIn(disk[..], fs, InodeOf(disk[..], fs, ino))
      requires Allocated(fs, InodeOf(disk[..], fs, ino), pos, |src|) && DistinctBlocks(InodeOf(disk[..], fs, ino))
      modifies buf, disk
      ensures written == WriteLength(fs, pos, |src|) <= |src|
      ensures Stored(old(disk[..]), disk[..], fs, old(InodeOf(disk[..], fs, ino)), pos, src[..written])
      ensures size' == if pos + written > size then pos + written else size
    {
      hide InodeOf, FirstStop, BlockStart, Index, Offset, FileStart, Stored, Place, Allocated, DistinctBlocks;
      hide WriteLength, Filled;
      var i := ReadInode(ino);
      ghost var d0 := disk[..];
      written := 0;
      StoredNone(d0, fs, i, pos);
      FilledNone(fs, pos, |src|);
      while written < |src|
        invariant written <= |src| && |disk[..]| == |d0| && Filled(fs, pos, written, |src|)
        invariant Stored(d0, disk[..], fs, i, pos, src[..written])
      {
        var idx := Index(fs, pos + written);
        var off := Offset(fs, pos + written);
        if idx >= DIRECT {
          FilledUp(fs, pos, written, |src|);
          break;
        }
        AllocatedAt(fs, i, pos, |src|, written);
        var chunk := fs.blockSize - off;
        if chunk > |src| - written {
          chunk := |src| - written;
        }
        ghost var d := disk[..];
        FilledMore(fs, pos, written, |src|, chunk);
        WriteChunk(i.blocks[idx], off, src[written..written + chunk]);
        AllocatedLess(fs, i, pos, |src|, written + chunk);
        StoredMore(d0, d, disk[..], fs, i, pos, src[..written], src[written..written + chunk]);
        assert src[..written] + src[written..written + chunk] == src[..written + chunk];
        written := written + chunk;
      }
      FilledDone(fs, pos, written, |src|);
      size' := if pos + written > size then pos + written else size;
    }

    /**
     * What was written reads back, up to the size on disk, which the write has not changed: all of it exactly when it
     * ends there. The file's blocks must not hold its own inode or group descriptor.
     */
    method WriteThenRead(ino: nat, pos: nat, src: seq<nat>, size: nat)
      returns (written: nat, size': nat, data: seq<nat>)
      requires Valid() && InodeIn(disk[..], fs, ino) && BlocksIn(disk[..], fs, InodeOf(disk[..], fs, ino))
      requires Allocated(fs, InodeOf(disk[..], fs, ino), pos, |src|) && DistinctBlocks(InodeOf(disk[..], fs, ino))
      requires OutsideMetadata(disk[..], fs, ino, InodeOf(disk[..], fs, ino), pos, |src|)
      modifies buf, disk
      ensures var i := old(InodeOf(disk[..], fs, ino));
              && written == WriteLength(fs, pos, |src|) <= |src|
              && |data| == (if pos >= i.size then 0 else if pos + written > i.size then i.size - pos else written)
              && data == src[..|data|]
    {
      hide InodeOf, Allocated, DistinctBlocks, WriteLength, Stored, BlocksIn, OutsideMetadata, Bytes, ReadLength;
      ghost var d0 := disk[..];
      ghost var i := InodeOf(d0, fs, ino);
      BlocksThere(d0, fs, i);
      written, size' := Write(ino, pos, src, size);
      InodeStays(d0, disk[..], fs, ino, i, pos, src[..written], |src|);
      data := Read(ino, pos, written);
      ReadsBack(d0, disk[..], fs, i, pos, |src|, src[..written], data);
    }
  }

  // ---- Writing ----

  lemma BlockFits(fs: Fs)
    requires FsOk(fs)
    ensures 0 < fs.blockSize <= 4096
  {}

  lemma PartOf(a: seq<nat>, n: nat, d: seq<nat>, start: nat, off: nat, chunk: nat)
    requires n <= |a| && start + n <= |d| && a[..n] == d[start..start + n] && off + chunk <= n
    ensures a[off..off + chunk] == d[start + off..start + off + chunk]
  {
    var x, y := a[off..off + chunk], d[start + off..start + off + chunk];
    forall i | 0 <= i < chunk
      ensures x[i] == y[i]
    {
      assert a[..n][off + i] == d[start..start + n][off + i];
    }
  }

  lemma PatchedPrefix(a: seq<nat>, a': seq<nat>, n: nat, off: nat, src: seq<nat>)
    requires off + |src| <= n <= |a| && a' == a[..off] + src + a[off + |src|..]
    ensures a'[..n] == a[..n][..off] + src + a[..n][off + |src|..]
  {}

  /** A block replaced by itself with part of it overwritten. */
  lemma Spliced(d: seq<nat>, start: nat, n: nat, off: nat, src: seq<nat>, block: seq<nat>)
    requires start + n <= |d| && off + |src| <= n
    requires block == d[start..start + n][..off] + src + d[start..start + n][off + |src|..]
    ensures d[..start] + block + d[start + n..] == d[..start + off] + src + d[start + off + |src|..]
  {}

  /** A block read into the buffer, changed there and written back. */
  lemma WrittenBack(d: seq<nat>, start: nat, n: nat, off: nat, src: seq<nat>, before: seq<nat>, after: seq<nat>)
    requires start + n <= |d| && off + |src| <= n <= |before| && before[..n] == d[start..start + n]
    requires after == before[..off] + src + before[off + |src|..]
    ensures |after| == |before|
            && d[..start] + after[..n] + d[start + n..] == d[..start + off] + src + d[start + off + |src|..]
  {
    PatchedPrefix(before, after, n, off, src);
    Spliced(d, start, n, off, src, after[..n]);
  }

  ghost predicate DistinctBlocks(i: Inode) {
    |i.blocks| >= DIRECT && forall j, k | 0 <= j < k < DIRECT && i.blocks[j] != 0 :: i.blocks[j] != i.blocks[k]
  }

  /** The direct blocks that n bytes from pos on fall into are there. */
  ghost predicate Allocated(fs: Fs, i: Inode, pos: nat, n: nat)
    requires fs.blockSize > 0
  {
    |i.blocks| >= DIRECT && forall x: nat | pos <= x < pos + n && Index(fs, x) < DIRECT :: i.blocks[Index(fs, x)] != 0
  }

  lemma AllocatedAt(fs: Fs, i: Inode, pos: nat, n: nat, k: nat)
    requires fs.blockSize > 0 && Allocated(fs, i, pos, n) && k < n && Index(fs, pos + k) < DIRECT
    ensures i.blocks[Index(fs, pos + k)] != 0
  {}

  /** Up to the end of the direct blocks. */
  function WriteLength(fs: Fs, pos: nat, n: nat): nat {
    var limit := FileStart(fs, DIRECT);
    if pos >= limit then 0 else if pos + n > limit then limit - pos else n
  }

  /** It is the longest that stays within the twelve direct blocks. */
  lemma WriteLengthIs(fs: Fs, pos: nat, n: nat, k: nat)
    ensures WriteLength(fs, pos, n) <= n
    ensures 0 < k <= n ==> (k <= WriteLength(fs, pos, n) <==> pos + k <= 12 * fs.blockSize)
  {}

  /** How far a write has got. */
  ghost predicate Filled(fs: Fs, pos: nat, written: nat, n: nat)
    requires fs.blockSize > 0
  {
    && written <= n && (written > 0 ==> pos + written <= FileStart(fs, DIRECT))
    && (0 < written < n ==> Offset(fs, pos + written) == 0)
  }

  lemma FilledNone(fs: Fs, pos: nat, n: nat)
    requires fs.blockSize > 0
    ensures Filled(fs, pos, 0, n)
  {}

  lemma FilledUp(fs: Fs, pos: nat, written: nat, n: nat)
    requires fs.blockSize > 0 && Index(fs, pos + written) >= DIRECT
    ensures pos + written >= FileStart(fs, DIRECT)
  {
    hide Index, Offset, FileStart;
    Split(fs, pos + written);
    StartMono(fs, DIRECT, Index(fs, pos + written));
  }

  lemma FilledMore(fs: Fs, pos: nat, written: nat, n: nat, chunk: nat)
    requires fs.blockSize > 0 && Filled(fs, pos, written, n) && written < n && Index(fs, pos + written) < DIRECT
    requires var rest := fs.blockSize - Offset(fs, pos + written);
             chunk == if rest > n - written then n - written else rest
    ensures chunk > 0 && Offset(fs, pos + written) + chunk <= fs.blockSize && Filled(fs, pos, written + chunk, n)
  {
    hide Index, Offset, FileStart;
    var x := pos + written;
    var q := Index(fs, x);
    Split(fs, x);
    StartNext(fs, q);
    StartMono(fs, q + 1, DIRECT);
    if Offset(fs, x) + chunk == fs.blockSize {
      SplitUnique(fs, q + 1, 0);
    }
  }

  lemma FilledDone(fs: Fs, pos: nat, written: nat, n: nat)
    requires fs.blockSize > 0 && Filled(fs, pos, written, n)
    requires written < n ==> pos + written >= FileStart(fs, DIRECT)
    ensures n > 0 && pos < FileStart(fs, DIRECT) ==> written == WriteLength(fs, pos, n)
    ensures written == WriteLength(fs, pos, n)
  {
    hide FileStart;
  }

  /** The bytes are in the file from pos on, and nothing else on the disk has changed. */
  ghost predicate Stored(d0: seq<nat>, d: seq<nat>, fs: Fs, i: Inode, pos: nat, data: seq<nat>)
    requires fs.blockSize > 0 && |i.blocks| >= DIRECT
  {
    && |d| == |d0| && Bytes(d, fs, i, pos, data)
    && forall x | 0 <= x < |d| && Untouched(fs, i, pos, |data|, x) :: d[x] == d0[x]
  }

  ghost predicate Untouched(fs: Fs, i: Inode, pos: nat, n: nat, x: nat)
    requires fs.blockSize > 0 && |i.blocks| >= DIRECT
  {
    forall j: nat | j < n && Direct(fs, pos, j) :: PlaceAfter(fs, i, pos, j) != x
  }

  lemma StoredNone(d: seq<nat>, fs: Fs, i: Inode, pos: nat)
    requires fs.blockSize > 0 && |i.blocks| >= DIRECT
    ensures Stored(d, d, fs, i, pos, [])
  {}

  lemma BlocksApart(fs: Fs, a: nat, b: nat)
    requires a < b
    ensures BlockStart(fs, a) + fs.blockSize <= BlockStart(fs, b)
  {
    StartMono(fs, a + 1, b);
    StartNext(fs, a);
  }

  /** Different bytes of a file lie at different places. */
  lemma PlacesDiffer(fs: Fs, i: Inode, pos: nat, j: nat, k: nat)
    requires fs.blockSize > 0 && DistinctBlocks(i) && j != k && Direct(fs, pos, j) && Direct(fs, pos, k)
    requires i.blocks[Index(fs, pos + j)] != 0 && i.blocks[Index(fs, pos + k)] != 0
    ensures PlaceAfter(fs, i, pos, j) != PlaceAfter(fs, i, pos, k)
  {
    hide Index, Offset, FileStart, BlockStart;
    var x, y := pos + j, pos + k;
    Split(fs, x);
    Split(fs, y);
    var a, b := i.blocks[Index(fs, x)], i.blocks[Index(fs, y)];
    if a < b {
      BlocksApart(fs, a, b);
    } else if b < a {
      BlocksApart(fs, b, a);
    } else {
      assert Index(fs, x) == Index(fs, y);
    }
  }

  lemma StoredMore(d0: seq<nat>, d: seq<nat>, d': seq<nat>, fs: Fs, i: Inode, pos: nat, data: seq<nat>, more: seq<nat>)
    requires fs.blockSize > 0 && |i.blocks| >= DIRECT && DistinctBlocks(i) && Stored(d0, d, fs, i, pos, data)
    requires Allocated(fs, i, pos, |data| + |more|)
    requires var x := pos + |data|;
             && Index(fs, x) < DIRECT && Offset(fs, x) + |more| <= fs.blockSize
             && BlockIn(d, fs, i.blocks[Index(fs, x)])
             && (var at := BlockStart(fs, i.blocks[Index(fs, x)]) + Offset(fs, x);
                d' == d[..at] + more + d[at + |more|..])
    ensures Stored(d0, d', fs, i, pos, data + more)
  {
    hide BlockStart, Index, Offset, Allocated, DistinctBlocks, PlaceAfter, Direct;
    var x := pos + |data|;
    var at := BlockStart(fs, i.blocks[Index(fs, x)]) + Offset(fs, x);
    var n := |data| + |more|;
    forall k: nat | |data| <= k < n
      ensures Direct(fs, pos, k) && PlaceAfter(fs, i, pos, k) == at + (k - |data|)
    {
      ChunkPlace(fs, i, pos, |data|, k);
    }
    OldPlaces(fs, i, pos, |data|, n, at);
    forall y | at <= y < at + |more|
      ensures !Untouched(fs, i, pos, n, y)
    {
      assert PlaceAfter(fs, i, pos, |data| + (y - at)) == y;
    }
    var all := data + more;
    forall j | 0 <= j < |all|
      ensures Direct(fs, pos, j) && PlaceAfter(fs, i, pos, j) < |d'| && all[j] == d'[PlaceAfter(fs, i, pos, j)]
    {
      if j >= |data| {
        assert all[j] == more[j - |data|];
      } else {
        assert all[j] == data[j];
      }
    }
    forall y | 0 <= y < |d'| && Untouched(fs, i, pos, |all|, y)
      ensures d'[y] == d0[y]
    {
      assert d'[y] == d[y];
      assert Untouched(fs, i, pos, |data|, y);
    }
  }

  /** The bytes written before lie outside what is written now. */
  lemma OldPlaces(fs: Fs, i: Inode, pos: nat, m: nat, n: nat, at: nat)
    requires fs.blockSize > 0 && |i.blocks| >= DIRECT && DistinctBlocks(i) && Allocated(fs, i, pos, n) && m <= n
    requires forall k: nat | m <= k < n :: Direct(fs, pos, k) && PlaceAfter(fs, i, pos, k) == at + (k - m)
    ensures forall j: nat | j < m && Direct(fs, pos, j) :: !(at <= PlaceAfter(fs, i, pos, j) < at + (n - m))
  {
    forall j: nat | j < m && Direct(fs, pos, j)
      ensures !(at <= PlaceAfter(fs, i, pos, j) < at + (n - m))
    {
      hide PlaceAfter, DistinctBlocks, Allocated, Index;
      var y := PlaceAfter(fs, i, pos, j);
      if at <= y < at + (n - m) {
        var k := m + (y - at);
        assert Direct(fs, pos, k) && PlaceAfter(fs, i, pos, k) == y;
        AllocatedAt(fs, i, pos, n, j);
        AllocatedAt(fs, i, pos, n, k);
        PlacesDiffer(fs, i, pos, j, k);
      }
    }
  }

  /** None of these bytes of the file lies in its inode or group descriptor. */
  ghost predicate OutsideMetadata(d: seq<nat>, fs: Fs, ino: nat, i: Inode, pos: nat, n: nat)
    requires InodeIn(d, fs, ino) && |i.blocks| >= DIRECT
  {
    && (forall x: nat | DescriptorStart(fs, ino) <= x < DescriptorStart(fs, ino) + 32 :: Untouched(fs, i, pos, n, x))
    && (forall x: nat | InodeStart(d, fs, ino) <= x < InodeStart(d, fs, ino) + 128 :: Untouched(fs, i, pos, n, x))
  }

  lemma BlocksThere(d: seq<nat>, fs: Fs, i: Inode)
    requires BlocksIn(d, fs, i)
    ensures |i.blocks| >= DIRECT
  {}

  /** The inode is as it was. */
  lemma InodeStays(d0: seq<nat>, d: seq<nat>, fs: Fs, ino: nat, i: Inode, pos: nat, data: seq<nat>, n: nat)
    requires InodeIn(d0, fs, ino) && i == InodeOf(d0, fs, ino) && BlocksIn(d0, fs, i) && |data| <= n
    requires OutsideMetadata(d0, fs, ino, i, pos, n) && Stored(d0, d, fs, i, pos, data)
    ensures InodeIn(d, fs, ino) && InodeOf(d, fs, ino) == i && BlocksIn(d, fs, i)
  {
    hide DescriptorStart, BlockStart, PlaceAfter, Direct, Little, BlockNumbers;
    var a, b := DescriptorStart(fs, ino), InodeStart(d0, fs, ino);
    forall x: nat | a <= x < a + 32 || b <= x < b + 128
      ensures d[x] == d0[x]
    {
      assert Untouched(fs, i, pos, n, x);
      assert Untouched(fs, i, pos, |data|, x);
    }
    assert d[a..a + 32] == d0[a..a + 32];
    LittleSlice(d, a, 32, 8, 4);
    LittleSlice(d0, a, 32, 8, 4);
    assert InodeStart(d, fs, ino) == b;
    assert d[b..b + 128] == d0[b..b + 128];
  }

  /** A read where all blocks are there is cut short by the size alone. */
  lemma NoHole(fs: Fs, i: Inode, pos: nat, n: nat, k: nat)
    requires fs.blockSize > 0 && Allocated(fs, i, pos, n) && k == WriteLength(fs, pos, n) && pos < i.size
    ensures ReadLength(fs, i, pos, k) == if pos + k > i.size then i.size - pos else k
  {
    if k > 0 {
      hide Index, Offset, FileStart, FirstStop;
      var q := Index(fs, pos);
      var stop := FirstStop(i, q);
      FirstStopIs(i, q, stop);
      Split(fs, pos);
      StopAfter(fs, i, pos, n, k, q, stop);
    }
  }

  lemma StopAfter(fs: Fs, i: Inode, pos: nat, n: nat, k: nat, q: nat, stop: nat)
    requires fs.blockSize > 0 && Allocated(fs, i, pos, n) && 0 < k <= n && pos + k <= FileStart(fs, DIRECT)
    requires q == Index(fs, pos) && q <= stop && (stop >= DIRECT || i.blocks[stop] == 0)
    ensures pos + k <= FileStart(fs, stop)
  {
    hide Index, Offset, FileStart, Allocated;
    Split(fs, pos);
    if stop >= DIRECT {
      StartMono(fs, DIRECT, stop);
    } else if FileStart(fs, stop) < pos + k {
      var x := if stop == q then pos else FileStart(fs, stop);
      StartNext(fs, q);
      if stop > q {
        StartMono(fs, q + 1, stop);
        SplitUnique(fs, stop, 0);
      }
      AllocatedAt(fs, i, pos, n, x - pos);
    }
  }

  lemma ReadsBack(d0: seq<nat>, d: seq<nat>, fs: Fs, i: Inode, pos: nat, n: nat, src: seq<nat>, data: seq<nat>)
    requires fs.blockSize > 0 && |i.blocks| >= DIRECT && Allocated(fs, i, pos, n) && Stored(d0, d, fs, i, pos, src)
    requires |src| == WriteLength(fs, pos, n) && |data| == ReadLength(fs, i, pos, |src|) && Bytes(d, fs, i, pos, data)
    ensures |data| == (if pos >= i.size then 0 else if pos + |src| > i.size then i.size - pos else |src|)
    ensures data == src[..|data|]
  {
    if pos >= i.size {
      NothingThere(fs, i, pos, |src|);
    } else {
      NoHole(fs, i, pos, n, |src|);
      hide PlaceAfter, Direct, ReadLength, WriteLength, Allocated;
      assert forall j | 0 <= j < |data| :: data[j] == src[j];
    }
  }

  lemma AllocatedLess(fs: Fs, i: Inode, pos: nat, n: nat, k: nat)
    requires fs.blockSize > 0 && Allocated(fs, i, pos, n) && k <= n
    ensures Allocated(fs, i, pos, k)
  {}

  // ---- Reading ----

  /** The byte j places after pos is in a direct block, and where it lies. */
  ghost predicate Direct(fs: Fs, pos: nat, j: nat)
    requires fs.blockSize > 0
  {
    Index(fs, pos + j) < DIRECT
  }

  ghost function PlaceAfter(fs: Fs, i: Inode, pos: nat, j: nat): nat
    requires fs.blockSize > 0 && |i.blocks| >= DIRECT
  {
    if Direct(fs, pos, j) then Place(fs, i, pos + j) else 0
  }

  /** These are the bytes of the file from pos on. */
  ghost predicate Bytes(d: seq<nat>, fs: Fs, i: Inode, pos: nat, data: seq<nat>)
    requires fs.blockSize > 0 && |i.blocks| >= DIRECT
  {
    forall j | 0 <= j < |data| ::
      Direct(fs, pos, j) && PlaceAfter(fs, i, pos, j) < |d| && data[j] == d[PlaceAfter(fs, i, pos, j)]
  }

  lemma BytesNone(d: seq<nat>, fs: Fs, i: Inode, pos: nat)
    requires fs.blockSize > 0 && |i.blocks| >= DIRECT
    ensures Bytes(d, fs, i, pos, [])
  {}

  /** How far a read has got: at the end of a block unless done, and not past the first missing one. */
  ghost predicate Reached(fs: Fs, i: Inode, pos: nat, read: nat, want: nat)
    requires fs.blockSize > 0 && |i.blocks| >= DIRECT
  {
    var stop := FirstStop(i, Index(fs, pos));
    && read <= want
    && FirstStop(i, Index(fs, pos + read)) == stop
    && (read > 0 ==> pos + read <= FileStart(fs, stop))
    && (0 < read < want ==> Offset(fs, pos + read) == 0)
  }

  lemma NotStarted(fs: Fs, i: Inode, pos: nat, want: nat)
    requires fs.blockSize > 0 && |i.blocks| >= DIRECT
    ensures Reached(fs, i, pos, 0, want)
  {}

  lemma NothingThere(fs: Fs, i: Inode, pos: nat, n: nat)
    requires fs.blockSize > 0 && |i.blocks| >= DIRECT && pos >= i.size
    ensures ReadLength(fs, i, pos, n) == 0
  {}

  /** The block at which a read stopped is the first missing one. */
  ghost predicate AtStop(fs: Fs, i: Inode, pos: nat, read: nat)
    requires fs.blockSize > 0 && |i.blocks| >= DIRECT
  {
    var stop := FileStart(fs, FirstStop(i, Index(fs, pos)));
    if read == 0 then stop <= pos else stop == pos + read
  }

  lemma StoppedShort(fs: Fs, i: Inode, pos: nat, read: nat, want: nat)
    requires fs.blockSize > 0 && |i.blocks| >= DIRECT && Reached(fs, i, pos, read, want) && read < want
    requires var k := Index(fs, pos + read); k >= DIRECT || i.blocks[k] == 0
    ensures AtStop(fs, i, pos, read)
  {
    hide Index, Offset, FileStart;
    Split(fs, pos + read);
  }

  /** Once the loop is left, what has been read is as long as it should be. */
  lemma LengthReached(fs: Fs, i: Inode, pos: nat, read: nat, want: nat, n: nat)
    requires fs.blockSize > 0 && |i.blocks| >= DIRECT && pos < i.size
    requires want == (if pos + n > i.size then i.size - pos else n) && Reached(fs, i, pos, read, want)
    requires read < want ==> AtStop(fs, i, pos, read)
    ensures read == ReadLength(fs, i, pos, n)
  {
    hide FirstStop, Index, Offset, FileStart;
  }

  /** The bytes of one chunk lie in one block. */
  lemma InChunk(fs: Fs, x: nat, k: nat)
    requires fs.blockSize > 0 && Offset(fs, x) + k < fs.blockSize
    ensures Index(fs, x + k) == Index(fs, x) && Offset(fs, x + k) == Offset(fs, x) + k
  {
    hide Index, Offset, FileStart;
    Split(fs, x);
    SplitUnique(fs, Index(fs, x), Offset(fs, x) + k);
  }

  lemma ChunkStep(fs: Fs, i: Inode, pos: nat, read: nat, want: nat, chunk: nat)
    requires fs.blockSize > 0 && |i.blocks| >= DIRECT && Reached(fs, i, pos, read, want) && read < want
    requires Index(fs, pos + read) < DIRECT && i.blocks[Index(fs, pos + read)] != 0
    requires var rest := fs.blockSize - Offset(fs, pos + read);
             chunk == if rest > want - read then want - read else rest
    ensures chunk > 0 && Offset(fs, pos + read) + chunk <= fs.blockSize
    ensures Reached(fs, i, pos, read + chunk, want) && read + chunk <= want
  {
    hide FirstStop, Index, Offset, FileStart;
    var x := pos + read;
    var q, off := Index(fs, x), Offset(fs, x);
    var stop := FirstStop(i, q);
    StopBeyond(i, q);
    Split(fs, x);
    StartNext(fs, q);
    StartMono(fs, q + 1, stop);
    if off + chunk == fs.blockSize {
      SplitUnique(fs, q + 1, 0);
    } else {
      InChunk(fs, x, chunk);
    }
  }

  lemma StopBeyond(i: Inode, q: nat)
    requires |i.blocks| >= DIRECT && q < DIRECT && i.blocks[q] != 0
    ensures FirstStop(i, q) >= q + 1 && FirstStop(i, q + 1) == FirstStop(i, q)
  {}

  lemma ChunkPlace(fs: Fs, i: Inode, pos: nat, n: nat, j: nat)
    requires fs.blockSize > 0 && |i.blocks| >= DIRECT && n <= j
    requires Index(fs, pos + n) < DIRECT && Offset(fs, pos + n) + (j - n) < fs.blockSize
    ensures Direct(fs, pos, j)
    ensures PlaceAfter(fs, i, pos, j) == BlockStart(fs, i.blocks[Index(fs, pos + n)]) + Offset(fs, pos + n) + (j - n)
  {
    hide Index, Offset, BlockStart;
    InChunk(fs, pos + n, j - n);
    assert pos + n + (j - n) == pos + j;
  }

  lemma BytesMore(d: seq<nat>, fs: Fs, i: Inode, pos: nat, data: seq<nat>, chunk: nat, more: seq<nat>)
    requires fs.blockSize > 0 && |i.blocks| >= DIRECT && Bytes(d, fs, i, pos, data)
    requires var x := pos + |data|;
             && Index(fs, x) < DIRECT && Offset(fs, x) + chunk <= fs.blockSize
             && BlockIn(d, fs, i.blocks[Index(fs, x)])
             && (var at := BlockStart(fs, i.blocks[Index(fs, x)]) + Offset(fs, x); more == d[at..at + chunk])
    ensures Bytes(d, fs, i, pos, data + more)
  {
    hide BlockStart, Index, Offset, Direct, PlaceAfter;
    var all := data + more;
    forall j | 0 <= j < |all|
      ensures Direct(fs, pos, j) && PlaceAfter(fs, i, pos, j) < |d| && all[j] == d[PlaceAfter(fs, i, pos, j)]
    {
      if j >= |data| {
        ChunkPlace(fs, i, pos, |data|, j);
        assert all[j] == more[j - |data|];
      } else {
        assert all[j] == data[j];
      }
    }
  }

  lemma SectorFits(lba: nat, off: nat, size: nat, length: nat)
    requires length % SECTOR == 0 && size > 0 && lba * SECTOR + off + size <= length
    ensures lba * SECTOR + SECTOR <= length
  {}

  lemma {:induction false} LittleSlice(d: seq<nat>, from: nat, len: nat, at: nat, n: nat)
    requires from + len <= |d| && at + n <= len
    ensures Little(d[from..from + len], at, n) == Little(d, from + at, n)
    decreases n
  {
    if n > 0 {
      LittleSlice(d, from, len, at + 1, n - 1);
    }
  }
}
