/** The second extended file system as kernel/fs/ext2.c sees it: a flat array of bytes on which files are described. */
module Ext2Spec {
  import opened Common

  const SECTOR: nat := 512
  const DIRECT: nat := 12

  datatype Fs = Fs(lbaStart: nat, blockSize: nat, inodesPerGroup: nat, firstDataBlock: nat)

  /** The part of an inode that matters here: size and block numbers. */
  datatype Inode = Inode(size: nat, blocks: seq<nat>)

  /** What `ext2_mount` accepts and the 4096-byte block buffer can hold. */
  ghost predicate FsOk(fs: Fs) {
    (fs.blockSize == 1024 || fs.blockSize == 2048 || fs.blockSize == 4096) && fs.inodesPerGroup > 0
  }

  function BlockStart(fs: Fs, b: nat): nat {
    fs.lbaStart * SECTOR + b * fs.blockSize
  }

  /** The first sector of a block. */
  function Lba(fs: Fs, b: nat): nat {
    fs.lbaStart + b * (fs.blockSize / SECTOR)
  }

  ghost predicate BlockIn(d: seq<nat>, fs: Fs, b: nat) {
    BlockStart(fs, b) + fs.blockSize <= |d|
  }

  /** The group of inode number `ino`, and its place in that group's table. */
  function Group(fs: Fs, ino: nat): nat
    requires fs.inodesPerGroup > 0 && ino > 0
  {
    (ino - 1) / fs.inodesPerGroup
  }

  function Slot(fs: Fs, ino: nat): nat
    requires fs.inodesPerGroup > 0 && ino > 0
  {
    (ino - 1) % fs.inodesPerGroup
  }

  /** Where the group descriptor of inode number `ino` starts. */
  function DescriptorStart(fs: Fs, ino: nat): nat
    requires fs.inodesPerGroup > 0 && ino > 0
  {
    BlockStart(fs, fs.firstDataBlock + 1) + Group(fs, ino) * 32
  }

  /** Where the inode itself starts, the descriptor's third word being the block of the group's inode table. */
  function InodeStart(d: seq<nat>, fs: Fs, ino: nat): nat
    requires fs.inodesPerGroup > 0 && ino > 0 && DescriptorStart(fs, ino) + 32 <= |d|
  {
    BlockStart(fs, Little(d, DescriptorStart(fs, ino) + 8, 4)) + Slot(fs, ino) * 128
  }

  function BlockNumbers(d: seq<nat>, at: nat, n: nat): (b: seq<nat>)
    requires at + 4 * n <= |d|
    ensures |b| == n
  {
    if n == 0 then [] else BlockNumbers(d, at, n - 1) + [Little(d, at + 4 * (n - 1), 4)]
  }

  function ParseInode(b: seq<nat>): (i: Inode)
    requires |b| == 128
    ensures |i.blocks| == 15
  {
    Inode(Little(b, 4, 4), BlockNumbers(b, 40, 15))
  }

  // ---- The layout ----

  /** Blocks follow each other without gap from the start of the volume, in sectors as in bytes. */
  lemma BlocksTile(fs: Fs, b: nat)
    requires FsOk(fs)
    ensures BlockStart(fs, 0) == fs.lbaStart * SECTOR && BlockStart(fs, b + 1) == BlockStart(fs, b) + fs.blockSize
    ensures Lba(fs, 0) == fs.lbaStart && Lba(fs, b + 1) * SECTOR == Lba(fs, b) * SECTOR + fs.blockSize
  {
    StartNext(fs, b);
    assert (b + 1) * (fs.blockSize / SECTOR) == b * (fs.blockSize / SECTOR) + fs.blockSize / SECTOR;
  }

  /** Inode numbers from 1 on and places in groups: each place has one number, and each number one place. */
  lemma Numbering(fs: Fs, ino: nat, g: nat, s: nat)
    requires fs.inodesPerGroup > 0 && ino > 0
    ensures Slot(fs, ino) < fs.inodesPerGroup
    ensures s < fs.inodesPerGroup ==>
              (Group(fs, ino) == g && Slot(fs, ino) == s <==> ino == g * fs.inodesPerGroup + s + 1)
  {
    if s < fs.inodesPerGroup {
      MulDiv(g, s, fs.inodesPerGroup);
    }
  }

  /**
   * The first inode of a group is at the start of the group's table, the next ones follow 128 bytes apart, and the
   * group's descriptor is the same for all of them, 32 bytes after that of the group before.
   */
  lemma InodeLayout(d: seq<nat>, fs: Fs, ino: nat)
    requires fs.inodesPerGroup > 0 && ino > 0 && DescriptorStart(fs, ino) + 32 <= |d|
    ensures (ino - 1) % fs.inodesPerGroup == 0 ==>
              InodeStart(d, fs, ino) == BlockStart(fs, Little(d, DescriptorStart(fs, ino) + 8, 4))
    ensures ino % fs.inodesPerGroup != 0 ==>
              && DescriptorStart(fs, ino + 1) == DescriptorStart(fs, ino)
              && InodeStart(d, fs, ino + 1) == InodeStart(d, fs, ino) + 128
    ensures DescriptorStart(fs, ino + fs.inodesPerGroup) == DescriptorStart(fs, ino) + 32
    ensures DescriptorStart(fs, 1) == BlockStart(fs, fs.firstDataBlock + 1)
  {
    hide Group, Slot, Little, BlockStart;
    var n, g, s := fs.inodesPerGroup, Group(fs, ino), Slot(fs, ino);
    Numbering(fs, ino, g, s);
    assert ino - 1 == g * n + s;
    MulDiv(g, s, n);
    Numbering(fs, 1, 0, 0);
    assert (g + 1) * n == g * n + n;
    Numbering(fs, ino + n, g + 1, s);
    if s + 1 < n {
      Numbering(fs, ino + 1, g, s + 1);
    } else {
      MulDiv(g + 1, 0, n);
    }
  }

  /** The fields of the records, in order: group descriptor and inode. */
  const DESCRIPTOR: seq<nat> := [4, 4, 4, 2, 2, 2, 14]
  const INODE: seq<nat> := [2, 2, 4, 4, 4, 4, 4, 2, 2, 4, 4, 4, 60, 28]

  /** Size and block numbers are the inode's third field and the words of its thirteenth. */
  lemma InodeFields(b: seq<nat>, k: nat)
    requires |b| == 128 && k < 15
    ensures |DESCRIPTOR| == 7 && OffsetOf(DESCRIPTOR, 2) == 8 && OffsetOf(DESCRIPTOR, 7) == 32
    ensures |INODE| == 14 && OffsetOf(INODE, 14) == 128 && OffsetOf(INODE, 12) + 60 == OffsetOf(INODE, 13)
    ensures ParseInode(b).size == Little(b, OffsetOf(INODE, 2), INODE[2])
    ensures ParseInode(b).blocks[k] == Little(b, OffsetOf(INODE, 12) + 4 * k, 4)
  {
    FieldOffsets();
    NumberAt(b, 40, 15, k);
  }

  lemma FieldOffsets()
    ensures OffsetOf(DESCRIPTOR, 2) == 8 && OffsetOf(DESCRIPTOR, 7) == 32
    ensures OffsetOf(INODE, 2) == 4 && OffsetOf(INODE, 12) == 40 && OffsetOf(INODE, 13) == 100
    ensures OffsetOf(INODE, 14) == 128
  {
    assert OffsetOf(DESCRIPTOR, 4) == 14;
    assert OffsetOf(DESCRIPTOR, 6) == 18;
    assert OffsetOf(INODE, 4) == 12;
    assert OffsetOf(INODE, 6) == 20;
    assert OffsetOf(INODE, 8) == 26;
    assert OffsetOf(INODE, 10) == 32;
  }

  lemma {:induction false} NumberAt(d: seq<nat>, at: nat, n: nat, k: nat)
    requires at + 4 * n <= |d| && k < n
    ensures BlockNumbers(d, at, n)[k] == Little(d, at + 4 * k, 4)
  {
    hide Little;
    if k < n - 1 {
      NumberAt(d, at, n - 1, k);
    }
  }

  /** The disk is large enough for the inode, in whole sectors. */
  ghost predicate InodeIn(d: seq<nat>, fs: Fs, ino: nat) {
    && FsOk(fs) && ino > 0 && |d| % SECTOR == 0
    && DescriptorStart(fs, ino) + 32 <= |d|
    && InodeStart(d, fs, ino) + 128 <= |d|
  }

  function InodeOf(d: seq<nat>, fs: Fs, ino: nat): Inode
    requires fs.inodesPerGroup > 0 && ino > 0 && DescriptorStart(fs, ino) + 32 <= |d|
    requires InodeStart(d, fs, ino) + 128 <= |d|
  {
    ParseInode(d[InodeStart(d, fs, ino)..InodeStart(d, fs, ino) + 128])
  }

  /** Every block the inode names is on the disk. */
  ghost predicate BlocksIn(d: seq<nat>, fs: Fs, i: Inode) {
    |i.blocks| >= DIRECT && forall k | 0 <= k < DIRECT && i.blocks[k] != 0 :: BlockIn(d, fs, i.blocks[k])
  }

  /** Byte x of a file is in its block `Index`, at `Offset`; block q starts at byte `FileStart`. */
  function Index(fs: Fs, x: nat): nat
    requires fs.blockSize > 0
  {
    x / fs.blockSize
  }

  function Offset(fs: Fs, x: nat): (r: nat)
    requires fs.blockSize > 0
    ensures r < fs.blockSize
  {
    x % fs.blockSize
  }

  function FileStart(fs: Fs, q: nat): nat {
    q * fs.blockSize
  }

  lemma Split(fs: Fs, x: nat)
    requires fs.blockSize > 0
    ensures FileStart(fs, Index(fs, x)) + Offset(fs, x) == x && Offset(fs, x) < fs.blockSize
  {}

  lemma SplitUnique(fs: Fs, q: nat, r: nat)
    requires r < fs.blockSize
    ensures Index(fs, FileStart(fs, q) + r) == q && Offset(fs, FileStart(fs, q) + r) == r
  {
    MulDiv(q, r, fs.blockSize);
  }

  lemma StartNext(fs: Fs, q: nat)
    ensures FileStart(fs, q + 1) == FileStart(fs, q) + fs.blockSize
  {}

  lemma StartMono(fs: Fs, a: nat, b: nat)
    requires a <= b
    ensures FileStart(fs, a) <= FileStart(fs, b)
  {
    assert (b - a) * fs.blockSize >= 0;
  }

  /** Where byte x of the file lies on the disk. */
  function Place(fs: Fs, i: Inode, x: nat): nat
    requires fs.blockSize > 0 && Index(fs, x) < |i.blocks|
  {
    BlockStart(fs, i.blocks[Index(fs, x)]) + Offset(fs, x)
  }

  /** The first block at or after k that is missing, or the first that is not direct. */
  function FirstStop(i: Inode, k: nat): (s: nat)
    requires |i.blocks| >= DIRECT
    ensures s >= k
    decreases DIRECT - k
  {
    if k >= DIRECT || i.blocks[k] == 0 then k else FirstStop(i, k + 1)
  }

  lemma {:induction false} FirstStopIs(i: Inode, k: nat, j: nat)
    requires |i.blocks| >= DIRECT && k <= j
    ensures j < FirstStop(i, k) ==> j < DIRECT && i.blocks[j] != 0 && FirstStop(i, j + 1) == FirstStop(i, k)
    ensures FirstStop(i, k) >= DIRECT || i.blocks[FirstStop(i, k)] == 0
    decreases DIRECT - k
  {
    if k < DIRECT && i.blocks[k] != 0 {
      if k < j {
        FirstStopIs(i, k + 1, j);
      } else {
        FirstStopIs(i, k + 1, k + 1);
      }
    }
  }

  /** How many bytes a read at pos gets: up to the end of the file, the first hole, and the last direct block. */
  function ReadLength(fs: Fs, i: Inode, pos: nat, n: nat): nat
    requires fs.blockSize > 0 && |i.blocks| >= DIRECT
  {
    if pos >= i.size then 0 else
    var wanted := if pos + n > i.size then i.size - pos else n;
    var stop := FileStart(fs, FirstStop(i, Index(fs, pos)));
    if stop <= pos then 0 else if pos + wanted > stop then stop - pos else wanted
  }

  /** Byte x lies before the end of the file, in a direct block that is there. */
  ghost predicate Readable(fs: Fs, i: Inode, x: nat)
    requires fs.blockSize > 0 && |i.blocks| >= DIRECT
  {
    x < i.size && x / fs.blockSize < 12 && i.blocks[x / fs.blockSize] != 0
  }

  /** A read gets bytes up to the first that is not readable, at most n. */
  lemma ReadLengthIs(fs: Fs, i: Inode, pos: nat, n: nat)
    requires fs.blockSize > 0 && |i.blocks| >= DIRECT
    ensures var k := ReadLength(fs, i, pos, n);
            && k <= n && (forall x: nat | pos <= x < pos + k :: Readable(fs, i, x))
            && (k < n ==> !Readable(fs, i, pos + k))
  {
    hide Index, Offset, FileStart, FirstStop;
    var q := Index(fs, pos);
    var stop := FirstStop(i, q);
    var k := ReadLength(fs, i, pos, n);
    Split(fs, pos);
    FirstStopIs(i, q, q);
    forall x: nat | pos <= x < pos + k
      ensures Readable(fs, i, x)
    {
      BlockBelow(fs, pos, x, stop);
      FirstStopIs(i, q, Index(fs, x));
      IndexIs(fs, x);
    }
    IndexIs(fs, pos + k);
    IndexIs(fs, pos);
    if k < n && pos + k < i.size {
      StopsThere(fs, pos, k, q, stop);
    }
  }

  lemma IndexIs(fs: Fs, x: nat)
    requires fs.blockSize > 0
    ensures Index(fs, x) == x / fs.blockSize
  {}

  lemma BlockBelow(fs: Fs, pos: nat, x: nat, stop: nat)
    requires fs.blockSize > 0 && pos <= x < FileStart(fs, stop)
    ensures Index(fs, pos) <= Index(fs, x) < stop
  {
    hide Index, Offset, FileStart;
    Split(fs, x);
    Split(fs, pos);
    if Index(fs, x) >= stop {
      StartMono(fs, stop, Index(fs, x));
    }
    if Index(fs, x) < Index(fs, pos) {
      StartMono(fs, Index(fs, x) + 1, Index(fs, pos));
      StartNext(fs, Index(fs, x));
    }
  }

  /** Cut short at the start of block `stop`, or at once in a block at or past it. */
  lemma StopsThere(fs: Fs, pos: nat, k: nat, q: nat, stop: nat)
    requires fs.blockSize > 0 && q == Index(fs, pos) && q <= stop
    requires if FileStart(fs, stop) <= pos then k == 0 else pos + k == FileStart(fs, stop)
    ensures Index(fs, pos + k) == stop
  {
    hide Index, Offset, FileStart;
    Split(fs, pos);
    if FileStart(fs, stop) <= pos {
      if q < stop {
        StartMono(fs, q + 1, stop);
        StartNext(fs, q);
      }
    } else {
      SplitUnique(fs, stop, 0);
    }
  }

  // ---- Arithmetic ----

  /** A record whose size divides the sector's, at a multiple of its size, lies within one sector. */
  lemma NoStraddle(base: nat, index: nat, size: nat)
    requires size == 32 || size == 128
    requires base % SECTOR == 0
    ensures var lba := base / SECTOR + index * size / SECTOR;
            var off := index * size % SECTOR;
            lba * SECTOR + off == base + index * size && off + size <= SECTOR
  {
    InSector(index, size, if size == 32 then 16 else 4);
  }

  /** When `per` records fill a sector. */
  lemma InSector(index: nat, size: nat, per: nat)
    requires per > 0 && size > 0 && per * size == SECTOR
    ensures index * size % SECTOR + size <= SECTOR
            && index * size == index * size / SECTOR * SECTOR + index * size % SECTOR
  {
    var q, r := index / per, index % per;
    assert index == q * per + r;
    assert index * size == q * (per * size) + r * size;
    Product(per - r, size);
    assert (per - r) * size == per * size - r * size;
    MulDiv(q, r * size, SECTOR);
  }

  /** Block starts are sector starts. */
  lemma BlockSectors(fs: Fs, b: nat)
    requires FsOk(fs)
    ensures BlockStart(fs, b) % SECTOR == 0
    ensures Lba(fs, b) * SECTOR == BlockStart(fs, b)
    ensures fs.blockSize == fs.blockSize / SECTOR * SECTOR
  {
    var spb := fs.blockSize / SECTOR;
    assert b * fs.blockSize == b * spb * SECTOR;
    assert BlockStart(fs, b) == (fs.lbaStart + b * spb) * SECTOR;
  }
}
