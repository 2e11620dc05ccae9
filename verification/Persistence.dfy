/** What `format` leaves on a device, what `sync` writes, and what `mount` reads back. */
module Persistence {
  import opened Bytes
  import opened Layout
  import opened Accounting
  import opened Contents
  import opened Invariant

  // ---------------------------------------------------------------- sync

  /** Block `i` of the stored bitmap: the cached bytes, zero-padded at the end. */
  function BitmapBlock(bitmap: seq<byte>, i: nat): (b: Block)
    ensures forall k :: 0 <= k < BLOCK_SIZE ==>
              b[k] == if BLOCK_SIZE * i + k < |bitmap| then bitmap[BLOCK_SIZE * i + k] else 0
  {
    seq<byte>(512, k requires 0 <= k < 512 =>
      if BLOCK_SIZE * i + k < |bitmap| then bitmap[BLOCK_SIZE * i + k] else 0)
  }

  /** The device holds the cached superblock and block bitmap; everything else is as before. */
  ghost predicate IsSynced(fs: Fs, disk: seq<Block>) {
    && |disk| == |fs.disk| > 0
    && disk[0] == EncodeSuperblock(fs.sb)
    && (forall i :: 0 <= i < BitmapBlocks(fs.sb.totalBlocks) && 1 + i < |disk| ==>
          disk[1 + i] == BitmapBlock(fs.blockBitmap, i))
    && (forall b :: 1 + BitmapBlocks(fs.sb.totalBlocks) <= b < |disk| ==> disk[b] == fs.disk[b])
  }

  // ---------------------------------------------------------------- mount

  /** The stored bitmap, trimmed to the bytes the device needs. */
  function LoadedBitmap(disk: seq<Block>, sb: Superblock): (r: seq<byte>)
    requires BitmapBlocks(sb.totalBlocks) > 0 ==> sb.bitmapStart + BitmapBlocks(sb.totalBlocks) <= |disk|
    ensures |r| == (sb.totalBlocks + 7) / 8
  {
    seq<byte>((sb.totalBlocks + 7) / 8, k requires 0 <= k < (sb.totalBlocks + 7) / 8 =>
      disk[sb.bitmapStart + k / BLOCK_SIZE][k % BLOCK_SIZE])
  }

  /** Inode `n` as stored, for any superblock whose table lies on the device. */
  function StoredInode(disk: seq<Block>, sb: Superblock, n: nat): Inode
    requires sb.inodeTableStart + n / INODES_PER_BLOCK < |disk|
  {
    InodesOf(disk[sb.inodeTableStart + n / INODES_PER_BLOCK])[n % INODES_PER_BLOCK]
  }

  predicate StoredLive(disk: seq<Block>, sb: Superblock, n: nat) {
    sb.inodeTableStart + n / INODES_PER_BLOCK < |disk| && StoredInode(disk, sb, n).kind != FREE
  }

  /** `bitmap` marks exactly the inodes below `upto` that the table stores as live. */
  ghost predicate Scanned(disk: seq<Block>, sb: Superblock, bitmap: seq<byte>, upto: nat) {
    && |bitmap| == (sb.inodeCount + 7) / 8
    && forall n :: 0 <= n < 8 * |bitmap| ==>
         (BitAt(bitmap, n) <==> n < sb.inodeCount && n < upto && StoredLive(disk, sb, n))
  }

  /** What mounting loads apart from the inode bitmap. */
  ghost predicate IsLoaded(disk: seq<Block>, fs: Fs) {
    && |disk| > 0 && fs.disk == disk
    && fs.sb == DecodeSuperblock(disk[0])
    && fs.sb.magic == MAGIC && fs.sb.blockSize == BLOCK_SIZE
    && (BitmapBlocks(fs.sb.totalBlocks) > 0 ==> fs.sb.bitmapStart + BitmapBlocks(fs.sb.totalBlocks) <= |disk|)
    && fs.blockBitmap == LoadedBitmap(disk, fs.sb)
  }

  /** What `mount` makes of a device. */
  ghost predicate IsMounted(disk: seq<Block>, fs: Fs) {
    IsLoaded(disk, fs) && Scanned(disk, fs.sb, fs.inodeBitmap, fs.sb.inodeCount)
  }

  lemma TableUnsynced(fs: Fs, disk: seq<Block>)
    requires Geometry(fs) && IsSynced(fs, disk)
    ensures Geometry(fs.(disk := disk)) && Table(fs.(disk := disk)) == Table(fs)
  {
    hide InodesOf, BitmapBlock, EncodeSuperblock;
    var fs' := fs.(disk := disk);
    forall m | 0 <= m < fs.sb.inodeCount ensures Table(fs')[m] == Table(fs)[m] {
      assert InodeAt(fs', m) == InodeAt(fs, m);
    }
  }

  lemma BitmapReloaded(fs: Fs, disk: seq<Block>)
    requires Geometry(fs) && IsSynced(fs, disk)
    ensures LoadedBitmap(disk, fs.sb) == fs.blockBitmap
  {
    hide EncodeSuperblock, BitmapBlock;
    var r := LoadedBitmap(disk, fs.sb);
    forall k | 0 <= k < |r| ensures r[k] == fs.blockBitmap[k] {
      var i := k / BLOCK_SIZE;
      assert i < BitmapBlocks(fs.sb.totalBlocks);
      assert disk[1 + i] == BitmapBlock(fs.blockBitmap, i);
      assert BLOCK_SIZE * i + k % BLOCK_SIZE == k;
    }
  }

  lemma ScanFinds(fs: Fs, t: seq<Inode>, bitmap: seq<byte>)
    requires Geometry(fs) && t == Table(fs) && InodesAgree(fs.sb, fs.inodeBitmap, t)
    requires Scanned(fs.disk, fs.sb, bitmap, fs.sb.inodeCount)
    ensures bitmap == fs.inodeBitmap
  {
    hide InodesOf, Bit;
    forall n | 0 <= n < 8 * |bitmap| ensures BitAt(bitmap, n) <==> BitAt(fs.inodeBitmap, n) {
      if n < fs.sb.inodeCount {
        assert StoredInode(fs.disk, fs.sb, n) == InodeAt(fs, n);
      }
    }
    BitmapFromBits(bitmap, fs.inodeBitmap);
  }

  /**
   * Persistence: mounting the device after a sync rebuilds the superblock, the block bitmap and the
   * inode bitmap exactly, for every device size, and the mounted file system means the same.
   */
  lemma MountAfterSync(fs: Fs, owner: Owner, disk: seq<Block>, fs': Fs)
    requires Geometry(fs) && Sound(fs, Table(fs), owner)
    requires IsSynced(fs, disk) && IsMounted(disk, fs')
    ensures fs' == fs.(disk := disk)
    ensures Geometry(fs') && Sound(fs', Table(fs'), owner)
    ensures NodesOf(Table(fs'), fs'.disk) == NodesOf(Table(fs), fs.disk)
  {
    hide Accounted, AllWellFormed, InodesAgree, EncodeSuperblock, DecodeSuperblock, LoadedBitmap, Scanned, NodesOf,
      BitmapBlock;
    SuperblockRoundTrip(fs.sb);
    TableUnsynced(fs, disk);
    BitmapReloaded(fs, disk);
    ScanFinds(fs.(disk := disk), Table(fs), fs'.inodeBitmap);
    SoundSameData(fs, fs', Table(fs), owner);
  }

  // ---------------------------------------------------------------- format

  function InodeCountFor(total: nat): nat { if total / 100 > 64 then total / 100 else 64 }

  function DataStartFor(total: nat): nat { 1 + BitmapBlocks(total) + TableBlocks(InodeCountFor(total)) }

  lemma FormatAreas(total: nat)
    ensures total <= 4096 * BitmapBlocks(total) && TableBlocks(InodeCountFor(total)) >= 1
    ensures total < 10 ==> DataStartFor(total) >= total
  {}

  function FormatSuperblock(total: u32): Superblock
    requires DataStartFor(total) < total
  {
    Superblock(MAGIC, BLOCK_SIZE, total, InodeCountFor(total), total - DataStartFor(total) - 1,
               InodeCountFor(total) - 1, 1, 1 + BitmapBlocks(total), DataStartFor(total))
  }

  /** The areas of a formatted device, in order: superblock, bitmap, inode table, data. */
  lemma FormatLayout(total: u32)
    requires DataStartFor(total) < total
    ensures var sb := FormatSuperblock(total);
            && sb.magic == 0x5346584E && sb.blockSize == 512 && sb.totalBlocks == total
            && sb.inodeCount == (if total >= 6500 then total / 100 else 64)
            && sb.freeInodes == sb.inodeCount - 1 && sb.freeBlocks == total - sb.dataStart - 1
            && sb.bitmapStart == 1
            && 4096 * (sb.inodeTableStart - 2) < total <= 4096 * (sb.inodeTableStart - 1)
            && 8 * (sb.dataStart - sb.inodeTableStart - 1) < sb.inodeCount <= 8 * (sb.dataStart - sb.inodeTableStart)
  {}

  /** Every inode slot of the table is empty except the root directory's. */
  ghost predicate RootTable(disk: seq<Block>, sb: Superblock) {
    && sb.inodeTableStart + TableBlocks(sb.inodeCount) <= |disk|
    && forall n :: 0 <= n < sb.inodeCount ==>
         StoredInode(disk, sb, n) == if n == ROOT_INODE then DirInode(sb.dataStart, 0) else EMPTY_INODE
  }

  /** What `format` leaves on the device. */
  ghost predicate IsFormatted(disk: seq<Block>, total: u32) {
    && DataStartFor(total) < total <= |disk|
    && var sb := FormatSuperblock(total);
    && disk[0] == EncodeSuperblock(sb)
    && (forall n :: 0 <= n < 4096 * BitmapBlocks(total) ==>
       (BitAt(disk[1 + n / 4096], n % 4096) <==> n != sb.dataStart))
    && RootTable(disk, sb)
    && disk[sb.dataStart] == NewDirBlock(ROOT_INODE, ROOT_INODE)
  }

  /** The areas of a formatted device follow one another and fit. */
  lemma FormatGeometry(disk: seq<Block>, total: u32, fs: Fs)
    requires IsFormatted(disk, total) && IsMounted(disk, fs)
    ensures fs.sb == FormatSuperblock(total) && Geometry(fs)
  {
    hide EncodeSuperblock, DecodeSuperblock, RootTable, BitmapBlocks, TableBlocks, NewDirBlock, StoredInode, BitAt;
    SuperblockRoundTrip(FormatSuperblock(total));
  }

  lemma FormattedTable(disk: seq<Block>, total: u32, fs: Fs)
    requires IsFormatted(disk, total) && fs.disk == disk
    requires fs.sb == FormatSuperblock(total) && Geometry(fs)
    ensures Table(fs) == seq(fs.sb.inodeCount, _ => EMPTY_INODE)[ROOT_INODE := DirInode(fs.sb.dataStart, 0)]
  {
    hide EncodeSuperblock, NewDirBlock, InodesOf, BitAt, BitmapBlocks;
    forall n | 0 <= n < fs.sb.inodeCount
      ensures Table(fs)[n] == if n == ROOT_INODE then DirInode(fs.sb.dataStart, 0) else EMPTY_INODE
    {
      assert StoredInode(disk, fs.sb, n) == InodeAt(fs, n);
    }
  }

  lemma FormattedBits(disk: seq<Block>, total: u32, fs: Fs)
    requires IsFormatted(disk, total) && IsMounted(disk, fs)
    ensures BitsAgree(fs.sb, fs.blockBitmap, map[DataStartFor(total) := Data(ROOT_INODE, 0)])
  {
    hide EncodeSuperblock, DecodeSuperblock, Scanned, RootTable, Bit;
    SuperblockRoundTrip(FormatSuperblock(total));
    var bm := fs.blockBitmap;
    forall n | 0 <= n < total ensures BitAt(bm, n) <==> n != fs.sb.dataStart {
      var k := n / 8;
      assert bm[k] == disk[1 + k / BLOCK_SIZE][k % BLOCK_SIZE];
      assert k / BLOCK_SIZE == n / 4096 && n % 4096 / 8 == k % BLOCK_SIZE && n % 4096 % 8 == n % 8;
      assert BitAt(disk[1 + n / 4096], n % 4096) <==> n != fs.sb.dataStart;
    }
  }

  /** A freshly formatted device mounts as a sound file system holding just the root directory. */
  lemma MountAfterFormat(disk: seq<Block>, total: u32, fs: Fs)
    requires IsFormatted(disk, total) && IsMounted(disk, fs)
    ensures fs.sb == FormatSuperblock(total) && Geometry(fs)
    ensures Table(fs) == RootOnly(fs.sb.inodeCount, fs.sb.dataStart)
    ensures Sound(fs, Table(fs), map[fs.sb.dataStart as nat := Data(ROOT_INODE, 0)])
    ensures NodesOf(Table(fs), fs.disk) == map[ROOT_INODE := FreshDir(ROOT_INODE, ROOT_INODE)]
  {
    hide EncodeSuperblock, DecodeSuperblock, RootTable, NewDirBlock, WellFormed, NodeOf, LoadedBitmap, BitsAgree,
      BlockPtr, Owned;
    FormatGeometry(disk, total, fs);
    FormattedTable(disk, total, fs);
    FormattedBits(disk, total, fs);
    var b, t := fs.sb.dataStart, Table(fs);
    RootOwned(seq(fs.sb.inodeCount, _ => EMPTY_INODE), disk, b, fs.sb.totalBlocks);
    RootLive(fs.sb.inodeCount, b);
    RootInodes(fs, t);
    NewDirNode(disk, b, 0, ROOT_INODE, ROOT_INODE);
    RootNodes(disk, fs.sb.inodeCount, b);
  }

  /** An inode table with nothing but the root directory, whose block is `b`. */
  function RootOnly(count: nat, b: u32): seq<Inode>
    requires ROOT_INODE < count
  {
    seq(count, _ => EMPTY_INODE)[ROOT_INODE := DirInode(b, 0)]
  }

  lemma RootLive(count: nat, b: u32)
    requires ROOT_INODE < count
    ensures LiveSet(RootOnly(count, b)) == {ROOT_INODE}
  {}

  lemma RootNodes(disk: seq<Block>, count: nat, b: u32)
    requires ROOT_INODE < count && WellFormed(disk, DirInode(b, 0))
    ensures AllWellFormed(disk, RootOnly(count, b))
    ensures NodesOf(RootOnly(count, b), disk) == map[ROOT_INODE := NodeOf(disk, DirInode(b, 0))]
  {
    hide WellFormed, NodeOf;
  }

  lemma RootOwned(empty: seq<Inode>, disk: seq<Block>, b: u32, hi: nat)
    requires ROOT_INODE < |empty| && forall n :: 0 <= n < |empty| ==> empty[n] == EMPTY_INODE
    requires 0 < b < hi <= |disk|
    ensures Owned(empty[ROOT_INODE := DirInode(b, 0)], disk, map[b as nat := Data(ROOT_INODE, 0)], b, hi)
  {
    var bare := NEW_DIR.(size := 2 * ENTRY_SIZE);
    SwapEmpty(empty, disk, map[], b, hi, ROOT_INODE, bare);
    LinkDirect(empty[ROOT_INODE := bare], disk, map[], b, hi, ROOT_INODE, 0, b);
    assert empty[ROOT_INODE := bare][ROOT_INODE := DirInode(b, 0)] == empty[ROOT_INODE := DirInode(b, 0)];
  }

  lemma RootInodes(fs: Fs, t: seq<Inode>)
    requires Geometry(fs) && t == Table(fs) && Scanned(fs.disk, fs.sb, fs.inodeBitmap, fs.sb.inodeCount)
    requires fs.sb.freeInodes == fs.sb.inodeCount - 1 && LiveSet(t) == {ROOT_INODE}
    ensures InodesAgree(fs.sb, fs.inodeBitmap, t)
  {
    hide InodesOf, Bit;
    assert t[0].kind == FREE by { assert 0 !in LiveSet(t); }
    forall n | 0 <= n < 8 * |fs.inodeBitmap| ensures BitAt(fs.inodeBitmap, n) <==> n < |t| && t[n].kind != FREE {
      if n < |t| { assert StoredInode(fs.disk, fs.sb, n) == InodeAt(fs, n); }
    }
  }

  // ---------------------------------------------------------------- facts the methods need

  /** Above this many inodes the block count of the table no longer fits in 32 bits. */
  const MAX_INODES: nat := 0x1_0000_0000 - INODES_PER_BLOCK

  /** The areas that `mount` reads lie on the device. */
  predicate OnDevice(disk: seq<Block>, sb: Superblock) {
    && (sb.totalBlocks > 0 ==> sb.bitmapStart + BitmapBlocks(sb.totalBlocks) <= |disk|)
    && TableOnDevice(disk, sb)
  }

  /** So is the inode table, unless its size wraps and none of it is looked at. */
  predicate TableOnDevice(disk: seq<Block>, sb: Superblock) {
    0 < sb.inodeCount <= MAX_INODES ==> sb.inodeTableStart + TableBlocks(sb.inodeCount) <= |disk|
  }

  lemma SyncedDevice(fs: Fs, disk: seq<Block>)
    requires Geometry(fs) && IsSynced(fs, disk)
    ensures DecodeSuperblock(disk[0]) == fs.sb && OnDevice(disk, fs.sb)
  {
    hide EncodeSuperblock, DecodeSuperblock, BitmapBlocks, TableBlocks, BitmapBlock;
    SuperblockRoundTrip(fs.sb);
  }

  lemma FormattedDevice(disk: seq<Block>, total: u32)
    requires IsFormatted(disk, total)
    ensures DecodeSuperblock(disk[0]) == FormatSuperblock(total)
    ensures OnDevice(disk, FormatSuperblock(total)) && FormatSuperblock(total).inodeCount <= MAX_INODES
  {
    hide EncodeSuperblock, DecodeSuperblock, BitmapBlocks, TableBlocks, NewDirBlock, StoredInode, BitAt;
    SuperblockRoundTrip(FormatSuperblock(total));
  }

  lemma {:induction false} ZeroBits(t: nat)
    ensures !Bit(0, t)
  {
    if t > 0 { ZeroBits(t - 1); }
  }

  lemma NoBits(bitmap: seq<byte>)
    requires forall i :: 0 <= i < |bitmap| ==> bitmap[i] == 0
    ensures forall n :: 0 <= n < 8 * |bitmap| ==> !BitAt(bitmap, n)
  {
    hide Bit;
    forall n | 0 <= n < 8 * |bitmap| ensures !BitAt(bitmap, n) {
      ZeroBits(n % 8);
    }
  }

  lemma ScanStep(disk: seq<Block>, sb: Superblock, bitmap: seq<byte>, i: nat, slot: nat, ino: Inode)
    requires slot < INODES_PER_BLOCK && INODES_PER_BLOCK * i + slot < sb.inodeCount && sb.inodeTableStart + i < |disk|
    requires Scanned(disk, sb, bitmap, INODES_PER_BLOCK * i + slot)
    requires ino == DecodeInode(disk[sb.inodeTableStart + i][64 * slot..64 * slot + 64])
    ensures var n := INODES_PER_BLOCK * i + slot;
            Scanned(disk, sb, if ino.kind != FREE then WithBit(bitmap, n) else bitmap, n + 1)
  {
    hide Bit, DecodeInode;
    var n := INODES_PER_BLOCK * i + slot;
    assert n / INODES_PER_BLOCK == i && n % INODES_PER_BLOCK == slot;
    assert StoredInode(disk, sb, n) == ino;
  }

  /** The blocks that `format` writes, read back as what a mount will look for. */
  lemma FormatDone(disk: seq<Block>, total: u32, block: Block)
    requires DataStartFor(total) < total <= |disk|
    requires var sb := FormatSuperblock(total);
             && disk[0] == EncodeSuperblock(sb)
             && (forall n :: 0 <= n < 4096 * BitmapBlocks(total) ==>
                (BitAt(disk[1 + n / 4096], n % 4096) <==> n != sb.dataStart))
             && disk[sb.dataStart] == NewDirBlock(ROOT_INODE, ROOT_INODE)
             && disk[sb.inodeTableStart] == Splice(block, 64 * ROOT_INODE, EncodeInode(DirInode(sb.dataStart, 0)))
             && forall b :: sb.inodeTableStart < b < sb.dataStart ==> disk[b] == block
    requires forall j :: 0 <= j < INODES_PER_BLOCK ==> InodesOf(block)[j] == EMPTY_INODE
    ensures IsFormatted(disk, total)
  {
    hide EncodeSuperblock, EncodeInode, InodesOf, BitAt, BitmapBlocks, NewDirBlock;
    var sb := FormatSuperblock(total);
    InodesSplice(block, ROOT_INODE, DirInode(sb.dataStart, 0));
    forall n | 0 <= n < sb.inodeCount
      ensures StoredInode(disk, sb, n) == if n == ROOT_INODE then DirInode(sb.dataStart, 0) else EMPTY_INODE
    {
      assert sb.inodeTableStart + n / INODES_PER_BLOCK < sb.dataStart;
    }
  }

  lemma FullBits(bitmap: seq<byte>)
    requires forall i :: 0 <= i < |bitmap| ==> bitmap[i] == 0xFF
    ensures forall n :: 0 <= n < 8 * |bitmap| ==> BitAt(bitmap, n)
  {
    assert Bit(0xFF, 0) && Bit(0xFF, 1) && Bit(0x7F, 1) && Bit(0x3F, 1) && Bit(0x1F, 1);
    assert Bit(0xF, 1) && Bit(7, 1) && Bit(3, 1);
    assert Bit(0x1F, 2) && Bit(0x1F, 3) && Bit(0x3F, 4) && Bit(0x7F, 5);
    forall n | 0 <= n < 8 * |bitmap| ensures BitAt(bitmap, n) {
      assert Bit(0xFF, n % 8);
    }
  }

  /** The bitmap blocks of a device show the bits of the bitmap they were cut from. */
  lemma CutBits(bitmap: seq<byte>, disk: seq<Block>, blocks: nat, n: nat)
    requires |bitmap| == blocks * BLOCK_SIZE && 1 + blocks <= |disk| && n < 4096 * blocks
    requires forall j :: 0 <= j < blocks ==> disk[1 + j] == bitmap[BLOCK_SIZE * j..BLOCK_SIZE * j + BLOCK_SIZE]
    ensures BitAt(disk[1 + n / 4096], n % 4096) <==> BitAt(bitmap, n)
  {
    hide Bit;
    var j, i := n / 4096, n % 4096 / 8;
    assert disk[1 + j][i] == bitmap[BLOCK_SIZE * j + i];
    assert n / 8 == BLOCK_SIZE * j + i && n % 4096 % 8 == n % 8;
  }

  lemma CutBitmap(bitmap: seq<byte>, disk: seq<Block>, blocks: nat, used: nat)
    requires |bitmap| == blocks * BLOCK_SIZE && 1 + blocks <= |disk|
    requires forall j :: 0 <= j < blocks ==> disk[1 + j] == bitmap[BLOCK_SIZE * j..BLOCK_SIZE * j + BLOCK_SIZE]
    requires forall n :: 0 <= n < 8 * |bitmap| ==> (BitAt(bitmap, n) <==> n != used)
    ensures forall n :: 0 <= n < 4096 * blocks ==> (BitAt(disk[1 + n / 4096], n % 4096) <==> n != used)
  {
    hide BitAt;
    forall n | 0 <= n < 4096 * blocks ensures BitAt(disk[1 + n / 4096], n % 4096) <==> n != used {
      CutBits(bitmap, disk, blocks, n);
    }
  }
}
