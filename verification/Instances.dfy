/** Where the code does not keep what one would expect of it: runs from a blank device that end there. */
module Instances {
  import opened Bytes
  import opened Layout
  import opened Accounting
  import opened Contents
  import opened Invariant
  import opened Persistence
  import opened NextFs
  import opened Namespace

  const LETTER: Name := [0x61]

  /** The device has room for a file system with at least twenty free blocks. */
  predicate Roomy(dev: seq<Block>) { DataStartFor(AsU32(|dev|)) + 21 <= AsU32(|dev|) }

  lemma HundredBlocksAreRoomy()
    ensures Roomy(seq(100, _ => Zeros(512)))
  {}

  /** A new file system with the one file "a", which is empty. */
  method FreshFile(dev: seq<Block>) returns (fs: NextFS, n: u32)
    requires Roomy(dev)
    ensures fresh(fs) && fs.Valid() && IsFile(fs.Abs(), n) && fs.Abs()[n as nat].bytes == []
    ensures LETTER in Dirents(fs.Abs(), ROOT_INODE) && IsDir(fs.Abs(), ROOT_INODE)
    ensures fs.sb.freeBlocks >= 20 && fs.sb.freeInodes >= 2
  {
    hide Sound, NodesOf, Table, Geometry;
    var m := NextFS.FormatThenMount(dev);
    fs := m.value;
    RootHasRoom(fs.View());
    StoredForInstance();
    var c := fs.CreateFile(ROOT_INODE, LETTER);
    n := c.value;
  }

  lemma RootHasRoom(fs: Fs)
    requires Geometry(fs) && Table(fs) == RootOnly(fs.sb.inodeCount, fs.sb.dataStart)
    ensures NeedIn(fs, ROOT_INODE) == 0 && forall free :: !NoRoomIn(fs, ROOT_INODE, free)
  {
    assert Table(fs)[ROOT_INODE] == DirInode(fs.sb.dataStart, 0);
  }

  lemma RoomToWrite(disk: seq<Block>, ino: Inode, free: nat, len: nat)
    requires len <= 11 * BLOCK_SIZE && free >= 20
    ensures Replaceable(disk, ino, free, len)
  {
    HolesAtMost(disk, ino, 0, MAX_BLOCKS);
  }

  lemma {:induction false} HolesAtMost(disk: seq<Block>, ino: Inode, lo: nat, hi: nat)
    requires lo <= hi
    ensures Holes(disk, ino, lo, hi) <= hi - lo
    decreases hi
  {
    if lo < hi { HolesAtMost(disk, ino, lo, hi - 1); }
  }

  /** The stored inode behind a file. */
  lemma FileStored(fs: Fs, t: seq<Inode>, n: nat, data: seq<byte>)
    requires n < |t| && t[n].kind == FILE && NodesOf(t, fs.disk)[n] == File(data)
    ensures t[n].size == |data|
    ensures forall p :: 0 <= p < |data| ==> ByteAt(fs.disk, t[n], p) == data[p]
  {
    hide ByteAt, Bind;
    var b := FileBytes(fs.disk, t[n]);
    assert b == data;
    forall p | 0 <= p < |data| ensures ByteAt(fs.disk, t[n], p) == data[p] { assert b[p] == data[p]; }
  }

  /** A new file system with one file of `len` bytes, none of them zero. */
  method FileOfOnes(dev: seq<Block>, len: nat) returns (fs: NextFS, n: u32)
    requires Roomy(dev) && len <= 11 * BLOCK_SIZE
    ensures fresh(fs) && fs.Valid() && 0 < n < fs.sb.inodeCount
    ensures fs.Ino(n).kind == FILE && fs.Ino(n).size == len
    ensures forall p :: 0 <= p < len ==> ByteAt(fs.disk, fs.Ino(n), p) == 1
  {
    hide Sound, Table, Geometry, ByteAt, Replaceable, NodesOf;
    fs, n := FreshFile(dev);
    var data := seq<byte>(len, _ => 1);
    NodeKinds(fs.View(), Table(fs.View()), fs.owner, n);
    RoomToWrite(fs.disk, fs.Ino(n), fs.sb.freeBlocks, len);
    FileStored(fs.View(), Table(fs.View()), n, []);
    CutToNothing(fs.View(), Table(fs.View()), fs.owner, n);
    var w := fs.WriteFile(n, data);
    NodeKinds(fs.View(), Table(fs.View()), fs.owner, n);
    FileStored(fs.View(), Table(fs.View()), n, data);
  }

  // ---------------------------------------------------------------- stranded pointers

  /** A sound file of eleven blocks that are not all holes is stranded by a cut to ten. */
  lemma StrandedByCut(fs: Fs, t: seq<Inode>, owner: Owner, n: nat)
    requires Sound(fs, t, owner) && n < |t| && t[n].kind == FILE && t[n].size == 11 * BLOCK_SIZE
    requires ByteAt(fs.disk, t[n], 10 * BLOCK_SIZE) != 0
    ensures Strands(fs.disk, t[n], 10 * BLOCK_SIZE)
  {
    hide Sound;
    assert BlockPtr(fs.disk, t[n], 10) != 0;
  }

  /** Eleven blocks written and the last of them cut off: no choice of owners accounts for the blocks any more. */
  method StrandPointers(dev: seq<Block>) returns (fs: NextFS)
    requires Roomy(dev)
    ensures Geometry(fs.View()) && !exists o :: Accounted(fs.View(), Table(fs.View()), o)
  {
    hide Sound, Table, Geometry, Accounted, ByteAt, Strands, NodesOf;
    var n;
    fs, n := FileOfOnes(dev, 11 * BLOCK_SIZE);
    StrandedByCut(fs.View(), Table(fs.View()), fs.owner, n);
    var t := fs.Truncate(n, 10 * BLOCK_SIZE);
  }

  /** A file of ten blocks stretched past the reach of the indirect block and cut back stops the kernel. */
  method PanicByCut(dev: seq<Block>) returns (fs: NextFS, r: Result<()>)
    requires Roomy(dev)
    ensures r == Err(Panic)
  {
    hide Sound, Table, Geometry, Accounted, ByteAt, Strands, NodesOf, ResizesFile;
    var n;
    fs, n := FileOfOnes(dev, 10 * BLOCK_SIZE);
    IndirectUsed(fs.disk, fs.Ino(n));
    GrowthStrandsNothing(fs.disk, fs.Ino(n), 138 * BLOCK_SIZE);
    var t := fs.Truncate(n, 138 * BLOCK_SIZE);
    assert t.Ok?;
    assert fs.Ino(n).size == 138 * BLOCK_SIZE && fs.Ino(n).indirect != 0;
    assert ShrinksIndirect(fs.Ino(n), 10 * BLOCK_SIZE);
    r := fs.Truncate(n, 10 * BLOCK_SIZE);
  }

  lemma IndirectUsed(disk: seq<Block>, ino: Inode)
    requires ByteAt(disk, ino, 9 * BLOCK_SIZE) != 0
    ensures ino.indirect != 0
  {}

  lemma GrowthStrandsNothing(disk: seq<Block>, ino: Inode, size: nat)
    requires ino.size <= size
    ensures !Strands(disk, ino, size)
  {}

  // ---------------------------------------------------------------- lost blocks

  lemma EmptyFileSpoilt(fs: Fs, t: seq<Inode>, owner: Owner, n: nat)
    requires Sound(fs, t, owner) && n < |t| && t[n].kind == FILE && t[n].size == 0 && fs.sb.freeBlocks > 0
    ensures Spoils(fs.disk, t[n], fs.sb.freeBlocks, 0, 138 * BLOCK_SIZE)
    ensures !Fits(fs.disk, t[n], fs.sb.freeBlocks, 0, 138 * BLOCK_SIZE)
  {
    hide Sound;
    SoundWorking(fs, owner, t, n);
    assert BlockPtr(fs.disk, t[n], 1) == 0;
    var offset, len := 0, 138 * BLOCK_SIZE;
    assert (offset + len - 1) / BLOCK_SIZE == 137;
    assert Takes(fs.disk, t[n], fs.sb.freeBlocks, offset / BLOCK_SIZE, 1);
  }

  /** More bytes than a file can have: the write fails, and the blocks it took are lost. */
  method LoseBlocks(dev: seq<Block>) returns (fs: NextFS, r: Result<nat>)
    requires Roomy(dev)
    ensures r == Err(NoSpace) && Geometry(fs.View()) && Unsound(fs.View(), Table(fs.View()))
  {
    hide Sound, Table, Geometry, ByteAt, NodesOf, Spoils, Fits, WritesPart, Unsound;
    var n;
    fs, n := FreshFile(dev);
    NodeKinds(fs.View(), Table(fs.View()), fs.owner, n);
    FileStored(fs.View(), Table(fs.View()), n, []);
    EmptyFileSpoilt(fs.View(), Table(fs.View()), fs.owner, n);
    r := fs.WriteAt(n, 0, seq<byte>(138 * BLOCK_SIZE, _ => 1));
  }

  // ---------------------------------------------------------------- failed and self-containing creations

  /** Creating a file under the name of another fails, and leaves a live inode under a cleared bit. */
  method CreateTwice(dev: seq<Block>) returns (fs: NextFS, r: Result<u32>)
    requires Roomy(dev)
    ensures r == Err(AlreadyExists) && !fs.Valid()
  {
    hide Sound, Table, Geometry, NodesOf;
    var n;
    fs, n := FreshFile(dev);
    r := fs.CreateFile(ROOT_INODE, LETTER);
  }

  /** A directory created in the inode number that it is about to get contains itself. */
  method CreateInItself(dev: seq<Block>) returns (fs: NextFS, r: Result<u32>)
    requires Roomy(dev)
    ensures r == Ok(2) && fs.Valid() && !Tree(fs.Abs())
  {
    hide Sound, Geometry, NodesOf, Tree;
    var m := NextFS.FormatThenMount(dev);
    fs := m.value;
    ghost var a := fs.Abs();
    StoredForInstance();
    r := fs.CreateDir(2, LETTER);
    LoopIsNoTree(a, 2, Stored(LETTER), 2, fs.Abs());
  }
}
