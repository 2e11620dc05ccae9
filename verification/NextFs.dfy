/** A mounted NextFS: block and inode allocation, inode I/O, and the operations built on them. */
module NextFs {
  import opened Bytes
  import opened Layout
  import opened Accounting
  import opened Contents
  import opened Invariant
  import opened Persistence

  datatype FsError =
    | InvalidInode | NoSpace | NotFound | NotDirectory | NotFile | AlreadyExists
    | NameTooLong | InvalidOperation | DirectoryNotEmpty | PermissionDenied
    | DeviceTooSmall | InvalidMagic
    | OutOfRange  // a block number past the end of the device
    | Panic  // an index past the end of a block buffer, which stops the kernel

  datatype Result<+T> = Ok(value: T) | Err(error: FsError)

  lemma ChunkBounds(pos: nat, chunk: nat, end: nat)
    requires 0 < chunk <= BLOCK_SIZE - pos % BLOCK_SIZE && pos + chunk <= end
    ensures var k := AsU32(pos / BLOCK_SIZE);
            && k <= (pos + chunk - 1) / BLOCK_SIZE <= (end - 1) / BLOCK_SIZE
            && (pos - 1) / BLOCK_SIZE <= (pos + chunk - 1) / BLOCK_SIZE
            && (pos < INDEX_LIMIT ==> BLOCK_SIZE * k + pos % BLOCK_SIZE == pos)
            && (k >= DIRECT_PTRS ==> pos >= DIRECT_PTRS * BLOCK_SIZE)
            && (k >= MAX_BLOCKS ==> pos >= MAX_BLOCKS * BLOCK_SIZE)
            && (k < MAX_BLOCKS && pos < INDEX_LIMIT ==> pos + chunk <= MAX_BLOCKS * BLOCK_SIZE)
  {}

  ghost predicate AllUsed(disk: seq<Block>, ino: Inode) {
    forall j :: 0 <= j < Slots(ino) ==> Used(EntryAt(disk, ino, j))
  }

  lemma SameRoom(disk: seq<Block>, disk': seq<Block>, t: seq<Inode>, n: nat)
    requires SameViews(disk, disk', t) && n < |t| && t[n].kind != FREE
    ensures AllUsed(disk', t[n]) <==> AllUsed(disk, t[n])
  {
    hide SameView, EntryAt;
    SameViewSameNode(disk, disk', t[n]);
  }

  /** The number `alloc_inode` hands out. */
  predicate FirstFree(t: seq<Inode>, n: nat) {
    0 < n < |t| && t[n].kind == FREE && forall m :: 1 <= m < n ==> t[m].kind != FREE
  }

  ghost predicate NoRoomIn(fs: Fs, dir: nat, free: nat)
    requires Geometry(fs)
  {
    dir < fs.sb.inodeCount && AllUsed(fs.disk, Table(fs)[dir]) && Crammed(Table(fs)[dir], free)
  }

  ghost function NeedIn(fs: Fs, dir: nat): nat
    requires Geometry(fs)
  {
    if dir < fs.sb.inodeCount && AllUsed(fs.disk, Table(fs)[dir]) then SlotNeed(Table(fs)[dir]) else 0
  }

  /** The room in a directory does not depend on an inode that has just been born. */
  lemma RoomKept(fs: Fs, fs': Fs, n: nat, ino: Inode, dir: nat, free: nat)
    requires Geometry(fs) && Geometry(fs') && n < fs.sb.inodeCount && Table(fs)[n].kind == FREE
    requires Table(fs') == Table(fs)[n := ino] && SameViews(fs.disk, fs'.disk, Table(fs))
    requires dir < fs.sb.inodeCount && Table(fs)[dir].kind == DIR
    ensures NoRoomIn(fs', dir, free) <==> NoRoomIn(fs, dir, free)
    ensures NeedIn(fs', dir) == NeedIn(fs, dir)
  {
    hide SameViews, AllUsed, Crammed, Table, Geometry;
    assert |Table(fs')| == |Table(fs)|;
    SameRoom(fs.disk, fs'.disk, Table(fs), dir);
  }

  /** A file can be created under the name in the directory: a free inode, a new name and room for its entry. */
  ghost predicate TakesFile(fs: Fs, dir: nat, name: Name)
    requires Geometry(fs)
  {
    var a := NodesOf(Table(fs), fs.disk);
    && fs.sb.freeInodes != 1 && |name| < MAX_NAME_LEN
    && IsDir(a, dir) && name !in Dirents(a, dir) && !NoRoomIn(fs, dir, fs.sb.freeBlocks)
  }

  /** The same for a directory, which needs a block too, and whose parent may be the inode it is about to get. */
  ghost predicate TakesDir(fs: Fs, parent: nat, name: Name)
    requires Geometry(fs)
  {
    var a := NodesOf(Table(fs), fs.disk);
    && fs.sb.freeInodes != 1 && fs.sb.freeBlocks != 0 && |name| < MAX_NAME_LEN && !Taken(a, parent, name)
    && if IsDir(a, parent) then !NoRoomIn(fs, parent, fs.sb.freeBlocks - 1) else FirstFree(Table(fs), parent)
  }

  lemma BornFileIn(t: seq<Inode>, t1: seq<Inode>, t2: seq<Inode>, n: nat, now: u32, dir: nat)
    requires n < |t| && t[n].kind == FREE && t1 == t[n := FileInode(now)] && OnlyAt(t1, t2, dir)
    ensures NewIn(t, t2, n, NEW_FILE) && OthersStay(t, t2, n, dir)
    ensures t2[n].kind == 1 && t2[n].mode == 0x1A4 && t2[n].uid == t2[n].gid == 0
    ensures n != dir ==> t2[n].mtime == now
  {
    BornIn(t, t1, t2, n, FileInode(now), dir);
  }

  lemma BornDirIn(t: seq<Inode>, t1: seq<Inode>, t2: seq<Inode>, n: nat, b: u32, now: u32, dir: nat)
    requires n < |t| && t[n].kind == FREE && t1 == t[n := DirInode(b, now)] && OnlyAt(t1, t2, dir)
    ensures NewIn(t, t2, n, NEW_DIR) && OthersStay(t, t2, n, dir)
    ensures t2[n].kind == 2 && t2[n].mode == 0x1ED && t2[n].uid == t2[n].gid == 0
    ensures n != dir ==> t2[n].mtime == now
  {
    BornIn(t, t1, t2, n, DirInode(b, now), dir);
  }

  /** A creation that was rolled back: the inode stays in the table, and no other is touched. */
  ghost predicate LeftLive(t: seq<Inode>, t': seq<Inode>, n: nat, ino: Inode) {
    n < |t| && t[n].kind == FREE && t' == t[n := ino]
  }

  lemma RoomMade(fs: Fs, n: nat, b: u32, now: u32)
    requires Geometry(fs) && n < fs.sb.inodeCount && Table(fs)[n] == DirInode(b, now)
    ensures forall free :: !NoRoomIn(fs, n, free)
  {}

  /** The last free block would go to a directory as its indirect block, with none left for the entry. */
  predicate LosesBlock(ino: Inode, free: nat) {
    0 < free && ino.size < MAX_BLOCKS * BLOCK_SIZE && SlotNeed(ino) == 2
  }

  ghost predicate LosesIn(fs: Fs, dir: nat, free: nat)
    requires Geometry(fs)
  {
    dir < fs.sb.inodeCount && LosesBlock(Table(fs)[dir], free)
  }

  lemma LosesIff(ino: Inode, free: nat)
    requires ino.size + ENTRY_SIZE <= INDEX_LIMIT && Crammed(ino, free)
    ensures var k := AsU32(ino.size / BLOCK_SIZE);
            LosesBlock(ino, free) <==> DIRECT_PTRS <= k < MAX_BLOCKS && ino.indirect == 0 && free > 0
  {}

  /** An append that fails has changed nothing, or has lost the last free block. */
  lemma AppendFails(fs0: Fs, o0: Owner, fs1: Fs, o1: Owner, t: seq<Inode>, n: nat, ino: Inode, ino': Inode, k: nat)
    requires Sound(fs0, t, o0) && n < |t| && t[n] == ino && ino.kind != FREE
    requires Rewrites(fs0, o0, fs1, o1, t, n, ino, ino') && FailsAt(fs0, ino, fs1, ino', k)
    ensures if DIRECT_PTRS <= k < MAX_BLOCKS && ino.indirect == 0 && fs0.sb.freeBlocks > 0 then Unsound(fs1, t)
            else fs1 == fs0 && Sound(fs1, t, o1)
  {
    hide BitsAgree, Owned, BlockPtr, WellFormed, Local, Unsound, Unaccountable;
    RewritesWorking(fs0, o0, fs1, o1, t, n, ino, ino');
    if DIRECT_PTRS <= k < MAX_BLOCKS && ino.indirect == 0 && fs0.sb.freeBlocks > 0 {
      UnstoredGain(fs1, o1, t, n, ino, ino');
      UnaccountableUnsound(fs1, t);
    } else {
      assert t[n := ino] == t;
    }
  }

  /** A directory just made has room, and no other number is a first free one. */
  lemma BornRoom(t: seq<Inode>, parent: nat, n: nat, b: u32, now: u32, free: nat)
    requires FirstFree(t, n)
    ensures !Crammed(DirInode(b, now), free) && (FirstFree(t, parent) <==> parent == n)
  {}

  /** Free blocks that two more slots of a directory take. */
  function SlotNeed(ino: Inode): nat {
    if ino.size % BLOCK_SIZE != 0 then 0 else if ino.size >= DIRECT_PTRS * BLOCK_SIZE && ino.indirect == 0 then 2 else 1
  }

  /** A full directory cannot grow: it reaches as far as pointers go, or needs more blocks than are free. */
  predicate Crammed(ino: Inode, free: nat) {
    ino.size >= MAX_BLOCKS * BLOCK_SIZE || free < SlotNeed(ino)
  }

  lemma CrammedIff(fs: Fs, t: seq<Inode>, owner: Owner, n: nat, ino: Inode)
    requires Sound(fs, t, owner) && n < |t| && t[n] == ino && ino.kind == DIR
    ensures ino.size + ENTRY_SIZE <= INDEX_LIMIT
    ensures Fits(fs.disk, ino, fs.sb.freeBlocks, ino.size, ENTRY_SIZE) <==> !Crammed(ino, fs.sb.freeBlocks)
    ensures ino.size < MAX_BLOCKS * BLOCK_SIZE ==> WriteNeed(fs.disk, ino, ino.size, ENTRY_SIZE) == SlotNeed(ino)
  {
    hide Accounted, BlockPtr, EntryAt, Distinct, InodesAgree;
    EachWellFormed(fs.disk, t, n);
    PairedSizes(ino.size);
    var k := ino.size / BLOCK_SIZE;
    assert (ino.size + ENTRY_SIZE - 1) / BLOCK_SIZE == k;
    OneNeed(fs.disk, ino, k);
    if k < MAX_BLOCKS {
      assert BlockPtr(fs.disk, ino, k) != 0 <==> ino.size % BLOCK_SIZE != 0;
    }
  }

  lemma OneNeed(disk: seq<Block>, ino: Inode, k: nat)
    ensures RangeNeed(disk, ino, k, k + 1) == BlockNeed(disk, ino, k)
  {
    assert Holes(disk, ino, k, k) == 0;
    assert Holes(disk, ino, k, k + 1) == Holes(disk, ino, k, k) + if BlockPtr(disk, ino, k) == 0 then 1 else 0;
    if BlockPtr(disk, ino, k) != 0 && k >= DIRECT_PTRS { assert ino.indirect != 0; }
  }

  /** A block could not be had: nothing happened, except that the indirect block may have taken the last free one. */
  ghost predicate FailsAt(fs: Fs, ino: Inode, fs': Fs, ino': Inode, k: nat) {
    && ino' == ino.(indirect := ino'.indirect)
    && (forall i :: 0 <= i < MAX_BLOCKS ==> BlockPtr(fs'.disk, ino', i) == BlockPtr(fs.disk, ino, i))
    && (if DIRECT_PTRS <= k < MAX_BLOCKS && ino.indirect == 0 && fs.sb.freeBlocks > 0
        then ino'.indirect != 0 else ino' == ino && fs' == fs)
  }

  lemma NextBlock(pos: nat, chunk: nat, end: nat)
    requires pos < end && chunk == Min(end - pos, BLOCK_SIZE - pos % BLOCK_SIZE)
    ensures if pos + chunk < end then (pos + chunk) / BLOCK_SIZE == pos / BLOCK_SIZE + 1
        else (end - 1) / BLOCK_SIZE == pos / BLOCK_SIZE
  {}

  /** Free blocks that writing `len` bytes at `offset` takes. */
  function WriteNeed(disk: seq<Block>, ino: Inode, offset: nat, len: nat): nat {
    if len == 0 then 0 else RangeNeed(disk, ino, offset / BLOCK_SIZE, (offset + len - 1) / BLOCK_SIZE + 1)
  }

  /** There is room for a write: the bytes lie within reach of the indirect block, and enough blocks are free. */
  predicate Fits(disk: seq<Block>, ino: Inode, free: nat, offset: nat, len: nat) {
    len == 0 || (offset + len <= MAX_BLOCKS * BLOCK_SIZE && WriteNeed(disk, ino, offset, len) <= free)
  }

  // ---------------------------------------------------------------- the write loop

  /** How far into the logical blocks a write has come. */
  function Reached(base: nat, len: nat, written: nat): nat {
    if written < len || len == 0 then (base + written) / BLOCK_SIZE else (base + len - 1) / BLOCK_SIZE + 1
  }

  /** The state of a write of `data` at `base` after its first `written` bytes. */
  ghost predicate InWrite(fs0: Fs, o0: Owner, fs: Fs, o: Owner, t: seq<Inode>, n: nat, ino: Inode, ino': Inode,
                          base: nat, data: seq<byte>, written: nat)
  {
    && written <= |data| && base < INDEX_LIMIT
    && Rewrites(fs0, o0, fs, o, t, n, ino, ino') && ino'.size == ino.size && ino'.mtime == ino.mtime
    && Grown(fs0.disk, ino, fs.disk, ino', (base + written - 1) / BLOCK_SIZE)
    && (ino'.indirect != 0 ==> ino.indirect != 0 || base + written > DIRECT_PTRS * BLOCK_SIZE)
    && Overlaid(fs0.disk, ino, fs.disk, ino', base, data[..written])
    && (written > 0 ==> base + written <= MAX_BLOCKS * BLOCK_SIZE)
    && Paid(fs0.disk, ino, fs.disk, ino', base / BLOCK_SIZE, Reached(base, |data|, written),
         fs0.sb.freeBlocks, fs.sb.freeBlocks)
  }

  lemma WriteStarts(fs: Fs, owner: Owner, t: seq<Inode>, n: nat, ino: Inode, base: nat, data: seq<byte>)
    requires Working(fs, owner, t, n, ino) && base < INDEX_LIMIT
    ensures InWrite(fs, owner, fs, owner, t, n, ino, ino, base, data, 0)
  {
    hide Rewrites, Working, Overlaid, Grown, Paid;
    RewritesRefl(fs, owner, t, n, ino);
    GrownRefl(fs.disk, ino, (base - 1) / BLOCK_SIZE);
    OverlaidNothing(fs.disk, ino, base);
    PaidNothing(fs.disk, ino, base / BLOCK_SIZE, fs.sb.freeBlocks);
    assert data[..0] == [];
  }

  lemma NothingWritten(fs: Fs, owner: Owner, t: seq<Inode>, n: nat, ino: Inode, last: int)
    requires Working(fs, owner, t, n, ino)
    ensures Rewrites(fs, owner, fs, owner, t, n, ino, ino) && Grown(fs.disk, ino, fs.disk, ino, last)
  {
    hide Working, Rewrites, Grown;
    RewritesRefl(fs, owner, t, n, ino);
    GrownRefl(fs.disk, ino, last);
  }

  lemma WriteGoesOn(fs0: Fs, o0: Owner, fs: Fs, o: Owner, t: seq<Inode>, n: nat, ino: Inode, ino': Inode, base: nat,
                    data: seq<byte>, written: nat)
    requires InWrite(fs0, o0, fs, o, t, n, ino, ino', base, data, written)
    ensures n < |t| && Working(fs, o, t[n := ino'], n, ino') && ino'.mtime == ino.mtime
  {
    hide Working, Overlaid, Grown, Paid;
    RewritesWorking(fs0, o0, fs, o, t, n, ino, ino');
  }

  lemma WriteAdvances(fs0: Fs, o0: Owner, fs1: Fs, o1: Owner, fs2: Fs, o2: Owner, t: seq<Inode>, n: nat, ino: Inode,
                      i1: Inode, i2: Inode, base: nat, data: seq<byte>, written: nat, chunk: nat)
    requires InWrite(fs0, o0, fs1, o1, t, n, ino, i1, base, data, written) && written < |data|
    requires chunk == Min(|data| - written, BLOCK_SIZE - (base + written) % BLOCK_SIZE)
    requires Rewrites(fs1, o1, fs2, o2, t[n := i1], n, i1, i2) && i2.size == i1.size && i2.mtime == i1.mtime
    requires var k := AsU32((base + written) / BLOCK_SIZE);
             && GrownAt(fs1.disk, i1, fs2.disk, i2, k) && (i2.indirect != i1.indirect ==> k >= DIRECT_PTRS)
             && k < MAX_BLOCKS && BlockPtr(fs2.disk, i2, k) != 0
             && Overlaid(fs1.disk, i1, fs2.disk, i2, BLOCK_SIZE * k + (base + written) % BLOCK_SIZE,
                data[written..written + chunk])
             && fs2.sb.freeBlocks + BlockNeed(fs1.disk, i1, k) == fs1.sb.freeBlocks
    ensures InWrite(fs0, o0, fs2, o2, t, n, ino, i2, base, data, written + chunk)
  {
    hide Rewrites, Working, Overlaid, Grown, GrownAt, Paid, BlockNeed, BlockPtr;
    var pos, k, end := base + written, AsU32((base + written) / BLOCK_SIZE), base + |data|;
    ChunkBounds(pos, chunk, end);
    GrownAtGrown(fs1.disk, i1, fs2.disk, i2, k);
    RewritesTrans(fs0, o0, fs1, o1, fs2, o2, t, n, ino, i1, i2);
    GrownWiden(fs0.disk, ino, fs1.disk, i1, fs2.disk, i2, (pos - 1) / BLOCK_SIZE, k, (pos + chunk - 1) / BLOCK_SIZE);
    NextBlock(pos, chunk, end);
    PaidStep(fs0.disk, ino, fs1.disk, i1, fs2.disk, i2, base / BLOCK_SIZE, k, fs0.sb.freeBlocks,
      fs1.sb.freeBlocks, fs2.sb.freeBlocks);
    OverlaidTrans(fs0.disk, ino, fs1.disk, i1, fs2.disk, i2, base, data[..written], data[written..written + chunk]);
    assert data[..written] + data[written..written + chunk] == data[..written + chunk];
  }

  /** A write that comes to logical block `j` takes a block for it that the stored inode cannot do with. */
  predicate Takes(disk: seq<Block>, ino: Inode, free: nat, from: nat, j: nat) {
    && BlockPtr(disk, ino, j) == 0
    && (j < DIRECT_PTRS || ino.indirect == 0 || (j > LastBlock(ino.size) && Holes(disk, ino, from, j) < free))
  }

  /**
   * A write that will break off takes a block that the stored inode does not know, or, through the indirect block,
   * one past the end of the file.
   */
  predicate Spoils(disk: seq<Block>, ino: Inode, free: nat, base: nat, len: nat) {
    var from := base / BLOCK_SIZE;
    && free > 0
    && exists j :: from <= j <= (base + len - 1) / BLOCK_SIZE && j < MAX_BLOCKS && Takes(disk, ino, free, from, j)
  }

  /** What a write leaves that breaks off after `written` bytes, while the stored inode is still the old one. */
  ghost predicate BrokeOff(disk: seq<Block>, ino: Inode, free: nat, disk': seq<Block>, ino': Inode, base: nat,
                           data: seq<byte>, written: nat) {
    && written < |data|
    && (ino.indirect != 0 ==> ino'.indirect == ino.indirect)
    && (Shaped(disk, ino) ==> (ino' == ino && Shaped(disk', ino) <==> !Spoils(disk, ino, free, base, |data|)))
    && (ino' == ino ==> Overlaid(disk, ino, disk', ino, base, data[..written]))
  }

  lemma FailsAtGrown(fs: Fs, ino: Inode, fs': Fs, ino': Inode, k: nat)
    requires FailsAt(fs, ino, fs', ino', k)
    ensures Grown(fs.disk, ino, fs'.disk, ino', k) && (ino.indirect != 0 ==> ino'.indirect == ino.indirect)
  {
    hide BlockPtr;
  }

  lemma FailedAlone(fs: Fs, ino: Inode, fs': Fs, ino': Inode, k: nat)
    requires FailsAt(fs, ino, fs', ino', k) && (ino.indirect != 0 || ino'.indirect == 0)
    ensures fs' == fs && ino' == ino
  {}

  lemma IndexStays(disk: seq<Block>, ino: Inode, disk': seq<Block>, ino': Inode, from: nat, k: nat, free0: nat,
                   free: nat)
    requires Paid(disk, ino, disk', ino', from, k, free0, free)
    ensures ino.indirect != 0 ==> ino'.indirect == ino.indirect
  {}

  lemma SameFileStill(fs: Fs, o: Owner, fs': Fs, o': Owner, t: seq<Inode>, n: nat, ino: Inode, ino': Inode)
    requires Rewrites(fs, o, fs', o', t, n, ino, ino')
    ensures SameFile(ino', ino)
  {}

  lemma SpoilsIff(fs0: Fs, i0: Inode, fs1: Fs, i1: Inode, fs2: Fs, i2: Inode, base: nat, len: nat, k: nat)
    requires var from := base / BLOCK_SIZE;
             Paid(fs0.disk, i0, fs1.disk, i1, from, k, fs0.sb.freeBlocks, fs1.sb.freeBlocks)
    requires len > 0 && k <= (base + len - 1) / BLOCK_SIZE
    requires FailsAt(fs1, i1, fs2, i2, k) && (k >= MAX_BLOCKS || fs1.sb.freeBlocks < BlockNeed(fs1.disk, i1, k))
    requires Shaped(fs0.disk, i0) && SameFile(i1, i0) && i1.size == i0.size && i1.mtime == i0.mtime
    ensures i2 == i0 && Shaped(fs2.disk, i0) <==> !Spoils(fs0.disk, i0, fs0.sb.freeBlocks, base, len)
  {
    hide Shaped, Paid, FailsAt, BlockNeed, BlockPtr, Takes;
    var from, free := base / BLOCK_SIZE, fs0.sb.freeBlocks;
    if Spoils(fs0.disk, i0, free, base, len) {
      var j :| from <= j <= (base + len - 1) / BLOCK_SIZE && j < MAX_BLOCKS && Takes(fs0.disk, i0, free, from, j);
      Spoilt(fs0, i0, fs1, i1, fs2, i2, from, k, j);
    } else {
      Unspoilt(fs0, i0, fs1, i1, fs2, i2, from, k);
    }
  }

  lemma Spoilt(fs0: Fs, i0: Inode, fs1: Fs, i1: Inode, fs2: Fs, i2: Inode, from: nat, k: nat, j: nat)
    requires Paid(fs0.disk, i0, fs1.disk, i1, from, k, fs0.sb.freeBlocks, fs1.sb.freeBlocks)
    requires FailsAt(fs1, i1, fs2, i2, k) && (k >= MAX_BLOCKS || fs1.sb.freeBlocks < BlockNeed(fs1.disk, i1, k))
    requires fs0.sb.freeBlocks > 0 && from <= j < MAX_BLOCKS && Takes(fs0.disk, i0, fs0.sb.freeBlocks, from, j)
    ensures !(i2 == i0 && Shaped(fs2.disk, i0))
  {
    if k > j {
      assert BlockPtr(fs2.disk, i2, j) != 0;
    } else if j >= DIRECT_PTRS && i0.indirect != 0 {
      if k < j { HolesGrow(fs0.disk, i0, from, k, j); }
    } else if Holes(fs0.disk, i0, from, k) > 0 {
      var h := HoleBelow(fs0.disk, i0, from, k);
      assert BlockPtr(fs2.disk, i2, h) == BlockPtr(fs1.disk, i1, h);
    }
  }

  /** The holes that an unspoiling write has filled are within the file and behind its own indirect block. */
  lemma HarmlessHole(disk: seq<Block>, ino: Inode, free: nat, from: nat, k: nat, j: nat)
    requires from <= j < k && j < MAX_BLOCKS && BlockPtr(disk, ino, j) == 0 && RangeNeed(disk, ino, from, k) <= free
    requires free > 0 ==> !Takes(disk, ino, free, from, j)
    ensures DIRECT_PTRS <= j <= LastBlock(ino.size) && ino.indirect != 0
  {
    hide BlockPtr;
    HolesGrow(disk, ino, from, j, k);
  }

  lemma Unspoilt(fs0: Fs, i0: Inode, fs1: Fs, i1: Inode, fs2: Fs, i2: Inode, from: nat, k: nat)
    requires Paid(fs0.disk, i0, fs1.disk, i1, from, k, fs0.sb.freeBlocks, fs1.sb.freeBlocks)
    requires FailsAt(fs1, i1, fs2, i2, k) && (k >= MAX_BLOCKS || fs1.sb.freeBlocks < BlockNeed(fs1.disk, i1, k))
    requires fs0.sb.freeBlocks > 0 ==>
      forall j :: from <= j <= k && j < MAX_BLOCKS ==> !Takes(fs0.disk, i0, fs0.sb.freeBlocks, from, j)
    requires Shaped(fs0.disk, i0) && SameFile(i1, i0) && i1.size == i0.size && i1.mtime == i0.mtime
    ensures i2 == i0 && Shaped(fs2.disk, i0)
  {
    hide Takes, RangeNeed, BlockPtr, UnpackU32;
    var d0, free := fs0.disk, fs0.sb.freeBlocks;
    forall j | from <= j < k && j < MAX_BLOCKS && BlockPtr(d0, i0, j) == 0
      ensures DIRECT_PTRS <= j <= LastBlock(i0.size) && i0.indirect != 0
    {
      HarmlessHole(d0, i0, free, from, k, j);
    }
    SameDirect(d0, i0, fs1.disk, i1);
    if i0.indirect == 0 {
      PastIndex(d0, i0, free, from, if from > DIRECT_PTRS then from else DIRECT_PTRS);
      PastIndex(d0, i0, free, from, if k > DIRECT_PTRS then k else DIRECT_PTRS);
    }
    assert i2 == i0;
  }

  lemma PastIndex(disk: seq<Block>, ino: Inode, free: nat, from: nat, j: nat)
    requires ino.indirect == 0 && j >= DIRECT_PTRS
    ensures BlockPtr(disk, ino, j) == 0 && Takes(disk, ino, free, from, j)
  {}

  lemma SameDirect(disk: seq<Block>, ino: Inode, disk': seq<Block>, ino': Inode)
    requires forall j :: 0 <= j < DIRECT_PTRS ==> BlockPtr(disk', ino', j) == BlockPtr(disk, ino, j)
    ensures ino'.direct == ino.direct
  {
    forall j | 0 <= j < DIRECT_PTRS ensures ino'.direct[j] == ino.direct[j] {
      assert BlockPtr(disk', ino', j) == BlockPtr(disk, ino, j);
    }
  }

  /** A write that breaks off has not fitted, and leaves the inode with what it got. */
  lemma WriteBreaks(fs0: Fs, o0: Owner, fs1: Fs, o1: Owner, fs2: Fs, o2: Owner, t: seq<Inode>, n: nat, ino: Inode,
                    i1: Inode, i2: Inode, base: nat, data: seq<byte>, written: nat)
    requires InWrite(fs0, o0, fs1, o1, t, n, ino, i1, base, data, written) && written < |data|
    requires Rewrites(fs1, o1, fs2, o2, t[n := i1], n, i1, i2) && i2.size == i1.size && i2.mtime == i1.mtime
    requires var k := AsU32((base + written) / BLOCK_SIZE);
             && FailsAt(fs1, i1, fs2, i2, k)
             && (k >= MAX_BLOCKS || fs1.sb.freeBlocks < BlockNeed(fs1.disk, i1, k))
    ensures Rewrites(fs0, o0, fs2, o2, t, n, ino, i2) && i2.size == ino.size
    ensures Grown(fs0.disk, ino, fs2.disk, i2, (base + |data| - 1) / BLOCK_SIZE)
    ensures !Fits(fs0.disk, ino, fs0.sb.freeBlocks, base, |data|)
    ensures BrokeOff(fs0.disk, ino, fs0.sb.freeBlocks, fs2.disk, i2, base, data, written)
  {
    hide Rewrites, Working, Overlaid, Grown, Paid, BlockNeed, RangeNeed, FailsAt, Spoils, Shaped;
    var pos, k, end := base + written, AsU32((base + written) / BLOCK_SIZE), base + |data|;
    ChunkBounds(pos, 1, end);
    FailsAtGrown(fs1, i1, fs2, i2, k);
    RewritesTrans(fs0, o0, fs1, o1, fs2, o2, t, n, ino, i1, i2);
    GrownWiden(fs0.disk, ino, fs1.disk, i1, fs2.disk, i2, (pos - 1) / BLOCK_SIZE, k, (end - 1) / BLOCK_SIZE);
    if k < MAX_BLOCKS {
      PaidOut(fs0.disk, ino, fs1.disk, i1, base / BLOCK_SIZE, k, (end - 1) / BLOCK_SIZE + 1, fs0.sb.freeBlocks,
        fs1.sb.freeBlocks);
    }
    SameFileStill(fs0, o0, fs1, o1, t, n, ino, i1);
    IndexStays(fs0.disk, ino, fs1.disk, i1, base / BLOCK_SIZE, k, fs0.sb.freeBlocks, fs1.sb.freeBlocks);
    if Shaped(fs0.disk, ino) {
      SpoilsIff(fs0, ino, fs1, i1, fs2, i2, base, |data|, k);
    }
    if i2 == ino {
      FailedAlone(fs1, i1, fs2, i2, k);
    }
  }

  lemma GainedPointers(fs: Fs, o: Owner, fs': Fs, o': Owner, t: seq<Inode>, n: nat, ino: Inode, ino': Inode, last: int)
    requires Rewrites(fs, o, fs', o', t, n, ino, ino') && Grown(fs.disk, ino, fs'.disk, ino', last)
    requires ino' != ino && ino'.size == ino.size && ino'.mtime == ino.mtime
    ensures forall k :: 0 <= k < DIRECT_PTRS && ino.direct[k] != 0 ==> ino'.direct[k] == ino.direct[k]
    ensures ino'.direct != ino.direct || ino'.indirect != ino.indirect
  {
    hide Working, Local, UnpackU32;
    forall k | 0 <= k < DIRECT_PTRS && ino.direct[k] != 0 ensures ino'.direct[k] == ino.direct[k] {
      assert BlockPtr(fs.disk, ino, k) != 0;
    }
  }

  /** After a write that broke off: the stored inode is the old one, and whether the file system is sound with it. */
  lemma BrokenWrite(fs0: Fs, o0: Owner, fs1: Fs, o1: Owner, t: seq<Inode>, n: nat, ino: Inode, ino': Inode, base: nat,
                    data: seq<byte>, written: nat)
    requires Sound(fs0, t, o0) && n < |t| && t[n] == ino && ino.kind == FILE
    requires Rewrites(fs0, o0, fs1, o1, t, n, ino, ino') && ino'.size == ino.size && ino'.mtime == ino.mtime
    requires Grown(fs0.disk, ino, fs1.disk, ino', (base + |data| - 1) / BLOCK_SIZE)
    requires BrokeOff(fs0.disk, ino, fs0.sb.freeBlocks, fs1.disk, ino', base, data, written)
    ensures !Spoils(fs0.disk, ino, fs0.sb.freeBlocks, base, |data|) ==>
      Sound(fs1, t, o1) && WritesPart(NodesOf(t, fs0.disk), n, base, data, NodesOf(t, fs1.disk))
    ensures Spoils(fs0.disk, ino, fs0.sb.freeBlocks, base, |data|) ==> Unsound(fs1, t)
  {
    hide Sound, Rewrites, Grown, Working, Overlaid, Shaped, Spoils, WritesPart;
    SoundWorking(fs0, o0, t, n);
    if ino' == ino {
      if Shaped(fs1.disk, ino) {
        FilePartWritten(fs0, o0, fs1, o1, t, n, ino, base, data, written);
      } else {
        Misshapen(fs1, t, n);
      }
    } else {
      RewritesWorking(fs0, o0, fs1, o1, t, n, ino, ino');
      GainedPointers(fs0, o0, fs1, o1, t, n, ino, ino', (base + |data| - 1) / BLOCK_SIZE);
      UnstoredGain(fs1, o1, t, n, ino, ino');
      UnaccountableUnsound(fs1, t);
    }
  }

  /** A write that comes to its end has fitted. */
  lemma WriteEnds(fs0: Fs, o0: Owner, fs: Fs, o: Owner, t: seq<Inode>, n: nat, ino: Inode, ino': Inode, base: nat,
                  data: seq<byte>, end: u64, now: u32)
    requires InWrite(fs0, o0, fs, o, t, n, ino, ino', base, data, |data|) && base + |data| <= end
    ensures ino'.size == ino.size && ino'.mtime == ino.mtime
    ensures var done := ino'.(size := if end > ino.size then end else ino.size, mtime := now);
            && (Shaped(fs0.disk, ino) ==> Shaped(fs.disk, done))
            && Rewrites(fs0, o0, fs, o, t, n, ino, done)
            && Grown(fs0.disk, ino, fs.disk, done, (base + |data| - 1) / BLOCK_SIZE)
            && Overlaid(fs0.disk, ino, fs.disk, done, base, data)
    ensures Fits(fs0.disk, ino, fs0.sb.freeBlocks, base, |data|)
    ensures fs.sb.freeBlocks + WriteNeed(fs0.disk, ino, base, |data|) == fs0.sb.freeBlocks
    ensures data != [] ==> base + |data| <= MAX_BLOCKS * BLOCK_SIZE
  {
    hide Rewrites, Working, Overlaid, Grown, Paid, Shaped, RangeNeed;
    var size, last := if end > ino.size then end else ino.size, (base + |data| - 1) / BLOCK_SIZE;
    assert data[..|data|] == data;
    WriteResized(fs0, o0, fs, o, t, n, ino, ino', size, now, last, base, data);
    if Shaped(fs0.disk, ino) {
      ShapedGrown(fs0.disk, ino, fs.disk, ino', size, now, last);
    }
    PaidAll(fs0.disk, ino, fs.disk, ino', base / BLOCK_SIZE, Reached(base, |data|, |data|), fs0.sb.freeBlocks,
      fs.sb.freeBlocks);
  }

  lemma BaseChunk(pos: nat, d: nat)
    requires d < BLOCK_SIZE - pos % BLOCK_SIZE
    ensures Base(pos + d) == BLOCK_SIZE * AsU32(pos / BLOCK_SIZE) + pos % BLOCK_SIZE + d
  {
    var q, k := pos / BLOCK_SIZE / 0x1_0000_0000, AsU32(pos / BLOCK_SIZE);
    assert pos / BLOCK_SIZE == 0x1_0000_0000 * q + k;
    assert pos == INDEX_LIMIT * q + (BLOCK_SIZE * k + pos % BLOCK_SIZE);
    assert pos + d == INDEX_LIMIT * q + (BLOCK_SIZE * k + pos % BLOCK_SIZE + d);
  }

  /** The positions of a stretch all lead to blocks that pointers reach. */
  predicate InReach(offset: nat, count: nat) {
    forall p :: 0 <= p < count ==> Place(offset, p) < MAX_BLOCKS * BLOCK_SIZE
  }

  lemma NoneInReach(offset: nat)
    ensures InReach(offset, 0)
  {}

  lemma WholeInReach(count: nat)
    ensures InReach(0, count) <==> count <= MAX_BLOCKS * BLOCK_SIZE
  {
    hide Place;
    forall p | 0 <= p <= MAX_BLOCKS * BLOCK_SIZE ensures Place(0, p) == p { PlaceIs(0, p); }
    assert Place(0, MAX_BLOCKS * BLOCK_SIZE) == MAX_BLOCKS * BLOCK_SIZE;
  }

  lemma ChunkPlace(offset: nat, done: nat, p: nat)
    requires done <= p < done + (BLOCK_SIZE - (offset + done) % BLOCK_SIZE)
    ensures Place(offset, p) == BLOCK_SIZE * AsU32((offset + done) / BLOCK_SIZE) + (offset + done) % BLOCK_SIZE
        + (p - done)
  {
    hide Base;
    BaseChunk(offset + done, p - done);
    assert offset + done + (p - done) == offset + p;
  }

  lemma ChunkReach(offset: nat, done: nat, chunk: nat, count: nat)
    requires 0 < chunk <= BLOCK_SIZE - (offset + done) % BLOCK_SIZE && done + chunk <= count
    ensures AsU32((offset + done) / BLOCK_SIZE) >= MAX_BLOCKS ==> !InReach(offset, count)
    ensures AsU32((offset + done) / BLOCK_SIZE) < MAX_BLOCKS && InReach(offset, done) ==> InReach(offset, done + chunk)
  {
    hide Place;
    var k, off := AsU32((offset + done) / BLOCK_SIZE), (offset + done) % BLOCK_SIZE;
    forall p | done <= p < done + chunk ensures Place(offset, p) == BLOCK_SIZE * k + off + (p - done) {
      ChunkPlace(offset, done, p);
    }
    assert Place(offset, done) == BLOCK_SIZE * k + off;
  }

  lemma BaseBlock(offset: nat, written: nat)
    ensures AsU32((offset + written) / BLOCK_SIZE) == AsU32((Base(offset) + written) / BLOCK_SIZE)
    ensures (offset + written) % BLOCK_SIZE == (Base(offset) + written) % BLOCK_SIZE
  {
    var q := offset / INDEX_LIMIT;
    assert offset + written == BLOCK_SIZE * (0x1_0000_0000 * q) + (Base(offset) + written);
    assert (offset + written) / BLOCK_SIZE == 0x1_0000_0000 * q + (Base(offset) + written) / BLOCK_SIZE;
  }

  /** Every block would be accounted for if the inode as it is in memory, `held`, were the one stored. */
  ghost predicate HeldInMemory(fs: Fs, owner: Owner, n: nat, ino: Inode, held: Inode) {
    && Geometry(fs) && n < fs.sb.inodeCount && SameFile(held, ino)
    && Accounted(fs, Table(fs)[n := held], owner)
  }

  /** An inode's bytes got `data` laid over them, its size and its time what that makes of them. */
  ghost predicate LaidOver(v: Fs, v': Fs, n: nat, offset: nat, data: seq<byte>, now: u32)
    requires Geometry(v) && Geometry(v')
  {
    && n < v.sb.inodeCount == v'.sb.inodeCount
    && var ino, ino' := Table(v)[n], Table(v')[n];
       && Overlaid(v.disk, ino, v'.disk, ino', Base(offset), data)
       && ino'.size == (if offset + |data| > ino.size then offset + |data| else ino.size)
       && ino'.mtime == if data == [] then ino.mtime else now
  }

  /** The bytes of inode `n` are those of a file or of a directory. */
  ghost predicate Readable(v: Fs, n: nat)
    requires Geometry(v)
  {
    n < v.sb.inodeCount && WellFormed(v.disk, Table(v)[n])
  }

  /** Of all there is, node `n` alone changed, and is what its bytes now say. */
  ghost predicate BecameNode(v: Fs, v': Fs, n: nat)
    requires Geometry(v) && Geometry(v')
  {
    && n < v'.sb.inodeCount
    && NodesOf(Table(v'), v'.disk) == NodesOf(Table(v), v.disk)[n := NodeOf(v'.disk, Table(v')[n])]
  }

  lemma HeldStays(fs0: Fs, o0: Owner, fs: Fs, o: Owner, t: seq<Inode>, n: nat, ino: Inode, held: Inode)
    requires Rewrites(fs0, o0, fs, o, t, n, ino, held) && Geometry(fs) && Table(fs) == t
    ensures HeldInMemory(fs, o, n, ino, held)
  {}

  lemma CutToNothing(fs: Fs, t: seq<Inode>, owner: Owner, n: nat)
    requires Sound(fs, t, owner) && n < |t| && t[n].kind == FILE && t[n].size <= CUT_LIMIT
    ensures CutsRight(fs.disk, t[n], 0)
  {
    hide Sound, Shaped, Strands;
    SoundWorking(fs, owner, t, n);
    NeverStrandsToZero(fs.disk, t[n]);
    CutsRightIff(fs.disk, t[n], 0);
  }

  /** A file can be given `len` bytes in place of what it has: its own blocks and the free ones are enough. */
  predicate Replaceable(disk: seq<Block>, ino: Inode, free: nat, len: nat) {
    len == 0 || (len <= MAX_BLOCKS * BLOCK_SIZE && FileBlocks(len) <= free + UsedBlocks(disk, ino))
  }

  lemma CutFits(fs: Fs, o: Owner, fs': Fs, o': Owner, t: seq<Inode>, n: nat, ino: Inode, cut: Inode, len: nat)
    requires Working(fs, o, t, n, ino) && Rewrites(fs, o, fs', o', t, n, ino, cut) && Shaped(fs'.disk, cut)
        && cut.size == 0
    ensures Fits(fs'.disk, cut, fs'.sb.freeBlocks, 0, len) <==> Replaceable(fs.disk, ino, fs.sb.freeBlocks, len)
  {
    hide Working, Rewrites, Shaped, Mine, UsedBlocks, FileBlocks, WriteNeed;
    MineSize(fs, o, t, n, ino);
    RewritesWorking(fs, o, fs', o', t, n, ino, cut);
    MineSize(fs', o', t[n := cut], n, cut);
    FreeAndMine(fs, o, fs', o', t, n, ino, cut);
    if len > 0 { CutNeed(fs'.disk, cut, len); }
  }

  /** Filling a file that has been cut to nothing: its blocks and those it still needs are those it will have. */
  lemma CutNeed(disk: seq<Block>, cut: Inode, len: nat)
    requires Shaped(disk, cut) && cut.size == 0 && len > 0
    ensures WriteNeed(disk, cut, 0, len) + UsedBlocks(disk, cut) == FileBlocks(len)
  {
    assert cut.indirect == 0;
    hide Shaped, Holes, BlockPtr, FileBlocks;
    HolesBehindFirst(disk, cut, MAX_BLOCKS);
    HolesBehindFirst(disk, cut, (len - 1) / BLOCK_SIZE + 1);
    BlocksOf(len);
  }

  lemma BlocksOf(len: nat)
    requires len > 0
    ensures FileBlocks(len) == (len - 1) / BLOCK_SIZE + 1 + if (len - 1) / BLOCK_SIZE + 1 > DIRECT_PTRS then 1 else 0
  {}

  class NextFS {
    var sb: Superblock
    var blockBitmap: seq<byte>
    var inodeBitmap: seq<byte>
    var disk: seq<Block>
    /** The timer; it goes on between operations. */
    var clock: u32
    ghost var owner: Owner

    ghost function View(): Fs
      reads this
    {
      Fs(sb, blockBitmap, inodeBitmap, disk)
    }

    // -------------------------------------------------------------- block bitmap

    method AllocBlock(ghost s: Slot) returns (r: Result<u32>)
      requires BitsAgree(sb, blockBitmap, owner)
      modifies this`sb, this`blockBitmap, this`owner
      ensures BitsAgree(sb, blockBitmap, owner)
      ensures r.Err? <==> old(sb.freeBlocks) == 0
      ensures r.Err? ==> r.error == NoSpace && sb == old(sb) && blockBitmap == old(blockBitmap) && owner == old(owner)
      ensures r.Ok? ==>
        && sb.dataStart <= r.value < sb.totalBlocks && r.value !in old(owner)
        && (forall b :: sb.dataStart <= b < r.value ==> b in old(owner))
        && owner == old(owner)[r.value := s]
        && sb == old(sb).(freeBlocks := old(sb).freeBlocks - 1)
        && blockBitmap == WithoutBit(old(blockBitmap), r.value)
    {
      if sb.freeBlocks == 0 {
        return Err(NoSpace);
      }
      for bit := sb.dataStart as nat to sb.totalBlocks as nat
        invariant sb == old(sb) && blockBitmap == old(blockBitmap) && owner == old(owner)
        invariant forall b :: sb.dataStart <= b < bit ==> b in owner
      {
        if BitAt(blockBitmap, bit) {
          blockBitmap := WithoutBit(blockBitmap, bit);
          sb := sb.(freeBlocks := sb.freeBlocks - 1);
          owner := owner[bit := s];
          return Ok(bit);
        }
      }
      OwnerKeys(owner, sb.dataStart, sb.totalBlocks);
      return Err(NoSpace);
    }

    method FreeBlock(b: u32)
      requires BitsAgree(sb, blockBitmap, owner) && b in owner
      modifies this`sb, this`blockBitmap, this`owner
      ensures BitsAgree(sb, blockBitmap, owner)
      ensures owner == old(owner) - {b as nat}
      ensures sb == old(sb).(freeBlocks := sb.freeBlocks)
      ensures sb.freeBlocks == old(sb.freeBlocks) + 1
      ensures blockBitmap == WithBit(old(blockBitmap), b)
    {
      hide Bit;
      OwnerRemove(owner, b);
      blockBitmap := WithBit(blockBitmap, b);
      sb := sb.(freeBlocks := sb.freeBlocks + 1);
      owner := owner - {b as nat};
    }

    // -------------------------------------------------------------- stored inodes

    method ReadInode(n: u32) returns (r: Result<Inode>)
      requires Geometry(View())
      ensures r == if n == 0 || n >= sb.inodeCount then Err(InvalidInode) else Ok(Table(View())[n])
    {
      if n == 0 || n >= sb.inodeCount {
        return Err(InvalidInode);
      }
      var buf := disk[sb.inodeTableStart + n / INODES_PER_BLOCK];
      var off := n % INODES_PER_BLOCK * 64;
      assert InodesOf(buf)[n % INODES_PER_BLOCK] == DecodeInode(buf[off..off + 64]);
      return Ok(DecodeInode(buf[off..off + 64]));
    }

    method WriteInode(n: u32, ino: Inode) returns (r: Result<()>)
      requires Geometry(View())
      modifies this`disk
      ensures Geometry(View()) && |disk| == |old(disk)|
      ensures r.Ok? <==> 0 < n < sb.inodeCount
      ensures r.Err? ==> r.error == InvalidInode && disk == old(disk)
      ensures r.Ok? ==> Table(View()) == old(Table(View()))[n := ino]
      ensures forall b :: sb.dataStart <= b < |disk| ==> disk[b] == old(disk)[b]
    {
      if n == 0 || n >= sb.inodeCount {
        return Err(InvalidInode);
      }
      var b := sb.inodeTableStart + n / INODES_PER_BLOCK;
      var off := n % INODES_PER_BLOCK * 64;
      ghost var before := View();
      disk := disk[b := Splice(disk[b], off, EncodeInode(ino))];
      TableWrite(before, View(), n, ino);
      return Ok(());
    }

    // -------------------------------------------------------------- block pointers

    method GetInodeBlock(ino: Inode, k: u32) returns (r: Result<u32>)
      requires ino.indirect < |disk|
      ensures r == if k >= MAX_BLOCKS && ino.indirect != 0 then Err(NoSpace) else Ok(BlockPtr(disk, ino, k))
    {
      if k < DIRECT_PTRS {
        return Ok(ino.direct[k]);
      }
      var i := k - DIRECT_PTRS;
      if ino.indirect == 0 {
        return Ok(0);
      }
      var buf := disk[ino.indirect];
      if i >= PTRS_PER_BLOCK {
        return Err(NoSpace);
      }
      return Ok(FromLE32(buf[4 * i..4 * i + 4]));
    }

    /** First half of `alloc_inode_block` past the direct pointers: make sure there is an indirect block. */
    method AllocIndexBlock(ghost t: seq<Inode>, ghost n: nat, ino: Inode) returns (r: Result<u32>, ino': Inode)
      requires Working(View(), owner, t, n, ino) && ino.indirect == 0
      modifies this`sb, this`blockBitmap, this`disk, this`owner
      ensures Extends(old(View()), old(owner), View(), owner, t, n, ino, ino')
      ensures forall i :: 0 <= i < MAX_BLOCKS ==> BlockPtr(disk, ino', i) == BlockPtr(old(disk), ino, i)
      ensures r.Ok? ==> ino'.indirect != 0
      ensures r.Err? <==> old(sb.freeBlocks) == 0
      ensures r.Err? ==> r.error == NoSpace && ino' == ino && View() == old(View())
      ensures r.Ok? ==> sb.freeBlocks == old(sb.freeBlocks) - 1 && ino' == ino.(indirect := ino'.indirect)
    {
      hide Owned, BitsAgree, Local, DataKept, UnpackU32, Zeros;
      ino' := ino;
      ExtendsRefl(View(), owner, t, n, ino);
      r := AllocBlock(Index(n));
      if r.Err? { return; }
      ino' := ino.(indirect := r.value);
      disk := disk[r.value := Zeros(512)];
      IndexAdded(old(View()), old(owner), View(), owner, t, n, ino, r.value);
    }

    /** Second half: allocate the data block and record it in the indirect block. */
    method AllocViaIndex(ghost t: seq<Inode>, ghost n: nat, ino: Inode, k: u32) returns (r: Result<u32>)
      requires Working(View(), owner, t, n, ino) && BlockPtr(disk, ino, k) == 0
      requires DIRECT_PTRS <= k < MAX_BLOCKS && ino.indirect != 0
      modifies this`sb, this`blockBitmap, this`disk, this`owner
      ensures Extends(old(View()), old(owner), View(), owner, t, n, ino, ino)
      ensures forall i :: 0 <= i < MAX_BLOCKS && (r.Ok? ==> i != k) ==>
          BlockPtr(disk, ino, i) == BlockPtr(old(disk), ino, i)
      ensures r.Ok? ==> BlockPtr(disk, ino, k) == r.value && r.value != 0 && r.value !in old(owner)
      ensures r.Err? <==> old(sb.freeBlocks) == 0
      ensures r.Err? ==> r.error == NoSpace && View() == old(View())
      ensures r.Ok? ==> sb.freeBlocks == old(sb.freeBlocks) - 1
    {
      hide Owned, BitsAgree, Splice, LE32, Local, DataKept, BlockPtr;
      IndexInRange(View(), owner, t, n, ino);
      ExtendsRefl(View(), owner, t, n, ino);
      r := AllocBlock(Data(n, k));
      if r.Err? { return; }
      disk := disk[ino.indirect := Splice(disk[ino.indirect], 4 * (k - DIRECT_PTRS), LE32(r.value))];
      ViaAdded(old(View()), old(owner), View(), owner, t, n, ino, k, r.value);
    }

    method AllocInodeBlock(ghost t: seq<Inode>, ghost n: nat, ino: Inode, k: u32) returns (r: Result<u32>, ino': Inode)
      requires Working(View(), owner, t, n, ino) && BlockPtr(disk, ino, k) == 0
      modifies this`sb, this`blockBitmap, this`disk, this`owner
      ensures Extends(old(View()), old(owner), View(), owner, t, n, ino, ino')
      ensures forall i :: 0 <= i < MAX_BLOCKS && (r.Ok? ==> i != k) ==>
          BlockPtr(disk, ino', i) == BlockPtr(old(disk), ino, i)
      ensures ino'.indirect != ino.indirect ==> k >= DIRECT_PTRS && ino.indirect == 0
      ensures ino'.mtime == ino.mtime
      ensures r.Err? ==> FailsAt(old(View()), ino, View(), ino', k)
      ensures r.Ok? ==> k < MAX_BLOCKS && BlockPtr(disk, ino', k) == r.value && r.value != 0 && r.value !in old(owner)
      ensures r.Err? <==> k >= MAX_BLOCKS || old(sb.freeBlocks) < BlockNeed(old(disk), ino, k)
      ensures r.Err? ==> r.error == NoSpace
      ensures r.Ok? ==> sb.freeBlocks == old(sb.freeBlocks) - BlockNeed(old(disk), ino, k)
    {
      hide Owned, BitsAgree, Local, DataKept, UnpackU32;
      ino' := ino;
      ExtendsRefl(View(), owner, t, n, ino);
      if k < DIRECT_PTRS {
        r := AllocBlock(Data(n, k));
        if r.Ok? {
          ino' := ino.(direct := ino.direct[k := r.value]);
          DirectAdded(old(View()), old(owner), View(), owner, t, n, ino, k, r.value);
        }
        return;
      }
      if k - DIRECT_PTRS >= PTRS_PER_BLOCK {
        return Err(NoSpace), ino';
      }
      if ino'.indirect == 0 {
        r, ino' := AllocIndexBlock(t, n, ino);
        if r.Err? { return; }
      }
      ghost var middle, owner1 := View(), owner;
      r := AllocViaIndex(t[n := ino'], n, ino', k);
      ExtendsTrans(old(View()), old(owner), middle, owner1, View(), owner, t, n, ino, ino', ino');
    }

    // -------------------------------------------------------------- writing

    /** One pass of the write loop: the part of the data that falls into logical block `k`. */
    method WriteChunk(ghost t: seq<Inode>, ghost n: nat, ino: Inode, k: u32, off: nat, chunk: seq<byte>)
      returns (r: Result<()>, ino': Inode)
      requires Working(View(), owner, t, n, ino) && off + |chunk| <= BLOCK_SIZE
      modifies this`sb, this`blockBitmap, this`disk, this`owner
      ensures Rewrites(old(View()), old(owner), View(), owner, t, n, ino, ino')
      ensures ino'.size == ino.size && ino'.mtime == ino.mtime
      ensures GrownAt(old(disk), ino, disk, ino', k)
      ensures ino'.indirect != ino.indirect ==> k >= DIRECT_PTRS
      ensures r.Err? ==> FailsAt(old(View()), ino, View(), ino', k)
      ensures r.Ok? ==> k < MAX_BLOCKS && BlockPtr(disk, ino', k) != 0
      ensures r.Ok? ==> Overlaid(old(disk), ino, disk, ino', BLOCK_SIZE * k + off, chunk)
      ensures r.Err? <==> k >= MAX_BLOCKS || old(sb.freeBlocks) < BlockNeed(old(disk), ino, k)
      ensures r.Err? ==> r.error == NoSpace
      ensures r.Ok? ==> sb.freeBlocks == old(sb.freeBlocks) - BlockNeed(old(disk), ino, k)
    {
      hide Owned, BitsAgree, Local, BlockPtr;
      ino' := ino;
      IndexInRange(View(), owner, t, n, ino);
      RewritesRefl(View(), owner, t, n, ino);
      var g := GetInodeBlock(ino, k);
      if g.Err? {
        return Err(g.error), ino';
      }
      var b := g.value;
      ghost var t' := t[n := ino];
      assert t' == t;
      if b == 0 {
        var a;
        a, ino' := AllocInodeBlock(t, n, ino, k);
        if a.Err? {
          return Err(a.error), ino';
        }
        b := a.value;
        t' := t[n := ino'];
        ghost var middle := View();
        DataInRange(View(), owner, t', n, ino', k);
        disk := disk[b := Zeros(512)];
        DataWritten(middle, owner, View(), t', n, ino', b, Zeros(512));
        FreshZeroed(old(View()), old(owner), middle, owner, t, n, ino, ino', k, disk);
        RewritesTrans(old(View()), old(owner), middle, owner, View(), owner, t, n, ino, ino', ino');
      }
      ghost var before := View();
      DataInRange(before, owner, t', n, ino', k);
      disk := disk[b := Splice(disk[b], off, chunk)];
      DataWritten(before, owner, View(), t', n, ino', b, disk[b]);
      ChunkOverlaid(before, owner, t', n, ino', k, off, chunk);
      RewritesTrans(old(View()), old(owner), before, owner, View(), owner, t, n, ino, ino', ino');
      return Ok(()), ino';
    }

    method WriteInodeData(ghost t: seq<Inode>, ghost n: nat, ino: Inode, offset: u64, data: seq<byte>)
      returns (r: Result<nat>, ino': Inode)
      requires Working(View(), owner, t, n, ino)
      requires offset + |data| < 0x1_0000_0000_0000_0000
      modifies this`sb, this`blockBitmap, this`disk, this`owner
      ensures r == Err(NotFile) <==> ino.kind != FILE && ino.kind != DIR
      ensures Rewrites(old(View()), old(owner), View(), owner, t, n, ino, ino')
      ensures Grown(old(disk), ino, disk, ino', (Base(offset) + |data| - 1) / BLOCK_SIZE)
      ensures r.Ok? ==>
        && r.value == |data|
        && ino'.size == (if offset + |data| > ino.size then offset + |data| else ino.size)
        && ino'.mtime == (if data == [] then ino.mtime else clock)
        && (Shaped(old(disk), ino) ==> Shaped(disk, ino'))
        && Overlaid(old(disk), ino, disk, ino', Base(offset), data)
        && (data != [] ==> Base(offset) + |data| <= MAX_BLOCKS * BLOCK_SIZE)
      ensures r.Err? ==> ino'.size == ino.size && ino'.mtime == ino.mtime && r.error in {NotFile, NoSpace}
      ensures r == Err(NoSpace) ==>
        exists w :: BrokeOff(old(disk), ino, old(sb.freeBlocks), disk, ino', Base(offset), data, w)
      ensures r == Err(NoSpace) && |data| <= BLOCK_SIZE - offset % BLOCK_SIZE ==>
        FailsAt(old(View()), ino, View(), ino', AsU32(offset / BLOCK_SIZE))
      ensures r == Err(NoSpace) <==>
        (ino.kind == FILE || ino.kind == DIR) && !Fits(old(disk), ino, old(sb.freeBlocks), Base(offset), |data|)
      ensures r.Ok? ==> sb.freeBlocks == old(sb.freeBlocks) - WriteNeed(old(disk), ino, Base(offset), |data|)
    {
      hide InWrite, Rewrites, Working, Overlaid, Grown, GrownAt, Shaped, BlockNeed, WriteNeed, BrokeOff, FailsAt,
        Base, AsU32, UnpackU32, BlockPtr, Holes;
      ghost var fs0, owner0, base := View(), owner, Base(offset);
      ino' := ino;
      WriteStarts(fs0, owner, t, n, ino, base, data);
      if ino.kind != FILE && ino.kind != DIR {
        NothingWritten(fs0, owner, t, n, ino, (base + |data| - 1) / BLOCK_SIZE);
        return Err(NotFile), ino';
      }
      var written := 0;
      while written < |data|
        invariant written <= |data|
        invariant InWrite(fs0, owner0, View(), owner, t, n, ino, ino', base, data, written)
        invariant written == 0 ==> View() == fs0 && ino' == ino
        invariant written > 0 ==> written >= BLOCK_SIZE - offset % BLOCK_SIZE || written == |data|
      {
        var filePos := offset + written;
        var k := AsU32(filePos / BLOCK_SIZE);
        var off := filePos % BLOCK_SIZE;
        var chunk := Min(|data| - written, BLOCK_SIZE - off);
        BaseBlock(offset, written);
        ghost var fs1, owner1, ino1 := View(), owner, ino';
        WriteGoesOn(fs0, owner0, fs1, owner1, t, n, ino, ino1, base, data, written);
        var c;
        c, ino' := WriteChunk(t[n := ino'], n, ino', k, off, data[written..written + chunk]);
        if c.Err? {
          WriteBreaks(fs0, owner0, fs1, owner1, View(), owner, t, n, ino, ino1, ino', base, data, written);
          return Err(c.error), ino';
        }
        WriteAdvances(fs0, owner0, fs1, owner1, View(), owner, t, n, ino, ino1, ino', base, data, written, chunk);
        written := written + chunk;
      }
      WriteEnds(fs0, owner0, View(), owner, t, n, ino, ino', base, data, offset + written,
        if written > 0 then clock else ino.mtime);
      if offset + written > ino'.size {
        ino' := ino'.(size := offset + written);
      }
      if written > 0 {
        ino' := ino'.(mtime := clock);
      }
      return Ok(written), ino';
    }

    // -------------------------------------------------------------- freeing and truncating

    /** Free the data blocks named by words `[from, to)` of the indirect block. */
    method FreeVia(ghost t: seq<Inode>, ghost n: nat, ino: Inode, from: nat, to: nat)
      requires Working(View(), owner, t, n, ino) && ino.indirect != 0 && from <= to <= PTRS_PER_BLOCK
      modifies this`sb, this`blockBitmap, this`owner
      ensures Freed(old(View()), old(owner), View(), owner)
      ensures WithoutVia(old(owner), owner, n, DIRECT_PTRS + from, DIRECT_PTRS + to)
    {
      hide Owned, BitsAgree;
      IndexInRange(View(), owner, t, n, ino);
      var buf := disk[ino.indirect];
      for i := from to to
        invariant Freed(old(View()), old(owner), View(), owner)
        invariant WithoutVia(old(owner), owner, n, DIRECT_PTRS + from, DIRECT_PTRS + i)
      {
        var b := FromLE32(buf[4 * i..4 * i + 4]);
        assert b == BlockPtr(disk, ino, DIRECT_PTRS + i);
        ViaStep(old(View()), old(owner), owner, t, n, ino, DIRECT_PTRS + from, DIRECT_PTRS + i);
        if b != 0 {
          FreeBlock(b);
        }
      }
    }

    method FreeDirect(ghost t: seq<Inode>, ghost n: nat, ino: Inode, k: nat) returns (ino': Inode)
      requires Working(View(), owner, t, n, ino) && k < DIRECT_PTRS && ino.direct[k] != 0
      modifies this`sb, this`blockBitmap, this`owner
      ensures Rewrites(old(View()), old(owner), View(), owner, t, n, ino, ino')
      ensures ino' == ino.(direct := ino.direct[k := 0])
    {
      hide Owned, BitsAgree, UnpackU32, Local;
      DataInRange(View(), owner, t, n, ino, k);
      FreeBlock(ino.direct[k]);
      ino' := ino.(direct := ino.direct[k := 0]);
      DirectFreed(old(View()), old(owner), View(), owner, t, n, ino, k);
    }

    /** Free the blocks behind the first `to` entries of the indirect block, and then the indirect block. */
    method FreeIndex(ghost t: seq<Inode>, ghost n: nat, ino: Inode, to: nat, ghost newSize: u64) returns (ino': Inode)
      requires Working(View(), owner, t, n, ino) && ino.indirect != 0 && to <= PTRS_PER_BLOCK
      modifies this`sb, this`blockBitmap, this`owner
      ensures ino' == ino.(indirect := 0)
      ensures sb == old(sb).(freeBlocks := sb.freeBlocks) && |blockBitmap| == |old(blockBitmap)|
      ensures (forall k :: DIRECT_PTRS + to <= k < MAX_BLOCKS ==> BlockPtr(disk, ino, k) == 0) ==>
        Rewrites(old(View()), old(owner), View(), owner, t, n, ino, ino')
      ensures (exists k :: DIRECT_PTRS + to <= k < MAX_BLOCKS && BlockPtr(disk, ino, k) != 0) ==>
        n < |t| && Unaccountable(View(), t[n := ino'.(size := newSize)])
    {
      hide Owned, BitsAgree, Local, BlockPtr, Unaccountable;
      IndexInRange(View(), owner, t, n, ino);
      FreeVia(t, n, ino, 0, to);
      ghost var owner1 := owner;
      FreeBlock(ino.indirect);
      ino' := ino.(indirect := 0);
      if forall k :: DIRECT_PTRS + to <= k < MAX_BLOCKS ==> BlockPtr(disk, ino, k) == 0 {
        IndexFreed(old(View()), old(owner), View(), owner1, t, n, ino, DIRECT_PTRS + to);
      }
      if k :| DIRECT_PTRS + to <= k < MAX_BLOCKS && BlockPtr(disk, ino, k) != 0 {
        IndexLeaked(old(View()), old(owner), View(), owner1, t, n, ino, DIRECT_PTRS + to, k, newSize);
      }
    }

    method FreeInodeBlocks(ghost t: seq<Inode>, ghost n: nat, ino: Inode) returns (ino': Inode)
      requires Working(View(), owner, t, n, ino)
      modifies this`sb, this`blockBitmap, this`owner
      ensures Rewrites(old(View()), old(owner), View(), owner, t, n, ino, ino')
      ensures ino' == ino.(direct := NO_BLOCKS, indirect := 0)
    {
      hide Rewrites, Working, BlockPtr;
      ino' := ino;
      RewritesRefl(View(), owner, t, n, ino);
      for i := 0 to DIRECT_PTRS
        invariant Rewrites(old(View()), old(owner), View(), owner, t, n, ino, ino')
        invariant ino' == ino.(direct := ino'.direct)
        invariant forall j :: 0 <= j < i ==> ino'.direct[j] == 0
      {
        if ino'.direct[i] != 0 {
          ghost var before, owner1 := View(), owner;
          var ino1 := ino';
          RewritesWorking(old(View()), old(owner), before, owner1, t, n, ino, ino1);
          ino' := FreeDirect(t[n := ino1], n, ino1, i);
          RewritesTrans(old(View()), old(owner), before, owner1, View(), owner, t, n, ino, ino1, ino');
        }
      }
      assert ino'.direct == NO_BLOCKS;
      if ino'.indirect != 0 {
        ghost var before, owner1 := View(), owner;
        var ino1 := ino';
        RewritesWorking(old(View()), old(owner), before, owner1, t, n, ino, ino1);
        ino' := FreeIndex(t[n := ino1], n, ino1, PTRS_PER_BLOCK, ino1.size);
        RewritesTrans(old(View()), old(owner), before, owner1, View(), owner, t, n, ino, ino1, ino');
      }
    }

    method FreeDirectTail(ghost t: seq<Inode>, ghost n: nat, ino: Inode, from: nat, to: nat) returns (ino': Inode)
      requires Working(View(), owner, t, n, ino) && to <= DIRECT_PTRS
      modifies this`sb, this`blockBitmap, this`owner
      ensures Rewrites(old(View()), old(owner), View(), owner, t, n, ino, ino')
      ensures ino' == ino.(direct := ino'.direct)
      ensures forall j :: 0 <= j < DIRECT_PTRS ==> ino'.direct[j] == if from <= j < to then 0 else ino.direct[j]
    {
      hide Rewrites, Working, BlockPtr;
      ino' := ino;
      RewritesRefl(View(), owner, t, n, ino);
      var i := from;
      while i < to
        invariant Rewrites(old(View()), old(owner), View(), owner, t, n, ino, ino')
        invariant ino' == ino.(direct := ino'.direct)
        invariant forall j :: 0 <= j < DIRECT_PTRS ==>
            ino'.direct[j] == if from <= j < i && j < to then 0 else ino.direct[j]
      {
        if ino'.direct[i] != 0 {
          ghost var before, owner1 := View(), owner;
          var ino1 := ino';
          RewritesWorking(old(View()), old(owner), before, owner1, t, n, ino, ino1);
          ino' := FreeDirect(t[n := ino1], n, ino1, i);
          RewritesTrans(old(View()), old(owner), before, owner1, View(), owner, t, n, ino, ino1, ino');
        }
        i := i + 1;
      }
    }

    /** The part of a cut that deals with the blocks behind the indirect block. */
    method TruncateIndirect(ghost t: seq<Inode>, ghost n: nat, ino: Inode, oldLast: u32, newLast: u32, newSize: u64)
      returns (r: Result<()>, ino': Inode)
      requires Working(View(), owner, t, n, ino) && newSize < ino.size
      requires oldLast == LastIndex(ino.size) && newLast == LastIndex(newSize)
      modifies this`sb, this`blockBitmap, this`owner
      ensures r == Err(Panic) <==> ShrinksIndirect(ino, newSize) && oldLast >= MAX_BLOCKS
      ensures r.Ok? || r == Err(Panic)
      ensures r.Ok? ==> sb == old(sb).(freeBlocks := sb.freeBlocks) && |blockBitmap| == |old(blockBitmap)|
      ensures r.Ok? ==> ino' == ino.(indirect := if DropsIndex(ino, newSize) then 0 else ino.indirect)
      ensures r.Ok? ==>
        if Strands(disk, ino, newSize) || Leaks(disk, ino, newSize)
        then n < |t| && Unaccountable(View(), t[n := ino'.(size := newSize)])
        else Rewrites(old(View()), old(owner), View(), owner, t, n, ino, ino')
    {
      hide Rewrites, Working, BlockPtr, Unaccountable;
      ino' := ino;
      RewritesRefl(View(), owner, t, n, ino);
      RewritesWorking(View(), owner, View(), owner, t, n, ino, ino);
      if newLast < DIRECT_PTRS && ino.indirect != 0 {
        ino' := FreeIndex(t, n, ino, Min(PTRS_PER_BLOCK, AsU32(oldLast - DIRECT_PTRS + 1)), newSize);
      } else if oldLast >= DIRECT_PTRS && ino.indirect != 0 {
        var start, end := newLast - DIRECT_PTRS + 1, oldLast - DIRECT_PTRS + 1;
        if start < end {
          if end > PTRS_PER_BLOCK {
            if start < PTRS_PER_BLOCK {
              FreeVia(t, n, ino, start, PTRS_PER_BLOCK);
            }
            return Err(Panic), ino';
          }
          FreeVia(t, n, ino, start, end);
          if Strands(disk, ino, newSize) {
            ghost var k :| newLast < k <= oldLast && k < MAX_BLOCKS && BlockPtr(disk, ino, k) != 0;
            Stranded(old(View()), old(owner), View(), owner, t, n, ino, newLast + 1, oldLast + 1, newSize, k);
          } else {
            NothingFreed(old(View()), old(owner), View(), owner, t, n, ino, newLast + 1, oldLast + 1);
          }
        }
      }
      return Ok(()), ino';
    }

    method TruncateInode(ghost t: seq<Inode>, ghost n: nat, ino: Inode, newSize: u64)
      returns (r: Result<()>, ino': Inode)
      requires Working(View(), owner, t, n, ino)
      modifies this`sb, this`blockBitmap, this`owner
      ensures r == Err(Panic) <==> ShrinksIndirect(ino, newSize) && LastIndex(ino.size) >= MAX_BLOCKS
      ensures r.Ok? || r == Err(Panic)
      ensures r.Ok? ==> sb == old(sb).(freeBlocks := sb.freeBlocks) && |blockBitmap| == |old(blockBitmap)|
      ensures r.Ok? ==> ino' == Cut(ino, newSize)
      ensures r.Ok? ==>
        if Strands(disk, ino, newSize) || Leaks(disk, ino, newSize)
        then n < |t| && Unaccountable(View(), t[n := ino'])
        else Rewrites(old(View()), old(owner), View(), owner, t, n, ino, ino')
    {
      hide Rewrites, Working, Unaccountable, Strands, Leaks, Cut;
      ino' := ino;
      if newSize >= ino.size {
        ino' := ino.(size := newSize);
        Resized(View(), owner, t, n, ino, newSize, ino.mtime);
        assert ino' == ino.(size := newSize, mtime := ino.mtime);
        Growing(disk, ino, newSize);
        return Ok(()), ino';
      }
      var oldLast := if ino.size == 0 then 0 else AsU32((ino.size - 1) / BLOCK_SIZE);
      var newLast := if newSize == 0 then 0 else AsU32((newSize - 1) / BLOCK_SIZE);
      assert oldLast == LastIndex(ino.size) && newLast == LastIndex(newSize);
      ino' := FreeDirectTail(t, n, ino, AsU32(newLast + 1), Min(DIRECT_PTRS, AsU32(oldLast + 1)));
      ghost var before, owner1 := View(), owner;
      var cur := ino';
      RewritesFrame(old(View()), old(owner), before, owner1, t, n, ino, cur);
      RewritesWorking(old(View()), old(owner), before, owner1, t, n, ino, cur);
      SameCut(disk, ino, cur, newSize);
      r, ino' := TruncateIndirect(t[n := cur], n, cur, oldLast, newLast, newSize);
      if r.Err? { return; }
      if !Strands(disk, ino, newSize) && !Leaks(disk, ino, newSize) {
        RewritesTrans(old(View()), old(owner), before, owner1, View(), owner, t, n, ino, cur, ino');
        RewritesResized(old(View()), old(owner), View(), owner, t, n, ino, ino', newSize);
      }
      assert t[n := cur][n := ino'.(size := newSize)] == t[n := ino'.(size := newSize)];
      ino' := ino'.(size := newSize);
      CutIs(ino, newSize, ino');
    }

    // -------------------------------------------------------------- reading

    /** One pass of the read loop: the part of the request that falls into logical block `k`. */
    method ReadChunk(ghost t: seq<Inode>, ghost n: nat, ino: Inode, k: u32, off: nat, chunk: nat, buf: array<byte>,
                     at: nat)
      returns (r: Result<()>)
      requires Working(View(), owner, t, n, ino)
      requires off + chunk <= BLOCK_SIZE && at + chunk <= buf.Length
      modifies buf
      ensures r.Err? <==> k >= MAX_BLOCKS && ino.indirect != 0
      ensures r.Err? ==> r.error == NoSpace
      ensures forall p :: 0 <= p < buf.Length && !(at <= p < at + chunk) ==> buf[p] == old(buf[p])
      ensures r.Ok? ==> forall p :: at <= p < at + chunk ==>
          buf[p] == ByteAt(disk, ino, BLOCK_SIZE * k + off + (p - at))
    {
      hide Working, BlockPtr;
      IndexInRange(View(), owner, t, n, ino);
      var b := GetInodeBlock(ino, k);
      if b.Err? {
        return Err(b.error);
      }
      if b.value == 0 {
        forall p | at <= p < at + chunk {
          buf[p] := 0;
        }
      } else {
        DataInRange(View(), owner, t, n, ino, k);
        var block := disk[b.value];
        forall p | at <= p < at + chunk {
          buf[p] := block[off + (p - at)];
        }
      }
      return Ok(());
    }

    method ReadInodeData(n: u32, offset: u64, buf: array<byte>) returns (r: Result<nat>)
      requires Geometry(View()) && Accounted(View(), Table(View()), owner)
      modifies buf
      ensures r == Err(InvalidInode) <==> n == 0 || n >= sb.inodeCount
      ensures 0 < n < sb.inodeCount ==>
        var ino := Table(View())[n];
        var count := if offset >= ino.size then 0 else Min(buf.Length, ino.size - offset);
        && (r == Err(NotFile) <==> ino.kind != FILE)
        && (r.Ok? ==> r.value == count)
        && (r.Ok? ==> forall p :: 0 <= p < count ==> buf[p] == FileBytes(disk, ino)[Place(offset, p)])
        && (ino.kind == FILE ==> (r.Err? <==> ino.indirect != 0 && !InReach(offset, count)))
      ensures r.Err? ==> r.error in {InvalidInode, NotFile, NoSpace}
      ensures r.Ok? ==> r.value <= buf.Length && buf[r.value..] == old(buf[r.value..])
    {
      hide Accounted, ByteAt, BitmapBlocks, TableBlocks, Table, InodeAt, Place, InReach, BlockPtr;
      var i := ReadInode(n);
      if i.Err? {
        return Err(i.error);
      }
      var ino := i.value;
      if ino.kind != FILE {
        return Err(NotFile);
      }
      NoneInReach(offset);
      if offset >= ino.size {
        return Ok(0);
      }
      var toRead := Min(buf.Length, ino.size - offset);
      ghost var t := Table(View());
      var done := 0;
      while done < toRead
        invariant done <= toRead
        invariant forall p :: 0 <= p < done ==> buf[p] == ByteAt(disk, ino, Place(offset, p))
        invariant forall p :: done <= p < buf.Length ==> buf[p] == old(buf[p])
        invariant ino.indirect != 0 ==> InReach(offset, done)
      {
        var filePos := offset + done;
        var k := AsU32(filePos / BLOCK_SIZE);
        var off := filePos % BLOCK_SIZE;
        var chunk := Min(toRead - done, BLOCK_SIZE - off);
        ChunkReach(offset, done, chunk, toRead);
        var c := ReadChunk(t, n, ino, k, off, chunk, buf, done);
        if c.Err? {
          return Err(c.error);
        }
        forall p | done <= p < done + chunk ensures buf[p] == ByteAt(disk, ino, Place(offset, p)) {
          ChunkPlace(offset, done, p);
        }
        done := done + chunk;
      }
      return Ok(toRead);
    }

    // -------------------------------------------------------------- the whole file system

    ghost predicate Valid()
      reads this
    {
      Geometry(View()) && Sound(View(), Table(View()), owner)
    }

    /** What the file system stands for: a map from inode numbers to files and directories. */
    ghost function Abs(): Nodes
      reads this
      requires Geometry(View())
    {
      NodesOf(Table(View()), disk)
    }

    /** The inode table entry of `n`; meaningful for inode numbers in range. */
    ghost function Ino(n: nat): Inode
      reads this
      requires Geometry(View()) && n < sb.inodeCount
    {
      Table(View())[n]
    }

    // -------------------------------------------------------------- permissions

    /** Whether `who` may do what `want` says to inode `n`. */
    method CheckPermission(n: u32, who: Credentials, want: u16) returns (r: Result<()>)
      requires Geometry(View())
      ensures r == Err(InvalidInode) <==> n == 0 || n >= sb.inodeCount
      ensures 0 < n < sb.inodeCount ==>
        && (r == Err(NotFound) <==> Ino(n).kind == FREE)
        && (who.uid == 0 ==> (r.Ok? <==> Ino(n).kind != FREE))
        && (want == 4 ==> (r.Ok? <==> Ino(n).kind != FREE && MayRead(Ino(n), who)))
        && (want == 2 ==> (r.Ok? <==> Ino(n).kind != FREE && MayWrite(Ino(n), who)))
        && (want == 6 ==> (r.Ok? <==> Ino(n).kind != FREE && MayRead(Ino(n), who) && MayWrite(Ino(n), who)))
        && (want == 1 ==> (r.Ok? <==> Ino(n).kind != FREE && MayRun(Ino(n), who)))
        && (r.Ok? <==> Ino(n).kind != FREE && Permits(Ino(n), who, want))
      ensures 0 < n < sb.inodeCount && Ino(n).kind != FREE && who.uid != 0 ==>
        var i, m := Ino(n), Ino(n).mode;
        && (want == 4 && who.uid == i.uid ==> (r.Ok? <==> m / 0x100 % 2 == 1))
        && (want == 4 && who.uid != i.uid && who.gid == i.gid ==> (r.Ok? <==> m / 0x20 % 2 == 1))
        && (want == 4 && who.uid != i.uid && who.gid != i.gid ==> (r.Ok? <==> m / 4 % 2 == 1))
        && (want == 2 && who.uid == i.uid ==> (r.Ok? <==> m / 0x80 % 2 == 1))
        && (want == 2 && who.uid != i.uid && who.gid == i.gid ==> (r.Ok? <==> m / 0x10 % 2 == 1))
        && (want == 2 && who.uid != i.uid && who.gid != i.gid ==> (r.Ok? <==> m / 2 % 2 == 1))
      ensures r.Err? ==> r.error in {InvalidInode, NotFound, PermissionDenied}
    {
      hide BitmapBlocks, TableBlocks, InodeAt, Permits;
      var i := ReadInode(n);
      if i.Err? {
        return Err(i.error);
      }
      if i.value.kind == FREE {
        return Err(NotFound);
      }
      PermitsIff(i.value, who, want);
      return if Permits(i.value, who, want) then Ok(()) else Err(PermissionDenied);
    }

    /** Store an inode that differs from the stored one in mode, owners and time only. */
    method StoreMeta(n: u32, ino: Inode)
      requires Geometry(View()) && 0 < n < sb.inodeCount
      requires ino == Ino(n).(mode := ino.mode, uid := ino.uid, gid := ino.gid, mtime := ino.mtime)
      modifies this`disk
      ensures Geometry(View()) && Table(View()) == old(Table(View()))[n as nat := ino]
      ensures Valid() <==> old(Valid())
      ensures Valid() ==> Abs() == old(Abs())
    {
      hide Sound, NodesOf, Table, Geometry;
      ghost var fs0, t := View(), Table(View());
      var w := WriteInode(n, ino);
      MetaStored(fs0, View(), t, owner, n, ino);
    }

    /** New owners; the file system is as sound as it was and holds what it held. */
    method ChangeOwner(n: u32, who: Credentials) returns (r: Result<()>)
      requires Geometry(View())
      modifies this`disk
      ensures r == Err(InvalidInode) <==> n == 0 || n >= sb.inodeCount
      ensures 0 < n < sb.inodeCount ==> (r == Err(NotFound) <==> old(Ino(n)).kind == FREE)
      ensures r.Err? ==> r.error in {InvalidInode, NotFound} && disk == old(disk)
      ensures r.Ok? ==>
        && Geometry(View()) && n < sb.inodeCount
        && Table(View()) == old(Table(View()))[n as nat := old(Ino(n)).(uid := who.uid, gid := who.gid, mtime := clock)]
        && (Valid() <==> old(Valid())) && (Valid() ==> Abs() == old(Abs()))
    {
      hide Sound, NodesOf, Table, Geometry;
      var i := ReadInode(n);
      if i.Err? {
        return Err(i.error);
      }
      var ino := i.value;
      if ino.kind == FREE {
        return Err(NotFound);
      }
      StoreMeta(n, ino.(uid := who.uid, gid := who.gid, mtime := clock));
      return Ok(());
    }

    /** New permission bits, of which nine are kept; nothing else that anybody can see changes. */
    method ChangeMode(n: u32, mode: u16) returns (r: Result<()>)
      requires Geometry(View())
      modifies this`disk
      ensures r == Err(InvalidInode) <==> n == 0 || n >= sb.inodeCount
      ensures 0 < n < sb.inodeCount ==> (r == Err(NotFound) <==> old(Ino(n)).kind == FREE)
      ensures r.Err? ==> r.error in {InvalidInode, NotFound} && disk == old(disk)
      ensures r.Ok? ==>
        && Geometry(View()) && n < sb.inodeCount
        && Table(View()) == old(Table(View()))[n as nat := old(Ino(n)).(mode := mode % 512, mtime := clock)]
        && (Valid() <==> old(Valid())) && (Valid() ==> Abs() == old(Abs()))
    {
      hide Sound, NodesOf, Table, Geometry;
      var i := ReadInode(n);
      if i.Err? {
        return Err(i.error);
      }
      var ino := i.value;
      if ino.kind == FREE {
        return Err(NotFound);
      }
      StoreMeta(n, ino.(mode := mode % 512, mtime := clock));
      return Ok(());
    }

    // -------------------------------------------------------------- files

    /** The regular-file arm of `write`: read the inode, write through it, store it. */
    method WriteAt(n: u32, offset: u64, data: seq<byte>) returns (r: Result<nat>)
      requires Valid() && offset + |data| < 0x1_0000_0000_0000_0000
      modifies this`sb, this`blockBitmap, this`disk, this`owner
      ensures r == Err(InvalidInode) <==> n == 0 || n >= old(sb.inodeCount)
      ensures 0 < n < old(sb.inodeCount) ==> (r == Err(NotFile) <==> old(Ino(n)).kind == FREE)
      ensures r == Err(InvalidInode) || r == Err(NotFile) ==> View() == old(View()) && owner == old(owner)
      ensures r.Ok? ==> r.value == |data|
      ensures r.Ok? && old(Ino(n)).kind == FILE ==> Valid() && WritesFile(old(Abs()), n, offset, data, Abs())
      ensures r.Ok? ==> Geometry(View()) && Accounted(View(), Table(View()), owner)
      ensures r.Ok? ==> Geometry(View()) && LaidOver(old(View()), View(), n, offset, data, clock)
      ensures r.Ok? ==> if Readable(View(), n) then Valid() && BecameNode(old(View()), View(), n)
        else Unsound(View(), Table(View()))
      ensures r.Ok? ==> OnlyAt(old(Table(View())), Table(View()), n)
      ensures Geometry(View()) && if r.Ok? then RightsKept(old(Table(View())), Table(View()))
        else Table(View()) == old(Table(View()))
      ensures r.Err? ==> r.error in {InvalidInode, NotFile, NoSpace}
      ensures 0 < n < old(sb.inodeCount) ==>
        (r == Err(NoSpace) <==>
           old(Ino(n)).kind != FREE && !Fits(old(disk), old(Ino(n)), old(sb.freeBlocks), Base(offset), |data|))
      ensures r == Err(NoSpace) && old(Ino(n)).kind == FILE ==>
        if Spoils(old(disk), old(Ino(n)), old(sb.freeBlocks), Base(offset), |data|)
        then Geometry(View()) && Unsound(View(), Table(View()))
        else Valid() && WritesPart(old(Abs()), n, Base(offset), data, Abs())
      ensures r == Err(NoSpace) ==> exists held :: HeldInMemory(View(), owner, n, old(Ino(n)), held)
    {
      hide Sound, Rewrites, Shaped, Overlaid, Grown, Local, Working, InodeAt, WritesFile, BitmapBlocks, TableBlocks,
        BrokeOff, Spoils, WritesPart, Base, Table, Geometry, NodesOf, Fits, RightsKept, WellFormed, NodeOf, Accounted,
        Unsound, SameFile;
      var i := ReadInode(n);
      if i.Err? {
        return Err(i.error);
      }
      var ino := i.value;
      ghost var t := Table(View());
      if ino.kind == FREE {
        return Err(NotFile);
      }
      ghost var fs0, owner0 := View(), owner;
      SoundWorking(fs0, owner0, t, n);
      var ino';
      r, ino' := WriteInodeData(t, n, ino, offset, data);
      ghost var fs1 := View();
      RewritesGeometry(fs0, owner0, fs1, owner, t, n, ino, ino');
      if r.Err? {
        HeldStays(fs0, owner0, fs1, owner, t, n, ino, ino');
        if ino.kind == FILE && r == Err(NoSpace) {
          ghost var w :| BrokeOff(fs0.disk, ino, fs0.sb.freeBlocks, disk, ino', Base(offset), data, w);
          BrokenWrite(fs0, owner0, fs1, owner, t, n, ino, ino', Base(offset), data, w);
        }
        return;
      }
      var w := WriteInode(n, ino');
      if ino.kind == FILE {
        FileWritten(fs0, owner0, fs1, owner, t, n, ino, ino', offset, data);
        SoundSameData(fs1, View(), t[n := ino'], owner);
      }
      RawWritten(fs0, owner0, fs1, owner, View(), t, n, ino, ino', Base(offset), data);
      AccountedStored(fs0, owner0, fs1, owner, View(), t, n, ino, ino');
      SameFileStill(fs0, owner0, fs1, owner, t, n, ino, ino');
      OnlyOne(t, Table(View()), n, ino');
    }

    /** Truncation, and exactly when it keeps the accounting and the invariant. */
    method Truncate(n: u32, newSize: u64) returns (r: Result<()>)
      requires Valid()
      modifies this`sb, this`blockBitmap, this`disk, this`owner
      ensures r == Err(InvalidInode) <==> n == 0 || n >= old(sb.inodeCount)
      ensures 0 < n < old(sb.inodeCount) ==>
        && (r == Err(NotFile) <==> old(Ino(n)).kind != FILE)
        && (r == Err(Panic) <==> old(Ino(n)).kind == FILE && ShrinksIndirect(old(Ino(n)), newSize) &&
                                 LastIndex(old(Ino(n)).size) >= MAX_BLOCKS)
      ensures r.Err? ==> r.error in {InvalidInode, NotFile, Panic}
      ensures r == Err(InvalidInode) || r == Err(NotFile) ==> View() == old(View()) && owner == old(owner)
      ensures r.Ok? ==> Geometry(View()) && sb == old(sb).(freeBlocks := sb.freeBlocks)
      ensures r.Ok? ==> Ino(n) == Cut(old(Ino(n)), newSize) && RightsKept(old(Table(View())), Table(View()))
      ensures r.Ok? ==> OnlyAt(old(Table(View())), Table(View()), n)
      ensures r.Ok? ==>
          ((exists o :: Accounted(View(), Table(View()), o)) <==>
             !Strands(old(disk), old(Ino(n)), newSize) && !Leaks(old(disk), old(Ino(n)), newSize))
      ensures r.Ok? ==>
        if CutsRight(old(disk), old(Ino(n)), newSize)
        then
          && Valid() && IsFile(old(Abs()), n)
          && Abs() == old(Abs())[n as nat := File(FileBytes(old(disk), Cut(old(Ino(n)), newSize)))]
        else Unsound(View(), Table(View()))
      ensures r.Ok? && CutsRight(old(disk), old(Ino(n)), newSize) ==>
        (newSize < old(Ino(n)).size ==> old(Ino(n)).size <= CUT_LIMIT) ==> ResizesFile(old(Abs()), n, newSize, Abs())
    {
      hide Sound, Rewrites, Shaped, Local, Working, InodeAt, ResizesFile, BitmapBlocks, TableBlocks, ByteAt,
        Accounted, Strands, Leaks, Cut, Unsound, Unaccountable, RightsKept;
      var i := ReadInode(n);
      if i.Err? {
        return Err(i.error);
      }
      var ino := i.value;
      if ino.kind != FILE {
        return Err(NotFile);
      }
      ghost var t := Table(View());
      ghost var fs0, owner0 := View(), owner;
      SoundWorking(fs0, owner0, t, n);
      var ino';
      r, ino' := TruncateInode(t, n, ino, newSize);
      if r.Err? { return; }
      ghost var fs1 := View();
      SameTable(fs0, fs1);
      var w := WriteInode(n, ino');
      CutFile(ino, newSize);
      OnlyOne(t, Table(View()), n, ino');
      CutStored(fs0, owner0, fs1, owner, View(), t, t[n := ino'], n, ino, newSize);
    }

    method WriteFile(n: u32, data: seq<byte>) returns (r: Result<()>)
      requires Valid() && |data| < 0x1_0000_0000_0000_0000
      requires 0 < n < sb.inodeCount && Ino(n).kind == FILE ==> CutsRight(disk, Ino(n), 0)
      modifies this`sb, this`blockBitmap, this`disk, this`owner
      ensures r == Err(InvalidInode) <==> n == 0 || n >= old(sb.inodeCount)
      ensures 0 < n < old(sb.inodeCount) ==> (r == Err(NotFile) <==> old(Ino(n)).kind != FILE)
      ensures r == Err(InvalidInode) || r == Err(NotFile) ==> View() == old(View()) && owner == old(owner)
      ensures r.Ok? ==>
        && Valid() && IsFile(old(Abs()), n) && Abs() == old(Abs())[n as nat := File(data)]
        && |data| <= MAX_BLOCKS * BLOCK_SIZE && RightsKept(old(Table(View())), Table(View()))
        && Ino(n).mtime == if data == [] then old(Ino(n)).mtime else clock
      ensures r.Ok? ==> OnlyAt(old(Table(View())), Table(View()), n)
      ensures r.Err? ==> r.error in {InvalidInode, NotFile, NoSpace}
      ensures 0 < n < old(sb.inodeCount) ==>
        (r == Err(NoSpace) <==>
           old(Ino(n)).kind == FILE && !Replaceable(old(disk), old(Ino(n)), old(sb.freeBlocks), |data|))
      ensures r == Err(NoSpace) ==>
        && Geometry(View()) && Table(View()) == old(Table(View()))
        && exists held :: HeldInMemory(View(), owner, n, old(Ino(n)), held)
    {
      hide Sound, Rewrites, Shaped, Overlaid, Grown, Local, Working, InodeAt, BitmapBlocks, TableBlocks, ByteAt,
        Table, Geometry, RightsKept, Accounted, NodesOf;
      var i := ReadInode(n);
      if i.Err? {
        return Err(i.error);
      }
      var ino := i.value;
      if ino.kind != FILE {
        return Err(NotFile);
      }
      ghost var t := Table(View());
      ghost var fs0, owner0 := View(), owner;
      SoundWorking(fs0, owner0, t, n);
      NeverStrandsToZero(disk, ino);
      var tr, ino1 := TruncateInode(t, n, ino, 0);
      ghost var fs1, owner1 := View(), owner;
      RewritesWorking(fs0, owner0, fs1, owner1, t, n, ino, ino1);
      CutFits(fs0, owner0, fs1, owner1, t, n, ino, ino1, |data|);
      var wr, ino2 := WriteInodeData(t[n := ino1], n, ino1, 0, data);
      ghost var fs2 := View();
      if wr.Err? {
        RewritesGeometry(fs0, owner0, fs1, owner1, t, n, ino, ino1);
        RewritesGeometry(fs1, owner1, fs2, owner, t[n := ino1], n, ino1, ino2);
        RewritesTrans(fs0, owner0, fs1, owner1, fs2, owner, t, n, ino, ino1, ino2);
        HeldStays(fs0, owner0, fs2, owner, t, n, ino, ino2);
        return Err(wr.error);
      }
      FileReplaced(fs0, owner0, fs1, owner1, fs2, owner, t, n, ino, ino1, ino2, data);
      RewritesGeometry(fs0, owner0, fs1, owner1, t, n, ino, ino1);
      RewritesGeometry(fs1, owner1, fs2, owner, t[n := ino1], n, ino1, ino2);
      var w := WriteInode(n, ino2);
      assert t[n := ino1][n := ino2] == t[n := ino2];
      SoundSameData(fs2, View(), t[n := ino2], owner);
      SameFileStill(fs0, owner0, fs1, owner1, t, n, ino, ino1);
      SameFileStill(fs1, owner1, fs2, owner, t[n := ino1], n, ino1, ino2);
      OnlyOne(t, Table(View()), n, ino2);
      CutFile(ino, 0);
      return Ok(());
    }

    method ReadFile(n: u32) returns (r: Result<seq<byte>>)
      requires Valid()
      ensures r == Err(InvalidInode) <==> n == 0 || n >= sb.inodeCount
      ensures 0 < n < sb.inodeCount ==> (r == Err(NotFile) <==> Ino(n).kind != FILE)
      ensures r.Ok? ==> IsFile(Abs(), n) && |r.value| == |Abs()[n as nat].bytes|
      ensures r.Ok? ==> forall p :: 0 <= p < |r.value| ==> r.value[p] == Abs()[n as nat].bytes[Place(0, p)]
      ensures r.Ok? && |r.value| <= INDEX_LIMIT ==> r.value == Abs()[n as nat].bytes
      ensures IsFile(Abs(), n) ==>
          (r.Ok? <==> Ino(n).indirect == 0 || |Abs()[n as nat].bytes| <= MAX_BLOCKS * BLOCK_SIZE)
    {
      hide Sound, InodeAt, BitmapBlocks, TableBlocks, ByteAt, Place, InReach;
      NodeKinds(View(), Table(View()), owner, n);
      SoundAccounted(View(), Table(View()), owner);
      var i := ReadInode(n);
      if i.Err? {
        return Err(i.error);
      }
      var ino := i.value;
      if ino.kind != FILE {
        return Err(NotFile);
      }
      SoundWorking(View(), owner, Table(View()), n);
      WholeInReach(ino.size);
      var buf := new byte[ino.size as nat](_ => 0);
      var d := ReadInodeData(n, 0, buf);
      if d.Err? {
        return Err(d.error);
      }
      if ino.size <= INDEX_LIMIT {
        forall p | 0 <= p < ino.size ensures Place(0, p) == p { PlaceIs(0, p); }
        assert buf[..] == FileBytes(disk, ino);
      }
      return Ok(buf[..]);
    }

    /** Whatever the file held before, what was written is what is read back. */
    method WriteThenRead(n: u32, data: seq<byte>) returns (written: bool, back: Result<seq<byte>>)
      requires Valid() && |data| < 0x1_0000_0000_0000_0000
      requires 0 < n < sb.inodeCount && Ino(n).kind == FILE ==> CutsRight(disk, Ino(n), 0)
      modifies this`sb, this`blockBitmap, this`disk, this`owner
      ensures written <==>
        && 0 < n < old(sb.inodeCount) && old(Ino(n)).kind == FILE
        && Replaceable(old(disk), old(Ino(n)), old(sb.freeBlocks), |data|)
      ensures written ==> back == Ok(data)
    {
      hide Sound, Table, Geometry, NodesOf;
      var w := WriteFile(n, data);
      if w.Err? {
        return false, Err(w.error);
      }
      back := ReadFile(n);
      written := true;
    }

    // -------------------------------------------------------------- inode bitmap

    method AllocInode(ghost t: seq<Inode>) returns (r: Result<u32>)
      requires InodesAgree(sb, inodeBitmap, t) && |t| == sb.inodeCount
      modifies this`sb, this`inodeBitmap
      ensures r.Err? <==> old(sb.freeInodes) == 0 || forall n :: 1 <= n < |t| ==> t[n].kind != FREE
      ensures r.Err? ==> r.error == NoSpace && View() == old(View())
      ensures r.Ok? ==>
        && 0 < r.value < |t| && t[r.value].kind == FREE
        && (forall n :: 1 <= n < r.value ==> t[n].kind != FREE)
        && inodeBitmap == WithBit(old(inodeBitmap), r.value)
        && old(sb.freeInodes) >= 1 && sb == old(sb).(freeInodes := old(sb.freeInodes) - 1)
    {
      hide Bit;
      if sb.freeInodes == 0 {
        return Err(NoSpace);
      }
      for i := 1 to sb.inodeCount as nat
        invariant sb == old(sb) && inodeBitmap == old(inodeBitmap)
        invariant forall n :: 1 <= n < i ==> t[n].kind != FREE
      {
        if !BitAt(inodeBitmap, i) {
          inodeBitmap := WithBit(inodeBitmap, i);
          sb := sb.(freeInodes := sb.freeInodes - 1);
          return Ok(i);
        }
      }
      return Err(NoSpace);
    }

    method FreeInode(n: u32)
      requires n < 8 * |inodeBitmap| && sb.freeInodes < 0xFFFF_FFFF
      modifies this`sb, this`inodeBitmap
      ensures inodeBitmap == WithoutBit(old(inodeBitmap), n)
      ensures sb == old(sb).(freeInodes := old(sb.freeInodes) + 1)
    {
      inodeBitmap := WithoutBit(inodeBitmap, n);
      sb := sb.(freeInodes := sb.freeInodes + 1);
    }

    // -------------------------------------------------------------- directories

    /** Fetch the block holding entry `j` of a directory, and decode the entry. */
    method ReadEntry(ghost t: seq<Inode>, ghost n: nat, ino: Inode, j: nat) returns (b: u32, e: Entry)
      requires Sound(View(), t, owner) && n < |t| && t[n] == ino && ino.kind == DIR && j < Slots(ino)
      ensures b == BlockPtr(disk, ino, j / ENTRIES_PER_BLOCK) && 0 < b < |disk|
      ensures e == EntryAt(disk, ino, j) && e == Entries(disk, ino)[j]
    {
      hide Sound, BlockPtr, Working, Shaped, Distinct;
      SoundWorking(View(), owner, t, n);
      IndexInRange(View(), owner, t, n, ino);
      var k := j / ENTRIES_PER_BLOCK;
      var g := GetInodeBlock(ino, k);
      b := g.value;
      DataInRange(View(), owner, t, n, ino, k);
      var buf := disk[b];
      var off := ENTRY_SIZE * (j % ENTRIES_PER_BLOCK);
      e := DecodeEntry(buf[off..off + ENTRY_SIZE]);
      assert EntriesOf(buf)[j % ENTRIES_PER_BLOCK] == e;
    }

    method DirLookup(dir: u32, name: Name) returns (r: Result<u32>)
      requires Valid()
      ensures r == Err(InvalidInode) <==> dir == 0 || dir >= sb.inodeCount
      ensures r == Err(NotDirectory) <==> 0 < dir < sb.inodeCount && !IsDir(Abs(), dir)
      ensures r.Ok? <==> 0 < dir && name in Dirents(Abs(), dir)
      ensures r.Ok? ==> r.value == Dirents(Abs(), dir)[name] && r.value != 0
      ensures r.Err? ==> r.error in {InvalidInode, NotDirectory, NotFound}
    {
      hide Sound, InodeAt, BitmapBlocks, TableBlocks, Bind, Working, Shaped, EntryAt, Table, Geometry;
      var i := ReadInode(dir);
      if i.Err? {
        return Err(i.error);
      }
      var ino := i.value;
      ghost var t := Table(View());
      if ino.kind != DIR {
        return Err(NotDirectory);
      }
      SoundWorking(View(), owner, t, dir);
      ghost var es := Entries(disk, ino);
      for j := 0 to Slots(ino)
        invariant forall i :: 0 <= i < j ==> !(Used(es[i]) && es[i].name == name)
      {
        var b, e := ReadEntry(t, dir, ino, j);
        if Used(e) && e.name == name {
          LookupHit(es, j);
          return Ok(e.inode);
        }
      }
      LookupMiss(es, name);
      return Err(NotFound);
    }

    method DirList(dir: u32) returns (r: Result<seq<Entry>>)
      requires Valid()
      ensures r.Ok? <==> IsDir(Abs(), dir)
      ensures r.Ok? ==> r.value == Listing(Entries(disk, Ino(dir)))
      ensures r.Ok? ==>
        && |r.value| == |Dirents(Abs(), dir)|
        && (forall e :: e in r.value ==> e.name in Dirents(Abs(), dir) && Dirents(Abs(), dir)[e.name] == e.inode)
      ensures r.Err? ==> r.error in {InvalidInode, NotDirectory}
    {
      hide Sound, InodeAt, BitmapBlocks, TableBlocks, Bind, Working, Shaped, EntryAt, Table, Geometry;
      NodeKinds(View(), Table(View()), owner, dir);
      var i := ReadInode(dir);
      if i.Err? {
        return Err(i.error);
      }
      var ino := i.value;
      ghost var t := Table(View());
      if ino.kind != DIR {
        return Err(NotDirectory);
      }
      SoundWorking(View(), owner, t, dir);
      ghost var es := Entries(disk, ino);
      var result := [];
      ListingWhole(es);
      for j := 0 to Slots(ino)
        invariant result == Listing(es[..j])
      {
        var b, e := ReadEntry(t, dir, ino, j);
        ListingStep(es, j);
        if Used(e) {
          result := result + [e];
        }
      }
      ListingIsMap(es);
      return Ok(result);
    }

    /** Store an entry into slot `j` of directory `dir`. */
    method StoreEntry(ghost t: seq<Inode>, ghost dir: nat, ino: Inode, j: nat, b: u32, target: u32, name: Name)
      requires Valid() && t == Table(View())
      requires dir < |t| && t[dir] == ino && ino.kind == DIR && j < Slots(ino)
      requires b == BlockPtr(disk, ino, j / ENTRIES_PER_BLOCK) && 0 < b < |disk|
      modifies this`disk
      ensures Geometry(View()) && Table(View()) == t
      ensures Entries(disk, ino) == old(Entries(disk, ino))[j := Entry(target, Stored(name))]
      ensures Valid() <==> Distinct(Entries(disk, ino))
      ensures Valid() ==> Abs() == old(Abs())[dir := Dir(Bind(Entries(disk, ino)))]
    {
      hide Sound, InodeAt, BitmapBlocks, TableBlocks, Bind, EntryAt, BlockPtr, Distinct, EncodeEntry, Splice, Stored;
      var off := ENTRY_SIZE * (j % ENTRIES_PER_BLOCK);
      disk := disk[b := Splice(disk[b], off, EncodeEntry(target, name))];
      SlotStored(old(View()), owner, View(), t, dir, ino, j, target, name);
    }

    /** What a directory update keeps even when it fails: the counters, and every data block. */
    twostate predicate Bookkept()
      reads this
    {
      && sb == old(sb).(freeBlocks := sb.freeBlocks)
      && BitsAgree(sb, blockBitmap, owner)
      && forall b :: b in old(owner) && old(owner)[b].Data? ==> b in owner
    }

    /** The append path of `dir_add_entry`: every slot is taken. */
    method AppendEntry(ghost t: seq<Inode>, dir: u32, ino: Inode, target: u32, name: Name) returns (r: Result<()>)
      requires Valid() && t == Table(View())
      requires 0 < dir < |t| && t[dir] == ino && ino.kind == DIR && target != 0
      modifies this`sb, this`blockBitmap, this`disk, this`owner
      ensures r.Ok? ==> (Valid() <==> Stored(name) !in Dirents(old(Abs()), dir))
      ensures r.Ok? && Valid() ==> Abs() == WithEntry(old(Abs()), dir, Stored(name), target)
      ensures r.Ok? ==> Geometry(View()) && OnlyAt(t, Table(View()), dir)
      ensures Bookkept()
      ensures r.Err? <==> Crammed(ino, old(sb.freeBlocks))
      ensures r.Ok? ==> sb.freeBlocks == old(sb.freeBlocks) - SlotNeed(ino)
      ensures r.Err? ==> r.error == NoSpace && Geometry(View()) && Table(View()) == t
      ensures r.Err? ==>
        if LosesBlock(ino, old(sb.freeBlocks)) then Unsound(View(), t) else View() == old(View()) && Valid()
    {
      hide Sound, Rewrites, Shaped, Overlaid, Grown, Local, Working, InodeAt, BitmapBlocks, TableBlocks, EncodeEntry,
        Bind, EntryAt, BitsAgree, Stored, Table, Geometry, Base, BrokeOff, FailsAt, Unsound, LosesBlock, Crammed,
        Fits, NodesOf, BlockPtr, ByteAt, SlotNeed, OnlyAt, RightsKept, OthersStay;
      ghost var fs0, owner0 := View(), owner;
      SoundWorking(fs0, owner0, t, dir);
      CrammedIff(fs0, t, owner0, dir, ino);
      BaseIs(ino.size);
      var offset := ino.size;
      var w, ino1 := WriteInodeData(t, dir, ino, offset, EncodeEntry(target, name));
      RewritesKept(fs0, owner0, View(), owner, t, dir, ino, ino1);
      GrownKeeps(fs0, owner0, View(), owner, t, dir, ino, ino1, (offset + ENTRY_SIZE - 1) / BLOCK_SIZE);
      RewritesFrame(fs0, owner0, View(), owner, t, dir, ino, ino1);
      RewritesGeometry(fs0, owner0, View(), owner, t, dir, ino, ino1);
      if w.Err? {
        LosesIff(ino, fs0.sb.freeBlocks);
        PairedSizes(ino.size);
        AppendFails(fs0, owner0, View(), owner, t, dir, ino, ino1, AsU32(offset / BLOCK_SIZE));
        return Err(w.error);
      }
      ghost var fs1 := View();
      if Stored(name) in Bind(Entries(fs0.disk, ino)) {
        EntryDoubled(fs0, owner0, fs1, owner, t, dir, ino, ino1, target, name);
      } else {
        EntryAppended(fs0, owner0, fs1, owner, t, dir, ino, ino1, target, name);
      }
      var ino2 := ino1.(size := ino1.size + ENTRY_SIZE);
      var s := WriteInode(dir, ino2);
      SameFileStill(fs0, owner0, fs1, owner, t, dir, ino, ino1);
      OnlyOne(t, Table(View()), dir, ino2);
      if Stored(name) in Bind(Entries(fs0.disk, ino)) {
        if Valid() { SoundSameData(View(), fs1, t[dir as nat := ino2], owner); }
      } else {
        SoundSameData(fs1, View(), t[dir as nat := ino2], owner);
      }
      return Ok(());
    }

    /** Directory `dir` cannot take another entry when `free` blocks are free. */
    ghost predicate NoRoom(dir: nat, free: nat)
      reads this
      requires Geometry(View())
    {
      NoRoomIn(View(), dir, free)
    }

    /** Free blocks that one more entry in directory `dir` takes. */
    ghost function DirNeed(dir: nat): nat
      reads this
      requires Geometry(View())
    {
      NeedIn(View(), dir)
    }

    method DirAddEntry(dir: u32, name: Name, target: u32) returns (r: Result<()>)
      requires Valid() && target != 0
      modifies this`sb, this`blockBitmap, this`disk, this`owner
      ensures r == Err(NameTooLong) <==> |name| >= MAX_NAME_LEN
      ensures r == Err(AlreadyExists) <==> |name| < MAX_NAME_LEN && name in Dirents(old(Abs()), dir)
      ensures r == Err(InvalidInode) || r == Err(NotDirectory) <==> |name| < MAX_NAME_LEN && !IsDir(old(Abs()), dir)
      ensures r == Err(NoSpace) <==>
        |name| < MAX_NAME_LEN && IsDir(old(Abs()), dir) && name !in Dirents(old(Abs()), dir)
          && old(NoRoom(dir, sb.freeBlocks))
      ensures r.Err? ==> r.error in {NameTooLong, AlreadyExists, InvalidInode, NotDirectory, NoSpace}
      ensures r.Err? && r.error != NoSpace ==> View() == old(View()) && owner == old(owner)
      ensures r.Ok? ==> (Valid() <==> Stored(name) !in Dirents(old(Abs()), dir))
      ensures r.Ok? && Valid() ==> Abs() == WithEntry(old(Abs()), dir, Stored(name), target)
      ensures r.Ok? && NulFree(name) ==> Stored(name) == name && Valid()
      ensures r.Ok? ==> Geometry(View()) && OnlyAt(old(Table(View())), Table(View()), dir)
      ensures r.Ok? ==> sb.freeBlocks == old(sb.freeBlocks) - old(DirNeed(dir))
      ensures r == Err(NoSpace) ==>
        if old(LosesIn(View(), dir, sb.freeBlocks)) then Geometry(View()) && Unsound(View(), Table(View()))
        else View() == old(View()) && Valid()
      ensures Bookkept()
      ensures r.Err? ==> Geometry(View()) && Table(View()) == old(Table(View()))
    {
      hide Sound, InodeAt, BitmapBlocks, TableBlocks, Bind, Working, Shaped, EntryAt, DirLayout, BitsAgree, NodesOf,
        Stored, Distinct, Entries, NulFree, Table, Geometry, Unsound, LosesBlock, OnlyAt, RightsKept, OthersStay;
      SoundBits(View(), Table(View()), owner);
      if |name| >= MAX_NAME_LEN {
        return Err(NameTooLong);
      }
      NodeKinds(View(), Table(View()), owner, dir);
      var l := DirLookup(dir, name);
      if l.Ok? {
        return Err(AlreadyExists);
      }
      var i := ReadInode(dir);
      if i.Err? {
        return Err(i.error);
      }
      var ino := i.value;
      ghost var t := Table(View());
      if ino.kind != DIR {
        return Err(NotDirectory);
      }
      SoundWorking(View(), owner, t, dir);
      ghost var es := Entries(disk, ino);
      StoredIff(name);
      for j := 0 to Slots(ino)
        invariant View() == old(View()) && owner == old(owner)
        invariant forall i :: 0 <= i < j ==> Used(es[i])
      {
        var b, e := ReadEntry(t, dir, ino, j);
        if !Used(e) {
          FillOrClash(es, j, target, Stored(name));
          StoreEntry(t, dir, ino, j, b, target, name);
          assert t == t[dir as nat := ino];
          OnlyOne(t, t, dir, ino);
          return Ok(());
        }
      }
      r := AppendEntry(t, dir, ino, target, name);
    }

    method DirRemoveEntry(dir: u32, name: Name) returns (r: Result<u32>)
      requires Valid()
      modifies this`disk
      ensures r.Ok? <==> name in Dirents(old(Abs()), dir)
      ensures r == Err(NotFound) <==> IsDir(old(Abs()), dir) && name !in Dirents(old(Abs()), dir)
      ensures r.Err? ==> r.error in {InvalidInode, NotDirectory, NotFound} && disk == old(disk)
      ensures r.Ok? ==>
        && Valid() && r.value != 0 && r.value == Dirents(old(Abs()), dir)[name]
        && Abs() == WithoutEntry(old(Abs()), dir, name)
        && Table(View()) == old(Table(View()))
        && 0 < dir < sb.inodeCount && !AllUsed(disk, Ino(dir)) && Storable(name)
    {
      hide Sound, InodeAt, BitmapBlocks, TableBlocks, Bind, Working, Shaped, EntryAt, DirLayout, Table;
      NodeKinds(View(), Table(View()), owner, dir);
      var i := ReadInode(dir);
      if i.Err? {
        return Err(i.error);
      }
      var ino := i.value;
      ghost var t := Table(View());
      if ino.kind != DIR {
        return Err(NotDirectory);
      }
      SoundWorking(View(), owner, t, dir);
      ghost var es := Entries(disk, ino);
      for j := 0 to Slots(ino)
        invariant disk == old(disk)
        invariant forall i :: 0 <= i < j ==> !(Used(es[i]) && es[i].name == name)
      {
        var b, e := ReadEntry(t, dir, ino, j);
        if Used(e) && e.name == name {
          LookupHit(es, j);
          StorableNames(es, name);
          StoredIff(EMPTY_NAME);
          BindClear(es, j);
          StoreEntry(t, dir, ino, j, b, 0, EMPTY_NAME);
          assert Ino(dir) == ino;
          assert !Used(Entries(disk, ino)[j]);
          assert !AllUsed(disk, Ino(dir));
          assert Abs() == WithoutEntry(old(Abs()), dir, name);
          return Ok(e.inode);
        }
      }
      LookupMiss(es, name);
      return Err(NotFound);
    }

    // -------------------------------------------------------------- creating and removing

    /** `alloc_inode` and `write_inode` of a new file: an unlinked, empty file. */
    method BirthFile() returns (r: Result<u32>)
      requires Valid()
      modifies this`sb, this`inodeBitmap, this`disk
      ensures sb == old(sb).(freeInodes := sb.freeInodes)
      ensures r.Ok? ==>
        && Valid() && 0 < r.value < sb.inodeCount && r.value as nat !in old(Abs())
        && Abs() == old(Abs())[r.value as nat := File([])]
        && sb.freeInodes == old(sb.freeInodes) - 1 && r.value < 8 * |inodeBitmap|
        && old(Table(View()))[r.value].kind == FREE
           && Table(View()) == old(Table(View()))[r.value as nat := FileInode(clock)]
        && SameViews(old(disk), disk, old(Table(View())))
      ensures r.Err? ==> r.error == NoSpace && View() == old(View())
      ensures r.Err? <==> old(sb.freeInodes) == 1
    {
      hide Sound, InodeAt, BitmapBlocks, TableBlocks, WithBit, InodesAgree, WellFormed, NodeOf, SameViews, Geometry,
        Table;
      ghost var t, fs0 := Table(View()), View();
      SoundInodes(fs0, t, owner);
      InodesFull(fs0, t, owner);
      r := AllocInode(t);
      if r.Err? { return; }
      var ino := NEW_FILE.(mtime := clock);
      Born(fs0.sb, fs0.inodeBitmap, t, r.value, ino, sb.freeInodes);
      SameTableSb(fs0, View());
      var w := WriteInode(r.value, ino);
      NewFileNode(disk, clock);
      SameDataViews(fs0, disk, t, owner);
      EmptySwapped(fs0, owner, t, r.value, ino, View());
    }

    /** `free_inode` of an inode that has been stored: it stays live under a clear bit. */
    method TakeBack(n: u32)
      requires Geometry(View()) && n < sb.inodeCount && Table(View())[n].kind != FREE
      requires n < 8 * |inodeBitmap| && sb.freeInodes < 0xFFFF_FFFF
      modifies this`sb, this`inodeBitmap
      ensures !Valid() && Geometry(View()) && Table(View()) == old(Table(View()))
    {
      hide Sound, Table, Geometry;
      ghost var fs := View();
      FreeInode(n);
      SameTableSb(fs, View());
      BitAstray(View(), Table(View()), owner, n);
    }

    /** The second half of `create_file`: the entry in the directory, or else the rollback. */
    method NameFile(dir: u32, name: Name, n: u32) returns (r: Result<()>)
      requires Valid() && 0 < n < sb.inodeCount && Table(View())[n].kind != FREE
      requires n < 8 * |inodeBitmap| && sb.freeInodes < 0xFFFF_FFFF
      modifies this
      ensures clock == old(clock)
      ensures r == Err(NameTooLong) <==> |name| >= MAX_NAME_LEN
      ensures r == Err(AlreadyExists) <==> |name| < MAX_NAME_LEN && name in Dirents(old(Abs()), dir)
      ensures r == Err(InvalidInode) || r == Err(NotDirectory) <==> |name| < MAX_NAME_LEN && !IsDir(old(Abs()), dir)
      ensures r == Err(NoSpace) <==>
        |name| < MAX_NAME_LEN && IsDir(old(Abs()), dir) && name !in Dirents(old(Abs()), dir)
          && old(NoRoom(dir, sb.freeBlocks))
      ensures r.Ok? ==> (Valid() <==> Stored(name) !in Dirents(old(Abs()), dir))
      ensures r.Ok? && Valid() ==> Abs() == WithEntry(old(Abs()), dir, Stored(name), n)
      ensures r.Ok? && NulFree(name) ==> Stored(name) == name && Valid()
      ensures r.Ok? ==>
        sb == old(sb).(freeBlocks := sb.freeBlocks) && sb.freeBlocks == old(sb.freeBlocks) - old(DirNeed(dir))
      ensures r.Ok? ==> Geometry(View()) && OnlyAt(old(Table(View())), Table(View()), dir)
      ensures r.Err? ==> !Valid() && r.error in {NameTooLong, AlreadyExists, InvalidInode, NotDirectory, NoSpace}
      ensures r.Err? ==> Geometry(View()) && Table(View()) == old(Table(View()))
    {
      hide Sound, Table, Geometry, NodesOf, BitsAgree, Stored, IsDir, Dirents, WithEntry, NulFree, NoRoomIn, NeedIn,
        LosesIn, Unsound, OnlyAt;
      r := DirAddEntry(dir, name, n);
      if r.Err? {
        TakeBack(n);
      }
    }

    /** What the caller of `create_file` can look up beforehand: whether it will succeed. */
    ghost predicate CanCreateFile(dir: nat, name: Name)
      reads this
      requires Geometry(View())
    {
      TakesFile(View(), dir, name)
    }

    method CreateFile(dir: u32, name: Name) returns (r: Result<u32>)
      requires Valid()
      modifies this
      ensures r.Ok? <==> old(CanCreateFile(dir, name))
      ensures Valid() <==>
        if old(CanCreateFile(dir, name)) then Stored(name) !in Dirents(old(Abs()), dir) else old(sb.freeInodes) == 1
      ensures r.Ok? && Valid() ==> CreatesFile(old(Abs()), dir, Stored(name), r.value, Abs())
      ensures r.Ok? ==>
          sb.freeBlocks == old(sb.freeBlocks) - old(DirNeed(dir)) && sb.freeInodes == old(sb.freeInodes) - 1
      ensures r.Ok? ==> Geometry(View()) && NewIn(old(Table(View())), Table(View()), r.value, NEW_FILE)
      ensures r.Ok? ==>
        var ino := Table(View())[r.value];
        && ino.kind == 1 && ino.mode == 0x1A4 && ino.uid == ino.gid == 0 && ino.mtime == clock == old(clock)
      ensures r.Ok? ==> OthersStay(old(Table(View())), Table(View()), r.value, dir)
      ensures r.Ok? ==> 0 < r.value < sb.inodeCount == old(sb.inodeCount)
      ensures r.Ok? && NulFree(name) ==> Stored(name) == name && Valid()
      ensures old(sb.freeInodes) != 1 ==>
        && (r == Err(NameTooLong) <==> |name| >= MAX_NAME_LEN)
        && (r == Err(AlreadyExists) <==> |name| < MAX_NAME_LEN && name in Dirents(old(Abs()), dir))
        && (r == Err(InvalidInode) || r == Err(NotDirectory) <==> |name| < MAX_NAME_LEN && !IsDir(old(Abs()), dir))
      ensures r.Err? ==> r.error in {NameTooLong, AlreadyExists, InvalidInode, NotDirectory, NoSpace}
      ensures r.Err? && old(sb.freeInodes) == 1 ==> r.error == NoSpace && View() == old(View())
      ensures r.Err? && old(sb.freeInodes) != 1 ==>
        && Geometry(View()) && exists n: nat :: LeftLive(old(Table(View())), Table(View()), n, FileInode(clock))
    {
      hide Sound, Table, Geometry, NodesOf, BitsAgree, Stored, SameViews, NulFree, NoRoomIn, NeedIn, LosesIn, Unsound,
        NewIn, OnlyAt, SameFile;
      StoredIff(name);
      ghost var t := Table(View());
      NodeKinds(View(), t, owner, dir);
      var n := BirthFile();
      if n.Err? {
        return n;
      }
      if IsDir(old(Abs()), dir) { RoomKept(old(View()), View(), n.value, FileInode(clock), dir, sb.freeBlocks); }
      ghost var t1 := Table(View());
      var a := NameFile(dir, name, n.value);
      if a.Err? {
        assert LeftLive(t, Table(View()), n.value, FileInode(clock));
        return Err(a.error);
      }
      BornFileIn(t, t1, Table(View()), n.value, clock, dir);
      return n;
    }

    /** The part of `create_dir` before the parent is told: inode, block, "." and "..". */
    method BirthDir(parent: u32) returns (r: Result<u32>, b: u32)
      requires Valid()
      modifies this
      ensures r.Ok? ==>
        && Valid() && sb.inodeCount == old(sb.inodeCount)
        && 0 < r.value < sb.inodeCount && r.value as nat !in old(Abs())
        && Abs() == old(Abs())[r.value as nat := FreshDir(r.value, parent)]
        && sb.freeInodes == old(sb.freeInodes) - 1 && r.value < 8 * |inodeBitmap|
        && b as nat in owner && owner[b as nat] == Data(r.value, 0)
        && old(Table(View()))[r.value].kind == FREE
           && Table(View()) == old(Table(View()))[r.value as nat := DirInode(b, clock)]
        && FirstFree(old(Table(View())), r.value) && SameViews(old(disk), disk, old(Table(View())))
        && sb.freeBlocks == old(sb.freeBlocks) - 1
      ensures r.Err? <==> old(sb.freeInodes) == 1 || old(sb.freeBlocks) == 0
      ensures r.Err? ==> r.error == NoSpace && (Valid() <==> old(sb.freeInodes) == 1)
      ensures clock == old(clock)
      ensures r.Err? && old(sb.freeInodes) == 1 ==> View() == old(View())
      ensures r.Err? ==> Geometry(View()) && Table(View()) == old(Table(View()))
      ensures r.Ok? ==> old(sb.freeInodes) != 1
    {
      hide Sound, InodeAt, BitmapBlocks, TableBlocks, WithBit, InodesAgree, WellFormed, NodeOf, NewDirBlock,
        BitsAgree, Owned, Table, BitAt, FreshDir, SameViews, WithoutBit;
      b := 0;
      ghost var t, fs0, owner0 := Table(View()), View(), owner;
      SoundInodes(fs0, t, owner);
      InodesFull(fs0, t, owner);
      r := AllocInode(t);
      if r.Err? { return; }
      var n := r.value;
      SoundAccounted(fs0, t, owner);
      BlockBitsOnly(fs0.sb, sb, blockBitmap, owner);
      ghost var sb1 := sb;
      var a := AllocBlock(Data(n, 0));
      if a.Err? {
        SameTableSb(fs0, View());
        BitAstray(View(), t, owner, n);
        return Err(a.error), b;
      }
      b := a.value;
      BlockBitsOnly(sb, sb.(freeInodes := fs0.sb.freeInodes), blockBitmap, owner);
      disk := disk[b := NewDirBlock(n, parent)];
      ghost var fs1 := View();
      TableElsewhere(fs0, fs1, b);
      var ino := DirInode(b, clock);
      Born(fs0.sb, fs0.inodeBitmap, t, n, ino, sb.freeInodes);
      var w := WriteInode(n, ino);
      InodesOnly(sb1, sb, inodeBitmap, t[n as nat := ino]);
      FreshBlockViews(fs0, owner0, t, b, NewDirBlock(n, parent), disk);
      DirBorn(fs0, owner0, t, n, b, clock, parent, View(), owner);
    }

    /** The second half of `create_dir`: the entry in the parent, or else the rollback. */
    method NameDir(parent: u32, name: Name, n: u32, b: u32) returns (r: Result<()>)
      requires Valid() && 0 < n < sb.inodeCount && Table(View())[n].kind != FREE
      requires n < 8 * |inodeBitmap| && sb.freeInodes < 0xFFFF_FFFF
      requires b as nat in owner && owner[b as nat].Data?
      modifies this
      ensures clock == old(clock)
      ensures r.Ok? <==>
        && |name| < MAX_NAME_LEN && IsDir(old(Abs()), parent) && name !in Dirents(old(Abs()), parent)
        && !old(NoRoom(parent, sb.freeBlocks))
      ensures r.Ok? ==> (Valid() <==> Stored(name) !in Dirents(old(Abs()), parent))
      ensures r.Ok? && Valid() ==> Abs() == WithEntry(old(Abs()), parent, Stored(name), n)
      ensures r.Ok? && NulFree(name) ==> Stored(name) == name && Valid()
      ensures r.Ok? ==>
        sb == old(sb).(freeBlocks := sb.freeBlocks) && sb.freeBlocks == old(sb.freeBlocks) - old(DirNeed(parent))
      ensures r.Ok? ==> Geometry(View()) && OnlyAt(old(Table(View())), Table(View()), parent)
      ensures r.Err? ==> !Valid() && r.error in {NameTooLong, AlreadyExists, InvalidInode, NotDirectory, NoSpace}
      ensures r.Err? ==> Geometry(View()) && Table(View()) == old(Table(View()))
      ensures r == Err(NameTooLong) ==> |name| >= MAX_NAME_LEN
      ensures r == Err(AlreadyExists) ==> IsDir(old(Abs()), parent) && name in Dirents(old(Abs()), parent)
      ensures r == Err(InvalidInode) || r == Err(NotDirectory) ==> !IsDir(old(Abs()), parent)
    {
      hide Sound, Table, Geometry, NodesOf, BitsAgree, Stored, IsDir, Dirents, WithEntry, NulFree, NoRoomIn, NeedIn,
        LosesIn, Unsound, OnlyAt;
      r := DirAddEntry(parent, name, n);
      if r.Err? {
        ghost var fs1 := View();
        FreeBlock(b);
        SameTableSb(fs1, View());
        TakeBack(n);
      }
    }

    /** The same for `create_dir`, whose parent may be the inode it is about to allocate. */
    ghost predicate CanCreateDir(parent: nat, name: Name)
      reads this
      requires Geometry(View())
    {
      TakesDir(View(), parent, name)
    }

    method CreateDir(parent: u32, name: Name) returns (r: Result<u32>)
      requires Valid()
      modifies this
      ensures r.Ok? <==> old(CanCreateDir(parent, name))
      ensures Valid() <==>
        if old(CanCreateDir(parent, name)) then !Taken(old(Abs()), parent, Stored(name)) else old(sb.freeInodes) == 1
      ensures r.Ok? ==> 0 < r.value < sb.inodeCount == old(sb.inodeCount)
      ensures r.Ok? && IsDir(old(Abs()), parent) ==> sb.freeBlocks == old(sb.freeBlocks) - 1 - old(DirNeed(parent))
      ensures r.Ok? ==> IsDir(old(Abs()), parent) || (parent == r.value && parent as nat !in old(Abs()))
      ensures r.Ok? ==> Geometry(View()) && NewIn(old(Table(View())), Table(View()), r.value, NEW_DIR)
      ensures r.Ok? && IsDir(old(Abs()), parent) ==> Table(View())[r.value].mtime == clock == old(clock)
      ensures r.Ok? ==>
        var ino := Table(View())[r.value]; ino.kind == 2 && ino.mode == 0x1ED && ino.uid == ino.gid == 0
      ensures r.Ok? ==> OthersStay(old(Table(View())), Table(View()), r.value, parent)
      ensures r.Ok? && Valid() && IsDir(old(Abs()), parent) ==>
          CreatesDir(old(Abs()), parent, Stored(name), r.value, Abs())
      ensures r.Ok? && Valid() && !IsDir(old(Abs()), parent) ==>
          CreatesLoop(old(Abs()), parent, Stored(name), r.value, Abs())
      ensures r.Ok? && NulFree(name) ==> Stored(name) == name && Valid()
      ensures r == Err(NameTooLong) ==> |name| >= MAX_NAME_LEN
      ensures r == Err(AlreadyExists) ==> Taken(old(Abs()), parent, name)
      ensures r == Err(InvalidInode) || r == Err(NotDirectory) ==> !IsDir(old(Abs()), parent)
      ensures r.Err? ==> r.error in {NameTooLong, AlreadyExists, InvalidInode, NotDirectory, NoSpace}
      ensures r.Err? && old(sb.freeInodes) == 1 ==> r.error == NoSpace && View() == old(View())
      ensures r.Err? ==> Geometry(View())
      ensures r.Err? && Table(View()) != old(Table(View())) ==>
        exists n: nat, b: u32 :: LeftLive(old(Table(View())), Table(View()), n, DirInode(b, clock))
    {
      hide Sound, Table, Geometry, NodesOf, BitsAgree, Stored, FreshDir, IsDir, Dirents, WithEntry, CreatesDir,
        CreatesLoop, Taken, Represents, WellFormed, Storable, NewIn, OnlyAt, OthersStay;
      hide SameViews, NulFree, NoRoomIn, NeedIn, FirstFree;
      StoredIff(name);
      ghost var t := Table(View());
      NodeKinds(View(), t, owner, parent);
      var n, b := BirthDir(parent);
      if n.Err? {
        return n;
      }
      BornRoom(t, parent, n.value, b, clock, sb.freeBlocks);
      if IsDir(old(Abs()), parent) {
        RoomKept(old(View()), View(), n.value, DirInode(b, clock), parent, sb.freeBlocks);
      } else if parent == n.value {
        RoomMade(View(), parent, b, clock);
      }
      BornThenNamed(old(Abs()), n.value, parent, name);
      BornThenNamed(old(Abs()), n.value, parent, Stored(name));
      ghost var t1 := Table(View());
      var a := NameDir(parent, name, n.value, b);
      if a.Ok? { BornDirIn(t, t1, Table(View()), n.value, b, clock, parent); }
      assert a.Err? ==> LeftLive(t, Table(View()), n.value, DirInode(b, clock));
      return if a.Ok? then n else Err(a.error);
    }

    /** Free the blocks and the inode of a node whose entry is gone. */
    method Kill(ghost t: seq<Inode>, n: u32, ino: Inode)
      requires Valid() && t == Table(View())
      requires 0 < n < sb.inodeCount && t[n] == ino && ino.kind != FREE
      modifies this
      ensures Valid() && sb.inodeCount == old(sb.inodeCount) && Abs() == old(Abs()) - {n as nat}
      ensures RightsKept(t, Table(View())) && OthersStay(t, Table(View()), n, n)
    {
      hide Sound, Rewrites, Working, InodeAt, BitmapBlocks, TableBlocks, WithoutBit, InodesAgree, Local, NodesOf,
        BitsAgree, Table, Geometry, RightsKept;
      ghost var fs0, owner0 := View(), owner;
      SoundWorking(fs0, owner0, t, n);
      SoundInodes(fs0, t, owner0);
      var ino1 := FreeInodeBlocks(t, n, ino);
      ghost var fs1, owner1 := View(), owner;
      RewritesGeometry(fs0, owner0, fs1, owner1, t, n, ino, ino1);
      var dead := ino1.(kind := FREE, size := 0);
      var w := WriteInode(n, dead);
      ghost var fs2 := View();
      FreeInode(n);
      SameTableSb(fs2, View());
      NodeDied(fs0, owner0, fs1, owner1, t, n, ino, ino1, dead, View());
      OneDied(t, Table(View()), n, dead);
    }

    method Unlink(dir: u32, name: Name) returns (r: Result<()>)
      requires Valid()
      modifies this
      ensures r.Ok? ==> Valid() && sb.inodeCount == old(sb.inodeCount) && RemovesFile(old(Abs()), dir, name, Abs())
      ensures r.Ok? <==> HasFile(old(Abs()), dir, name)
      ensures r == Err(InvalidOperation) <==> name == DOT || name == DOTDOT
      ensures Geometry(View()) && RightsKept(old(Table(View())), Table(View()))
      ensures r.Ok? ==>
        var n := Dirents(old(Abs()), dir)[name]; OthersStay(old(Table(View())), Table(View()), n, n)
      ensures r.Err? && (name in Dirents(old(Abs()), dir) ==> Dirents(old(Abs()), dir)[name] in old(Abs())) ==>
        r.error != NotFile ==> View() == old(View()) && owner == old(owner)
      ensures r == Err(NotFound) ==> name !in Dirents(old(Abs()), dir)
      ensures r == Err(NotFile) ==>
        && Valid() && Abs() == old(Abs())
        && name in Dirents(old(Abs()), dir) && !IsFile(old(Abs()), Dirents(old(Abs()), dir)[name])
      ensures r.Err? ==> r.error in {InvalidOperation, NotFound, NotDirectory, NotFile, InvalidInode}
      ensures r == Err(InvalidInode) && name in Dirents(old(Abs()), dir) ==>
          Dirents(old(Abs()), dir)[name] !in old(Abs())
    {
      hide Sound, NodesOf, InodeAt, BitmapBlocks, TableBlocks, WithEntry, WithoutEntry, BitsAgree, RightsKept, OnlyAt,
        OthersStay;
      ghost var t0, fs0 := Table(View()), View();
      RightsStay(t0);
      if name == DOT || name == DOTDOT {
        return Err(InvalidOperation);
      }
      var d := DirRemoveEntry(dir, name);
      if d.Err? {
        return Err(d.error);
      }
      var target := d.value;
      NodeKinds(fs0, t0, owner, target);
      PutBack(old(Abs()), dir, name);
      var i := ReadInode(target);
      if i.Err? {
        return Err(i.error);
      }
      var ino := i.value;
      if ino.kind != FILE {
        var a := DirAddEntry(dir, name, target);
        assert a.Ok?;
        SameRights(t0, Table(View()), dir);
        return Err(NotFile);
      }
      Kill(Table(View()), target, ino);
      return Ok(());
    }

    method Rmdir(parent: u32, name: Name) returns (r: Result<()>)
      requires Valid()
      modifies this
      ensures r.Ok? ==> Valid() && sb.inodeCount == old(sb.inodeCount) && RemovesDir(old(Abs()), parent, name, Abs())
      ensures r.Ok? <==> HasBareDir(old(Abs()), parent, name)
      ensures r.Ok? ==> RightsKept(old(Table(View())), Table(View()))
      ensures r.Ok? ==>
        var n := Dirents(old(Abs()), parent)[name]; OthersStay(old(Table(View())), Table(View()), n, n)
      ensures r.Err? ==> View() == old(View()) && owner == old(owner)
      ensures r == Err(InvalidOperation) <==> name == DOT || name == DOTDOT
      ensures r == Err(DirectoryNotEmpty) ==>
        name in Dirents(old(Abs()), parent) && |Dirents(old(Abs()), Dirents(old(Abs()), parent)[name])| > 2
    {
      hide Sound, NodesOf, InodeAt, BitmapBlocks, TableBlocks, WithoutEntry, Entries, RightsKept;
      if name == DOT || name == DOTDOT {
        return Err(InvalidOperation);
      }
      NodeKinds(View(), Table(View()), owner, parent);
      var l := DirLookup(parent, name);
      if l.Err? {
        return Err(l.error);
      }
      var target := l.value;
      NodeKinds(View(), Table(View()), owner, target);
      var i := ReadInode(target);
      if i.Err? {
        return Err(i.error);
      }
      var ino := i.value;
      if ino.kind != DIR {
        return Err(NotDirectory);
      }
      var entries := DirList(target);
      if |entries.value| > 2 {
        return Err(DirectoryNotEmpty);
      }
      var d := DirRemoveEntry(parent, name);
      Kill(Table(View()), target, ino);
      return Ok(());
    }

    // -------------------------------------------------------------- the device

    method Sync()
      requires Geometry(View())
      modifies this`disk
      ensures IsSynced(old(View()), disk)
    {
      hide EncodeSuperblock;
      disk := disk[0 := EncodeSuperblock(sb)];
      for i := 0 to BitmapBlocks(sb.totalBlocks)
        invariant |disk| == |old(disk)| && disk[0] == EncodeSuperblock(sb)
        invariant forall j :: 0 <= j < i ==> disk[1 + j] == BitmapBlock(blockBitmap, j)
        invariant forall b :: 1 + i <= b < |disk| ==> disk[b] == old(disk)[b]
      {
        var off := i * BLOCK_SIZE;
        var end := Min(off + BLOCK_SIZE, |blockBitmap|);
        var buf := Splice(Zeros(BLOCK_SIZE), 0, blockBitmap[off..end]);
        assert buf == BitmapBlock(blockBitmap, i);
        disk := disk[sb.bitmapStart + i := buf];
      }
    }

    /** The inode bitmap, rebuilt from the stored inode table. */
    static method ScanTable(dev: seq<Block>, sb: Superblock) returns (r: Result<seq<byte>>)
      ensures r.Err? ==> r.error == OutOfRange
      ensures r.Ok? && sb.inodeCount <= MAX_INODES ==> Scanned(dev, sb, r.value, sb.inodeCount)
      ensures sb.inodeCount > MAX_INODES ==> r == Ok(Zeros((sb.inodeCount + 7) / 8))
      ensures r.Ok? <==> TableOnDevice(dev, sb)
    {
      hide InodesOf, BitAt, DecodeInode;
      var tableBlocks := AsU32(sb.inodeCount + INODES_PER_BLOCK + 0xFFFF_FFFF) / INODES_PER_BLOCK;
      var inodes := Zeros((sb.inodeCount + 7) / 8);
      NoBits(inodes);
      for i := 0 to tableBlocks
        invariant Scanned(dev, sb, inodes, INODES_PER_BLOCK * i)
        invariant i == 0 ==> inodes == Zeros((sb.inodeCount + 7) / 8)
        invariant i > 0 ==> sb.inodeTableStart + i <= |dev|
      {
        if sb.inodeTableStart + i >= |dev| {
          return Err(OutOfRange);
        }
        var buf := dev[sb.inodeTableStart + i];
        for slot := 0 to INODES_PER_BLOCK
          invariant Scanned(dev, sb, inodes, INODES_PER_BLOCK * i + slot)
        {
          var n := INODES_PER_BLOCK * i + slot;
          if n >= sb.inodeCount {
            break;
          }
          var ino := DecodeInode(buf[64 * slot..64 * slot + 64]);
          ScanStep(dev, sb, inodes, i, slot, ino);
          if ino.kind != FREE {
            inodes := WithBit(inodes, n);
          }
        }
      }
      return Ok(inodes);
    }

    static method Mount(dev: seq<Block>, ghost owner: Owner) returns (r: Result<NextFS>)
      ensures r == Err(InvalidMagic) <==>
        |dev| > 0 && !(DecodeSuperblock(dev[0]).magic == MAGIC && DecodeSuperblock(dev[0]).blockSize == BLOCK_SIZE)
      ensures r.Err? ==> r.error == InvalidMagic || r.error == OutOfRange
      ensures r.Ok? ==> fresh(r.value) && r.value.owner == owner && |dev| > 0
      ensures r.Ok? ==> IsLoaded(dev, r.value.View())
      ensures r.Ok? ==>
        if r.value.sb.inodeCount <= MAX_INODES then IsMounted(dev, r.value.View())
        else r.value.inodeBitmap == Zeros((r.value.sb.inodeCount + 7) / 8)
      ensures r == Err(OutOfRange) <==>
        || |dev| == 0
        || (var sb := DecodeSuperblock(dev[0]);
            sb.magic == MAGIC && sb.blockSize == BLOCK_SIZE && !OnDevice(dev, sb))
    {
      hide DecodeSuperblock, Scanned;
      if |dev| == 0 {
        return Err(OutOfRange);
      }
      var sb := DecodeSuperblock(dev[0]);
      if !(sb.magic == MAGIC && sb.blockSize == BLOCK_SIZE) {
        return Err(InvalidMagic);
      }
      var bitmap: seq<byte> := [];
      var bitmapBlocks := BitmapBlocks(sb.totalBlocks);
      for i := 0 to bitmapBlocks
        invariant i > 0 ==> sb.bitmapStart + i <= |dev|
        invariant |bitmap| == i * BLOCK_SIZE
        invariant forall k :: 0 <= k < |bitmap| ==> bitmap[k] == dev[sb.bitmapStart + k / BLOCK_SIZE][k % BLOCK_SIZE]
      {
        if sb.bitmapStart + i >= |dev| {
          return Err(OutOfRange);
        }
        bitmap := bitmap + dev[sb.bitmapStart + i];
      }
      bitmap := bitmap[..(sb.totalBlocks + 7) / 8];
      var scan := ScanTable(dev, sb);
      if scan.Err? {
        return Err(scan.error);
      }
      var fs := new NextFS;
      fs.sb, fs.blockBitmap, fs.inodeBitmap, fs.disk, fs.owner := sb, bitmap, scan.value, dev, owner;
      return Ok(fs);
    }

    /** `format` writes the block bitmap: every block free but `used`. */
    static method WriteFormatBitmap(dev: seq<Block>, blocks: nat, used: nat) returns (disk: seq<Block>)
      requires 1 + blocks <= |dev| && used < 4096 * blocks
      ensures |disk| == |dev| && disk[0] == dev[0]
      ensures forall n :: 0 <= n < 4096 * blocks ==> (BitAt(disk[1 + n / 4096], n % 4096) <==> n != used)
      ensures forall b :: 1 + blocks <= b < |dev| ==> disk[b] == dev[b]
    {
      hide BitAt;
      disk := dev;
      var bitmap := seq<byte>(blocks * BLOCK_SIZE, _ => 0xFF);
      FullBits(bitmap);
      bitmap := WithoutBit(bitmap, used);
      for i := 0 to blocks
        invariant |disk| == |dev| && disk[0] == dev[0]
        invariant forall j :: 0 <= j < i ==> disk[1 + j] == bitmap[BLOCK_SIZE * j..BLOCK_SIZE * j + BLOCK_SIZE]
        invariant forall b :: 1 + i <= b < |dev| ==> disk[b] == dev[b]
      {
        disk := disk[1 + i := bitmap[BLOCK_SIZE * i..BLOCK_SIZE * i + BLOCK_SIZE]];
      }
      CutBitmap(bitmap, disk, blocks, used);
    }

    /** `format` writes the empty inode table, one block of eight empty inodes after another. */
    static method WriteFormatTable(dev: seq<Block>, start: nat, blocks: nat) returns (disk: seq<Block>, block: Block)
      requires start + blocks <= |dev|
      ensures forall j :: 0 <= j < INODES_PER_BLOCK ==> InodesOf(block)[j] == EMPTY_INODE
      ensures |disk| == |dev|
      ensures forall b :: 0 <= b < |dev| ==> disk[b] == if start <= b < start + blocks then block else dev[b]
    {
      hide InodesOf, EncodeInode;
      disk := dev;
      block := Zeros(BLOCK_SIZE);
      for i := 0 to INODES_PER_BLOCK
        invariant forall j :: 0 <= j < i ==> InodesOf(block)[j] == EMPTY_INODE
      {
        InodesSplice(block, i, EMPTY_INODE);
        block := Splice(block, 64 * i, EncodeInode(EMPTY_INODE));
      }
      for i := 0 to blocks
        invariant |disk| == |dev|
        invariant forall b :: 0 <= b < |dev| ==> disk[b] == if start <= b < start + i then block else dev[b]
      {
        disk := disk[start + i := block];
      }
    }

    static method Format(dev: seq<Block>) returns (r: Result<()>, disk: seq<Block>)
      ensures r.Err? <==> DataStartFor(AsU32(|dev|)) >= AsU32(|dev|)
      ensures r.Err? ==> r.error == DeviceTooSmall && disk == dev
      ensures r.Ok? ==> IsFormatted(disk, AsU32(|dev|)) && |disk| == |dev|
      ensures r.Ok? ==> forall b :: DataStartFor(AsU32(|dev|)) < b < |dev| ==> disk[b] == dev[b]
    {
      hide EncodeSuperblock, EncodeInode, BitAt, InodesOf, NewDirBlock, RootTable, BitmapBlocks, TableBlocks, AsU32;
      disk := dev;
      var total: u32 := AsU32(|dev|);
      FormatAreas(total);
      if total < 10 {
        return Err(DeviceTooSmall), disk;
      }
      var inodeCount := if total / 100 > 64 then total / 100 else 64;
      var tableBlocks := TableBlocks(inodeCount);
      var bitmapBlocks := BitmapBlocks(total);
      var tableStart := 1 + bitmapBlocks;
      var dataStart := tableStart + tableBlocks;
      if dataStart >= total {
        return Err(DeviceTooSmall), disk;
      }
      disk := disk[0 := EncodeSuperblock(Superblock(MAGIC, BLOCK_SIZE, total, inodeCount, total - dataStart - 1,
                                                    inodeCount - 1, 1, tableStart, dataStart))];
      disk := WriteFormatBitmap(disk, bitmapBlocks, dataStart);
      var block;
      disk, block := WriteFormatTable(disk, tableStart, tableBlocks);
      var root := NEW_DIR.(size := 2 * ENTRY_SIZE, direct := NEW_DIR.direct[0 := dataStart]);
      disk := disk[tableStart := Splice(disk[tableStart], 64 * ROOT_INODE, EncodeInode(root))];
      disk := disk[dataStart := NewDirBlock(ROOT_INODE, ROOT_INODE)];
      FormatDone(disk, total, block);
      return Ok(()), disk;
    }

    /** Everything a sync stores is what the next mount finds. */
    method SyncThenMount() returns (r: Result<NextFS>)
      requires Valid() && sb.inodeCount <= MAX_INODES
      modifies this`disk
      ensures r.Ok? && fresh(r.value) && r.value.View() == old(View()).(disk := disk)
      ensures r.Ok? && r.value.Valid() && r.value.Abs() == old(Abs())
    {
      hide Sound, Scanned, LoadedBitmap, DecodeSuperblock, EncodeSuperblock, BitmapBlock, NodesOf;
      Sync();
      r := Mount(disk, owner);
      SyncedDevice(old(View()), disk);
      MountAfterSync(old(View()), owner, disk, r.value.View());
    }

    /** A fresh device holds the root directory and nothing else. */
    static method FormatThenMount(dev: seq<Block>) returns (r: Result<NextFS>)
      ensures r.Err? <==> DataStartFor(AsU32(|dev|)) >= AsU32(|dev|)
      ensures r.Ok? ==>
          fresh(r.value) && r.value.Valid() && r.value.Abs() == map[ROOT_INODE := FreshDir(ROOT_INODE, ROOT_INODE)]
      ensures r.Ok? ==>
        && r.value.sb == FormatSuperblock(AsU32(|dev|))
        && Table(r.value.View()) == RootOnly(r.value.sb.inodeCount, r.value.sb.dataStart)
    {
      hide Sound, Scanned, LoadedBitmap, DecodeSuperblock, EncodeSuperblock, NodesOf, RootTable, NewDirBlock;
      var f, disk := Format(dev);
      if f.Err? {
        return Err(f.error);
      }
      ghost var total := AsU32(|dev|);
      FormattedDevice(disk, total);
      r := Mount(disk, map[DataStartFor(total) := Data(ROOT_INODE, 0)]);
      MountAfterFormat(disk, total, r.value.View());
    }
  }
}
