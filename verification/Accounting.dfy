/** Block ownership: which pointer owns which data block, and what each single pointer update keeps. */
module Accounting {
  import opened Bytes
  import opened Layout

  /** The values behind a mounted file system: cached superblock and bitmaps, and the device. */
  datatype Fs = Fs(sb: Superblock, blockBitmap: seq<byte>, inodeBitmap: seq<byte>, disk: seq<Block>)

  function BitmapBlocks(total: nat): nat { ((total + 7) / 8 + BLOCK_SIZE - 1) / BLOCK_SIZE }

  function TableBlocks(count: nat): nat { (count + INODES_PER_BLOCK - 1) / INODES_PER_BLOCK }

  /** Superblock fields agree with the layout that `format` computes, and everything fits the device. */
  predicate Geometry(fs: Fs) {
    var sb := fs.sb;
    && sb.magic == MAGIC && sb.blockSize == BLOCK_SIZE && sb.bitmapStart == 1
    && sb.inodeTableStart == 1 + BitmapBlocks(sb.totalBlocks)
    && sb.dataStart == sb.inodeTableStart + TableBlocks(sb.inodeCount)
    && sb.dataStart < sb.totalBlocks <= |fs.disk|
    && 2 <= sb.inodeCount
    && |fs.blockBitmap| == (sb.totalBlocks + 7) / 8
    && |fs.inodeBitmap| == (sb.inodeCount + 7) / 8
  }

  // ---------------------------------------------------------------- inode table

  function InodeAt(fs: Fs, n: nat): Inode
    requires Geometry(fs) && n < fs.sb.inodeCount
  {
    InodesOf(fs.disk[fs.sb.inodeTableStart + n / INODES_PER_BLOCK])[n % INODES_PER_BLOCK]
  }

  function Table(fs: Fs): (t: seq<Inode>)
    requires Geometry(fs)
    ensures |t| == fs.sb.inodeCount
    ensures forall n :: 0 <= n < |t| ==> t[n] == InodeAt(fs, n)
  {
    seq(fs.sb.inodeCount, n requires 0 <= n < fs.sb.inodeCount => InodeAt(fs, n))
  }

  lemma TableWriteAt(fs: Fs, fs': Fs, n: nat, ino: Inode, m: nat)
    requires Geometry(fs) && Geometry(fs') && fs'.sb == fs.sb && n < fs.sb.inodeCount && m < fs.sb.inodeCount
    requires var b := fs.sb.inodeTableStart + n / 8;
             fs'.disk == fs.disk[b := Splice(fs.disk[b], 64 * (n % 8), EncodeInode(ino))]
    ensures InodeAt(fs', m) == if m == n then ino else InodeAt(fs, m)
  {
    var b := fs.sb.inodeTableStart + n / 8;
    if m / 8 == n / 8 {
      InodesSplice(fs.disk[b], n % 8, ino);
      assert m % 8 == n % 8 ==> m == n;
    }
  }

  /** Rewriting one inode's bytes in its table block changes that inode and no other. */
  lemma TableWrite(fs: Fs, fs': Fs, n: nat, ino: Inode)
    requires Geometry(fs) && n < fs.sb.inodeCount && fs'.sb == fs.sb
    requires |fs'.blockBitmap| == |fs.blockBitmap| && |fs'.inodeBitmap| == |fs.inodeBitmap|
    requires var b := fs.sb.inodeTableStart + n / 8;
             fs'.disk == fs.disk[b := Splice(fs.disk[b], 64 * (n % 8), EncodeInode(ino))]
    ensures Geometry(fs')
    ensures Table(fs') == Table(fs)[n := ino]
  {
    forall m | 0 <= m < fs.sb.inodeCount ensures Table(fs')[m] == Table(fs)[n := ino][m] {
      TableWriteAt(fs, fs', n, ino, m);
    }
  }

  // ---------------------------------------------------------------- pointers

  /** The block holding logical block `k` of an inode, 0 when unallocated. */
  function BlockPtr(disk: seq<Block>, ino: Inode, k: nat): u32 {
    if k < DIRECT_PTRS then ino.direct[k]
    else if k >= MAX_BLOCKS || ino.indirect == 0 || ino.indirect >= |disk| then 0
    else UnpackU32(disk[ino.indirect])[k - DIRECT_PTRS]
  }

  /** A place that can hold a block number: logical block `k` of an inode, or its indirect pointer. */
  datatype Slot = Data(ino: nat, k: nat) | Index(ino: nat)

  predicate Live(t: seq<Inode>, s: Slot) {
    s.ino < |t| && t[s.ino].kind != FREE && (s.Data? ==> s.k < MAX_BLOCKS)
  }

  function Target(t: seq<Inode>, disk: seq<Block>, s: Slot): u32
    requires Live(t, s)
  {
    match s
    case Data(n, k) => BlockPtr(disk, t[n], k)
    case Index(n) => t[n].indirect
  }

  type Owner = map<nat, Slot>

  /** `owner` sends each block in `[lo, hi)` that a live pointer names to the one pointer naming it. */
  ghost predicate Owned(t: seq<Inode>, disk: seq<Block>, owner: Owner, lo: nat, hi: nat) {
    && 0 < lo <= hi <= |disk|
    && (forall s :: Live(t, s) && Target(t, disk, s) != 0 ==>
          Target(t, disk, s) in owner && owner[Target(t, disk, s)] == s)
    && (forall b :: b in owner ==> lo <= b < hi && Live(t, owner[b]) && Target(t, disk, owner[b]) == b)
  }

  /** The cached bitmap marks exactly the owned blocks used, and the free counter counts the rest. */
  ghost predicate BitsAgree(sb: Superblock, bitmap: seq<byte>, owner: Owner) {
    && sb.dataStart <= sb.totalBlocks <= 8 * |bitmap|
    && (forall b :: b in owner ==> sb.dataStart <= b < sb.totalBlocks)
    && (forall b :: sb.dataStart <= b < sb.totalBlocks ==> (BitAt(bitmap, b) <==> b !in owner))
    && sb.freeBlocks == sb.totalBlocks - sb.dataStart - |owner|
  }

  ghost predicate Accounted(fs: Fs, t: seq<Inode>, owner: Owner) {
    && Geometry(fs)
    && |t| == fs.sb.inodeCount
    && Owned(t, fs.disk, owner, fs.sb.dataStart, fs.sb.totalBlocks)
    && BitsAgree(fs.sb, fs.blockBitmap, owner)
  }

  // ---------------------------------------------------------------- counting

  ghost function Range(lo: nat, hi: nat): (r: set<nat>)
    requires lo <= hi
    ensures forall b :: b in r <==> lo <= b < hi
    ensures |r| == hi - lo
    decreases hi - lo
  {
    if lo == hi then {} else {lo} + Range(lo + 1, hi)
  }

  lemma OwnerKeys(owner: Owner, lo: nat, hi: nat)
    requires lo <= hi && forall b :: b in owner ==> lo <= b < hi
    ensures |owner| <= hi - lo
    ensures (forall b :: lo <= b < hi ==> b in owner) ==> |owner| == hi - lo
    ensures |set b: nat | lo <= b < hi && b !in owner| == hi - lo - |owner|
  {
    var all := Range(lo, hi);
    var free := set b: nat | lo <= b < hi && b !in owner;
    assert all == owner.Keys + free && owner.Keys * free == {};
    assert |owner.Keys| == |owner|;
    if forall b :: lo <= b < hi ==> b in owner { assert free == {}; }
  }

  lemma OwnerRemove(owner: Owner, b: nat)
    requires b in owner
    ensures |owner - {b}| == |owner| - 1
  {
    assert owner == (owner - {b})[b := owner[b]];
  }

  // ---------------------------------------------------------------- single updates

  /** Writing a block that holds no pointers moves no pointer. */
  lemma WriteDataBlock(t: seq<Inode>, disk: seq<Block>, owner: Owner, lo: nat, hi: nat, b: nat, c: Block)
    requires Owned(t, disk, owner, lo, hi) && b < |disk|
    requires b in owner ==> owner[b].Data?
    ensures Owned(t, disk[b := c], owner, lo, hi)
    ensures forall s :: Live(t, s) ==> Target(t, disk[b := c], s) == Target(t, disk, s)
  {
    forall s | Live(t, s) ensures Target(t, disk[b := c], s) == Target(t, disk, s) {
      assert Live(t, Index(s.ino));
      assert Target(t, disk, Index(s.ino)) == t[s.ino].indirect;
    }
  }

  lemma LinkDirect(t: seq<Inode>, disk: seq<Block>, owner: Owner, lo: nat, hi: nat, n: nat, k: nat, b: u32)
    requires Owned(t, disk, owner, lo, hi)
    requires n < |t| && t[n].kind != FREE && k < DIRECT_PTRS && t[n].direct[k] == 0
    requires lo <= b < hi && b !in owner
    ensures Owned(t[n := t[n].(direct := t[n].direct[k := b])], disk, owner[b := Data(n, k)], lo, hi)
  {
    var t' := t[n := t[n].(direct := t[n].direct[k := b])];
    forall s | Live(t', s)
      ensures Live(t, s) && Target(t', disk, s) == if s == Data(n, k) then b else Target(t, disk, s)
    {}
  }

  lemma LinkIndex(t: seq<Inode>, disk: seq<Block>, owner: Owner, lo: nat, hi: nat, n: nat, b: u32)
    requires Owned(t, disk, owner, lo, hi)
    requires n < |t| && t[n].kind != FREE && t[n].indirect == 0
    requires lo <= b < hi && b !in owner && disk[b] == Zeros(512)
    ensures Owned(t[n := t[n].(indirect := b)], disk, owner[b := Index(n)], lo, hi)
    ensures forall k :: 0 <= k < MAX_BLOCKS ==> BlockPtr(disk, t[n].(indirect := b), k) == BlockPtr(disk, t[n], k)
  {
    var t' := t[n := t[n].(indirect := b)];
    UnpackZeros(512);
    forall s | Live(t', s)
      ensures Live(t, s) && Target(t', disk, s) == if s == Index(n) then b else Target(t, disk, s)
    {}
  }

  lemma LinkVia(t: seq<Inode>, disk: seq<Block>, owner: Owner, lo: nat, hi: nat, n: nat, k: nat, b: u32)
    requires Owned(t, disk, owner, lo, hi)
    requires n < |t| && t[n].kind != FREE && DIRECT_PTRS <= k < MAX_BLOCKS && t[n].indirect != 0
    requires BlockPtr(disk, t[n], k) == 0
    requires lo <= b < hi && b !in owner
    ensures var x := t[n].indirect;
            && lo <= x < hi && x in owner && owner[x] == Index(n)
            && var disk' := disk[x := Splice(disk[x], 4 * (k - DIRECT_PTRS), LE32(b))];
            && Owned(t, disk', owner[b := Data(n, k)], lo, hi)
            && (forall i :: 0 <= i < MAX_BLOCKS ==>
                  BlockPtr(disk', t[n], i) == if i == k then b else BlockPtr(disk, t[n], i))
  {
    var x := t[n].indirect;
    assert Target(t, disk, Index(n)) == x;
    var disk' := disk[x := Splice(disk[x], 4 * (k - DIRECT_PTRS), LE32(b))];
    UnpackSplice(disk[x], k - DIRECT_PTRS, b);
    forall s | Live(t, s)
      ensures Target(t, disk', s) == if s == Data(n, k) then b else Target(t, disk, s)
    {
      assert Live(t, Index(s.ino));
      assert Target(t, disk, Index(s.ino)) == t[s.ino].indirect;
    }
    assert Live(t, Data(n, k)) && Target(t, disk, Data(n, k)) == 0;
  }

  lemma UnlinkDirect(t: seq<Inode>, disk: seq<Block>, owner: Owner, lo: nat, hi: nat, n: nat, k: nat)
    requires Owned(t, disk, owner, lo, hi)
    requires n < |t| && t[n].kind != FREE && k < DIRECT_PTRS && t[n].direct[k] != 0
    ensures t[n].direct[k] in owner
    ensures Owned(t[n := t[n].(direct := t[n].direct[k := 0])], disk, owner - {t[n].direct[k]}, lo, hi)
  {
    var b := t[n].direct[k];
    assert Target(t, disk, Data(n, k)) == b;
    var t' := t[n := t[n].(direct := t[n].direct[k := 0])];
    forall s | Live(t', s)
      ensures Live(t, s) && Target(t', disk, s) == if s == Data(n, k) then 0 else Target(t, disk, s)
    {}
  }

  /** The blocks an inode reaches through its indirect block, below logical block `k`. */
  ghost predicate ViaBelow(s: Slot, n: nat, k: nat) { s.Data? && s.ino == n && DIRECT_PTRS <= s.k < k }

  lemma UnlinkIndex(t: seq<Inode>, disk: seq<Block>, owner: Owner, lo: nat, hi: nat, n: nat, owner': Owner)
    requires Owned(t, disk, owner, lo, hi)
    requires n < |t| && t[n].kind != FREE
    requires forall b :: b in owner' <==> b in owner && !ViaBelow(owner[b], n, MAX_BLOCKS) && owner[b] != Index(n)
    requires forall b :: b in owner' ==> owner'[b] == owner[b]
    ensures Owned(t[n := t[n].(indirect := 0)], disk, owner', lo, hi)
  {
    var t' := t[n := t[n].(indirect := 0)];
    forall s | Live(t', s)
      ensures Live(t, s)
      ensures Target(t', disk, s) == if ViaBelow(s, n, MAX_BLOCKS) || s == Index(n) then 0 else Target(t, disk, s)
    {}
  }

  /** Replacing an inode that owns nothing by another that points at nothing. */
  lemma SwapEmpty(t: seq<Inode>, disk: seq<Block>, owner: Owner, lo: nat, hi: nat, n: nat, ino: Inode)
    requires Owned(t, disk, owner, lo, hi) && n < |t|
    requires t[n].kind == FREE || (t[n].direct == NO_BLOCKS && t[n].indirect == 0)
    requires ino.kind == FREE || (ino.direct == NO_BLOCKS && ino.indirect == 0)
    ensures Owned(t[n := ino], disk, owner, lo, hi)
  {
    var t' := t[n := ino];
    forall s | Live(t', s)
      ensures s.ino == n ==> Target(t', disk, s) == 0
      ensures s.ino != n ==> Live(t, s) && Target(t', disk, s) == Target(t, disk, s)
    {}
    forall b | b in owner ensures Live(t', owner[b]) && Target(t', disk, owner[b]) == b {
      assert Target(t, disk, owner[b]) == b && b != 0;
    }
  }

  /** Fields that hold no pointers do not matter to ownership. */
  lemma SwapMeta(t: seq<Inode>, disk: seq<Block>, owner: Owner, lo: nat, hi: nat, n: nat, ino: Inode)
    requires Owned(t, disk, owner, lo, hi) && n < |t|
    requires t[n].direct == ino.direct && t[n].indirect == ino.indirect
    requires (t[n].kind == FREE) == (ino.kind == FREE)
    ensures Owned(t[n := ino], disk, owner, lo, hi)
  {
    var t' := t[n := ino];
    forall s | Live(t', s) ensures Live(t, s) && Target(t', disk, s) == Target(t, disk, s) {}
  }

  // ---------------------------------------------------------------- what ownership means

  /**
   * The bijection, without the witness: a data block is marked used exactly when a live pointer names
   * it, never by two pointers, and the free counter is the number of blocks marked free.
   */
  lemma OwnershipIsExact(fs: Fs, t: seq<Inode>, owner: Owner)
    requires Accounted(fs, t, owner)
    ensures forall b :: fs.sb.dataStart <= b < fs.sb.totalBlocks ==>
              (!BitAt(fs.blockBitmap, b) <==> exists s :: Live(t, s) && Target(t, fs.disk, s) == b)
    ensures forall s, s' :: Live(t, s) && Live(t, s') && Target(t, fs.disk, s) == Target(t, fs.disk, s') != 0 ==>
        s == s'
    ensures forall s :: Live(t, s) && Target(t, fs.disk, s) != 0 ==>
              fs.sb.dataStart <= Target(t, fs.disk, s) < fs.sb.totalBlocks
    ensures fs.sb.freeBlocks == |set b: nat | fs.sb.dataStart <= b < fs.sb.totalBlocks && BitAt(fs.blockBitmap, b)|
  {
    hide BitAt, BlockPtr;
    var lo, hi := fs.sb.dataStart, fs.sb.totalBlocks;
    FreeCount(fs.sb, fs.blockBitmap, owner);
    forall b | lo <= b < hi
      ensures !BitAt(fs.blockBitmap, b) <==> exists s :: Live(t, s) && Target(t, fs.disk, s) == b
    {
      if b in owner { assert Live(t, owner[b]) && Target(t, fs.disk, owner[b]) == b; }
    }
  }

  lemma FreeCount(sb: Superblock, bitmap: seq<byte>, owner: Owner)
    requires BitsAgree(sb, bitmap, owner)
    ensures sb.freeBlocks == |set b: nat | sb.dataStart <= b < sb.totalBlocks && BitAt(bitmap, b)|
  {
    hide BitAt;
    var lo, hi := sb.dataStart, sb.totalBlocks;
    OwnerKeys(owner, lo, hi);
    assert (set b: nat | lo <= b < hi && BitAt(bitmap, b)) == (set b: nat | lo <= b < hi && b !in owner);
  }

  /** A pointer left behind at a free block cannot be repaired by any other choice of owners. */
  lemma DanglingPointer(fs: Fs, t: seq<Inode>, s: Slot, owner: Owner)
    requires Geometry(fs) && Live(t, s)
    requires fs.sb.dataStart <= Target(t, fs.disk, s) < fs.sb.totalBlocks
    requires BitAt(fs.blockBitmap, Target(t, fs.disk, s))
    ensures !Accounted(fs, t, owner)
  {}
}
