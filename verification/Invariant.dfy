/** The invariant of a mounted file system, and how a change to one inode carries it along. */
module Invariant {
  import opened Bytes
  import opened Layout
  import opened Accounting
  import opened Contents

  ghost function LiveSet(t: seq<Inode>): set<nat> { set n: nat | n < |t| && t[n].kind != FREE }

  /** The cached inode bitmap marks exactly the live inodes; the free counter counts slot 0 too. */
  ghost predicate InodesAgree(sb: Superblock, bitmap: seq<byte>, t: seq<Inode>) {
    && 0 < |t| <= 8 * |bitmap| && t[0].kind == FREE
    && (forall n :: 0 <= n < 8 * |bitmap| ==> (BitAt(bitmap, n) <==> n < |t| && t[n].kind != FREE))
    && sb.freeInodes == |t| - |LiveSet(t)|
  }

  ghost predicate AllWellFormed(disk: seq<Block>, t: seq<Inode>) {
    forall n :: 0 <= n < |t| && t[n].kind != FREE ==> WellFormed(disk, t[n])
  }

  ghost predicate Sound(fs: Fs, t: seq<Inode>, owner: Owner) {
    Accounted(fs, t, owner) && InodesAgree(fs.sb, fs.inodeBitmap, t) && AllWellFormed(fs.disk, t)
  }

  // ---------------------------------------------------------------- changing one inode

  /** Nodes of the other inodes stay; inode `n` becomes `ino`. */
  lemma OneNode(disk: seq<Block>, disk': seq<Block>, t: seq<Inode>, n: nat, ino: Inode)
    requires n < |t| && AllWellFormed(disk, t)
    requires forall m :: 0 <= m < |t| && m != n && t[m].kind != FREE ==> SameView(disk, disk', t[m])
    requires ino.kind != FREE ==> WellFormed(disk', ino)
    ensures AllWellFormed(disk', t[n := ino])
    ensures ino.kind != FREE ==> NodesOf(t[n := ino], disk') == NodesOf(t, disk)[n := NodeOf(disk', ino)]
    ensures ino.kind == FREE ==> NodesOf(t[n := ino], disk') == NodesOf(t, disk) - {n}
  {
    hide WellFormed, NodeOf, SameView;
    var t' := t[n := ino];
    forall m | 0 <= m < |t| && m != n && t[m].kind != FREE
      ensures WellFormed(disk', t[m]) && NodeOf(disk', t[m]) == NodeOf(disk, t[m])
    {
      SameViewSameNode(disk, disk', t[m]);
    }
    assert forall m :: 0 <= m < |t| && m != n ==> t'[m] == t[m];
    assert ino.kind != FREE ==> NodesOf(t', disk') == NodesOf(t, disk)[n := NodeOf(disk', ino)];
  }

  lemma SameLiveSet(t: seq<Inode>, n: nat, ino: Inode)
    requires n < |t| && (t[n].kind == FREE) == (ino.kind == FREE)
    ensures LiveSet(t[n := ino]) == LiveSet(t)
  {}

  lemma SoundRewrite(fs: Fs, owner: Owner, fs': Fs, owner': Owner, t: seq<Inode>, n: nat, ino: Inode, ino': Inode)
    requires Sound(fs, t, owner) && n < |t| && t[n] == ino && ino.kind != FREE
    requires Rewrites(fs, owner, fs', owner', t, n, ino, ino') && WellFormed(fs'.disk, ino')
    ensures Sound(fs', t[n := ino'], owner')
    ensures NodesOf(t[n := ino'], fs'.disk) == NodesOf(t, fs.disk)[n := NodeOf(fs'.disk, ino')]
  {
    hide BitsAgree, Owned, WellFormed, NodeOf, SameView, BitAt;
    forall m | 0 <= m < |t| && m != n && t[m].kind != FREE ensures SameView(fs.disk, fs'.disk, t[m]) {
      LocalNode(fs, owner, fs', owner', n, t, m);
    }
    OneNode(fs.disk, fs'.disk, t, n, ino');
    SameLiveSet(t, n, ino');
  }

  /** The data area is the same on both disks. */
  ghost predicate SameData(disk: seq<Block>, disk': seq<Block>, lo: nat) {
    |disk'| == |disk| && forall b :: 0 <= b < |disk| && lo <= b ==> disk'[b] == disk[b]
  }

  lemma SameDataView(disk: seq<Block>, disk': seq<Block>, t: seq<Inode>, owner: Owner, lo: nat, hi: nat, m: nat)
    requires Owned(t, disk, owner, lo, hi) && SameData(disk, disk', lo) && m < |t| && t[m].kind != FREE
    ensures SameView(disk, disk', t[m])
  {
    assert Live(t, Index(m)) && Target(t, disk, Index(m)) == t[m].indirect;
    forall k | 0 <= k < MAX_BLOCKS
      ensures BlockPtr(disk', t[m], k) == BlockPtr(disk, t[m], k)
      ensures var b := BlockPtr(disk, t[m], k); b != 0 && b < |disk| ==> disk'[b] == disk[b]
    {
      assert Live(t, Data(m, k)) && Target(t, disk, Data(m, k)) == BlockPtr(disk, t[m], k);
    }
  }

  lemma OwnedSameData(disk: seq<Block>, disk': seq<Block>, t: seq<Inode>, owner: Owner, lo: nat, hi: nat)
    requires Owned(t, disk, owner, lo, hi) && SameData(disk, disk', lo)
    ensures Owned(t, disk', owner, lo, hi)
  {
    hide BlockPtr;
    forall s | Live(t, s) ensures Target(t, disk', s) == Target(t, disk, s) {
      SameDataView(disk, disk', t, owner, lo, hi, s.ino);
    }
  }

  /** Storing the inode table anew under an otherwise unchanged file system. */
  lemma SoundSameData(fs: Fs, fs': Fs, t: seq<Inode>, owner: Owner)
    requires Sound(fs, t, owner) && fs' == fs.(disk := fs'.disk) && SameData(fs.disk, fs'.disk, fs.sb.dataStart)
    ensures Sound(fs', t, owner)
    ensures NodesOf(t, fs'.disk) == NodesOf(t, fs.disk)
  {
    hide BitsAgree, Owned, WellFormed, NodeOf, SameView, BitAt, SameData;
    var lo, hi := fs.sb.dataStart, fs.sb.totalBlocks;
    assert |fs'.disk| == |fs.disk| by { SameDataLength(fs.disk, fs'.disk, lo); }
    OwnedSameData(fs.disk, fs'.disk, t, owner, lo, hi);
    forall m | 0 <= m < |t| && t[m].kind != FREE
      ensures WellFormed(fs'.disk, t[m]) && NodeOf(fs'.disk, t[m]) == NodeOf(fs.disk, t[m])
    {
      SameDataView(fs.disk, fs'.disk, t, owner, lo, hi, m);
      SameViewSameNode(fs.disk, fs'.disk, t[m]);
    }
  }

  lemma SameDataLength(disk: seq<Block>, disk': seq<Block>, lo: nat)
    requires SameData(disk, disk', lo)
    ensures |disk'| == |disk|
  {}

  /** Every inode that was live reads what it read. */
  ghost predicate SameViews(disk: seq<Block>, disk': seq<Block>, t: seq<Inode>) {
    forall m :: 0 <= m < |t| && t[m].kind != FREE ==> SameView(disk, disk', t[m])
  }

  lemma SameDataViews(fs: Fs, disk': seq<Block>, t: seq<Inode>, owner: Owner)
    requires Sound(fs, t, owner) && SameData(fs.disk, disk', fs.sb.dataStart)
    ensures SameViews(fs.disk, disk', t)
  {
    hide SameView, SameData, Owned, BitsAgree, AllWellFormed, InodesAgree;
    forall m | 0 <= m < |t| && t[m].kind != FREE ensures SameView(fs.disk, disk', t[m]) {
      SameDataView(fs.disk, disk', t, owner, fs.sb.dataStart, fs.sb.totalBlocks, m);
    }
  }

  lemma FreshBlockViews(fs: Fs, owner: Owner, t: seq<Inode>, b: nat, c: Block, disk': seq<Block>)
    requires Sound(fs, t, owner) && b < |fs.disk| && b !in owner && SameData(fs.disk[b := c], disk', fs.sb.dataStart)
    ensures SameViews(fs.disk, disk', t)
  {
    hide SameView, SameData, Owned, BitsAgree, AllWellFormed, InodesAgree;
    forall m | 0 <= m < |t| && t[m].kind != FREE ensures SameView(fs.disk, disk', t[m]) {
      FreshBlockView(fs, owner, t, m, b, c, disk');
    }
  }

  // ---------------------------------------------------------------- births and deaths

  lemma Born(sb: Superblock, bitmap: seq<byte>, t: seq<Inode>, n: nat, ino: Inode, free': u32)
    requires InodesAgree(sb, bitmap, t) && 0 < n < |t| && t[n].kind == FREE && ino.kind != FREE
    requires sb.freeInodes >= 1 && free' == sb.freeInodes - 1
    ensures InodesAgree(sb.(freeInodes := free'), WithBit(bitmap, n), t[n := ino])
  {
    hide Bit;
    assert LiveSet(t[n := ino]) == LiveSet(t) + {n};
  }

  lemma Died(sb: Superblock, bitmap: seq<byte>, t: seq<Inode>, n: nat, ino: Inode, free': u32)
    requires InodesAgree(sb, bitmap, t) && n < |t| && t[n].kind != FREE && ino.kind == FREE
    requires free' == sb.freeInodes + 1
    ensures InodesAgree(sb.(freeInodes := free'), WithoutBit(bitmap, n), t[n := ino])
  {
    hide Bit;
    assert LiveSet(t[n := ino]) == LiveSet(t) - {n};
  }

  lemma BlockBitsOnly(sb: Superblock, sb': Superblock, bitmap: seq<byte>, owner: Owner)
    requires BitsAgree(sb, bitmap, owner) && sb' == sb.(freeInodes := sb'.freeInodes)
    ensures BitsAgree(sb', bitmap, owner)
  {
    hide BitAt;
  }

  /** An inode that owned nothing and owns nothing: only the table and the inode bitmap changed. */
  lemma EmptySwapped(fs: Fs, owner: Owner, t: seq<Inode>, n: nat, ino: Inode, fs': Fs)
    requires Sound(fs, t, owner) && n < |t|
    requires t[n].kind == FREE || (t[n].direct == NO_BLOCKS && t[n].indirect == 0)
    requires ino.kind == FREE || (ino.direct == NO_BLOCKS && ino.indirect == 0 && WellFormed(fs'.disk, ino))
    requires Geometry(fs') && SameData(fs.disk, fs'.disk, fs.sb.dataStart)
    requires fs'.sb == fs.sb.(freeInodes := fs'.sb.freeInodes) && fs'.blockBitmap == fs.blockBitmap
    requires InodesAgree(fs'.sb, fs'.inodeBitmap, t[n := ino])
    ensures Sound(fs', t[n := ino], owner)
    ensures ino.kind != FREE ==> NodesOf(t[n := ino], fs'.disk) == NodesOf(t, fs.disk)[n := NodeOf(fs'.disk, ino)]
    ensures ino.kind == FREE ==> NodesOf(t[n := ino], fs'.disk) == NodesOf(t, fs.disk) - {n}
  {
    hide Owned, WellFormed, NodeOf, SameView, BitAt, SameData, InodesAgree;
    var lo, hi := fs.sb.dataStart, fs.sb.totalBlocks;
    OwnedSameData(fs.disk, fs'.disk, t, owner, lo, hi);
    SwapEmpty(t, fs'.disk, owner, lo, hi, n, ino);
    forall m | 0 <= m < |t| && m != n && t[m].kind != FREE ensures SameView(fs.disk, fs'.disk, t[m]) {
      SameDataView(fs.disk, fs'.disk, t, owner, lo, hi, m);
    }
    OneNode(fs.disk, fs'.disk, t, n, ino);
  }

  function FileInode(now: u32): Inode { NEW_FILE.(mtime := now) }

  lemma NewFileNode(disk: seq<Block>, now: u32)
    ensures WellFormed(disk, FileInode(now)) && NodeOf(disk, FileInode(now)) == File([])
  {
    assert FileBytes(disk, FileInode(now)) == [];
  }

  /** The inode and block that `create_dir` makes. */
  function DirInode(b: u32, now: u32): Inode {
    NEW_DIR.(direct := NO_BLOCKS[0 := b], size := 2 * ENTRY_SIZE, mtime := now)
  }

  /** A new directory's bindings: itself and, unless the number given for it is 0, its parent. */
  function FreshDir(n: nat, parent: nat): Node {
    Dir(if parent == 0 then map[DOT := n] else map[DOT := n, DOTDOT := parent])
  }

  lemma NewDirNode(disk: seq<Block>, b: u32, now: u32, self: u32, parent: u32)
    requires 0 < b < |disk| && disk[b] == NewDirBlock(self, parent) && self != 0
    ensures WellFormed(disk, DirInode(b, now))
    ensures NodeOf(disk, DirInode(b, now)) == FreshDir(self, parent)
  {
    hide NewDirBlock, Bind, BlockPtr, Entries, DirLayout, Shaped, Distinct, Represents;
    var es := [Entry(self, DOT), Entry(parent, DOTDOT)];
    OneBlockDir(disk, b, now);
    NewDirSlots(disk, b, now, self, parent);
    DotsDistinct(self, parent);
    BindUnique(es, FreshDir(self, parent).entries);
  }

  lemma OneBlockDir(disk: seq<Block>, b: u32, now: u32)
    requires 0 < b < |disk|
    ensures forall k: nat :: BlockPtr(disk, DirInode(b, now), k) == if k == 0 then b else 0
    ensures Shaped(disk, DirInode(b, now))
  {}

  lemma NewDirSlots(disk: seq<Block>, b: u32, now: u32, self: u32, parent: u32)
    requires 0 < b < |disk| && disk[b] == NewDirBlock(self, parent) && self != 0
    ensures DirLayout(disk, DirInode(b, now))
    ensures Entries(disk, DirInode(b, now)) == [Entry(self, DOT), Entry(parent, DOTDOT)]
  {
    hide NewDirBlock, BlockPtr, EntriesOf;
    OneBlockDir(disk, b, now);
    NewDirEntries(self, parent);
  }

  lemma DotsDistinct(self: u32, parent: u32)
    requires self != 0
    ensures var es := [Entry(self, DOT), Entry(parent, DOTDOT)];
            Distinct(es) && Represents(es, FreshDir(self, parent).entries)
  {
    var es := [Entry(self, DOT), Entry(parent, DOTDOT)];
    assert es[0].name == DOT && es[1].name == DOTDOT && |DOT| == 1 && |DOTDOT| == 2;
  }

  /** A directory inode with its first block, neither of which existed before. */
  lemma DirBorn(fs: Fs, owner: Owner, t: seq<Inode>, n: nat, b: u32, now: u32, parent: u32, fs': Fs, owner': Owner)
    requires Sound(fs, t, owner) && 0 < n < |t| && t[n].kind == FREE
    requires Took(fs, owner, fs'.sb.(freeInodes := fs.sb.freeInodes), fs'.blockBitmap, owner', b, Data(n, 0))
    requires Geometry(fs') && SameData(fs.disk[b := NewDirBlock(n, parent)], fs'.disk, fs.sb.dataStart)
    requires InodesAgree(fs'.sb, fs'.inodeBitmap, t[n := DirInode(b, now)])
    ensures Sound(fs', t[n := DirInode(b, now)], owner')
    ensures NodesOf(t[n := DirInode(b, now)], fs'.disk) ==
            NodesOf(t, fs.disk)[n := FreshDir(n, parent)]
  {
    hide WellFormed, NodeOf, SameView, BitAt, InodesAgree, NewDirBlock, Owned;
    var lo, hi := fs.sb.dataStart, fs.sb.totalBlocks;
    var disk1 := fs.disk[b := NewDirBlock(n, parent)];
    var empty := NEW_DIR.(size := 2 * ENTRY_SIZE, mtime := now);
    WriteDataBlock(t, fs.disk, owner, lo, hi, b, disk1[b]);
    OwnedSameData(disk1, fs'.disk, t, owner, lo, hi);
    SwapEmpty(t, fs'.disk, owner, lo, hi, n, empty);
    LinkDirect(t[n := empty], fs'.disk, owner, lo, hi, n, 0, b);
    assert t[n := empty][n := DirInode(b, now)] == t[n := DirInode(b, now)];
    forall m | 0 <= m < |t| && m != n && t[m].kind != FREE ensures SameView(fs.disk, fs'.disk, t[m]) {
      FreshBlockView(fs, owner, t, m, b, disk1[b], fs'.disk);
    }
    NewDirNode(fs'.disk, b, now, n, parent);
    OneNode(fs.disk, fs'.disk, t, n, DirInode(b, now));
  }

  lemma FreshBlockView(fs: Fs, owner: Owner, t: seq<Inode>, m: nat, b: nat, c: Block, disk': seq<Block>)
    requires Owned(t, fs.disk, owner, fs.sb.dataStart, fs.sb.totalBlocks)
    requires m < |t| && t[m].kind != FREE && b < |fs.disk| && b !in owner
    requires SameData(fs.disk[b := c], disk', fs.sb.dataStart)
    ensures SameView(fs.disk, disk', t[m])
  {
    assert Live(t, Index(m)) && Target(t, fs.disk, Index(m)) == t[m].indirect;
    forall k | 0 <= k < MAX_BLOCKS
      ensures BlockPtr(disk', t[m], k) == BlockPtr(fs.disk, t[m], k)
      ensures var p := BlockPtr(fs.disk, t[m], k); p != 0 && p < |fs.disk| ==> disk'[p] == fs.disk[p]
    {
      assert Live(t, Data(m, k)) && Target(t, fs.disk, Data(m, k)) == BlockPtr(fs.disk, t[m], k);
    }
  }

  /** The end of `unlink` and `rmdir`: blocks freed, inode cleared, inode number returned. */
  lemma NodeDied(fs: Fs, owner: Owner, fs1: Fs, owner1: Owner, t: seq<Inode>, n: nat, ino: Inode, ino1: Inode,
                 dead: Inode, fs2: Fs)
    requires Sound(fs, t, owner) && 0 < n < |t| && t[n] == ino && ino.kind != FREE
    requires Rewrites(fs, owner, fs1, owner1, t, n, ino, ino1) && ino1.direct == NO_BLOCKS && ino1.indirect == 0
    requires dead.kind == FREE
    requires Geometry(fs2) && SameData(fs1.disk, fs2.disk, fs1.sb.dataStart)
    requires fs2.sb == fs1.sb.(freeInodes := fs2.sb.freeInodes) && fs2.blockBitmap == fs1.blockBitmap
    requires fs2.sb.freeInodes == fs.sb.freeInodes + 1 && fs2.inodeBitmap == WithoutBit(fs.inodeBitmap, n)
    ensures Sound(fs2, t[n := dead], owner1)
    ensures NodesOf(t[n := dead], fs2.disk) == NodesOf(t, fs.disk) - {n}
  {
    hide WellFormed, NodeOf, SameView, BitAt, Owned, SameData, WithoutBit, BitsAgree;
    BlockBitsOnly(fs1.sb, fs2.sb, fs1.blockBitmap, owner1);
    var lo, hi := fs.sb.dataStart, fs.sb.totalBlocks;
    var t1 := t[n := ino1];
    OwnedSameData(fs1.disk, fs2.disk, t1, owner1, lo, hi);
    SwapEmpty(t1, fs2.disk, owner1, lo, hi, n, dead);
    assert t1[n := dead] == t[n := dead];
    Died(fs.sb, fs.inodeBitmap, t, n, dead, fs2.sb.freeInodes);
    forall m | 0 <= m < |t| && m != n && t[m].kind != FREE ensures SameView(fs.disk, fs2.disk, t[m]) {
      LocalNode(fs, owner, fs1, owner1, n, t, m);
      SameDataView(fs1.disk, fs2.disk, t1, owner1, lo, hi, m);
      SameViewTrans(fs.disk, fs1.disk, fs2.disk, t[m]);
    }
    OneNode(fs.disk, fs2.disk, t, n, dead);
  }

  lemma SameViewTrans(d0: seq<Block>, d1: seq<Block>, d2: seq<Block>, ino: Inode)
    requires SameView(d0, d1, ino) && SameView(d1, d2, ino)
    ensures SameView(d0, d2, ino)
  {
    hide BlockPtr;
  }

  lemma LiveCount(t: seq<Inode>)
    requires |t| > 0 && t[0].kind == FREE
    ensures |LiveSet(t)| <= |t| - 1
    ensures |LiveSet(t)| == |t| - 1 <==> forall n :: 1 <= n < |t| ==> t[n].kind != FREE
  {
    var r := Range(1, |t|);
    assert LiveSet(t) <= r;
    Subset(LiveSet(t), r);
    if forall n :: 1 <= n < |t| ==> t[n].kind != FREE { assert LiveSet(t) == r; }
    if LiveSet(t) == r {
      forall n | 1 <= n < |t| ensures t[n].kind != FREE { assert n in LiveSet(t); }
    }
  }

  lemma {:induction false} Subset<T>(a: set<T>, b: set<T>)
    requires a <= b
    ensures |a| <= |b| && (|a| == |b| ==> a == b)
  {
    if a != {} {
      var x :| x in a;
      Subset(a - {x}, b - {x});
    }
  }

  // ---------------------------------------------------------------- files

  lemma RewritesGeometry(fs: Fs, owner: Owner, fs': Fs, owner': Owner, t: seq<Inode>, n: nat, ino: Inode, ino': Inode)
    requires Rewrites(fs, owner, fs', owner', t, n, ino, ino') && Geometry(fs)
    ensures Geometry(fs') && Table(fs') == Table(fs) && fs'.sb == fs.sb.(freeBlocks := fs'.sb.freeBlocks)
    ensures ino'.kind == ino.kind && |fs'.inodeBitmap| == |fs.inodeBitmap|
  {
    hide Working, InodeAt;
    LocalTable(fs, owner, fs', owner', n);
  }

  lemma SoundAccounted(fs: Fs, t: seq<Inode>, owner: Owner)
    requires Sound(fs, t, owner)
    ensures Accounted(fs, t, owner)
  {}

  lemma SoundBits(fs: Fs, t: seq<Inode>, owner: Owner)
    requires Sound(fs, t, owner)
    ensures BitsAgree(fs.sb, fs.blockBitmap, owner)
  {}

  lemma RewritesKept(fs: Fs, o: Owner, fs': Fs, o': Owner, t: seq<Inode>, n: nat, ino: Inode, ino': Inode)
    requires Sound(fs, t, o) && Rewrites(fs, o, fs', o', t, n, ino, ino')
    ensures BitsAgree(fs'.sb, fs'.blockBitmap, o')
    ensures forall b :: b in o && o[b].ino != n ==> b in o'
  {
    hide BitAt, InodesAgree, AllWellFormed;
  }

  /** A growing inode keeps the data blocks it has. */
  lemma GrownKeeps(fs: Fs, o: Owner, fs': Fs, o': Owner, t: seq<Inode>, n: nat, ino: Inode, ino': Inode, last: int)
    requires Sound(fs, t, o) && n < |t| && t[n] == ino && Rewrites(fs, o, fs', o', t, n, ino, ino')
    requires Grown(fs.disk, ino, fs'.disk, ino', last)
    ensures forall b :: b in o && o[b].Data? ==> b in o'
  {
    hide BitsAgree, InodesAgree, AllWellFormed, BlockPtr;
    forall b | b in o && o[b].Data? ensures b in o' {
      if o[b].ino == n {
        assert Live(t, o[b]) && Target(t, fs.disk, o[b]) == b;
        DataInRange(fs', o', t[n := ino'], n, ino', o[b].k);
      }
    }
  }

  lemma SoundWorking(fs: Fs, owner: Owner, t: seq<Inode>, n: nat)
    requires Sound(fs, t, owner) && n < |t| && t[n].kind != FREE
    ensures Working(fs, owner, t, n, t[n]) && Shaped(fs.disk, t[n])
    ensures t[n].kind == FILE || t[n].kind == DIR
    ensures t[n].kind == DIR ==> DirLayout(fs.disk, t[n]) && Distinct(Entries(fs.disk, t[n]))
    ensures n in NodesOf(t, fs.disk) && NodesOf(t, fs.disk)[n] == NodeOf(fs.disk, t[n])
  {
    EachWellFormed(fs.disk, t, n);
  }

  /**
   * `s` after `d` was written at `off`: it has grown if `d` reaches past the end, and `d` lies where `off` leads to.
   * A gap between the old end and `d` is unspecified.
   */
  ghost predicate Overlays(s: seq<byte>, off: nat, d: seq<byte>, s': seq<byte>) {
    && |s'| == (if off + |d| > |s| then off + |d| else |s|)
    && forall p :: 0 <= p < |s'| ==>
         && (Base(off) <= p < Base(off) + |d| ==> s'[p] == d[p - Base(off)])
         && (p < |s| && !(Base(off) <= p < Base(off) + |d|) ==> s'[p] == s[p])
  }

  predicate IsFile(a: Nodes, n: nat) { n in a && a[n].File? }

  predicate IsDir(a: Nodes, n: nat) { n in a && a[n].Dir? }

  /** The bindings of directory `d`; nothing when `d` is not a directory. */
  function Dirents(a: Nodes, d: nat): Bindings {
    if IsDir(a, d) then a[d].entries else map[]
  }

  /** `a` with one binding of directory `d` added, or removed. */
  function WithEntry(a: Nodes, d: nat, name: Name, n: nat): Nodes { a[d := Dir(Dirents(a, d)[name := n])] }

  function WithoutEntry(a: Nodes, d: nat, name: Name): Nodes { a[d := Dir(Dirents(a, d) - {name})] }

  lemma NodeKinds(fs: Fs, t: seq<Inode>, owner: Owner, n: nat)
    requires Sound(fs, t, owner)
    ensures IsFile(NodesOf(t, fs.disk), n) <==> n < |t| && t[n].kind == FILE
    ensures IsDir(NodesOf(t, fs.disk), n) <==> n < |t| && t[n].kind == DIR
    ensures n in NodesOf(t, fs.disk) ==> 0 < n < |t|
    ensures IsFile(NodesOf(t, fs.disk), n) ==> |NodesOf(t, fs.disk)[n].bytes| == t[n].size
  {
    if n < |t| && t[n].kind != FREE {
      EachWellFormed(fs.disk, t, n);
    }
  }

  /** The transitions that create and remove one node. */
  predicate CreatesFile(a: Nodes, dir: nat, name: Name, n: nat, a': Nodes) {
    && IsDir(a, dir) && name !in Dirents(a, dir) && Storable(name) && n !in a && n != 0
    && a' == WithEntry(a[n := File([])], dir, name, n)
  }

  predicate CreatesDir(a: Nodes, parent: nat, name: Name, n: nat, a': Nodes) {
    && IsDir(a, parent) && name !in Dirents(a, parent) && Storable(name) && n !in a && n != 0
    && a' == WithEntry(a[n := FreshDir(n, parent)], parent, name, n)
  }

  /** What `create_dir` does when `parent` is the free inode number it goes on to allocate. */
  predicate CreatesLoop(a: Nodes, parent: nat, name: Name, n: nat, a': Nodes) {
    && n == parent && n !in a && n != 0 && Storable(name) && name != DOT && name != DOTDOT
    && a' == WithEntry(a[n := FreshDir(n, n)], n, name, n)
  }

  /** `name` is bound in the directory `create_dir` adds to, which may be the one it has just made. */
  predicate Taken(a: Nodes, parent: nat, name: Name) {
    if IsDir(a, parent) then name in Dirents(a, parent) else name == DOT || name == DOTDOT
  }

  /** Telling the parent about a directory that has just been born. */
  lemma BornThenNamed(a: Nodes, n: nat, parent: nat, name: Name)
    requires n !in a && n != 0
    ensures var b := a[n := FreshDir(n, parent)];
            && (IsDir(b, parent) <==> IsDir(a, parent) || parent == n)
            && (IsDir(b, parent) ==> (name in Dirents(b, parent) <==> Taken(a, parent, name)))
            && (IsDir(b, parent) && Storable(name) && !Taken(a, parent, name) ==>
                  if IsDir(a, parent) then CreatesDir(a, parent, name, n, WithEntry(b, parent, name, n))
                  else CreatesLoop(a, parent, name, n, WithEntry(b, parent, name, n)))
  {}

  lemma PutBack(a: Nodes, dir: nat, name: Name)
    requires name in Dirents(a, dir)
    ensures WithEntry(WithoutEntry(a, dir, name), dir, name, Dirents(a, dir)[name]) == a
    ensures IsDir(WithoutEntry(a, dir, name), dir) && name !in Dirents(WithoutEntry(a, dir, name), dir)
  {
    var m := Dirents(a, dir);
    assert (m - {name})[name := m[name]] == m;
  }

  /** What `unlink` can remove. */
  predicate HasFile(a: Nodes, dir: nat, name: Name) {
    && name in Dirents(a, dir) && name != DOT && name != DOTDOT
    && IsFile(a, Dirents(a, dir)[name])
  }

  predicate RemovesFile(a: Nodes, dir: nat, name: Name, a': Nodes) {
    && HasFile(a, dir, name)
    && a' == WithoutEntry(a, dir, name) - {Dirents(a, dir)[name]}
  }

  /** What `rmdir` can remove. */
  predicate HasBareDir(a: Nodes, parent: nat, name: Name) {
    && name in Dirents(a, parent) && name != DOT && name != DOTDOT
    && IsDir(a, Dirents(a, parent)[name]) && |Dirents(a, Dirents(a, parent)[name])| <= 2
  }

  predicate RemovesDir(a: Nodes, parent: nat, name: Name, a': Nodes) {
    && HasBareDir(a, parent, name)
    && a' == WithoutEntry(a, parent, name) - {Dirents(a, parent)[name]}
  }

  /** Between two abstract states: file `n` had `d` written at `off`, nothing else changed. */
  ghost predicate WritesFile(a: Nodes, n: nat, off: nat, d: seq<byte>, a': Nodes) {
    n in a && a[n].File? && exists s' :: Overlays(a[n].bytes, off, d, s') && a' == a[n := File(s')]
  }

  /** `d` laid over `s` at `off`, as far as it falls into `s`. */
  function Within(s: seq<byte>, off: nat, d: seq<byte>): seq<byte> {
    seq(|s|, p requires 0 <= p < |s| => if off <= p < off + |d| then d[p - off] else s[p])
  }

  /** Between two abstract states: a part of `d` was written over the bytes that file `n` already had. */
  ghost predicate WritesPart(a: Nodes, n: nat, off: nat, d: seq<byte>, a': Nodes) {
    n in a && a[n].File? && exists w :: 0 <= w < |d| && a' == a[n := File(Within(a[n].bytes, off, d[..w]))]
  }

  /** A write that has changed nothing but bytes, though it did not come to its end. */
  lemma FilePartWritten(fs: Fs, owner: Owner, fs': Fs, owner': Owner, t: seq<Inode>, n: nat, ino: Inode, off: nat,
                        d: seq<byte>, w: nat)
    requires Sound(fs, t, owner) && n < |t| && t[n] == ino && ino.kind == FILE
    requires Rewrites(fs, owner, fs', owner', t, n, ino, ino) && Shaped(fs'.disk, ino)
    requires w < |d| && Overlaid(fs.disk, ino, fs'.disk, ino, off, d[..w])
    ensures Sound(fs', t, owner') && WritesPart(NodesOf(t, fs.disk), n, off, d, NodesOf(t, fs'.disk))
  {
    hide Sound, ByteAt, Shaped, Local, Working;
    SoundRewrite(fs, owner, fs', owner', t, n, ino, ino);
    assert t[n := ino] == t;
    assert FileBytes(fs'.disk, ino) == Within(FileBytes(fs.disk, ino), off, d[..w]);
  }

  /** Pointers that an inode has gained in memory, but that are not stored, leave their blocks to nobody. */
  lemma UnstoredGain(fs: Fs, owner: Owner, t: seq<Inode>, n: nat, ino: Inode, ino': Inode)
    requires n < |t| && t[n] == ino && Working(fs, owner, t[n := ino'], n, ino') && ino'.kind == ino.kind
    requires forall k :: 0 <= k < DIRECT_PTRS && ino.direct[k] != 0 ==> ino'.direct[k] == ino.direct[k]
    requires ino.indirect != 0 ==> ino'.indirect == ino.indirect
    requires ino'.direct != ino.direct || ino'.indirect != ino.indirect
    ensures Unaccountable(fs, t)
  {
    hide Accounted, BlockPtr;
    GainKeeps(fs, t, n, ino, ino');
    var s := Index(n);
    if ino'.indirect == ino.indirect {
      var k :| 0 <= k < DIRECT_PTRS && ino'.direct[k] != ino.direct[k];
      s := Data(n, k);
      DirectPtr(fs.disk, ino, k);
      DirectPtr(fs.disk, ino', k);
    }
    assert Live(t, s) && Target(t, fs.disk, s) == 0 && Target(t[n := ino'], fs.disk, s) != 0;
    NamedInMemory(fs, owner, t, t[n := ino'], s);
  }

  lemma NamedInMemory(fs: Fs, owner: Owner, t: seq<Inode>, t': seq<Inode>, s: Slot)
    requires Accounted(fs, t', owner)
    requires forall q :: Live(t, q) ==> Live(t', q)
    requires forall q :: Live(t, q) && Target(t, fs.disk, q) != 0 ==> Target(t', fs.disk, q) == Target(t, fs.disk, q)
    requires Live(t, s) && Target(t, fs.disk, s) == 0 && Target(t', fs.disk, s) != 0
    ensures Unaccountable(fs, t)
  {
    hide BitsAgree, BlockPtr, Target;
    var b := Target(t', fs.disk, s);
    forall q | Live(t, q) ensures Target(t, fs.disk, q) != b {
      assert Target(t, fs.disk, q) != 0 ==> Target(t', fs.disk, q) == Target(t, fs.disk, q);
    }
    UnnamedBlock(fs, t, owner, b);
  }

  lemma DirectPtr(disk: seq<Block>, ino: Inode, k: nat)
    requires k < DIRECT_PTRS
    ensures BlockPtr(disk, ino, k) == ino.direct[k]
  {}

  lemma GainKeeps(fs: Fs, t: seq<Inode>, n: nat, ino: Inode, ino': Inode)
    requires n < |t| && t[n] == ino && ino'.kind == ino.kind
    requires forall k :: 0 <= k < DIRECT_PTRS && ino.direct[k] != 0 ==> ino'.direct[k] == ino.direct[k]
    requires ino.indirect != 0 ==> ino'.indirect == ino.indirect
    ensures forall q :: Live(t, q) ==> Live(t[n := ino'], q)
    ensures forall q :: Live(t, q) && Target(t, fs.disk, q) != 0 ==>
      Target(t[n := ino'], fs.disk, q) == Target(t, fs.disk, q)
  {
    hide UnpackU32;
  }

  /** Between two abstract states: file `n` was cut or stretched to `size`, nothing else changed. */
  ghost predicate ResizesFile(a: Nodes, n: nat, size: nat, a': Nodes) {
    && n in a && a[n].File? && n in a' && a'[n].File? && |a'[n].bytes| == size
    && (if size <= |a[n].bytes| then a'[n].bytes == a[n].bytes[..size] else a[n].bytes == a'[n].bytes[..|a[n].bytes|])
    && a' == a[n := a'[n]]
  }

  lemma FileWritten(fs: Fs, owner: Owner, fs': Fs, owner': Owner, t: seq<Inode>, n: nat, ino: Inode, ino': Inode,
                    off: nat, d: seq<byte>)
    requires Sound(fs, t, owner) && n < |t| && t[n] == ino && ino.kind == FILE
    requires Rewrites(fs, owner, fs', owner', t, n, ino, ino') && Shaped(fs'.disk, ino')
    requires ino'.size == if off + |d| > ino.size then off + |d| else ino.size
    ensures Sound(fs', t[n := ino'], owner')
    ensures NodesOf(t[n := ino'], fs'.disk) == NodesOf(t, fs.disk)[n := File(FileBytes(fs'.disk, ino'))]
    ensures NodesOf(t, fs.disk)[n] == File(FileBytes(fs.disk, ino))
    ensures Overlaid(fs.disk, ino, fs'.disk, ino', Base(off), d) ==>
              WritesFile(NodesOf(t, fs.disk), n, off, d, NodesOf(t[n := ino'], fs'.disk))
  {
    hide Sound, ByteAt, Shaped, Local, Working;
    SoundRewrite(fs, owner, fs', owner', t, n, ino, ino');
    assert Overlaid(fs.disk, ino, fs'.disk, ino', Base(off), d) ==>
      Overlays(FileBytes(fs.disk, ino), off, d, FileBytes(fs'.disk, ino'));
  }

  lemma FileTruncated(fs: Fs, owner: Owner, fs': Fs, owner': Owner, t: seq<Inode>, n: nat, ino: Inode, size: u64)
    requires Sound(fs, t, owner) && n < |t| && t[n] == ino && ino.kind == FILE && CutsRight(fs.disk, ino, size)
    requires Rewrites(fs, owner, fs', owner', t, n, ino, Cut(ino, size)) && fs'.disk == fs.disk
    ensures Sound(fs', t[n := Cut(ino, size)], owner')
    ensures NodesOf(t[n := Cut(ino, size)], fs'.disk) ==
      NodesOf(t, fs.disk)[n := File(FileBytes(fs.disk, Cut(ino, size)))]
    ensures (size < ino.size ==> ino.size <= CUT_LIMIT) ==>
      ResizesFile(NodesOf(t, fs.disk), n, size, NodesOf(t[n := Cut(ino, size)], fs'.disk))
  {
    hide Sound, ByteAt, Shaped, Local, Working, Strands, Leaks;
    var cut := Cut(ino, size);
    SoundRewrite(fs, owner, fs', owner', t, n, ino, cut);
    SoundWorking(fs, owner, t, n);
    if size < ino.size ==> ino.size <= CUT_LIMIT {
      CutsRightIff(fs.disk, ino, size);
      assert size <= ino.size ==> FileBytes(fs.disk, cut) == FileBytes(fs.disk, ino)[..size];
      assert size >= ino.size ==> FileBytes(fs.disk, ino) == FileBytes(fs.disk, cut)[..ino.size];
    }
  }

  /** Every inode that was live and is live has the kind, mode and owners it had. */
  ghost predicate RightsKept(t: seq<Inode>, t': seq<Inode>) {
    && |t'| == |t|
    && forall m :: 0 <= m < |t| && t[m].kind != FREE && t'[m].kind != FREE ==> SameFile(t'[m], t[m])
  }

  /** At most one inode changed, and that only in its size and blocks. */
  ghost predicate OnlyAt(t: seq<Inode>, t': seq<Inode>, n: nat) {
    n < |t| && |t'| == |t| && t' == t[n := t'[n]] && SameFile(t'[n], t[n])
  }

  /** An inode was born with the kind, mode and owners of `ino`, and every other one has those it had. */
  ghost predicate NewIn(t: seq<Inode>, t': seq<Inode>, n: nat, ino: Inode) {
    && n < |t| && |t'| == |t| && t[n].kind == FREE && SameFile(t'[n], ino)
    && forall m :: 0 <= m < |t| && m != n ==> SameFile(t'[m], t[m])
  }

  /** Every inode but these two is as it was. */
  ghost predicate OthersStay(t: seq<Inode>, t': seq<Inode>, a: nat, b: nat) {
    |t'| == |t| && forall m :: 0 <= m < |t| && m != a && m != b ==> t'[m] == t[m]
  }

  lemma RightsStay(t: seq<Inode>)
    ensures RightsKept(t, t)
  {}

  lemma OnlyOne(t: seq<Inode>, t': seq<Inode>, n: nat, ino: Inode)
    requires n < |t| && t' == t[n := ino] && SameFile(ino, t[n])
    ensures OnlyAt(t, t', n) && RightsKept(t, t')
  {}

  lemma SameRights(t: seq<Inode>, t': seq<Inode>, n: nat)
    requires OnlyAt(t, t', n)
    ensures RightsKept(t, t')
  {
    assert forall m :: 0 <= m < |t| && m != n ==> t'[m] == t[m];
  }

  lemma OneDied(t: seq<Inode>, t': seq<Inode>, n: nat, ino: Inode)
    requires n < |t| && t' == t[n := ino] && ino.kind == FREE
    ensures RightsKept(t, t') && OthersStay(t, t', n, n)
  {}

  /** A birth, and then an entry in a directory. */
  lemma BornIn(t: seq<Inode>, t1: seq<Inode>, t2: seq<Inode>, n: nat, ino: Inode, dir: nat)
    requires n < |t| && t[n].kind == FREE && t1 == t[n := ino] && OnlyAt(t1, t2, dir)
    ensures NewIn(t, t2, n, ino) && OthersStay(t, t2, n, dir)
  {
    forall m | 0 <= m < |t| ensures SameFile(t2[m], t1[m]) { if m != dir { assert t2[m] == t1[m]; } }
  }

  /** Mode, owners and time do not matter to what the file system holds. */
  lemma MetaSwapped(fs: Fs, t: seq<Inode>, owner: Owner, n: nat, ino: Inode)
    requires Sound(fs, t, owner) && n < |t|
    requires ino == t[n].(mode := ino.mode, uid := ino.uid, gid := ino.gid, mtime := ino.mtime)
    ensures Sound(fs, t[n := ino], owner) && NodesOf(t[n := ino], fs.disk) == NodesOf(t, fs.disk)
  {
    hide BitsAgree, BlockPtr, EntryAt, Bind, Distinct, InodesAgree, BitAt;
    SwapMeta(t, fs.disk, owner, fs.sb.dataStart, fs.sb.totalBlocks, n, ino);
    SameLiveSet(t, n, ino);
    SameInodes(fs, t, n, ino);
    SamePointers(fs.disk, t[n], ino);
    var t' := t[n := ino];
    forall m | 0 <= m < |t| && t'[m].kind != FREE ensures WellFormed(fs.disk, t'[m]) {
      EachWellFormed(fs.disk, t, m);
    }
  }

  lemma SameInodes(fs: Fs, t: seq<Inode>, n: nat, ino: Inode)
    requires InodesAgree(fs.sb, fs.inodeBitmap, t) && n < |t| && (t[n].kind == FREE) == (ino.kind == FREE)
    ensures InodesAgree(fs.sb, fs.inodeBitmap, t[n := ino])
  {
    SameLiveSet(t, n, ino);
  }

  lemma SamePointers(disk: seq<Block>, ino: Inode, ino': Inode)
    requires ino' == ino.(mode := ino'.mode, uid := ino'.uid, gid := ino'.gid, mtime := ino'.mtime)
    ensures WellFormed(disk, ino) <==> WellFormed(disk, ino')
    ensures NodeOf(disk, ino') == NodeOf(disk, ino)
  {
    hide Bind, Distinct, UnpackU32, EntriesOf;
    assert forall k: nat :: BlockPtr(disk, ino', k) == BlockPtr(disk, ino, k);
    assert forall j: nat :: EntryAt(disk, ino', j) == EntryAt(disk, ino, j);
    assert forall p: nat :: ByteAt(disk, ino', p) == ByteAt(disk, ino, p);
    assert Entries(disk, ino') == Entries(disk, ino);
    assert FileBytes(disk, ino') == FileBytes(disk, ino);
  }

  /** Storing other mode bits, owners or another time: the file system is as sound as it was, and holds what it held. */
  lemma MetaStored(fs: Fs, fs': Fs, t: seq<Inode>, owner: Owner, n: nat, ino: Inode)
    requires Geometry(fs) && n < |t|
    requires ino == t[n].(mode := ino.mode, uid := ino.uid, gid := ino.gid, mtime := ino.mtime)
    requires fs' == fs.(disk := fs'.disk) && SameData(fs.disk, fs'.disk, fs.sb.dataStart)
    ensures Sound(fs', t[n := ino], owner) <==> Sound(fs, t, owner)
    ensures Sound(fs, t, owner) ==> NodesOf(t[n := ino], fs'.disk) == NodesOf(t, fs.disk)
  {
    hide Sound, NodesOf, SameData;
    assert SameData(fs'.disk, fs.disk, fs.sb.dataStart) by { SameDataBack(fs.disk, fs'.disk, fs.sb.dataStart); }
    if Sound(fs, t, owner) {
      MetaSwapped(fs, t, owner, n, ino);
      SoundSameData(fs, fs', t[n := ino], owner);
    }
    if Sound(fs', t[n := ino], owner) {
      SoundSameData(fs', fs, t[n := ino], owner);
      MetaSwapped(fs, t[n := ino], owner, n, t[n]);
      assert t[n := ino][n := t[n]] == t;
    }
  }

  lemma SameDataBack(disk: seq<Block>, disk': seq<Block>, lo: nat)
    requires SameData(disk, disk', lo)
    ensures SameData(disk', disk, lo)
  {}

  /** Once the cut inode is stored: whether the blocks can be accounted for, and whether the file system is sound. */
  lemma CutStored(fs: Fs, owner: Owner, fs1: Fs, owner1: Owner, fs': Fs, t: seq<Inode>, t': seq<Inode>, n: nat,
                  ino: Inode, size: u64)
    requires Sound(fs, t, owner) && n < |t| && t[n] == ino && ino.kind == FILE && t' == t[n := Cut(ino, size)]
    requires Geometry(fs1) && fs1.disk == fs.disk
    requires fs' == fs1.(disk := fs'.disk) && SameData(fs1.disk, fs'.disk, fs1.sb.dataStart)
    requires if Strands(fs.disk, ino, size) || Leaks(fs.disk, ino, size)
      then Unaccountable(fs1, t')
      else Rewrites(fs, owner, fs1, owner1, t, n, ino, Cut(ino, size))
    ensures (exists o :: Accounted(fs', t', o)) <==>
      !Strands(fs.disk, ino, size) && !Leaks(fs.disk, ino, size)
    ensures if CutsRight(fs.disk, ino, size) then Sound(fs', t', owner1)
            else Unsound(fs', t')
    ensures CutsRight(fs.disk, ino, size) ==>
      NodesOf(t', fs'.disk) == NodesOf(t, fs.disk)[n := File(FileBytes(fs.disk, Cut(ino, size)))]
    ensures CutsRight(fs.disk, ino, size) && (size < ino.size ==> ino.size <= CUT_LIMIT) ==>
      ResizesFile(NodesOf(t, fs.disk), n, size, NodesOf(t', fs'.disk))
  {
    hide Sound, Rewrites, Shaped, Accounted, Strands, Leaks, Cut, Unsound, Unaccountable, ResizesFile, SameData,
      NodesOf;
    var cut := Cut(ino, size);
    if Strands(fs.disk, ino, size) || Leaks(fs.disk, ino, size) {
      UnaccountableStored(fs1, fs', t');
      UnaccountableUnsound(fs', t');
      Hopeless(fs', t');
    } else {
      AccountedStored(fs, owner, fs1, owner1, fs', t, n, ino, cut);
      if Shaped(fs.disk, cut) {
        FileTruncated(fs, owner, fs1, owner1, t, n, ino, size);
        SoundSameData(fs1, fs', t', owner1);
      } else {
        RewritesWorking(fs, owner, fs1, owner1, t, n, ino, cut);
        CutMisshapen(fs1, owner1, fs', t', n, cut);
      }
    }
  }

  /** A file emptied and then rewritten from the start holds exactly the new data. */
  lemma FileReplaced(fs: Fs, o: Owner, fs1: Fs, o1: Owner, fs2: Fs, o2: Owner, t: seq<Inode>, n: nat, ino: Inode,
                     ino1: Inode, ino2: Inode, d: seq<byte>)
    requires Sound(fs, t, o) && n < |t| && t[n] == ino && ino.kind == FILE
    requires Rewrites(fs, o, fs1, o1, t, n, ino, ino1) && ino1.size == 0
    requires Rewrites(fs1, o1, fs2, o2, t[n := ino1], n, ino1, ino2) && Shaped(fs2.disk, ino2)
    requires ino2.size == |d| && Overlaid(fs1.disk, ino1, fs2.disk, ino2, 0, d)
    ensures Sound(fs2, t[n := ino2], o2)
    ensures NodesOf(t[n := ino2], fs2.disk) == NodesOf(t, fs.disk)[n := File(d)]
  {
    hide Sound, ByteAt, Shaped, Local, Working;
    RewritesTrans(fs, o, fs1, o1, fs2, o2, t, n, ino, ino1, ino2);
    SoundRewrite(fs, o, fs2, o2, t, n, ino, ino2);
    assert FileBytes(fs2.disk, ino2) == d;
  }

  lemma AccountedBack(fs: Fs, fs': Fs, t: seq<Inode>, owner: Owner)
    requires Geometry(fs)
    requires fs' == fs.(disk := fs'.disk) && SameData(fs.disk, fs'.disk, fs.sb.dataStart)
    ensures Accounted(fs', t, owner) ==> Accounted(fs, t, owner)
  {
    hide BitsAgree, Owned;
    if Accounted(fs', t, owner) {
      OwnedSameData(fs'.disk, fs.disk, t, owner, fs.sb.dataStart, fs.sb.totalBlocks);
    }
  }

  lemma UnaccountableStored(fs: Fs, fs': Fs, t: seq<Inode>)
    requires Unaccountable(fs, t) && Geometry(fs)
    requires fs' == fs.(disk := fs'.disk) && SameData(fs.disk, fs'.disk, fs.sb.dataStart)
    ensures Unaccountable(fs', t)
  {
    hide Accounted;
    forall o ensures !Accounted(fs', t, o) { AccountedBack(fs, fs', t, o); }
  }

  /** No owners make the file system sound. */
  ghost predicate Unsound(fs: Fs, t: seq<Inode>) { forall o :: !Sound(fs, t, o) }

  lemma UnaccountableUnsound(fs: Fs, t: seq<Inode>)
    requires Unaccountable(fs, t)
    ensures Unsound(fs, t)
  {}

  lemma Misshapen(fs: Fs, t: seq<Inode>, n: nat)
    requires n < |t| && t[n].kind != FREE && !Shaped(fs.disk, t[n])
    ensures Unsound(fs, t)
  {
    hide Shaped, Accounted;
  }

  lemma Hopeless(fs: Fs, t: seq<Inode>)
    requires Unaccountable(fs, t)
    ensures !exists o :: Accounted(fs, t, o)
  {
    hide Accounted;
  }

  /** The accounting of an inode worked on is that of the file system once it is stored. */
  lemma AccountedStored(fs: Fs, owner: Owner, fs1: Fs, owner1: Owner, fs': Fs, t: seq<Inode>, n: nat, ino: Inode,
                        ino': Inode)
    requires Rewrites(fs, owner, fs1, owner1, t, n, ino, ino')
    requires fs' == fs1.(disk := fs'.disk) && SameData(fs1.disk, fs'.disk, fs1.sb.dataStart)
    ensures Accounted(fs', t[n := ino'], owner1)
  {
    hide Local, BitsAgree, Owned, SameData;
    SameDataLength(fs1.disk, fs'.disk, fs1.sb.dataStart);
    OwnedSameData(fs1.disk, fs'.disk, t[n := ino'], owner1, fs1.sb.dataStart, fs1.sb.totalBlocks);
  }

  /** Bytes laid over a directory's: sound exactly if they still are those of a directory, and then it is that one. */
  lemma RawWritten(fs: Fs, owner: Owner, fs1: Fs, owner1: Owner, fs': Fs, t: seq<Inode>, n: nat, ino: Inode,
                   ino': Inode, base: nat, d: seq<byte>)
    requires Sound(fs, t, owner) && n < |t| && t[n] == ino && ino.kind != FREE
    requires Rewrites(fs, owner, fs1, owner1, t, n, ino, ino') && Overlaid(fs.disk, ino, fs1.disk, ino', base, d)
    requires fs' == fs1.(disk := fs'.disk) && SameData(fs1.disk, fs'.disk, fs1.sb.dataStart)
    ensures Overlaid(fs.disk, ino, fs'.disk, ino', base, d)
    ensures if WellFormed(fs'.disk, ino')
            then Sound(fs', t[n := ino'], owner1) &&
                 NodesOf(t[n := ino'], fs'.disk) == NodesOf(t, fs.disk)[n := NodeOf(fs'.disk, ino')]
            else Unsound(fs', t[n := ino'])
  {
    hide Sound, Local, SameData, SameView, WellFormed, NodeOf, ByteAt, Owned, BitsAgree, EntryAt, NodesOf;
    var t' := t[n := ino'];
    RewritesWorking(fs, owner, fs1, owner1, t, n, ino, ino');
    SameDataView(fs1.disk, fs'.disk, t', owner1, fs1.sb.dataStart, fs1.sb.totalBlocks, n);
    SameViewSameNode(fs1.disk, fs'.disk, ino');
    if WellFormed(fs'.disk, ino') {
      SoundRewrite(fs, owner, fs1, owner1, t, n, ino, ino');
      SoundSameData(fs1, fs', t', owner1);
    } else {
      IllFormed(fs', t', n);
    }
  }

  lemma IllFormed(fs: Fs, t: seq<Inode>, n: nat)
    requires n < |t| && t[n].kind != FREE && !WellFormed(fs.disk, t[n])
    ensures Unsound(fs, t)
  {
    hide WellFormed, Accounted;
  }

  lemma CutMisshapen(fs1: Fs, owner1: Owner, fs': Fs, t: seq<Inode>, n: nat, cut: Inode)
    requires Working(fs1, owner1, t, n, cut) && !Shaped(fs1.disk, cut)
    requires SameData(fs1.disk, fs'.disk, fs1.sb.dataStart)
    ensures Unsound(fs', t)
  {
    hide Accounted, SameData, Shaped;
    MisshapenStored(fs1, owner1, fs', t, n);
  }

  /** A stored inode with pointers past its end leaves no sound file system. */
  lemma MisshapenStored(fs: Fs, owner: Owner, fs': Fs, t: seq<Inode>, n: nat)
    requires Accounted(fs, t, owner) && n < |t| && t[n].kind != FREE && !Shaped(fs.disk, t[n])
    requires SameData(fs.disk, fs'.disk, fs.sb.dataStart)
    ensures Unsound(fs', t)
  {
    hide Owned, SameData, BitsAgree, SameView;
    SameDataView(fs.disk, fs'.disk, t, owner, fs.sb.dataStart, fs.sb.totalBlocks, n);
    SameViewShaped(fs.disk, fs'.disk, t[n]);
    Misshapen(fs', t, n);
  }

  lemma SameViewShaped(disk: seq<Block>, disk': seq<Block>, ino: Inode)
    requires SameView(disk, disk', ino)
    ensures Shaped(disk', ino) <==> Shaped(disk, ino)
  {
    hide BlockPtr;
  }

  lemma SameTable(fs: Fs, fs': Fs)
    requires Geometry(fs) && fs'.sb == fs.sb.(freeBlocks := fs'.sb.freeBlocks)
    requires fs'.disk == fs.disk && fs'.inodeBitmap == fs.inodeBitmap && |fs'.blockBitmap| == |fs.blockBitmap|
    ensures Geometry(fs') && Table(fs') == Table(fs)
  {
    hide InodesOf;
    forall m | 0 <= m < fs.sb.inodeCount ensures Table(fs')[m] == Table(fs)[m] {
      assert InodeAt(fs', m) == InodeAt(fs, m);
    }
  }

  // ---------------------------------------------------------------- directory entries as bytes

  function EntryBytes(disk: seq<Block>, ino: Inode, j: nat): (r: seq<byte>)
    ensures |r| == ENTRY_SIZE
  {
    seq<byte>(ENTRY_SIZE, i requires 0 <= i < ENTRY_SIZE => ByteAt(disk, ino, ENTRY_SIZE * j + i))
  }

  lemma EntryPosition(j: nat, i: nat)
    requires i < ENTRY_SIZE
    ensures (ENTRY_SIZE * j + i) / BLOCK_SIZE == j / ENTRIES_PER_BLOCK
    ensures (ENTRY_SIZE * j + i) % BLOCK_SIZE == ENTRY_SIZE * (j % ENTRIES_PER_BLOCK) + i
  {
    var q, s := j / ENTRIES_PER_BLOCK, j % ENTRIES_PER_BLOCK;
    assert ENTRY_SIZE * j + i == BLOCK_SIZE * q + (ENTRY_SIZE * s + i);
  }

  lemma EntryAtBytes(disk: seq<Block>, ino: Inode, j: nat)
    ensures EntryAt(disk, ino, j) == DecodeEntry(EntryBytes(disk, ino, j))
  {
    hide BlockPtr, DecodeEntry;
    var b, s := BlockPtr(disk, ino, j / ENTRIES_PER_BLOCK), j % ENTRIES_PER_BLOCK;
    var e := EntryBytes(disk, ino, j);
    forall i | 0 <= i < ENTRY_SIZE ensures e[i] == if b == 0 || b >= |disk| then 0 else disk[b][ENTRY_SIZE * s + i] {
      EntryPosition(j, i);
    }
    if b == 0 || b >= |disk| {
      EntryRoundTrip(0, EMPTY_NAME);
      assert e == EncodeEntry(0, EMPTY_NAME);
    } else {
      assert e == disk[b][64 * s..64 * s + 64];
    }
  }

  /** Overlaying one encoded entry changes that entry and no other. */
  lemma EntryOverlaid(disk: seq<Block>, ino: Inode, disk': seq<Block>, ino': Inode, j: nat, inode: u32, name: Name,
                      i: nat)
    requires Overlaid(disk, ino, disk', ino', ENTRY_SIZE * j, EncodeEntry(inode, name))
    ensures EntryAt(disk', ino', i) == if i == j then Entry(inode, Stored(name)) else EntryAt(disk, ino, i)
  {
    hide ByteAt, DecodeEntry, EncodeEntry, EntryAt;
    EntryAtBytes(disk, ino, i);
    EntryAtBytes(disk', ino', i);
    EntryRoundTrip(inode, name);
    if i == j {
      assert EntryBytes(disk', ino', i) == EncodeEntry(inode, name);
    } else {
      assert EntryBytes(disk', ino', i) == EntryBytes(disk, ino, i) by {
        if i < j { assert ENTRY_SIZE * i + ENTRY_SIZE <= ENTRY_SIZE * j; }
        else { assert ENTRY_SIZE * j + ENTRY_SIZE <= ENTRY_SIZE * i; }
      }
    }
  }

  /** Rewriting slot `j` in place. */
  lemma SlotRewritten(disk: seq<Block>, ino: Inode, disk': seq<Block>, j: nat, inode: u32, name: Name)
    requires WellFormed(disk, ino) && ino.kind == DIR && j < Slots(ino)
    requires Overlaid(disk, ino, disk', ino, ENTRY_SIZE * j, EncodeEntry(inode, name))
    requires forall k :: 0 <= k < MAX_BLOCKS ==> BlockPtr(disk', ino, k) == BlockPtr(disk, ino, k)
    ensures Shaped(disk', ino) && DirLayout(disk', ino)
    ensures Entries(disk', ino) == Entries(disk, ino)[j := Entry(inode, Stored(name))]
  {
    hide BlockPtr, EntryAt, Overlaid, EncodeEntry;
    forall i: nat
      ensures EntryAt(disk', ino, i) == if i == j then Entry(inode, Stored(name)) else EntryAt(disk, ino, i) {
      EntryOverlaid(disk, ino, disk', ino, j, inode, name, i);
    }
    forall k | 0 <= k < DirBlocks(ino.size) ensures BlockPtr(disk', ino, k) != 0 {
      assert BlockPtr(disk, ino, k) != 0;
    }
  }

  /** The entries around the end of a full directory after one has been appended. */
  lemma AppendedEntries(disk: seq<Block>, ino: Inode, disk': seq<Block>, cur: Inode, size: u64, inode: u32, name: Name)
    requires ino.size % ENTRY_SIZE == 0 && inode != 0
    requires Overlaid(disk, ino, disk', cur, ino.size, EncodeEntry(inode, name))
    ensures forall i: nat :: EntryAt(disk', cur.(size := size), i) ==
                             if i == Slots(ino) then Entry(inode, Stored(name)) else EntryAt(disk, ino, i)
    ensures BlockPtr(disk', cur.(size := size), Slots(ino) / ENTRIES_PER_BLOCK) != 0
  {
    hide Overlaid, EncodeEntry, UnpackU32, EntriesOf;
    var ino' := cur.(size := size);
    forall i: nat
      ensures EntryAt(disk', ino', i) == if i == Slots(ino) then Entry(inode, Stored(name)) else EntryAt(disk, ino, i) {
      EntryOverlaid(disk, ino, disk', cur, Slots(ino), inode, name, i);
      assert BlockPtr(disk', ino', i / ENTRIES_PER_BLOCK) == BlockPtr(disk', cur, i / ENTRIES_PER_BLOCK);
    }
    assert EntryAt(disk', ino', Slots(ino)).inode == inode;
  }

  lemma PairedSizes(size: nat)
    requires size % (2 * ENTRY_SIZE) == 0
    ensures size / ENTRY_SIZE / ENTRIES_PER_BLOCK == size / BLOCK_SIZE
    ensures (size + 2 * ENTRY_SIZE) / ENTRY_SIZE == size / ENTRY_SIZE + 2
    ensures DirBlocks(size) == size / BLOCK_SIZE + if size % BLOCK_SIZE == 0 then 0 else 1
    ensures DirBlocks(size + 2 * ENTRY_SIZE) == size / BLOCK_SIZE + 1
    ensures size + ENTRY_SIZE <= MAX_BLOCKS * BLOCK_SIZE ==> size + 2 * ENTRY_SIZE <= MAX_BLOCKS * BLOCK_SIZE
    ensures size > 0 ==> LastBlock(size) == DirBlocks(size) - 1
  {
    var q := size / (2 * ENTRY_SIZE);
    assert size == 128 * q;
  }

  /** Past the old slots a directory holds only unused entries, inside its blocks and beyond them. */
  lemma UnusedTail(disk: seq<Block>, ino: Inode, j: nat)
    requires WellFormed(disk, ino) && ino.kind == DIR && Slots(ino) <= j
    ensures EntryAt(disk, ino, j).inode == 0
  {
    hide BlockPtr, EntryAt;
    PairedSizes(ino.size);
    if j >= ENTRIES_PER_BLOCK * DirBlocks(ino.size) {
      var k := j / ENTRIES_PER_BLOCK;
      assert k > LastBlock(ino.size);
      if k >= MAX_BLOCKS { PastEnd(disk, ino, k); }
      HoleEntry(disk, ino, j);
    }
  }

  lemma AppendedBlocks(disk: seq<Block>, ino: Inode, disk': seq<Block>, cur: Inode, inode: u32, name: Name)
    requires WellFormed(disk, ino) && ino.kind == DIR && inode != 0 && cur.kind == DIR
    requires Overlaid(disk, ino, disk', cur, ino.size, EncodeEntry(inode, name))
    requires Grown(disk, ino, disk', cur, (ino.size + ENTRY_SIZE - 1) / BLOCK_SIZE)
    requires ino.size + ENTRY_SIZE <= MAX_BLOCKS * BLOCK_SIZE && cur.size == ino.size + ENTRY_SIZE
    ensures cur.size + ENTRY_SIZE <= MAX_BLOCKS * BLOCK_SIZE && (cur.size + ENTRY_SIZE) % (2 * ENTRY_SIZE) == 0
    ensures var ino' := cur.(size := cur.size + ENTRY_SIZE);
            forall k :: 0 <= k < DirBlocks(ino'.size) ==> BlockPtr(disk', ino', k) != 0
  {
    hide Overlaid, EncodeEntry, BlockPtr, EntryAt, Shaped, Distinct, DirBlocks, Grown;
    PairedSizes(ino.size);
    var ino' := cur.(size := cur.size + ENTRY_SIZE);
    AppendedEntries(disk, ino, disk', cur, ino'.size, inode, name);
    SamePtrs(disk', cur, ino'.size);
    forall k | 0 <= k < DirBlocks(ino'.size) ensures BlockPtr(disk', ino', k) != 0 {
      NewestBlock(ino.size, k);
      if k < DirBlocks(ino.size) { OldBlock(disk, ino, disk', cur, k); }
    }
  }

  lemma NewestBlock(size: nat, k: nat)
    requires size % (2 * ENTRY_SIZE) == 0 && k < DirBlocks(size + 2 * ENTRY_SIZE)
    ensures k < DirBlocks(size) || k == size / ENTRY_SIZE / ENTRIES_PER_BLOCK
  {
    PairedSizes(size);
  }

  lemma OldBlock(disk: seq<Block>, ino: Inode, disk': seq<Block>, ino': Inode, k: nat)
    requires DirLayout(disk, ino) && k < DirBlocks(ino.size)
    requires Grown(disk, ino, disk', ino', (ino.size + ENTRY_SIZE - 1) / BLOCK_SIZE)
    ensures BlockPtr(disk', ino', k) != 0
  {
    hide BlockPtr, EntryAt;
    assert BlockPtr(disk, ino, k) != 0;
  }

  /** Appending at the end of a full directory: two more slots, the second of them unused. */
  lemma SlotAppended(disk: seq<Block>, ino: Inode, disk': seq<Block>, cur: Inode, inode: u32, name: Name)
    requires WellFormed(disk, ino) && ino.kind == DIR && inode != 0 && cur.kind == DIR
    requires Overlaid(disk, ino, disk', cur, ino.size, EncodeEntry(inode, name))
    requires Grown(disk, ino, disk', cur, (ino.size + ENTRY_SIZE - 1) / BLOCK_SIZE)
    requires ino.size + ENTRY_SIZE <= MAX_BLOCKS * BLOCK_SIZE && cur.size == ino.size + ENTRY_SIZE
    ensures cur.size + ENTRY_SIZE <= MAX_BLOCKS * BLOCK_SIZE
    ensures var ino' := cur.(size := cur.size + ENTRY_SIZE);
            && DirLayout(disk', ino')
            && Slots(ino') == Slots(ino) + 2
            && Entries(disk', ino') ==
               Entries(disk, ino) + [Entry(inode, Stored(name)), Entries(disk', ino')[Slots(ino) + 1]]
            && !Used(Entries(disk', ino')[Slots(ino) + 1])
  {
    hide Overlaid, EncodeEntry, BlockPtr, EntryAt, Shaped, Distinct, DirBlocks, Grown;
    AppendedBlocks(disk, ino, disk', cur, inode, name);
    PairedSizes(ino.size);
    var ino' := cur.(size := cur.size + ENTRY_SIZE);
    var s := Slots(ino);
    AppendedEntries(disk, ino, disk', cur, ino'.size, inode, name);
    forall j | s < j < ENTRIES_PER_BLOCK * DirBlocks(ino'.size) ensures EntryAt(disk', ino', j).inode == 0 {
      UnusedTail(disk, ino, j);
    }
    var es, es' := Entries(disk, ino), Entries(disk', ino');
    assert es' == es + [Entry(inode, Stored(name)), es'[s + 1]];
    assert es'[s + 1].inode == 0 by { UnusedTail(disk, ino, s + 1); }
  }

  lemma SamePtrs(disk: seq<Block>, ino: Inode, size: u64)
    ensures forall k: nat :: BlockPtr(disk, ino.(size := size), k) == BlockPtr(disk, ino, k)
  {}

  lemma HoleEntry(disk: seq<Block>, ino: Inode, j: nat)
    requires BlockPtr(disk, ino, j / ENTRIES_PER_BLOCK) == 0
    ensures EntryAt(disk, ino, j).inode == 0
  {}

  // ---------------------------------------------------------------- directories

  /**
   * Storing an entry into slot `j` of a directory, as the whole file system sees it; two entries with one name
   * leave no sound file system.
   */
  lemma SlotStored(fs: Fs, owner: Owner, fs': Fs, t: seq<Inode>, n: nat, ino: Inode, j: nat, inode: u32, name: Name)
    requires Sound(fs, t, owner) && n < |t| && t[n] == ino && ino.kind == DIR && j < Slots(ino)
    requires var b := BlockPtr(fs.disk, ino, j / ENTRIES_PER_BLOCK);
             && 0 < b < |fs.disk|
             && fs' ==
                fs.(disk :=
                  fs.disk[b := Splice(fs.disk[b], ENTRY_SIZE * (j % ENTRIES_PER_BLOCK), EncodeEntry(inode, name))])
    ensures Geometry(fs') && Table(fs') == Table(fs)
    ensures Entries(fs'.disk, ino) == Entries(fs.disk, ino)[j := Entry(inode, Stored(name))]
    ensures Sound(fs', t, owner) <==> Distinct(Entries(fs'.disk, ino))
    ensures Distinct(Entries(fs'.disk, ino)) ==>
              NodesOf(t, fs'.disk) == NodesOf(t, fs.disk)[n := Dir(Bind(Entries(fs'.disk, ino)))]
  {
    hide BitsAgree, Owned, BlockPtr, EncodeEntry, Splice, InodesAgree, AllWellFormed, Overlaid, Local, Stored, Distinct;
    var k, off := j / ENTRIES_PER_BLOCK, ENTRY_SIZE * (j % ENTRIES_PER_BLOCK);
    var b := BlockPtr(fs.disk, ino, k);
    assert WellFormed(fs.disk, ino) by { EachWellFormed(fs.disk, t, n); }
    DataInRange(fs, owner, t, n, ino, k);
    DataWritten(fs, owner, fs', t, n, ino, b, fs'.disk[b]);
    ChunkOverlaid(fs, owner, t, n, ino, k, off, EncodeEntry(inode, name));
    assert BLOCK_SIZE * k + off == ENTRY_SIZE * j;
    SlotRewritten(fs.disk, ino, fs'.disk, j, inode, name);
    LocalTable(fs, owner, fs', owner, n);
    if Distinct(Entries(fs'.disk, ino)) {
      SoundRewrite(fs, owner, fs', owner, t, n, ino, ino);
      assert t[n := ino] == t;
    } else if Sound(fs', t, owner) {
      EachWellFormed(fs'.disk, t, n);
    }
  }

  lemma EachWellFormed(disk: seq<Block>, t: seq<Inode>, n: nat)
    requires AllWellFormed(disk, t) && n < |t| && t[n].kind != FREE
    ensures WellFormed(disk, t[n])
  {}

  /** Appending an entry, as the whole file system sees it once the inode is stored. */
  lemma EntryAppended(fs: Fs, owner: Owner, fs': Fs, owner': Owner, t: seq<Inode>, n: nat, ino: Inode, cur: Inode,
                      inode: u32, name: Name)
    requires Sound(fs, t, owner) && n < |t| && t[n] == ino && ino.kind == DIR
    requires inode != 0 && Stored(name) !in Bind(Entries(fs.disk, ino))
    requires Rewrites(fs, owner, fs', owner', t, n, ino, cur) && Shaped(fs'.disk, cur)
    requires Overlaid(fs.disk, ino, fs'.disk, cur, ino.size, EncodeEntry(inode, name))
    requires Grown(fs.disk, ino, fs'.disk, cur, (ino.size + ENTRY_SIZE - 1) / BLOCK_SIZE)
    requires ino.size + ENTRY_SIZE <= MAX_BLOCKS * BLOCK_SIZE && cur.size == ino.size + ENTRY_SIZE
    ensures cur.size + ENTRY_SIZE <= MAX_BLOCKS * BLOCK_SIZE
    ensures var ino' := cur.(size := cur.size + ENTRY_SIZE);
            && Sound(fs', t[n := ino'], owner')
            && NodesOf(t[n := ino'], fs'.disk) ==
               NodesOf(t, fs.disk)[n := Dir(Bind(Entries(fs.disk, ino))[Stored(name) := inode])]
  {
    hide BitsAgree, Owned, BlockPtr, EncodeEntry, InodesAgree, AllWellFormed, Overlaid, Local, Grown, Shaped,
      DirLayout, Distinct, Bind;
    EachWellFormed(fs.disk, t, n);
    SlotAppended(fs.disk, ino, fs'.disk, cur, inode, name);
    var ino' := cur.(size := cur.size + ENTRY_SIZE);
    var es, es' := Entries(fs.disk, ino), Entries(fs'.disk, ino');
    var pad := [Entry(0, EMPTY_NAME), es'[Slots(ino) + 1]];
    BindPad(es, pad);
    StoredIff(name);
    BindFill(es + pad, |es|, inode, Stored(name));
    assert (es + pad)[|es| := Entry(inode, Stored(name))] == es';
    RewritesResized(fs, owner, fs', owner', t, n, ino, cur, ino'.size);
    ShapedResized(fs'.disk, cur, ino'.size);
    SoundRewrite(fs, owner, fs', owner', t, n, ino, ino');
  }

  /** Two used entries with one name. */
  lemma NamesClash(es: seq<Entry>, name: Name, j: nat)
    requires Distinct(es) && name in Bind(es) && j < |es| && !Used(es[j])
    ensures forall inode: u32 :: inode != 0 ==> !Distinct(es[j := Entry(inode, name)])
  {
    assert Represents(es, Bind(es));
    var i :| 0 <= i < |es| && Used(es[i]) && es[i].name == name;
    forall inode: u32 | inode != 0 ensures !Distinct(es[j := Entry(inode, name)]) {
      var es' := es[j := Entry(inode, name)];
      assert Used(es'[i]) && Used(es'[j]) && es'[i].name == es'[j].name;
    }
  }

  /** Filling an unused slot keeps the names different exactly when the new one is not bound yet. */
  lemma FillOrClash(es: seq<Entry>, j: nat, inode: u32, name: Name)
    requires Distinct(es) && j < |es| && !Used(es[j]) && Storable(name) && inode != 0
    ensures Distinct(es[j := Entry(inode, name)]) <==> name !in Bind(es)
    ensures name !in Bind(es) ==> Bind(es[j := Entry(inode, name)]) == Bind(es)[name := inode]
  {
    hide Distinct, Bind;
    if name in Bind(es) { NamesClash(es, name, j); } else { BindFill(es, j, inode, name); }
  }

  /** Appending an entry whose stored name is taken leaves no sound file system. */
  lemma EntryDoubled(fs: Fs, owner: Owner, fs': Fs, owner': Owner, t: seq<Inode>, n: nat, ino: Inode, cur: Inode,
                     inode: u32, name: Name)
    requires Sound(fs, t, owner) && n < |t| && t[n] == ino && ino.kind == DIR
    requires inode != 0 && Stored(name) in Bind(Entries(fs.disk, ino))
    requires cur.kind == DIR && Overlaid(fs.disk, ino, fs'.disk, cur, ino.size, EncodeEntry(inode, name))
    requires Grown(fs.disk, ino, fs'.disk, cur, (ino.size + ENTRY_SIZE - 1) / BLOCK_SIZE)
    requires ino.size + ENTRY_SIZE <= MAX_BLOCKS * BLOCK_SIZE && cur.size == ino.size + ENTRY_SIZE
    ensures cur.size + ENTRY_SIZE <= MAX_BLOCKS * BLOCK_SIZE
    ensures !Sound(fs', t[n := cur.(size := cur.size + ENTRY_SIZE)], owner')
  {
    hide Accounted, BlockPtr, EncodeEntry, InodesAgree, AllWellFormed, Overlaid, Grown, Shaped, DirLayout, Distinct,
      Bind, Stored;
    EachWellFormed(fs.disk, t, n);
    SlotAppended(fs.disk, ino, fs'.disk, cur, inode, name);
    var ino' := cur.(size := cur.size + ENTRY_SIZE);
    var es, es' := Entries(fs.disk, ino), Entries(fs'.disk, ino');
    var pad := [Entry(0, EMPTY_NAME), es'[Slots(ino) + 1]];
    BindPad(es, pad);
    NamesClash(es + pad, Stored(name), |es|);
    assert (es + pad)[|es| := Entry(inode, Stored(name))] == es';
    if Sound(fs', t[n := ino'], owner') { EachWellFormed(fs'.disk, t[n := ino'], n); }
  }

  /** The used entries in slot order: what `dir_list` returns. */
  function Listing(es: seq<Entry>): (r: seq<Entry>) {
    if es == [] then []
    else
      var init := Listing(es[..|es| - 1]);
      if Used(es[|es| - 1]) then init + [es[|es| - 1]] else init
  }

  lemma ListingStep(es: seq<Entry>, j: nat)
    requires j < |es|
    ensures Listing(es[..j + 1]) == Listing(es[..j]) + if Used(es[j]) then [es[j]] else []
  {
    assert es[..j + 1][..j] == es[..j];
  }

  lemma ListingWhole(es: seq<Entry>)
    ensures Listing(es[..0]) == [] && Listing(es[..|es|]) == Listing(es)
  {
    assert es[..|es|] == es;
  }

  lemma LookupHit(es: seq<Entry>, j: nat)
    requires Distinct(es) && j < |es| && Used(es[j])
    ensures es[j].name in Bind(es) && Bind(es)[es[j].name] == es[j].inode
  {
    assert Represents(es, Bind(es));
  }

  lemma {:induction false} ListingMembers(es: seq<Entry>)
    ensures forall e :: e in Listing(es) <==> e in es && Used(e)
  {
    if es != [] {
      var init, last := es[..|es| - 1], es[|es| - 1];
      ListingMembers(init);
      assert es == init + [last];
      hide Used;
      assert forall e :: e in es <==> e in init || e == last;
    }
  }

  /** The name of the last used entry is bound by it alone. */
  lemma LastUnbound(es: seq<Entry>)
    requires Distinct(es) && es != [] && Used(es[|es| - 1])
    ensures es[|es| - 1].name !in Bind(es[..|es| - 1]) && Distinct(es[..|es| - 1])
  {
    var init, last := es[..|es| - 1], es[|es| - 1];
    assert forall j :: 0 <= j < |init| ==> init[j] == es[j];
    assert Represents(init, Bind(init));
  }

  lemma {:induction false} ListingSize(es: seq<Entry>)
    requires Distinct(es)
    ensures |Listing(es)| == |Bind(es)|
  {
    if es != [] {
      var init, last := es[..|es| - 1], es[|es| - 1];
      assert Distinct(init) by { assert forall j :: 0 <= j < |init| ==> init[j] == es[j]; }
      if Used(last) { LastUnbound(es); }
      hide Distinct, Represents;
      ListingSize(init);
    }
  }

  /** A listing shows exactly the bindings, each once. */
  lemma {:induction false} ListingIsMap(es: seq<Entry>)
    requires Distinct(es)
    ensures |Listing(es)| == |Bind(es)|
    ensures forall e :: e in Listing(es) <==> e in es && Used(e)
    ensures forall e :: e in Listing(es) ==> e.name in Bind(es) && Bind(es)[e.name] == e.inode
  {
    hide Bind, Listing;
    ListingSize(es);
    ListingMembers(es);
    forall e | e in Listing(es) ensures e.name in Bind(es) && Bind(es)[e.name] == e.inode {
      var j :| 0 <= j < |es| && es[j] == e;
      LookupHit(es, j);
    }
  }

  lemma LookupMiss(es: seq<Entry>, name: Name)
    requires Distinct(es)
    requires forall j :: 0 <= j < |es| ==> !(Used(es[j]) && es[j].name == name)
    ensures name !in Bind(es)
  {
    assert Represents(es, Bind(es));
  }

  lemma StorableNames(es: seq<Entry>, name: Name)
    requires Distinct(es) && name in Bind(es)
    ensures Storable(name)
  {
    assert Represents(es, Bind(es));
  }

  lemma SoundInodes(fs: Fs, t: seq<Inode>, owner: Owner)
    requires Sound(fs, t, owner)
    ensures InodesAgree(fs.sb, fs.inodeBitmap, t)
    ensures |LiveSet(t)| <= |t| - 1 && fs.sb.freeInodes >= 1
    ensures |t| <= 8 * |fs.inodeBitmap|
    ensures forall n :: 0 <= n < |t| && t[n].kind != FREE ==> fs.sb.freeInodes < |t|
  {
    LiveCount(t);
    forall n | 0 <= n < |t| && t[n].kind != FREE ensures fs.sb.freeInodes < |t| {
      assert n in LiveSet(t);
    }
  }

  /** An inode stored live under a clear bit, or stored free under a set one, breaks the invariant. */
  lemma BitAstray(fs: Fs, t: seq<Inode>, owner: Owner, n: nat)
    requires n < |t| && n < 8 * |fs.inodeBitmap| && (BitAt(fs.inodeBitmap, n) <==> t[n].kind == FREE)
    ensures !Sound(fs, t, owner)
  {
    hide BitAt, Accounted;
  }

  /** Slot 0 counts as free, so a counter of 1 means that every usable inode is taken. */
  lemma InodesFull(fs: Fs, t: seq<Inode>, owner: Owner)
    requires Sound(fs, t, owner)
    ensures fs.sb.freeInodes == 1 <==> forall n :: 1 <= n < |t| ==> t[n].kind != FREE
  {
    LiveCount(t);
  }

  lemma SameTableSb(fs: Fs, fs': Fs)
    requires Geometry(fs) && fs'.sb == fs.sb.(freeBlocks := fs'.sb.freeBlocks, freeInodes := fs'.sb.freeInodes)
    requires fs'.disk == fs.disk && |fs'.inodeBitmap| == |fs.inodeBitmap| && |fs'.blockBitmap| == |fs.blockBitmap|
    ensures Geometry(fs') && Table(fs') == Table(fs)
  {
    hide InodesOf;
    forall m | 0 <= m < fs.sb.inodeCount ensures Table(fs')[m] == Table(fs)[m] {
      assert InodeAt(fs', m) == InodeAt(fs, m);
    }
  }

  lemma TableElsewhere(fs: Fs, fs': Fs, b: nat)
    requires Geometry(fs) && fs'.sb == fs.sb.(freeBlocks := fs'.sb.freeBlocks, freeInodes := fs'.sb.freeInodes)
    requires fs.sb.dataStart <= b < |fs.disk| && |fs'.disk| == |fs.disk| && fs'.disk == fs.disk[b := fs'.disk[b]]
    requires |fs'.inodeBitmap| == |fs.inodeBitmap| && |fs'.blockBitmap| == |fs.blockBitmap|
    ensures Geometry(fs') && Table(fs') == Table(fs)
  {
    hide InodesOf;
    forall m | 0 <= m < fs.sb.inodeCount ensures Table(fs')[m] == Table(fs)[m] {
      assert InodeAt(fs', m) == InodeAt(fs, m);
    }
  }

  lemma InodesOnly(sb: Superblock, sb': Superblock, bitmap: seq<byte>, t: seq<Inode>)
    requires InodesAgree(sb, bitmap, t) && sb'.freeInodes == sb.freeInodes
    ensures InodesAgree(sb', bitmap, t)
  {
    hide BitAt;
  }
}
