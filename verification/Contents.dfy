/** What an inode means: the bytes of a file, the bindings of a directory. */
module Contents {
  import opened Bytes
  import opened Layout
  import opened Accounting

  // ---------------------------------------------------------------- bytes

  /** The byte at position `p` of an inode's data; unallocated blocks read as zero. */
  function ByteAt(disk: seq<Block>, ino: Inode, p: nat): byte {
    var b := BlockPtr(disk, ino, p / BLOCK_SIZE);
    if b == 0 || b >= |disk| then 0 else disk[b][p % BLOCK_SIZE]
  }

  function FileBytes(disk: seq<Block>, ino: Inode): (r: seq<byte>)
    ensures |r| == ino.size
  {
    seq(ino.size, p requires 0 <= p < ino.size => ByteAt(disk, ino, p))
  }

  /** Index of the last block of a file of `size` bytes, as the truncation code computes it. */
  function LastBlock(size: nat): nat { if size == 0 then 0 else (size - 1) / BLOCK_SIZE }

  /** Pointers stay within the file's last block, and an indirect block means a size beyond nine blocks. */
  predicate Shaped(disk: seq<Block>, ino: Inode) {
    && (forall k :: 0 <= k < MAX_BLOCKS && BlockPtr(disk, ino, k) != 0 ==> k <= LastBlock(ino.size))
    && (ino.indirect != 0 ==> ino.size > DIRECT_PTRS * BLOCK_SIZE)
  }

  // ---------------------------------------------------------------- directories

  function EntryAt(disk: seq<Block>, ino: Inode, j: nat): Entry {
    var b := BlockPtr(disk, ino, j / ENTRIES_PER_BLOCK);
    if b == 0 || b >= |disk| then Entry(0, EMPTY_NAME) else EntriesOf(disk[b])[j % ENTRIES_PER_BLOCK]
  }

  function Slots(ino: Inode): nat { ino.size / ENTRY_SIZE }

  /** Blocks a directory of `size` bytes occupies. */
  function DirBlocks(size: nat): nat { (size + BLOCK_SIZE - 1) / BLOCK_SIZE }

  /** Slots come in pairs inside allocated blocks, and nothing is stored past the last slot. */
  ghost predicate DirLayout(disk: seq<Block>, ino: Inode) {
    && ino.kind == DIR
    && ino.size % (2 * ENTRY_SIZE) == 0 && 0 < ino.size <= MAX_BLOCKS * BLOCK_SIZE
    && (forall k :: 0 <= k < DirBlocks(ino.size) ==> BlockPtr(disk, ino, k) != 0)
    && (forall j :: Slots(ino) <= j < ENTRIES_PER_BLOCK * DirBlocks(ino.size) ==> EntryAt(disk, ino, j).inode == 0)
  }

  function Entries(disk: seq<Block>, ino: Inode): (r: seq<Entry>)
    ensures |r| == Slots(ino)
    ensures forall j :: 0 <= j < |r| ==> r[j] == EntryAt(disk, ino, j)
  {
    seq(Slots(ino), j requires 0 <= j < Slots(ino) => EntryAt(disk, ino, j))
  }

  predicate Used(e: Entry) { e.inode != 0 }

  /** Used entries carry storable, pairwise different names. */
  ghost predicate Distinct(es: seq<Entry>) {
    && (forall j :: 0 <= j < |es| && Used(es[j]) ==> Storable(es[j].name))
    && (forall i, j :: 0 <= i < j < |es| && Used(es[i]) && Used(es[j]) ==> es[i].name != es[j].name)
  }

  type Bindings = map<Name, nat>

  ghost predicate Represents(es: seq<Entry>, m: Bindings) {
    && (forall j :: 0 <= j < |es| && Used(es[j]) ==> es[j].name in m && m[es[j].name] == es[j].inode)
    && (forall name :: name in m ==> exists j :: 0 <= j < |es| && Used(es[j]) && es[j].name == name)
  }

  /** The finite map that a sequence of entries stands for. */
  ghost function Bind(es: seq<Entry>): (m: Bindings)
    ensures Distinct(es) ==> Represents(es, m)
  {
    if es == [] then map[]
    else
      var e, init := es[|es| - 1], es[..|es| - 1];
      assert Distinct(es) ==> Distinct(init);
      assert forall j :: 0 <= j < |init| ==> init[j] == es[j];
      if Used(e) then Bind(init)[e.name := e.inode] else Bind(init)
  }

  lemma BindUnique(es: seq<Entry>, m: Bindings)
    requires Distinct(es) && Represents(es, m)
    ensures Bind(es) == m
  {
    var b := Bind(es);
    assert Represents(es, b);
    forall name | name in m ensures name in b && b[name] == m[name] {
      var j :| 0 <= j < |es| && Used(es[j]) && es[j].name == name;
    }
    forall name | name in b ensures name in m {
      var j :| 0 <= j < |es| && Used(es[j]) && es[j].name == name;
    }
  }

  /** Filling an unused slot with a name not yet bound adds exactly that binding. */
  lemma BindFill(es: seq<Entry>, j: nat, inode: u32, name: Name)
    requires Distinct(es) && j < |es| && !Used(es[j])
    requires Storable(name) && name !in Bind(es) && inode != 0
    ensures Distinct(es[j := Entry(inode, name)])
    ensures Bind(es[j := Entry(inode, name)]) == Bind(es)[name := inode]
  {
    var es' := es[j := Entry(inode, name)];
    var m := Bind(es)[name := inode];
    assert Represents(es, Bind(es));
    forall n | n in m ensures exists i :: 0 <= i < |es'| && Used(es'[i]) && es'[i].name == n {
      if n == name { assert es'[j].name == n; }
      else {
        var i :| 0 <= i < |es| && Used(es[i]) && es[i].name == n;
        assert es'[i] == es[i];
      }
    }
    BindUnique(es', m);
  }

  /** Clearing a used slot removes exactly its binding. */
  lemma BindClear(es: seq<Entry>, j: nat)
    requires Distinct(es) && j < |es| && Used(es[j])
    ensures es[j].name in Bind(es)
    ensures Distinct(es[j := Entry(0, EMPTY_NAME)])
    ensures Bind(es[j := Entry(0, EMPTY_NAME)]) == Bind(es) - {es[j].name}
  {
    var es' := es[j := Entry(0, EMPTY_NAME)];
    var m := Bind(es) - {es[j].name};
    assert Represents(es, Bind(es));
    forall n | n in m ensures exists i :: 0 <= i < |es'| && Used(es'[i]) && es'[i].name == n {
      var i :| 0 <= i < |es| && Used(es[i]) && es[i].name == n;
      assert es'[i] == es[i];
    }
    BindUnique(es', m);
  }

  /** Unused slots at the end bind nothing. */
  lemma BindPad(es: seq<Entry>, pad: seq<Entry>)
    requires Distinct(es) && forall j :: 0 <= j < |pad| ==> !Used(pad[j])
    ensures Distinct(es + pad) && Bind(es + pad) == Bind(es)
  {
    var all := es + pad;
    var m := Bind(es);
    assert Represents(es, m);
    forall n | n in m ensures exists i :: 0 <= i < |all| && Used(all[i]) && all[i].name == n {
      var i :| 0 <= i < |es| && Used(es[i]) && es[i].name == n;
      assert all[i] == es[i];
    }
    BindUnique(all, m);
  }

  // ---------------------------------------------------------------- nodes

  datatype Node = File(bytes: seq<byte>) | Dir(entries: Bindings)

  ghost predicate WellFormed(disk: seq<Block>, ino: Inode) {
    && Shaped(disk, ino)
    && (ino.kind == FILE || (DirLayout(disk, ino) && Distinct(Entries(disk, ino))))
  }

  ghost function NodeOf(disk: seq<Block>, ino: Inode): Node {
    if ino.kind == DIR then Dir(Bind(Entries(disk, ino))) else File(FileBytes(disk, ino))
  }

  type Nodes = map<nat, Node>

  ghost function NodesOf(t: seq<Inode>, disk: seq<Block>): Nodes {
    map n: nat | n < |t| && t[n].kind != FREE :: NodeOf(disk, t[n])
  }

  /** Everything an inode reads is the same on both disks. */
  ghost predicate SameView(disk: seq<Block>, disk': seq<Block>, ino: Inode) {
    && |disk'| == |disk|
    && (forall k :: 0 <= k < MAX_BLOCKS ==> BlockPtr(disk', ino, k) == BlockPtr(disk, ino, k))
    && (forall k :: 0 <= k < MAX_BLOCKS && BlockPtr(disk, ino, k) < |disk| && BlockPtr(disk, ino, k) != 0 ==>
          disk'[BlockPtr(disk, ino, k)] == disk[BlockPtr(disk, ino, k)])
  }

  lemma SameViewSameNode(disk: seq<Block>, disk': seq<Block>, ino: Inode)
    requires SameView(disk, disk', ino)
    ensures forall p: nat :: ByteAt(disk', ino, p) == ByteAt(disk, ino, p)
    ensures forall j: nat :: EntryAt(disk', ino, j) == EntryAt(disk, ino, j)
    ensures NodeOf(disk', ino) == NodeOf(disk, ino)
    ensures WellFormed(disk, ino) <==> WellFormed(disk', ino)
  {
    forall p: nat ensures ByteAt(disk', ino, p) == ByteAt(disk, ino, p) {
      var k := p / BLOCK_SIZE;
      if k < MAX_BLOCKS { assert BlockPtr(disk', ino, k) == BlockPtr(disk, ino, k); }
    }
    forall j: nat ensures EntryAt(disk', ino, j) == EntryAt(disk, ino, j) {
      var k := j / ENTRIES_PER_BLOCK;
      if k < MAX_BLOCKS { assert BlockPtr(disk', ino, k) == BlockPtr(disk, ino, k); }
    }
    assert Entries(disk', ino) == Entries(disk, ino);
    assert FileBytes(disk', ino) == FileBytes(disk, ino);
    assert forall k :: 0 <= k < MAX_BLOCKS ==> BlockPtr(disk', ino, k) == BlockPtr(disk, ino, k);
  }

  // ---------------------------------------------------------------- locality

  /** A change that touches only blocks of inode `n`, free blocks, and the block bitmap. */
  ghost predicate Local(fs: Fs, owner: Owner, fs': Fs, owner': Owner, n: nat) {
    && fs'.sb == fs.sb.(freeBlocks := fs'.sb.freeBlocks)
    && fs'.inodeBitmap == fs.inodeBitmap
    && |fs'.blockBitmap| == |fs.blockBitmap|
    && |fs'.disk| == |fs.disk|
    && (forall b :: 0 <= b < |fs.disk| && b < fs.sb.dataStart ==> fs'.disk[b] == fs.disk[b])
    && (forall b :: b in owner && b < |fs.disk| && owner[b].ino != n ==>
          b in owner' && owner'[b] == owner[b] && fs'.disk[b] == fs.disk[b])
  }

  lemma LocalTrans(fs: Fs, owner: Owner, fs': Fs, owner': Owner, fs'': Fs, owner'': Owner, n: nat)
    requires Local(fs, owner, fs', owner', n) && Local(fs', owner', fs'', owner'', n)
    ensures Local(fs, owner, fs'', owner'', n)
  {}

  lemma LocalTable(fs: Fs, owner: Owner, fs': Fs, owner': Owner, n: nat)
    requires Geometry(fs) && Local(fs, owner, fs', owner', n)
    ensures Geometry(fs') && Table(fs') == Table(fs)
  {
    hide InodesOf, BitmapBlocks;
    forall m | 0 <= m < fs.sb.inodeCount ensures Table(fs')[m] == Table(fs)[m] {
      assert fs.sb.inodeTableStart + m / 8 < fs.sb.dataStart;
    }
  }

  /** A change local to `n` leaves what every other inode means alone. */
  lemma LocalNode(fs: Fs, owner: Owner, fs': Fs, owner': Owner, n: nat, t: seq<Inode>, m: nat)
    requires Owned(t, fs.disk, owner, fs.sb.dataStart, fs.sb.totalBlocks)
    requires Local(fs, owner, fs', owner', n) && m < |t| && m != n && t[m].kind != FREE
    ensures SameView(fs.disk, fs'.disk, t[m])
  {
    assert Live(t, Index(m)) && Target(t, fs.disk, Index(m)) == t[m].indirect;
    forall k | 0 <= k < MAX_BLOCKS
      ensures BlockPtr(fs'.disk, t[m], k) == BlockPtr(fs.disk, t[m], k)
      ensures var b := BlockPtr(fs.disk, t[m], k); b != 0 && b < |fs.disk| ==> fs'.disk[b] == fs.disk[b]
    {
      assert Live(t, Data(m, k)) && Target(t, fs.disk, Data(m, k)) == BlockPtr(fs.disk, t[m], k);
    }
  }

  // ---------------------------------------------------------------- an inode being worked on

  /** Everything but the block pointers. */
  predicate SameMeta(a: Inode, b: Inode) { a == b.(direct := a.direct, indirect := a.indirect) }

  /** In the inode table `t`, entry `n` is the live inode `ino`, and every block is accounted for. */
  ghost predicate Working(fs: Fs, owner: Owner, t: seq<Inode>, n: nat, ino: Inode) {
    n < |t| && t[n] == ino && ino.kind != FREE && Accounted(fs, t, owner)
  }

  /** Data blocks owned before are still owned, by the same pointer, with the same bytes. */
  ghost predicate DataKept(fs: Fs, owner: Owner, fs': Fs, owner': Owner) {
    forall b :: b in owner && owner[b].Data? && b < |fs.disk| && b < |fs'.disk| ==>
      b in owner' && owner'[b] == owner[b] && fs'.disk[b] == fs.disk[b]
  }

  /** Inode `n` may have gained blocks; nothing that was reachable changed. */
  ghost predicate Extends(fs: Fs, owner: Owner, fs': Fs, owner': Owner, t: seq<Inode>, n: nat, ino: Inode,
                          ino': Inode) {
    && n < |t|
    && Working(fs', owner', t[n := ino'], n, ino') && SameMeta(ino', ino)
    && Local(fs, owner, fs', owner', n)
    && DataKept(fs, owner, fs', owner')
    && owner.Keys <= owner'.Keys
  }

  lemma ExtendsTrans(fs: Fs, o: Owner, fs': Fs, o': Owner, fs'': Fs, o'': Owner, t: seq<Inode>, n: nat, i: Inode,
                     i': Inode, i'': Inode)
    requires Extends(fs, o, fs', o', t, n, i, i') && Extends(fs', o', fs'', o'', t[n := i'], n, i', i'')
    ensures Extends(fs, o, fs'', o'', t, n, i, i'')
  {
    hide Accounted;
    LocalTrans(fs, o, fs', o', fs'', o'', n);
    assert t[n := i'][n := i''] == t[n := i''];
  }

  lemma ExtendsRefl(fs: Fs, owner: Owner, t: seq<Inode>, n: nat, ino: Inode)
    requires Working(fs, owner, t, n, ino)
    ensures Extends(fs, owner, fs, owner, t, n, ino, ino)
  {
    hide Owned, BitsAgree;
    assert t[n := ino] == t;
  }

  /** The state after `alloc_block` has handed out block `b` for slot `s`. */
  ghost predicate Took(fs: Fs, owner: Owner, sb': Superblock, bitmap': seq<byte>, owner': Owner, b: nat, s: Slot) {
    && fs.sb.dataStart <= b < fs.sb.totalBlocks && b !in owner
    && owner' == owner[b := s]
    && sb' == fs.sb.(freeBlocks := sb'.freeBlocks)
    && |bitmap'| == |fs.blockBitmap|
    && BitsAgree(sb', bitmap', owner')
  }

  lemma DirectAdded(fs: Fs, owner: Owner, fs': Fs, owner': Owner, t: seq<Inode>, n: nat, ino: Inode, k: nat, b: u32)
    requires Working(fs, owner, t, n, ino) && k < DIRECT_PTRS && ino.direct[k] == 0
    requires Took(fs, owner, fs'.sb, fs'.blockBitmap, owner', b, Data(n, k))
    requires fs'.inodeBitmap == fs.inodeBitmap && fs'.disk == fs.disk
    ensures Extends(fs, owner, fs', owner', t, n, ino, ino.(direct := ino.direct[k := b]))
  {
    hide Owned, BitsAgree;
    LinkDirect(t, fs.disk, owner, fs.sb.dataStart, fs.sb.totalBlocks, n, k, b);
  }

  lemma IndexAdded(fs: Fs, owner: Owner, fs': Fs, owner': Owner, t: seq<Inode>, n: nat, ino: Inode, b: u32)
    requires Working(fs, owner, t, n, ino) && ino.indirect == 0
    requires Took(fs, owner, fs'.sb, fs'.blockBitmap, owner', b, Index(n))
    requires fs'.inodeBitmap == fs.inodeBitmap && fs'.disk == fs.disk[b := Zeros(512)]
    ensures Extends(fs, owner, fs', owner', t, n, ino, ino.(indirect := b))
    ensures forall i :: 0 <= i < MAX_BLOCKS ==> BlockPtr(fs'.disk, ino.(indirect := b), i) == BlockPtr(fs.disk, ino, i)
  {
    hide Owned, BitsAgree;
    var lo, hi := fs.sb.dataStart, fs.sb.totalBlocks;
    WriteDataBlock(t, fs.disk, owner, lo, hi, b, Zeros(512));
    LinkIndex(t, fs'.disk, owner, lo, hi, n, b);
  }

  lemma ViaAdded(fs: Fs, owner: Owner, fs': Fs, owner': Owner, t: seq<Inode>, n: nat, ino: Inode, k: nat, b: u32)
    requires Working(fs, owner, t, n, ino) && ino.indirect != 0 && DIRECT_PTRS <= k < MAX_BLOCKS
    requires BlockPtr(fs.disk, ino, k) == 0
    requires Took(fs, owner, fs'.sb, fs'.blockBitmap, owner', b, Data(n, k))
    requires fs'.inodeBitmap == fs.inodeBitmap
    requires ino.indirect < |fs.disk|
    requires fs'.disk == fs.disk[ino.indirect := Splice(fs.disk[ino.indirect], 4 * (k - DIRECT_PTRS), LE32(b))]
    ensures Extends(fs, owner, fs', owner', t, n, ino, ino)
    ensures forall i :: 0 <= i < MAX_BLOCKS ==>
        BlockPtr(fs'.disk, ino, i) == if i == k then b else BlockPtr(fs.disk, ino, i)
  {
    hide Owned, BitsAgree;
    LinkVia(t, fs.disk, owner, fs.sb.dataStart, fs.sb.totalBlocks, n, k, b);
    assert t[n := ino] == t;

  }

  /** The indirect block of a live inode is a block of the data area that holds no file data. */
  lemma IndexInRange(fs: Fs, owner: Owner, t: seq<Inode>, n: nat, ino: Inode)
    requires Working(fs, owner, t, n, ino)
    ensures ino.indirect < |fs.disk|
    ensures ino.indirect != 0 ==> ino.indirect in owner && owner[ino.indirect] == Index(n)
  {
    assert Live(t, Index(n)) && Target(t, fs.disk, Index(n)) == ino.indirect;
  }

  lemma DataInRange(fs: Fs, owner: Owner, t: seq<Inode>, n: nat, ino: Inode, k: nat)
    requires Working(fs, owner, t, n, ino) && BlockPtr(fs.disk, ino, k) != 0
    ensures var b := BlockPtr(fs.disk, ino, k);
            && k < MAX_BLOCKS && fs.sb.dataStart <= b < fs.sb.totalBlocks <= |fs.disk|
            && b in owner && owner[b] == Data(n, k)
  {
    assert Live(t, Data(n, k)) && Target(t, fs.disk, Data(n, k)) == BlockPtr(fs.disk, ino, k);
  }

  // ---------------------------------------------------------------- writing bytes

  /** Same kind, mode and owners. */
  predicate SameFile(a: Inode, b: Inode) {
    a == b.(direct := a.direct, indirect := a.indirect, size := a.size, mtime := a.mtime)
  }

  /** Inode `n` went from `ino` to `ino'` with all blocks accounted for and no other inode disturbed. */
  ghost predicate Rewrites(fs: Fs, owner: Owner, fs': Fs, owner': Owner, t: seq<Inode>, n: nat, ino: Inode,
                           ino': Inode) {
    n < |t| && Working(fs', owner', t[n := ino'], n, ino') && SameFile(ino', ino) && Local(fs, owner, fs', owner', n)
  }

  /** As a function of the position, the bytes are those before with `d` laid over them at `base`. */
  ghost predicate Overlaid(disk: seq<Block>, ino: Inode, disk': seq<Block>, ino': Inode, base: nat, d: seq<byte>) {
    forall p: nat :: ByteAt(disk', ino', p) == if base <= p < base + |d| then d[p - base] else ByteAt(disk, ino, p)
  }

  /** Free blocks it takes to have logical block `k`: none, one, or two when the indirect block is missing too. */
  function BlockNeed(disk: seq<Block>, ino: Inode, k: nat): nat {
    if BlockPtr(disk, ino, k) != 0 then 0 else if k >= DIRECT_PTRS && ino.indirect == 0 then 2 else 1
  }

  /** How many of the logical blocks `[from, to)` are missing. */
  function Holes(disk: seq<Block>, ino: Inode, from: nat, to: nat): nat
    decreases to
  {
    if to <= from then 0 else Holes(disk, ino, from, to - 1) + if BlockPtr(disk, ino, to - 1) == 0 then 1 else 0
  }

  /** Free blocks it takes to have all of the logical blocks `[from, to)`. */
  function RangeNeed(disk: seq<Block>, ino: Inode, from: nat, to: nat): nat {
    Holes(disk, ino, from, to) + if ino.indirect == 0 && from < to && DIRECT_PTRS < to then 1 else 0
  }

  lemma {:induction false} HoleBelow(disk: seq<Block>, ino: Inode, from: nat, to: nat) returns (h: nat)
    requires Holes(disk, ino, from, to) > 0
    ensures from <= h < to && BlockPtr(disk, ino, h) == 0
  {
    h := to - 1;
    if BlockPtr(disk, ino, h) != 0 { h := HoleBelow(disk, ino, from, to - 1); }
  }

  lemma {:induction false} HolesGrow(disk: seq<Block>, ino: Inode, from: nat, h: nat, k: nat)
    requires from <= h < k
    ensures Holes(disk, ino, from, h) + (if BlockPtr(disk, ino, h) == 0 then 1 else 0) <= Holes(disk, ino, from, k)
  {
    if h < k - 1 { HolesGrow(disk, ino, from, h, k - 1); }
  }

  /** The need of a range is the sum of what its blocks need one after the other. */
  lemma NeedStep(disk: seq<Block>, ino: Inode, disk': seq<Block>, ino': Inode, from: nat, k: nat)
    requires from <= k && (BlockPtr(disk', ino', k) == 0 <==> BlockPtr(disk, ino, k) == 0)
    requires ino'.indirect == 0 <==> ino.indirect == 0 && !(from < k && DIRECT_PTRS < k)
    ensures RangeNeed(disk, ino, from, k + 1) == RangeNeed(disk, ino, from, k) + BlockNeed(disk', ino', k)
  {}

  lemma {:induction false} NeedGrows(disk: seq<Block>, ino: Inode, from: nat, to: nat, more: nat)
    requires from <= to <= more
    ensures RangeNeed(disk, ino, from, to) <= RangeNeed(disk, ino, from, more)
    decreases more
  {
    if to < more { NeedGrows(disk, ino, from, to, more - 1); }
  }

  /** Allocated blocks stay where they are; new ones appear at or before `last`. */
  ghost predicate Grown(disk: seq<Block>, ino: Inode, disk': seq<Block>, ino': Inode, last: int) {
    forall i :: 0 <= i < MAX_BLOCKS ==>
      && (BlockPtr(disk, ino, i) != 0 ==> BlockPtr(disk', ino', i) == BlockPtr(disk, ino, i))
      && (BlockPtr(disk', ino', i) != 0 ==> BlockPtr(disk, ino, i) != 0 || i <= last)
  }

  /** Only the pointer of block `k` may have changed, and only if it was not set. */
  ghost predicate GrownAt(disk: seq<Block>, ino: Inode, disk': seq<Block>, ino': Inode, k: nat) {
    && (ino.indirect != 0 ==> ino'.indirect == ino.indirect)
    && forall i :: 0 <= i < MAX_BLOCKS && (i != k || BlockPtr(disk, ino, i) != 0) ==>
         BlockPtr(disk', ino', i) == BlockPtr(disk, ino, i)
  }

  /** Allocated blocks stay where they are, and those allocated since are just the holes in `[from, k)`. */
  ghost predicate Filled(disk: seq<Block>, ino: Inode, disk': seq<Block>, ino': Inode, from: nat, k: nat) {
    && (ino.indirect != 0 ==> ino'.indirect == ino.indirect)
    && forall i :: 0 <= i < MAX_BLOCKS ==>
         && (BlockPtr(disk, ino, i) != 0 || !(from <= i < k) ==> BlockPtr(disk', ino', i) == BlockPtr(disk, ino, i))
         && (from <= i < k ==> BlockPtr(disk', ino', i) != 0)
  }

  /** A write from logical block `from` on has come to block `k`, and `free` of once `free0` free blocks are left. */
  ghost predicate Paid(disk: seq<Block>, ino: Inode, disk': seq<Block>, ino': Inode, from: nat, k: nat, free0: nat,
                       free: nat) {
    && from <= k && (from < k ==> k <= MAX_BLOCKS) && Filled(disk, ino, disk', ino', from, k)
    && free + RangeNeed(disk, ino, from, k) == free0
    && (ino'.indirect == 0 <==> ino.indirect == 0 && !(from < k && DIRECT_PTRS < k))
  }

  lemma PaidNothing(disk: seq<Block>, ino: Inode, from: nat, free: nat)
    ensures Paid(disk, ino, disk, ino, from, from, free, free)
  {}

  lemma PaidStep(d0: seq<Block>, i0: Inode, d1: seq<Block>, i1: Inode, d2: seq<Block>, i2: Inode, from: nat, k: nat,
                 free0: nat, free1: nat, free2: nat)
    requires Paid(d0, i0, d1, i1, from, k, free0, free1) && GrownAt(d1, i1, d2, i2, k)
    requires k < MAX_BLOCKS && BlockPtr(d2, i2, k) != 0 && (i2.indirect != i1.indirect ==> k >= DIRECT_PTRS)
    requires free2 + BlockNeed(d1, i1, k) == free1
    ensures Paid(d0, i0, d2, i2, from, k + 1, free0, free2)
  {
    hide RangeNeed, BlockNeed;
    assert BlockPtr(d1, i1, k) == 0 <==> BlockPtr(d0, i0, k) == 0 by { hide BlockPtr; }
    NeedStep(d0, i0, d1, i1, from, k);
    assert k >= DIRECT_PTRS ==> i2.indirect != 0;
    hide BlockPtr;
    assert Filled(d0, i0, d2, i2, from, k + 1);
  }

  lemma PaidAll(disk: seq<Block>, ino: Inode, disk': seq<Block>, ino': Inode, from: nat, k: nat, free0: nat, free: nat)
    requires Paid(disk, ino, disk', ino', from, k, free0, free)
    ensures free + RangeNeed(disk, ino, from, k) == free0 && RangeNeed(disk, ino, from, from) == 0
  {}

  lemma PaidOut(d0: seq<Block>, i0: Inode, d1: seq<Block>, i1: Inode, from: nat, k: nat, to: nat, free0: nat,
                free1: nat)
    requires Paid(d0, i0, d1, i1, from, k, free0, free1) && k < to && k < MAX_BLOCKS && free1 < BlockNeed(d1, i1, k)
    ensures free0 < RangeNeed(d0, i0, from, to)
  {
    hide RangeNeed, BlockNeed, BlockPtr;
    assert BlockPtr(d1, i1, k) == 0 <==> BlockPtr(d0, i0, k) == 0;
    NeedStep(d0, i0, d1, i1, from, k);
    NeedGrows(d0, i0, from, k + 1, to);
  }

  lemma OverlaidTrans(d0: seq<Block>, i0: Inode, d1: seq<Block>, i1: Inode, d2: seq<Block>, i2: Inode, base: nat,
                      a: seq<byte>, b: seq<byte>)
    requires Overlaid(d0, i0, d1, i1, base, a) && Overlaid(d1, i1, d2, i2, base + |a|, b)
    ensures Overlaid(d0, i0, d2, i2, base, a + b)
  {
    hide ByteAt;
  }

  lemma RewritesTrans(fs: Fs, o: Owner, fs': Fs, o': Owner, fs'': Fs, o'': Owner, t: seq<Inode>, n: nat, i: Inode,
                      i': Inode, i'': Inode)
    requires Rewrites(fs, o, fs', o', t, n, i, i') && Rewrites(fs', o', fs'', o'', t[n := i'], n, i', i'')
    ensures Rewrites(fs, o, fs'', o'', t, n, i, i'')
  {
    hide Accounted;
    LocalTrans(fs, o, fs', o', fs'', o'', n);
    assert t[n := i'][n := i''] == t[n := i''];
  }

  lemma RewritesRefl(fs: Fs, owner: Owner, t: seq<Inode>, n: nat, ino: Inode)
    requires Working(fs, owner, t, n, ino)
    ensures Rewrites(fs, owner, fs, owner, t, n, ino, ino)
  {
    hide Owned, BitsAgree;
    assert t[n := ino] == t;
  }

  /** Rewriting a data block of `n`. */
  lemma DataWritten(fs: Fs, owner: Owner, fs': Fs, t: seq<Inode>, n: nat, ino: Inode, b: nat, c: Block)
    requires Working(fs, owner, t, n, ino) && b in owner && owner[b].Data? && owner[b].ino == n
    requires b < |fs.disk| && fs' == fs.(disk := fs.disk[b := c])
    ensures Rewrites(fs, owner, fs', owner, t, n, ino, ino)
    ensures forall i :: 0 <= i < MAX_BLOCKS ==> BlockPtr(fs'.disk, ino, i) == BlockPtr(fs.disk, ino, i)
  {
    hide BitsAgree, UnpackU32;
    WriteDataBlock(t, fs.disk, owner, fs.sb.dataStart, fs.sb.totalBlocks, b, c);
    assert t[n := ino] == t;
    forall i | 0 <= i < MAX_BLOCKS ensures BlockPtr(fs'.disk, ino, i) == BlockPtr(fs.disk, ino, i) {
      assert Live(t, Data(n, i)) && Target(t, fs.disk, Data(n, i)) == BlockPtr(fs.disk, ino, i);
      assert Target(t, fs'.disk, Data(n, i)) == BlockPtr(fs'.disk, ino, i);
    }
  }

  /** Splicing the block behind logical block `k` changes the bytes at one stretch of positions. */
  lemma ChunkByte(disk: seq<Block>, ino: Inode, disk': seq<Block>, k: nat, off: nat, d: seq<byte>, p: nat)
    requires off + |d| <= BLOCK_SIZE
    requires var b := BlockPtr(disk, ino, k);
             0 < b < |disk| && disk' == disk[b := Splice(disk[b], off, d)]
    requires BlockPtr(disk', ino, p / BLOCK_SIZE) == BlockPtr(disk, ino, p / BLOCK_SIZE)
    requires BlockPtr(disk, ino, p / BLOCK_SIZE) == BlockPtr(disk, ino, k) ==> p / BLOCK_SIZE == k
    ensures var base := BLOCK_SIZE * k + off;
            ByteAt(disk', ino, p) == if base <= p < base + |d| then d[p - base] else ByteAt(disk, ino, p)
  {
    hide BlockPtr;
    assert p == BLOCK_SIZE * (p / BLOCK_SIZE) + p % BLOCK_SIZE;
  }

  lemma ChunkOverlaid(fs: Fs, owner: Owner, t: seq<Inode>, n: nat, ino: Inode, k: nat, off: nat, d: seq<byte>)
    requires Working(fs, owner, t, n, ino) && off + |d| <= BLOCK_SIZE
    requires BlockPtr(fs.disk, ino, k) != 0 && BlockPtr(fs.disk, ino, k) < |fs.disk|
    requires var b := BlockPtr(fs.disk, ino, k);
             forall i :: 0 <= i < MAX_BLOCKS ==>
               BlockPtr(fs.disk[b := Splice(fs.disk[b], off, d)], ino, i) == BlockPtr(fs.disk, ino, i)
    ensures var b := BlockPtr(fs.disk, ino, k);
            Overlaid(fs.disk, ino, fs.disk[b := Splice(fs.disk[b], off, d)], ino, BLOCK_SIZE * k + off, d)
  {
    hide Working, Splice, BlockPtr, ByteAt;
    var b := BlockPtr(fs.disk, ino, k);
    var disk' := fs.disk[b := Splice(fs.disk[b], off, d)];
    var base := BLOCK_SIZE * k + off;
    DataInRange(fs, owner, t, n, ino, k);
    forall p: nat
      ensures ByteAt(disk', ino, p) == if base <= p < base + |d| then d[p - base] else ByteAt(fs.disk, ino, p)
    {
      var i := p / BLOCK_SIZE;
      if i >= MAX_BLOCKS {
        PastEnd(fs.disk, ino, i);
        PastEnd(disk', ino, i);
      } else if BlockPtr(fs.disk, ino, i) != 0 {
        DataInRange(fs, owner, t, n, ino, i);
      }
      ChunkByte(fs.disk, ino, disk', k, off, d, p);
    }
  }

  lemma PastEnd(disk: seq<Block>, ino: Inode, k: nat)
    requires k >= MAX_BLOCKS
    ensures BlockPtr(disk, ino, k) == 0
  {}

  /** A freshly allocated block, once zeroed, reads as the hole it replaced. */
  lemma FreshZeroed(fs: Fs, o: Owner, fs1: Fs, o1: Owner, t: seq<Inode>, n: nat, ino: Inode, ino': Inode, k: nat,
                    disk': seq<Block>)
    requires Working(fs, o, t, n, ino) && Extends(fs, o, fs1, o1, t, n, ino, ino')
    requires k < MAX_BLOCKS && BlockPtr(fs.disk, ino, k) == 0
    requires var b := BlockPtr(fs1.disk, ino', k);
             b != 0 && b !in o && b < |fs1.disk| && disk' == fs1.disk[b := Zeros(512)]
    requires forall i :: 0 <= i < MAX_BLOCKS && i != k ==> BlockPtr(fs1.disk, ino', i) == BlockPtr(fs.disk, ino, i)
    requires forall i :: 0 <= i < MAX_BLOCKS ==> BlockPtr(disk', ino', i) == BlockPtr(fs1.disk, ino', i)
    ensures Overlaid(fs.disk, ino, disk', ino', 0, [])
  {
    hide Owned, BitsAgree, BlockPtr;
    forall p: nat ensures ByteAt(disk', ino', p) == ByteAt(fs.disk, ino, p) {
      var i := p / BLOCK_SIZE;
      if BlockPtr(fs.disk, ino, i) != 0 {
        DataInRange(fs, o, t, n, ino, i);
      } else if i >= MAX_BLOCKS {
        PastEnd(disk', ino', i);
      }
    }
  }

  /** Changing only size and time. */
  lemma Resized(fs: Fs, owner: Owner, t: seq<Inode>, n: nat, ino: Inode, size: u64, now: u32)
    requires Working(fs, owner, t, n, ino)
    ensures var ino' := ino.(size := size, mtime := now);
            && Rewrites(fs, owner, fs, owner, t, n, ino, ino')
            && (forall i :: 0 <= i < MAX_BLOCKS ==> BlockPtr(fs.disk, ino', i) == BlockPtr(fs.disk, ino, i))
            && (forall p: nat :: ByteAt(fs.disk, ino', p) == ByteAt(fs.disk, ino, p))
  {
    hide Owned, BitsAgree;
    var ino' := ino.(size := size, mtime := now);
    SwapMeta(t, fs.disk, owner, fs.sb.dataStart, fs.sb.totalBlocks, n, ino');
    forall i: nat ensures BlockPtr(fs.disk, ino', i) == BlockPtr(fs.disk, ino, i) {}
  }

  lemma GrownWiden(d0: seq<Block>, i0: Inode, d1: seq<Block>, i1: Inode, d2: seq<Block>, i2: Inode, a: int, b: int,
                   last: int)
    requires Grown(d0, i0, d1, i1, a) && Grown(d1, i1, d2, i2, b) && a <= last && b <= last
    ensures Grown(d0, i0, d2, i2, last)
  {
    hide BlockPtr;
  }

  lemma ShapedGrown(d0: seq<Block>, i0: Inode, d1: seq<Block>, i1: Inode, size: u64, now: u32, last: int)
    requires Shaped(d0, i0) && Grown(d0, i0, d1, i1, last)
    requires i0.size <= size && last <= LastBlock(size)
    requires i1.indirect != 0 ==> i0.indirect != 0 || size > DIRECT_PTRS * BLOCK_SIZE
    ensures Shaped(d1, i1.(size := size, mtime := now))
  {
    var i2 := i1.(size := size, mtime := now);
    forall k | 0 <= k < MAX_BLOCKS && BlockPtr(d1, i2, k) != 0 ensures k <= LastBlock(size) {
      assert BlockPtr(d1, i2, k) == BlockPtr(d1, i1, k);
    }
  }

  lemma GrownAtGrown(d0: seq<Block>, i0: Inode, d1: seq<Block>, i1: Inode, k: nat)
    requires GrownAt(d0, i0, d1, i1, k)
    ensures Grown(d0, i0, d1, i1, k)
  {
    hide BlockPtr;
  }

  lemma GrownRefl(disk: seq<Block>, ino: Inode, last: int)
    ensures Grown(disk, ino, disk, ino, last)
  {}

  lemma OverlaidNothing(disk: seq<Block>, ino: Inode, base: nat)
    ensures Overlaid(disk, ino, disk, ino, base, [])
  {
    hide ByteAt;
  }

  lemma RewritesWorking(fs: Fs, o: Owner, fs': Fs, o': Owner, t: seq<Inode>, n: nat, ino: Inode, ino': Inode)
    requires Rewrites(fs, o, fs', o', t, n, ino, ino')
    ensures n < |t| && Working(fs', o', t[n := ino'], n, ino') && ino'.kind == ino.kind
  {}

  lemma RewritesFrame(fs: Fs, o: Owner, fs': Fs, o': Owner, t: seq<Inode>, n: nat, ino: Inode, ino': Inode)
    requires Rewrites(fs, o, fs', o', t, n, ino, ino')
    ensures fs'.sb == fs.sb.(freeBlocks := fs'.sb.freeBlocks) && |fs'.blockBitmap| == |fs.blockBitmap|
  {}

  /** The update of size and time that ends a write. */
  lemma WriteResized(fs: Fs, o: Owner, fs': Fs, o': Owner, t: seq<Inode>, n: nat, ino: Inode, cur: Inode, size: u64,
                     now: u32, last: int, base: nat, d: seq<byte>)
    requires Rewrites(fs, o, fs', o', t, n, ino, cur) && Grown(fs.disk, ino, fs'.disk, cur, last)
    ensures var ino' := cur.(size := size, mtime := now);
            && Rewrites(fs, o, fs', o', t, n, ino, ino')
            && Grown(fs.disk, ino, fs'.disk, ino', last)
            && (Overlaid(fs.disk, ino, fs'.disk, cur, base, d) ==> Overlaid(fs.disk, ino, fs'.disk, ino', base, d))
  {
    hide Owned, BitsAgree, Local, BlockPtr, ByteAt;
    Resized(fs', o', t[n := cur], n, cur, size, now);
    RewritesTrans(fs, o, fs', o', fs', o', t, n, ino, cur, cur.(size := size, mtime := now));
  }

  // ---------------------------------------------------------------- how many blocks a file has

  /** The blocks that inode `n` owns. */
  ghost function Mine(owner: Owner, n: nat): set<nat> { set b | b in owner && owner[b].ino == n }

  ghost function Others(owner: Owner, n: nat): set<nat> { set b | b in owner && owner[b].ino != n }

  /** Data blocks and indirect block of an inode. */
  function UsedBlocks(disk: seq<Block>, ino: Inode): int {
    MAX_BLOCKS - Holes(disk, ino, 0, MAX_BLOCKS) + if ino.indirect != 0 then 1 else 0
  }

  /** Whatever happens to one inode, the free blocks and its own ones stay as many together. */
  lemma FreeAndMine(fs: Fs, o: Owner, fs': Fs, o': Owner, t: seq<Inode>, n: nat, ino: Inode, ino': Inode)
    requires Working(fs, o, t, n, ino) && Rewrites(fs, o, fs', o', t, n, ino, ino')
    ensures fs.sb.freeBlocks + |Mine(o, n)| == fs'.sb.freeBlocks + |Mine(o', n)|
  {
    OthersSame(fs, o, fs', o', t, n, ino, ino');
    hide Owned, BitAt, Mine, Others;
    MineAndOthers(o, n);
    MineAndOthers(o', n);
  }

  lemma MineAndOthers(o: Owner, n: nat)
    ensures |o| == |Mine(o, n)| + |Others(o, n)|
  {
    assert o.Keys == Mine(o, n) + Others(o, n);
    assert |o| == |o.Keys|;
  }

  lemma OthersSame(fs: Fs, o: Owner, fs': Fs, o': Owner, t: seq<Inode>, n: nat, ino: Inode, ino': Inode)
    requires Working(fs, o, t, n, ino) && Rewrites(fs, o, fs', o', t, n, ino, ino')
    ensures Others(o', n) == Others(o, n)
  {
    hide BitsAgree, BlockPtr;
    forall b | b in Others(o', n) ensures b in o && o[b].ino != n {
      var s := o'[b];
      LocalNode(fs, o, fs', o', n, t, s.ino);
      assert Live(t[n := ino'], s) && Target(t[n := ino'], fs'.disk, s) == b;
      assert Live(t, s) && Target(t, fs.disk, s) == b;
    }
  }

  /** The data blocks of `n` below logical block `k`. */
  ghost function DataBelow(owner: Owner, n: nat, k: nat): set<nat> {
    set b | b in owner && owner[b].Data? && owner[b].ino == n && owner[b].k < k
  }

  lemma OneBlockMore(owner: Owner, n: nat, k: nat, b: nat)
    requires forall x :: x in owner ==> (owner[x] == Data(n, k) <==> x == b && b != 0)
    requires b != 0 ==> b in owner
    ensures |DataBelow(owner, n, k + 1)| == |DataBelow(owner, n, k)| + if b == 0 then 0 else 1
  {
    assert DataBelow(owner, n, k + 1) == DataBelow(owner, n, k) + if b == 0 then {} else {b};
  }

  lemma {:induction false} DataBelowSize(fs: Fs, owner: Owner, t: seq<Inode>, n: nat, ino: Inode, k: nat)
    requires Working(fs, owner, t, n, ino) && k <= MAX_BLOCKS
    ensures |DataBelow(owner, n, k)| == k - Holes(fs.disk, ino, 0, k)
  {
    if k == 0 {
      assert DataBelow(owner, n, 0) == {};
    } else {
      DataBelowSize(fs, owner, t, n, ino, k - 1);
      assert Live(t, Data(n, k - 1)) && Target(t, fs.disk, Data(n, k - 1)) == BlockPtr(fs.disk, ino, k - 1);
      hide BlockPtr, BitsAgree, DataBelow;
      OneBlockMore(owner, n, k - 1, BlockPtr(fs.disk, ino, k - 1));
    }
  }

  lemma MineSize(fs: Fs, owner: Owner, t: seq<Inode>, n: nat, ino: Inode)
    requires Working(fs, owner, t, n, ino)
    ensures |Mine(owner, n)| == UsedBlocks(fs.disk, ino)
  {
    DataBelowSize(fs, owner, t, n, ino, MAX_BLOCKS);
    assert Live(t, Index(n)) && Target(t, fs.disk, Index(n)) == ino.indirect;
    forall b | b in owner && owner[b].ino == n
      ensures if owner[b].Data? then owner[b].k < MAX_BLOCKS else b == ino.indirect && b != 0
    {
      assert Live(t, owner[b]) && Target(t, fs.disk, owner[b]) == b;
    }
    hide BlockPtr, BitsAgree, Holes, Owned, DataBelow, Mine;
    MineParts(owner, n, ino.indirect);
  }

  lemma MineParts(owner: Owner, n: nat, x: nat)
    requires forall b :: b in owner && owner[b].ino == n ==>
        if owner[b].Data? then owner[b].k < MAX_BLOCKS else b == x && b != 0
    requires x != 0 ==> x in owner && owner[x] == Index(n)
    ensures |Mine(owner, n)| == |DataBelow(owner, n, MAX_BLOCKS)| + if x != 0 then 1 else 0
  {
    assert Mine(owner, n) == DataBelow(owner, n, MAX_BLOCKS) + if x == 0 then {} else {x};
  }

  /** Blocks that a file of `len` bytes without holes takes, its indirect block included. */
  function FileBlocks(len: nat): nat {
    var k := (len + BLOCK_SIZE - 1) / BLOCK_SIZE;
    k + if k > DIRECT_PTRS then 1 else 0
  }

  /** An inode cut to nothing may keep its first block, which then is all it has. */
  lemma {:induction false} HolesBehindFirst(disk: seq<Block>, ino: Inode, to: nat)
    requires Shaped(disk, ino) && ino.size == 0 && to >= 1
    ensures Holes(disk, ino, 0, to) == to - if BlockPtr(disk, ino, 0) != 0 then 1 else 0
  {
    if to == 1 {
      assert Holes(disk, ino, 0, 0) == 0;
    } else {
      HolesBehindFirst(disk, ino, to - 1);
    }
  }

  // ---------------------------------------------------------------- freeing blocks

  /** The state after blocks have been freed: `owner'` is what is left of `owner`, on the same disk. */
  ghost predicate Freed(fs: Fs, owner: Owner, fs': Fs, owner': Owner) {
    && fs'.sb == fs.sb.(freeBlocks := fs'.sb.freeBlocks)
    && fs'.inodeBitmap == fs.inodeBitmap && fs'.disk == fs.disk
    && |fs'.blockBitmap| == |fs.blockBitmap|
    && BitsAgree(fs'.sb, fs'.blockBitmap, owner')
  }

  lemma DirectFreed(fs: Fs, owner: Owner, fs': Fs, owner': Owner, t: seq<Inode>, n: nat, ino: Inode, k: nat)
    requires Working(fs, owner, t, n, ino) && k < DIRECT_PTRS && ino.direct[k] != 0
    requires Freed(fs, owner, fs', owner') && owner' == owner - {ino.direct[k] as nat}
    ensures Rewrites(fs, owner, fs', owner', t, n, ino, ino.(direct := ino.direct[k := 0]))
    ensures forall i :: 0 <= i < MAX_BLOCKS ==>
              BlockPtr(fs'.disk, ino.(direct := ino.direct[k := 0]), i) == if i == k then 0
                else BlockPtr(fs.disk, ino, i)
  {
    hide Owned, BitsAgree, UnpackU32;
    DataInRange(fs, owner, t, n, ino, k);
    UnlinkDirect(t, fs.disk, owner, fs.sb.dataStart, fs.sb.totalBlocks, n, k);
  }

  /** The data blocks inode `n` reaches through its indirect block, logical blocks `[from, to)`. */
  ghost predicate ViaIn(s: Slot, n: nat, from: nat, to: nat) {
    s.Data? && s.ino == n && DIRECT_PTRS <= s.k && from <= s.k < to
  }

  ghost predicate WithoutVia(owner: Owner, owner': Owner, n: nat, from: nat, to: nat) {
    && (forall b :: b in owner' <==> b in owner && !ViaIn(owner[b], n, from, to))
    && (forall b :: b in owner' ==> owner'[b] == owner[b])
  }

  lemma IndexOwners(fs: Fs, owner: Owner, owner1: Owner, t: seq<Inode>, n: nat, ino: Inode, to: nat)
    requires Working(fs, owner, t, n, ino) && ino.indirect != 0
    requires WithoutVia(owner, owner1, n, DIRECT_PTRS, to)
    requires forall k :: to <= k < MAX_BLOCKS && DIRECT_PTRS <= k ==> BlockPtr(fs.disk, ino, k) == 0
    ensures ino.indirect < |fs.disk| && ino.indirect in owner1 && owner[ino.indirect] == Index(n)
    ensures Owned(t[n := ino.(indirect := 0)], fs.disk, owner1 - {ino.indirect as nat}, fs.sb.dataStart,
        fs.sb.totalBlocks)
  {
    hide BitsAgree, BlockPtr;
    var owner' := owner1 - {ino.indirect as nat};
    IndexInRange(fs, owner, t, n, ino);
    forall b ensures b in owner' <==> b in owner && !ViaBelow(owner[b], n, MAX_BLOCKS) && owner[b] != Index(n) {
      if b in owner {
        assert Live(t, owner[b]) && Target(t, fs.disk, owner[b]) == b;
      }
    }
    UnlinkIndex(t, fs.disk, owner, fs.sb.dataStart, fs.sb.totalBlocks, n, owner');
  }

  lemma IndexFreed(fs: Fs, owner: Owner, fs': Fs, owner1: Owner, t: seq<Inode>, n: nat, ino: Inode, to: nat)
    requires Working(fs, owner, t, n, ino) && ino.indirect != 0
    requires WithoutVia(owner, owner1, n, DIRECT_PTRS, to)
    requires forall k :: to <= k < MAX_BLOCKS && DIRECT_PTRS <= k ==> BlockPtr(fs.disk, ino, k) == 0
    requires Freed(fs, owner, fs', owner1 - {ino.indirect as nat})
    ensures Rewrites(fs, owner, fs', owner1 - {ino.indirect as nat}, t, n, ino, ino.(indirect := 0))
    ensures forall i :: 0 <= i < MAX_BLOCKS ==>
              BlockPtr(fs'.disk, ino.(indirect := 0), i) == if i < DIRECT_PTRS then BlockPtr(fs.disk, ino, i) else 0
  {
    hide Owned, BitsAgree, UnpackU32;
    IndexOwners(fs, owner, owner1, t, n, ino, to);
  }

  lemma ViaStep(fs: Fs, owner: Owner, owner1: Owner, t: seq<Inode>, n: nat, ino: Inode, from: nat, i: nat)
    requires Working(fs, owner, t, n, ino) && DIRECT_PTRS <= from <= i < MAX_BLOCKS
    requires WithoutVia(owner, owner1, n, from, i)
    ensures var b := BlockPtr(fs.disk, ino, i);
            && (b != 0 ==> b in owner1 && WithoutVia(owner, owner1 - {b as nat}, n, from, i + 1))
            && (b == 0 ==> WithoutVia(owner, owner1, n, from, i + 1))
  {
    hide BlockPtr, BitsAgree;
    var b := BlockPtr(fs.disk, ino, i);
    if b != 0 {
      DataInRange(fs, owner, t, n, ino, i);
    }
    forall c | c in owner && owner[c] == Data(n, i) ensures c == b {
      assert Live(t, owner[c]) && Target(t, fs.disk, owner[c]) == c;
    }
    assert forall c :: c in owner && ViaIn(owner[c], n, from, i + 1) ==>
      ViaIn(owner[c], n, from, i) || owner[c] == Data(n, i);
  }

  /** Freeing a stretch that holds no blocks frees nothing. */
  lemma NothingFreed(fs: Fs, owner: Owner, fs': Fs, owner': Owner, t: seq<Inode>, n: nat, ino: Inode, from: nat,
                     to: nat)
    requires Working(fs, owner, t, n, ino)
    requires WithoutVia(owner, owner', n, from, to) && Freed(fs, owner, fs', owner')
    requires forall k :: from <= k < to && k < MAX_BLOCKS ==> BlockPtr(fs.disk, ino, k) == 0
    ensures Rewrites(fs, owner, fs', owner', t, n, ino, ino)
  {
    hide BlockPtr, BitAt;
    forall b | b in owner ensures b in owner' {
      assert Live(t, owner[b]) && Target(t, fs.disk, owner[b]) == b;
    }
    assert owner' == owner;
    assert t[n := ino] == t;
  }

  /** No choice of owners makes the bitmap and the pointers agree. */
  ghost predicate Unaccountable(fs: Fs, t: seq<Inode>) { forall o :: !Accounted(fs, t, o) }

  /** A block in use that no pointer names cannot be accounted for. */
  lemma UnnamedBlock(fs: Fs, t: seq<Inode>, owner: Owner, b: nat)
    requires BitsAgree(fs.sb, fs.blockBitmap, owner) && b in owner
    requires forall q :: Live(t, q) ==> Target(t, fs.disk, q) != b
    ensures Unaccountable(fs, t)
  {
    hide BitAt, BlockPtr, Target;
    forall o ensures !Accounted(fs, t, o) {
      if b in o && Live(t, o[b]) { assert Target(t, fs.disk, o[b]) != b; }
    }
  }

  /** Giving up the indirect block with blocks left behind it loses the accounting. */
  lemma IndexLeaked(fs: Fs, owner: Owner, fs': Fs, owner1: Owner, t: seq<Inode>, n: nat, ino: Inode, to: nat, k: nat,
                    size: u64)
    requires Working(fs, owner, t, n, ino) && ino.indirect != 0
    requires WithoutVia(owner, owner1, n, DIRECT_PTRS, to)
    requires DIRECT_PTRS <= k && to <= k < MAX_BLOCKS && BlockPtr(fs.disk, ino, k) != 0
    requires Freed(fs, owner, fs', owner1 - {ino.indirect as nat})
    ensures Unaccountable(fs', t[n := ino.(indirect := 0, size := size)])
  {
    hide BitsAgree, UnpackU32;
    var t' := t[n := ino.(indirect := 0, size := size)];
    var b := BlockPtr(fs.disk, ino, k);
    DataInRange(fs, owner, t, n, ino, k);
    IndexInRange(fs, owner, t, n, ino);
    forall q | Live(t', q) ensures Target(t', fs'.disk, q) != b {
      assert Live(t, q) && (Target(t, fs.disk, q) == b ==> q == Data(n, k));
    }
    UnnamedBlock(fs', t', owner1 - {ino.indirect as nat}, b);
  }

  /** Freeing a block that the inode keeps pointing at loses the accounting, whatever owners one picks. */
  lemma Stranded(fs: Fs, owner: Owner, fs': Fs, owner': Owner, t: seq<Inode>, n: nat, ino: Inode, from: nat, to: nat,
                 size: u64, k: nat)
    requires Working(fs, owner, t, n, ino)
    requires WithoutVia(owner, owner', n, from, to) && Freed(fs, owner, fs', owner')
    requires DIRECT_PTRS <= k && from <= k < to && k < MAX_BLOCKS && BlockPtr(fs.disk, ino, k) != 0
    ensures Unaccountable(fs', t[n := ino.(size := size)])
  {
    hide Owned, UnpackU32;
    DataInRange(fs, owner, t, n, ino, k);
    var t' := t[n := ino.(size := size)];
    assert Live(t', Data(n, k)) && Target(t', fs'.disk, Data(n, k)) == BlockPtr(fs.disk, ino, k);
    forall o ensures !Accounted(fs', t', o) {
      DanglingPointer(fs', t', Data(n, k), o);
    }
  }

  // ---------------------------------------------------------------- truncation

  /** The last block as the truncation code has it, in 32 bits; from 2^41 bytes on not the real one. */
  function LastIndex(size: nat): u32 { AsU32(LastBlock(size)) }

  lemma LastIndexFits(size: nat)
    requires size <= CUT_LIMIT
    ensures LastIndex(size) == LastBlock(size) && AsU32(LastIndex(size) + 1) == LastBlock(size) + 1
  {}

  /** Shrinking inside the indirect range onto an earlier block, with an indirect block present. */
  predicate ShrinksIndirect(ino: Inode, newSize: nat) {
    && newSize < ino.size && ino.indirect != 0
    && DIRECT_PTRS <= LastIndex(newSize) < LastIndex(ino.size)
  }

  /** Some block past the new end would be freed with its pointer left in the indirect block. */
  predicate Strands(disk: seq<Block>, ino: Inode, newSize: nat) {
    && ShrinksIndirect(ino, newSize)
    && exists k :: LastIndex(newSize) < k <= LastIndex(ino.size) && k < MAX_BLOCKS && BlockPtr(disk, ino, k) != 0
  }

  predicate DropsIndex(ino: Inode, newSize: nat) {
    newSize < ino.size && ino.indirect != 0 && LastIndex(newSize) < DIRECT_PTRS
  }

  /** How many entries of the indirect block are looked at before it is given up; the subtraction may wrap. */
  function IndexEnd(size: nat): nat { Min(PTRS_PER_BLOCK, AsU32(LastIndex(size) - DIRECT_PTRS + 1)) }

  /** The indirect block would be given up with blocks behind it that nobody has looked at. */
  predicate Leaks(disk: seq<Block>, ino: Inode, newSize: nat) {
    && DropsIndex(ino, newSize)
    && exists k :: DIRECT_PTRS + IndexEnd(ino.size) <= k < MAX_BLOCKS && BlockPtr(disk, ino, k) != 0
  }

  /** The inode that truncation leaves. */
  function Cut(ino: Inode, newSize: u64): Inode {
    if newSize >= ino.size then ino.(size := newSize)
    else
      var from, end := AsU32(LastIndex(newSize) + 1), AsU32(LastIndex(ino.size) + 1);
      ino.(direct := seq(DIRECT_PTRS, j requires 0 <= j < DIRECT_PTRS => if from <= j < end then 0 else ino.direct[j]),
           indirect := if DropsIndex(ino, newSize) then 0 else ino.indirect, size := newSize)
  }

  lemma Growing(disk: seq<Block>, ino: Inode, newSize: u64)
    requires newSize >= ino.size
    ensures !Strands(disk, ino, newSize) && !Leaks(disk, ino, newSize) && Cut(ino, newSize) == ino.(size := newSize)
  {}

  /** What a cut does behind the indirect block does not depend on the direct pointers. */
  lemma SameCut(disk: seq<Block>, ino: Inode, cur: Inode, newSize: u64)
    requires cur.size == ino.size && cur.indirect == ino.indirect
    ensures Strands(disk, cur, newSize) <==> Strands(disk, ino, newSize)
    ensures Leaks(disk, cur, newSize) <==> Leaks(disk, ino, newSize)
  {
    SameVia(disk, ino, cur);
    hide BlockPtr;
  }

  lemma CutIs(ino: Inode, newSize: u64, cut: Inode)
    requires newSize < ino.size
    requires cut == ino.(direct := cut.direct, size := newSize,
                         indirect := if DropsIndex(ino, newSize) then 0 else ino.indirect)
    requires forall j :: 0 <= j < DIRECT_PTRS ==>
      cut.direct[j] ==
        if AsU32(LastIndex(newSize) + 1) <= j < AsU32(LastIndex(ino.size) + 1) then 0 else ino.direct[j]
    ensures cut == Cut(ino, newSize)
  {
    assert cut.direct == Cut(ino, newSize).direct;
  }

  lemma CutFile(ino: Inode, newSize: u64)
    ensures SameFile(Cut(ino, newSize), ino) && Cut(ino, newSize).mtime == ino.mtime
  {}

  lemma NeverStrandsToZero(disk: seq<Block>, ino: Inode)
    ensures !Strands(disk, ino, 0)
  {}

  /** Cutting is right when it frees what it drops, no more and no less, and keeps nothing past the new end. */
  predicate CutsRight(disk: seq<Block>, ino: Inode, newSize: u64) {
    !Strands(disk, ino, newSize) && !Leaks(disk, ino, newSize) && Shaped(disk, Cut(ino, newSize))
  }

  /** While block indices do not wrap, stranding pointers is all that can go wrong. */
  lemma CutsRightIff(disk: seq<Block>, ino: Inode, newSize: u64)
    requires Shaped(disk, ino) && (newSize < ino.size ==> ino.size <= CUT_LIMIT)
    ensures CutsRight(disk, ino, newSize) <==> !Strands(disk, ino, newSize)
    ensures !Strands(disk, ino, newSize) ==>
      forall p: nat :: p < newSize ==> ByteAt(disk, Cut(ino, newSize), p) == ByteAt(disk, ino, p)
  {
    hide BlockPtr, ByteAt, Shaped;
    if newSize >= ino.size {
      ShapedResized(disk, ino, newSize);
    } else if !Strands(disk, ino, newSize) {
      LastIndexFits(newSize);
      LastIndexFits(ino.size);
      ShapedFacts(disk, ino);
      ShapedTruncated(disk, ino, Cut(ino, newSize), newSize);
      TruncatedBytes(disk, ino, Cut(ino, newSize), newSize);
    }
  }

  lemma TruncatedBytes(disk: seq<Block>, ino: Inode, ino': Inode, newSize: nat)
    requires forall i :: 0 <= i < MAX_BLOCKS && i <= LastBlock(newSize) ==>
        BlockPtr(disk, ino', i) == BlockPtr(disk, ino, i)
    ensures forall p: nat :: p < newSize ==> ByteAt(disk, ino', p) == ByteAt(disk, ino, p)
  {
    hide BlockPtr;
    forall p: nat | p < newSize ensures ByteAt(disk, ino', p) == ByteAt(disk, ino, p) {
      var k := p / BLOCK_SIZE;
      if k >= MAX_BLOCKS {
        PastEnd(disk, ino, k);
        PastEnd(disk, ino', k);
      }
    }
  }

  /** With the freed direct pointers cleared and no block left past the new end, the shape is right again. */
  lemma ShapedTruncated(disk: seq<Block>, ino: Inode, cur: Inode, newSize: u64)
    requires Shaped(disk, ino) && newSize < ino.size
    requires forall j :: 0 <= j < DIRECT_PTRS ==> cur.direct[j] == if LastBlock(newSize) < j then 0 else ino.direct[j]
    requires cur.indirect == if LastBlock(newSize) < DIRECT_PTRS then 0 else ino.indirect
    requires !Strands(disk, ino, newSize) && ino.size <= CUT_LIMIT
    ensures Shaped(disk, cur.(size := newSize))
    ensures forall i :: 0 <= i < MAX_BLOCKS && i <= LastBlock(newSize) ==>
        BlockPtr(disk, cur.(size := newSize), i) == BlockPtr(disk, ino, i)
  {
    hide UnpackU32;
    LastIndexFits(newSize);
    LastIndexFits(ino.size);
    forall i | 0 <= i < MAX_BLOCKS && BlockPtr(disk, cur.(size := newSize), i) != 0 ensures i <= LastBlock(newSize) {
      if i >= DIRECT_PTRS {
        assert BlockPtr(disk, cur.(size := newSize), i) == BlockPtr(disk, ino, i);
      }
    }
  }

  lemma ShapedResized(disk: seq<Block>, ino: Inode, size: u64)
    requires Shaped(disk, ino) && ino.size <= size
    ensures Shaped(disk, ino.(size := size))
    ensures forall p: nat :: ByteAt(disk, ino.(size := size), p) == ByteAt(disk, ino, p)
  {
    forall i: nat ensures BlockPtr(disk, ino.(size := size), i) == BlockPtr(disk, ino, i) {}
  }

  lemma RewritesResized(fs: Fs, o: Owner, fs': Fs, o': Owner, t: seq<Inode>, n: nat, ino: Inode, cur: Inode, size: u64)
    requires Rewrites(fs, o, fs', o', t, n, ino, cur)
    ensures Rewrites(fs, o, fs', o', t, n, ino, cur.(size := size))
  {
    hide Owned, BitsAgree, Local, BlockPtr;
    Resized(fs', o', t[n := cur], n, cur, size, cur.mtime);
    assert cur.(size := size, mtime := cur.mtime) == cur.(size := size);
    RewritesTrans(fs, o, fs', o', fs', o', t, n, ino, cur, cur.(size := size));
  }

  lemma ShapedFacts(disk: seq<Block>, ino: Inode)
    requires Shaped(disk, ino)
    ensures forall j :: LastBlock(ino.size) < j < DIRECT_PTRS ==> ino.direct[j] == 0
    ensures forall k :: LastBlock(ino.size) < k < MAX_BLOCKS ==> BlockPtr(disk, ino, k) == 0
    ensures ino.indirect != 0 ==> LastBlock(ino.size) >= DIRECT_PTRS
  {
    forall j | LastBlock(ino.size) < j < DIRECT_PTRS ensures ino.direct[j] == 0 {
      assert BlockPtr(disk, ino, j) == ino.direct[j];
    }
  }

  lemma SameVia(disk: seq<Block>, ino: Inode, ino': Inode)
    requires ino'.indirect == ino.indirect
    ensures forall k :: DIRECT_PTRS <= k < MAX_BLOCKS ==> BlockPtr(disk, ino', k) == BlockPtr(disk, ino, k)
  {}
}
