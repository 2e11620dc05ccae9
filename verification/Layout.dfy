/** The on-disk records of NextFS and their byte encodings. */
module Layout {
  import opened Bytes

  const MAGIC: u32 := 0x5346584E
  const DIRECT_PTRS: nat := 9
  const PTRS_PER_BLOCK: nat := 128
  const MAX_BLOCKS: nat := 137       // nine direct blocks and one indirect block of pointers
  const INODES_PER_BLOCK: nat := 8
  const ENTRIES_PER_BLOCK: nat := 8
  const ENTRY_SIZE: nat := 64
  const MAX_NAME_LEN: nat := 60
  const ROOT_INODE: nat := 1
  const FREE: byte := 0
  const FILE: byte := 1
  const DIR: byte := 2
  const DEFAULT_FILE_MODE: u16 := 0x1A4  // rw-r--r--
  const DEFAULT_DIR_MODE: u16 := 0x1ED   // rwxr-xr-x

  // ---------------------------------------------------------------- superblock

  datatype Superblock = Superblock(
    magic: u32, blockSize: u32, totalBlocks: u32, inodeCount: u32, freeBlocks: u32,
    freeInodes: u32, bitmapStart: u32, inodeTableStart: u32, dataStart: u32)

  function SuperblockWords(sb: Superblock): (r: seq<u32>)
    ensures |r| == 9
  {
    [sb.magic, sb.blockSize, sb.totalBlocks, sb.inodeCount, sb.freeBlocks,
     sb.freeInodes, sb.bitmapStart, sb.inodeTableStart, sb.dataStart]
  }

  function EncodeSuperblock(sb: Superblock): Block {
    PackU32(SuperblockWords(sb)) + Zeros(476)
  }

  function DecodeSuperblock(b: Block): Superblock {
    var w := UnpackU32(b[..36]);
    Superblock(w[0], w[1], w[2], w[3], w[4], w[5], w[6], w[7], w[8])
  }

  lemma SuperblockRoundTrip(sb: Superblock)
    ensures DecodeSuperblock(EncodeSuperblock(sb)) == sb
  {
    var w := SuperblockWords(sb);
    assert EncodeSuperblock(sb)[..36] == PackU32(w);
    UnpackPack(w);
  }

  /** The device starts with "NXFS", and the words follow in the order of the fields. */
  lemma SuperblockFormat(sb: Superblock)
    ensures var b := EncodeSuperblock(sb);
            && (sb.magic == MAGIC ==> b[..4] == [0x4E, 0x58, 0x46, 0x53])
            && b[4..8] == LE32(sb.blockSize) && b[8..12] == LE32(sb.totalBlocks) && b[12..16] == LE32(sb.inodeCount)
            && b[16..20] == LE32(sb.freeBlocks) && b[20..24] == LE32(sb.freeInodes)
            && b[24..28] == LE32(sb.bitmapStart) && b[28..32] == LE32(sb.inodeTableStart)
            && b[32..36] == LE32(sb.dataStart) && forall k :: 36 <= k < 512 ==> b[k] == 0
  {
    var w, b := SuperblockWords(sb), EncodeSuperblock(sb);
    var p := PackU32(w);
    forall i | 0 <= i < 9 ensures b[4 * i..4 * i + 4] == LE32(w[i]) {
      assert b[4 * i..4 * i + 4] == p[4 * i..4 * i + 4];
    }
    assert b[4 * 0..4 * 0 + 4] == LE32(w[0]);
    assert b[4 * 1..4 * 1 + 4] == LE32(w[1]) && b[4 * 2..4 * 2 + 4] == LE32(w[2]);
    assert b[4 * 3..4 * 3 + 4] == LE32(w[3]) && b[4 * 4..4 * 4 + 4] == LE32(w[4]);
    assert b[4 * 5..4 * 5 + 4] == LE32(w[5]) && b[4 * 6..4 * 6 + 4] == LE32(w[6]);
    assert b[4 * 7..4 * 7 + 4] == LE32(w[7]) && b[4 * 8..4 * 8 + 4] == LE32(w[8]);
  }

  // ---------------------------------------------------------------- inodes

  type Direct = d: seq<u32> | |d| == 9 witness [0, 0, 0, 0, 0, 0, 0, 0, 0]

  /** `mtime` is the time of the last change, in timer ticks. */
  datatype Inode = Inode(kind: byte, mode: u16, size: u64, uid: u16, gid: u16, mtime: u32, direct: Direct,
                         indirect: u32)

  const NO_BLOCKS: Direct := [0, 0, 0, 0, 0, 0, 0, 0, 0]
  const EMPTY_INODE := Inode(FREE, 0, 0, 0, 0, 0, NO_BLOCKS, 0)
  const NEW_FILE := Inode(FILE, DEFAULT_FILE_MODE, 0, 0, 0, 0, NO_BLOCKS, 0)
  const NEW_DIR := Inode(DIR, DEFAULT_DIR_MODE, 0, 0, 0, 0, NO_BLOCKS, 0)

  /** Who asks: user and group. */
  datatype Credentials = Credentials(uid: u16, gid: u16)

  const MAY_READ: u16 := 4
  const MAY_WRITE: u16 := 2

  /** The low three bits of `granted` include all bits of `want`. */
  predicate Covers(granted: nat, want: u16) {
    && want < 8
    && (want % 2 == 1 ==> granted % 2 == 1)
    && (want / 2 % 2 == 1 ==> granted / 2 % 2 == 1)
    && (want / 4 % 2 == 1 ==> granted / 4 % 2 == 1)
  }

  /** Access by the most specific class that applies: owner, group or others; user 0 may do everything. */
  predicate Permits(ino: Inode, who: Credentials, want: u16) {
    || who.uid == 0
    || Covers(if ino.uid == who.uid then ino.mode / 64 else if ino.gid == who.gid then ino.mode / 8 else ino.mode, want)
  }

  // What the nine mode bits grant, class by class: owner, group, others.

  predicate MayRead(i: Inode, who: Credentials) {
    || who.uid == 0
    || (if i.uid == who.uid then i.mode / 0x100 else if i.gid == who.gid then i.mode / 0x20 else i.mode / 4) % 2 == 1
  }

  predicate MayWrite(i: Inode, who: Credentials) {
    || who.uid == 0
    || (if i.uid == who.uid then i.mode / 0x80 else if i.gid == who.gid then i.mode / 0x10 else i.mode / 2) % 2 == 1
  }

  predicate MayRun(i: Inode, who: Credentials) {
    || who.uid == 0
    || (if i.uid == who.uid then i.mode / 0x40 else if i.gid == who.gid then i.mode / 8 else i.mode) % 2 == 1
  }

  /** A request is granted exactly if each of its bits is; there are three of them. */
  lemma PermitsIff(i: Inode, who: Credentials, want: u16)
    ensures want < 8 ==>
      (Permits(i, who, want) <==>
         && (want / 4 % 2 == 1 ==> MayRead(i, who))
         && (want / 2 % 2 == 1 ==> MayWrite(i, who))
         && (want % 2 == 1 ==> MayRun(i, who)))
    ensures want >= 8 ==> (Permits(i, who, want) <==> who.uid == 0)
  {
    assert forall m: nat :: m / 0x40 / 4 == m / 0x100 && m / 0x40 / 2 == m / 0x80;
    assert forall m: nat :: m / 8 / 4 == m / 0x20 && m / 8 / 2 == m / 0x10;
  }

  /** Nobody but its owner and user 0 gets at a file of mode 0600, and these may read and write it. */
  lemma PrivateFile(i: Inode, who: Credentials, want: u16)
    requires i.mode == 0x180 && want in {4, 2, 6}
    ensures Permits(i, who, want) <==> who.uid == 0 || who.uid == i.uid
  {
    PermitsIff(i, who, want);
  }

  /** Mode 0644: everybody may read, its owner and user 0 write. */
  lemma PublicFile(i: Inode, who: Credentials)
    requires i.mode == 0x1A4
    ensures Permits(i, who, 4)
    ensures Permits(i, who, 2) <==> who.uid == 0 || who.uid == i.uid
  {
    PermitsIff(i, who, 4);
    PermitsIff(i, who, 2);
  }

  function InodeHead(i: Inode): (r: seq<byte>)
    ensures |r| == 20
  {
    [i.kind, 0] + LE16(i.mode) + LE64(i.size) + LE16(i.uid) + LE16(i.gid) + LE32(i.mtime)
  }

  function EncodeInode(i: Inode): (r: seq<byte>)
    ensures |r| == 64
  {
    InodeHead(i) + PackU32(i.direct) + LE32(i.indirect) + Zeros(4)
  }

  function DecodeInode(b: seq<byte>): Inode
    requires |b| == 64
  {
    Inode(b[0], FromLE16(b[2..4]), FromLE64(b[4..12]), FromLE16(b[12..14]), FromLE16(b[14..16]),
          FromLE32(b[16..20]), UnpackU32(b[20..56]), FromLE32(b[56..60]))
  }

  /** The first twenty bytes, field by field. */
  lemma HeadFormat(i: Inode)
    ensures var h := InodeHead(i);
            && h[0] == i.kind && h[1] == 0 && h[2..4] == LE16(i.mode) && h[4..12] == LE64(i.size)
            && h[12..14] == LE16(i.uid) && h[14..16] == LE16(i.gid) && h[16..20] == LE32(i.mtime)
  {
    hide LE16, LE32, LE64;
    var h := InodeHead(i);
    var a: seq<byte> := [i.kind, 0] + LE16(i.mode);
    var b := a + LE64(i.size);
    var c := b + LE16(i.uid);
    var d := c + LE16(i.gid);
    assert |a| == 4 && |b| == 12 && |c| == 14 && |d| == 16;
    assert h == d + LE32(i.mtime) && h[16..20] == LE32(i.mtime);
    assert d[14..16] == LE16(i.gid) && c[12..14] == LE16(i.uid) && b[4..12] == LE64(i.size) && a[2..4] == LE16(i.mode);
    assert h[..16] == d && d[..14] == c && c[..12] == b && b[..4] == a;
    assert h[14..16] == d[14..16] && h[12..14] == c[12..14] && h[4..12] == b[4..12] && h[2..4] == a[2..4];
  }

  lemma InodeHeadRoundTrip(i: Inode)
    ensures var h := InodeHead(i);
            && h[0] == i.kind && FromLE16(h[2..4]) == i.mode && FromLE64(h[4..12]) == i.size
            && FromLE16(h[12..14]) == i.uid && FromLE16(h[14..16]) == i.gid
            && FromLE32(h[16..20]) == i.mtime
  {
    hide LE16, LE32, LE64, FromLE16, FromLE32, FromLE64;
    HeadFormat(i);
    LE16RoundTrip(i.mode);
    LE64RoundTrip(i.size);
    LE16RoundTrip(i.uid);
    LE16RoundTrip(i.gid);
    LE32RoundTrip(i.mtime);
  }

  lemma InodeRoundTrip(i: Inode)
    ensures DecodeInode(EncodeInode(i)) == i
  {
    var b := EncodeInode(i);
    var h := InodeHead(i);
    assert b[..20] == h;
    assert b[2..4] == h[2..4] && b[4..12] == h[4..12] && b[12..14] == h[12..14] && b[14..16] == h[14..16]
        && b[16..20] == h[16..20];
    assert b[20..56] == PackU32(i.direct);
    assert b[56..60] == LE32(i.indirect);
    InodeHeadRoundTrip(i);
    UnpackPack(i.direct);
    LE32RoundTrip(i.indirect);
  }

  /** Where each field of an inode lies. */
  lemma InodeFormat(i: Inode)
    ensures var b := EncodeInode(i);
            && b[0] == i.kind && b[1] == 0 && b[2..4] == LE16(i.mode) && b[4..12] == LE64(i.size)
            && b[12..14] == LE16(i.uid) && b[14..16] == LE16(i.gid) && b[16..20] == LE32(i.mtime)
            && (forall k :: 0 <= k < 9 ==> b[20 + 4 * k..24 + 4 * k] == LE32(i.direct[k]))
            && b[56..60] == LE32(i.indirect) && b[60..64] == [0, 0, 0, 0]
  {
    hide LE16, LE32, LE64, InodeHead, PackU32;
    HeadFormat(i);
    var b, h, p := EncodeInode(i), InodeHead(i), PackU32(i.direct);
    assert b[..20] == h && b[20..56] == p;
    assert b[2..4] == h[2..4] && b[4..12] == h[4..12] && b[12..14] == h[12..14] && b[14..16] == h[14..16]
        && b[16..20] == h[16..20];
    forall k | 0 <= k < 9 ensures b[20 + 4 * k..24 + 4 * k] == LE32(i.direct[k]) {
      assert b[20 + 4 * k..24 + 4 * k] == p[4 * k..4 * k + 4];
    }
  }

  /** The eight inodes of an inode-table block. */
  function InodesOf(b: Block): (r: seq<Inode>)
    ensures |r| == 8
  {
    seq(8, k requires 0 <= k < 8 => DecodeInode(b[64 * k..64 * k + 64]))
  }

  lemma InodesSplice(b: Block, k: nat, i: Inode)
    requires k < 8
    ensures InodesOf(Splice(b, 64 * k, EncodeInode(i))) == InodesOf(b)[k := i]
  {
    hide DecodeInode, EncodeInode;
    forall j | 0 <= j < 8
      ensures InodesOf(Splice(b, 64 * k, EncodeInode(i)))[j] == InodesOf(b)[k := i][j]
    {
      SpliceRecord(b, 64, k, EncodeInode(i), j);
      InodeRoundTrip(i);
    }
  }

  // ---------------------------------------------------------------- directory entries

  type Name = seq<byte>

  /** What a name must be for a stored entry to read back as that name. */
  predicate Storable(name: Name) { |name| < MAX_NAME_LEN && NulFree(name) }

  const DOT: Name := [0x2E]
  const DOTDOT: Name := [0x2E, 0x2E]
  const EMPTY_NAME: Name := []

  datatype Entry = Entry(inode: u32, name: Name)

  function UpToNul(s: seq<byte>): (r: Name) {
    if s == [] || s[0] == 0 then [] else [s[0]] + UpToNul(s[1..])
  }

  function EncodeEntry(inode: u32, name: Name): (r: seq<byte>)
    ensures |r| == ENTRY_SIZE
  {
    var n := Min(|name|, MAX_NAME_LEN - 1);
    LE32(inode) + name[..n] + Zeros(MAX_NAME_LEN - n)
  }

  /** The number, then at most 59 bytes of the name, then zeros up to 64. */
  lemma EntryFormat(inode: u32, name: Name)
    ensures var b, n := EncodeEntry(inode, name), Min(|name|, 59);
            && b[..4] == LE32(inode) && b[4..4 + n] == name[..n]
            && forall k :: 4 + n <= k < 64 ==> b[k] == 0
  {}

  function DecodeEntry(b: seq<byte>): Entry
    requires |b| == ENTRY_SIZE
  {
    Entry(FromLE32(b[..4]), UpToNul(b[4..]))
  }

  lemma {:induction false} UpToNulPadded(name: Name, pad: nat)
    ensures UpToNul(name + Zeros(pad)) == UpToNul(name)
  {
    if name == [] {
      assert name + Zeros(pad) == Zeros(pad);
    } else {
      assert (name + Zeros(pad))[1..] == name[1..] + Zeros(pad);
      UpToNulPadded(name[1..], pad);
    }
  }

  /** What is left of a name once it is stored. */
  function Stored(name: Name): Name { UpToNul(name[..Min(|name|, MAX_NAME_LEN - 1)]) }

  lemma EntryRoundTrip(inode: u32, name: Name)
    ensures DecodeEntry(EncodeEntry(inode, name)) == Entry(inode, Stored(name))
  {
    var b, n := EncodeEntry(inode, name), Min(|name|, MAX_NAME_LEN - 1);
    assert b[..4] == LE32(inode);
    assert b[4..] == name[..n] + Zeros(MAX_NAME_LEN - n);
    LE32RoundTrip(inode);
    UpToNulPadded(name[..n], MAX_NAME_LEN - n);
  }

  /** Names survive storing if and only if they are storable, and what is left of the others is. */
  lemma StoredIff(name: Name)
    ensures Stored(name) == name <==> Storable(name)
    ensures Storable(Stored(name)) && Stored(name) <= name
  {
    UpToNulPrefix(name[..Min(|name|, MAX_NAME_LEN - 1)]);
  }

  /** "a", NUL, "b" is stored as "a", which a directory may have already. */
  lemma StoredForInstance()
    ensures Stored([0x61, 0, 0x62]) == [0x61] && Stored([0x61]) == [0x61]
  {
    StoredIff([0x61]);
    assert [0x61, 0, 0x62][..3] == [0x61, 0, 0x62];
    assert [0x61, 0, 0x62][1..] == [0, 0x62];
  }

  lemma {:induction false} UpToNulPrefix(s: seq<byte>)
    ensures UpToNul(s) <= s && NulFree(UpToNul(s))
    ensures UpToNul(s) == s <==> NulFree(s)
  {
    if s != [] && s[0] != 0 { UpToNulPrefix(s[1..]); }
  }

  /** A stored entry reads back as what was stored if and only if its name is storable. */
  lemma EntryRoundTripIff(inode: u32, name: Name)
    ensures DecodeEntry(EncodeEntry(inode, name)) == Entry(inode, name) <==> Storable(name)
  {
    hide EncodeEntry, DecodeEntry, Stored;
    EntryRoundTrip(inode, name);
    StoredIff(name);
  }

  function EntriesOf(b: Block): (r: seq<Entry>)
    ensures |r| == 8
  {
    seq(8, k requires 0 <= k < 8 => DecodeEntry(b[64 * k..64 * k + 64]))
  }

  lemma ZeroEntries()
    ensures EntriesOf(Zeros(512)) == seq(8, k => Entry(0, EMPTY_NAME))
  {
    forall j | 0 <= j < 8 ensures EntriesOf(Zeros(512))[j] == Entry(0, EMPTY_NAME) {
      EntryRoundTrip(0, []);
      assert Zeros(512)[64 * j..64 * j + 64] == EncodeEntry(0, []);
    }
  }

  /** The first block of a directory: "." and "..", then nothing. */
  function NewDirBlock(self: u32, parent: u32): Block {
    EncodeEntry(self, DOT) + EncodeEntry(parent, DOTDOT) + Zeros(384)
  }

  lemma NewDirEntries(self: u32, parent: u32)
    ensures EntriesOf(NewDirBlock(self, parent)) ==
            [Entry(self, DOT), Entry(parent, DOTDOT)] + seq(6, k => Entry(0, EMPTY_NAME))
  {
    hide DecodeEntry, EncodeEntry;
    var b := NewDirBlock(self, parent);
    EntryRoundTrip(self, DOT);
    EntryRoundTrip(parent, DOTDOT);
    StoredIff(DOT);
    StoredIff(DOTDOT);
    assert b[0..64] == EncodeEntry(self, DOT);
    assert b[64..128] == EncodeEntry(parent, DOTDOT);
    ZeroEntries();
    forall j | 2 <= j < 8 ensures EntriesOf(b)[j] == Entry(0, EMPTY_NAME) {
      assert b[64 * j..64 * j + 64] == Zeros(512)[64 * j..64 * j + 64];
      assert EntriesOf(Zeros(512))[j] == DecodeEntry(Zeros(512)[64 * j..64 * j + 64]);
    }
  }
}
