# A verified model of the PickleOS kernel's bookkeeping

The kernel keeps several structures that must agree with something simpler. This project models those
structures with the operations that change them and proves the agreement for every input and every run.

* **NextFS** (`Bytes`, `Layout`, `Accounting`, `Contents`, `Invariant`, `Persistence`, `NextFs`). The class
  `NextFS` has the source's fields (cached superblock, two bitmaps) plus the device, a sequence of 512-byte blocks
  holding the real encodings. `Valid` says that every used data block is named by exactly one live pointer, that
  the counters count, that the inode bitmap is that of the table, and that files and directories are well formed.
  `Abs` maps a file system to what it stands for: a map from inode numbers to byte sequences and directories.
* **The namespace** (`Namespace`, `Paths`). The tree property over that map, where paths lead in it, the path
  operations of the VFS with the permissions they ask for, and whole runs of them from a blank device. `Instances` has runs from a blank device that
  end outside the invariant, one for each way the code leaves it.
* **Copy-on-write** (`Cow`, `AddressSpaces`, `PageTables`). Address spaces as maps from pages to leaves, both
  forks, the page fault, proved equal to what user programs would see if every page were copied while frames last,
  with the number of frames that is enough; the copy of page-table trees, and what mappings in it leave alone.
* **Processes** (`Processes`, `Scheduling`). The process tree over the task table, `wait`, adoption, reaping, and
  round-robin scheduling.
* **Pipes** (`Pipes`). Descriptor tables, reference counts and byte streams.
* **Smaller protocols**: the start-up stack against the reader of argument vectors (`StartStack`), the segment
  loader (`ElfImage`), the line editor against the terminal (`Terminals`, `LineEditing`), the window registry
  against the compositor (`Desktop`), and the interrupt handshake (`Irq`).

Words of fixed width are subset types (`u32`, `u64`); where the source truncates, or wraps as arithmetic does in the
release build that the Makefile makes, the model says so (`AsU32`). A ghost field or ghost parameter only names a witness: `owner` says which pointer owns a block,
`exits` and `collected` which status a task ended with and whether a parent has it.

Where a property one would expect does not hold of the code, the model keeps the code and states exactly when it
holds:

* `Truncate` keeps the blocks accounted for if and only if it frees just the blocks it drops: not when blocks past the
  new end are behind the indirect block while the new end is too (`Strands`; the run is `StrandPointers`), and not when
  the size is past 2^41 bytes, the block numbers wrap, and blocks behind the indirect block are overlooked (`Leaks`).
  The file system stays sound if and only if, besides, no pointer is left past the new end (`CutsRight`). Up to that
  size `Strands` is all that can go wrong (`CutsRightIff`). Cutting a file whose old last block number is past the
  reach of the indirect block panics, and `Truncate` says when (`PanicByCut`).
* A write that runs out of space returns before the inode is stored. The file system stays sound if and only if the
  write has not taken a block that only the inode in memory knows, nor one past the end of the file (`Spoils`);
  otherwise the blocks it took are lost (`LoseBlocks`). In the same way `DirAddEntry` loses the last free block if and
  only if it went to the directory's indirect block (`LosesBlock`).
* Bytes written at or past position 2^41 land at the position modulo 2^41 (`Base`), and are read from there.
* `CreateFile` and `CreateDir` say before the call whether they will succeed (`CanCreateFile`, `CanCreateDir`). When
  they fail they keep the invariant if and only if no inode was free: their rollback leaves the stored inode live under
  a cleared bit, so a second creation of the same name breaks it (`CreateTwice`); `Open` and `Mkdir` carry this up
  to paths. `CreateDir` given the free inode number it is about to allocate succeeds with a directory inside itself
  (`LoopIsNoTree`; the run is `CreateInItself`).
* `open` looks at permissions last. One that is refused has emptied the file exactly if it was to create, to truncate,
  and there was a file (`RefusedOpen`); a file it has just made is always its maker's to read and write.
* A stored name reads back if and only if it has no NUL and fewer than 60 bytes (`EntryRoundTripIff`). A name with a
  NUL is looked up whole and stored cut short, so adding it keeps the directory a map if and only if what is left of
  it is not bound yet (`DirAddEntry`, with an instance in `StoredForInstance`).
* Either fork gives a faithful copy if and only if no frame allocation failed on the way. `CowFork` needs at most three
  frames for each user page besides the kernel's tables, `DuplicateFork` four, and `RunBoth` succeeds whenever
  the sum over the run fits; a fork that returns a space without the parent's pages is in `ForkOutOfMemory`.
* A write through a descriptor that is open on a directory lays its bytes over the directory's. The file system stays
  sound if and only if what is then there reads as a directory (`Readable`), and then it is that directory.
* The search for a free descriptor goes round for ever if and only if the next one and all from 3 up are taken though
  the table is not full (`Endless`); the tables of a valid `Vfs` always have the next one free.
* `Exit`, `Terminate` and `Kill` keep the process invariant if and only if the task that ends is neither init nor the
  idle task (`Vital`); no user task can end either of them.
* `CloneTaskFds` for a task that already has a descriptor table replaces the table without releasing its pipe ends: the
  reference counts stay right if and only if the old table held none (`Replaced`).
* `MakePipe` failing for want of its second descriptor leaves the first one behind, naming a pipe that never exists.
* The reader of argument vectors gives back what was written if and only if there are at most 64 entries of at
  most 256 bytes (`ReadsBackIff`).

The documentation comment of `do_fork` (kernel/src/task.rs:749-753) says that the address space is copied; the code
shares it copy-on-write, and the model follows the code.

## Model

| member | source | states |
|---|---|---|
| Layout.SuperblockRoundTrip | kernel/src/fs/nextfs.rs:86-120 | a superblock read back from its encoding is the same superblock |
| Layout.SuperblockFormat | kernel/src/fs/nextfs.rs:86-120 | which bytes of block 0 each field of the superblock is, from "NXFS" on |
| Layout.InodeRoundTrip | kernel/src/fs/nextfs.rs:206-237 | an inode, permissions and times included, read back from its 64 bytes is the same inode |
| Layout.InodeFormat | kernel/src/fs/nextfs.rs:126-141 | which bytes of a record each field of an inode is |
| Layout.EntryRoundTripIff | kernel/src/fs/nextfs.rs:253-303 | a directory entry reads back exactly when its name is NUL-free and shorter than 60 bytes |
| Layout.EntryFormat | kernel/src/fs/nextfs.rs:253-303 | an entry is its number, at most 59 bytes of its name and zeros |
| Layout.StoredIff | kernel/src/fs/nextfs.rs:253-303 | what is left of a stored name is a storable prefix of it, and the whole name exactly when that is storable |
| Layout.StoredForInstance | kernel/src/fs/nextfs.rs:253-303 | two different names that are stored alike |
| Layout.PermitsIff | kernel/src/fs/nextfs.rs:191-204 | a request is granted exactly if each of its three bits is, by the bit of the mode that stands for it in the class that applies |
| Layout.PrivateFile | kernel/src/driver/mod.rs:286-309 | a file of mode 0600 is its owner's and user 0's alone |
| Layout.PublicFile | kernel/src/driver/mod.rs:311-331 | a file of mode 0644 is everybody's to read, its owner's and user 0's to write |
| Bytes.BitIsDigit | kernel/src/fs/nextfs.rs:541-546 | bit t of a bitmap byte is its binary digit for 2 to the power of t |
| Bytes.WordFormat | kernel/src/fs/nextfs.rs:86-120 | words are stored with their lowest byte first |
| Accounting.TableWrite | kernel/src/fs/nextfs.rs:606-621 | rewriting one inode's bytes in its table block changes that inode and no other |
| Accounting.OwnershipIsExact | kernel/src/fs/nextfs.rs:534-561 | in every accounted state the used bits of the data area are exactly the blocks named by live pointers, each by one, and the free counter counts the free bits |
| Accounting.DanglingPointer | kernel/src/fs/nextfs.rs:1133-1154 | a live pointer to a free block cannot be accounted for by any choice of owners |
| NextFs.NextFS.AllocBlock | kernel/src/fs/nextfs.rs:534-552 | hands out the lowest free data block, fails exactly when the counter is zero, and keeps bitmap, counter and ownership in step |
| NextFs.NextFS.FreeBlock | kernel/src/fs/nextfs.rs:555-561 | returning an owned block keeps bitmap, counter and ownership in step |
| NextFs.NextFS.AllocInode | kernel/src/fs/nextfs.rs:564-580 | takes the lowest free inode number from 1 on, and fails exactly when the counter is zero or every number is taken |
| NextFs.NextFS.ReadInode | kernel/src/fs/nextfs.rs:591-603 | gives the table's entry, or an error exactly for number 0 and numbers past the table |
| NextFs.NextFS.WriteInode | kernel/src/fs/nextfs.rs:606-621 | stores one inode, leaves every other inode and the whole data area alone |
| NextFs.NextFS.GetInodeBlock | kernel/src/fs/nextfs.rs:889-907 | finds the block behind a logical block number through direct and indirect pointers, with the one error case |
| NextFs.NextFS.AllocInodeBlock | kernel/src/fs/nextfs.rs:910-938 | adds one block to an inode, and an indirect block if needed, without moving any block or disturbing another inode; fails exactly past the reach of the indirect block or with too few free blocks for both, and says what a failure leaves |
| NextFs.NextFS.ReadInodeData | kernel/src/fs/nextfs.rs:941-971 | copies the file's bytes from the offset up to its end into the buffer, holes as zeros and positions modulo 2^41, and fails exactly when a position is past what the indirect block reaches |
| NextFs.NextFS.WriteInodeData | kernel/src/fs/nextfs.rs:974-1009 | lays the data over the inode's bytes, sets the size to the larger of the old one and the end of the data, stamps the time if anything was written, and disturbs no other inode; runs out of space exactly when the blocks needed are more than are free or past the last pointer, and takes exactly those blocks otherwise |
| NextFs.NextFS.WriteAt | kernel/src/fs/vfs.rs:675-684 | the data is laid over the bytes of the inode, file or directory; the file system is then sound exactly when these still read as a file or a directory, which for a file they do, and nothing but that node has changed; out of space exactly when it does not fit, and then a file system with a file written to is sound exactly when the write took no block that the stored inode misses, with only a stretch of old bytes overwritten |
| Invariant.RawWritten | kernel/src/fs/vfs.rs:675-684 | once bytes have been laid over those of a directory the file system is sound exactly if they are those of a directory, and otherwise for no choice of owners |
| NextFs.BrokenWrite | kernel/src/fs/nextfs.rs:974-1009 | after a write that broke off, the stored inode being the old one: sound with some of its bytes overwritten, or sound for no choice of owners, and which of the two from the state before |
| Instances.LoseBlocks | kernel/src/fs/nextfs.rs:974-1009 | from a blank device: a write longer than a file can be leaves blocks in use that nothing names |
| NextFs.NextFS.WriteFile | kernel/src/fs/nextfs.rs:1023-1033 | whatever the file held, afterwards it holds exactly the new data and nothing else changed; out of space exactly when its own blocks and the free ones together are too few, and then the stored inodes are the old ones while every block is accounted for by the inode in memory |
| Contents.FreeAndMine | kernel/src/fs/nextfs.rs:910-1063 | whatever is done to one inode, free blocks and its own blocks stay as many together |
| NextFs.NextFS.ReadFile | kernel/src/fs/nextfs.rs:1012-1020 | returns the whole contents of a file up to 2^41 bytes, beyond that the bytes at the positions modulo 2^41, and fails exactly when the file reaches past its indirect block |
| NextFs.NextFS.WriteThenRead | kernel/src/fs/nextfs.rs:1012-1033 | what was written is what is read back, from any earlier state of the file, and it is written exactly when its blocks and the free ones are enough |
| NextFs.NextFS.FreeInodeBlocks | kernel/src/fs/nextfs.rs:1036-1063 | frees every block of an inode, direct, indirect and behind the indirect block, and keeps the accounting |
| NextFs.NextFS.TruncateInode | kernel/src/fs/nextfs.rs:1077-1158 | cuts or stretches an inode of any size: which pointers are left, and the accounting kept exactly unless blocks are stranded or overlooked, and then no accounting exists at all |
| NextFs.NextFS.Truncate | kernel/src/fs/nextfs.rs:1066-1074 | on success the blocks can be accounted for if and only if none was stranded or overlooked, and the file system is sound if and only if besides no pointer is left past the end; then the file is its old prefix or its old bytes extended; panics exactly when the old end is past the reach of the indirect block |
| Contents.CutsRightIff | kernel/src/fs/nextfs.rs:1077-1158 | for files whose block numbers fit in 32 bits a cut is right exactly when it strands nothing, and it keeps every byte below the new end |
| Instances.StrandPointers | kernel/src/fs/nextfs.rs:1133-1154 | from a blank device: a file of eleven blocks cut to ten, after which no choice of owners accounts for the blocks |
| Instances.PanicByCut | kernel/src/fs/nextfs.rs:1133-1154 | from a blank device: a file stretched past the reach of the indirect block and cut back panics |
| NextFs.NextFS.DirLookup | kernel/src/fs/nextfs.rs:731-758 | looks a name up in the directory's map, with each error exactly where it belongs |
| NextFs.NextFS.DirList | kernel/src/fs/nextfs.rs:761-786 | lists exactly the bindings of the directory, each once |
| Invariant.ListingIsMap | kernel/src/fs/nextfs.rs:761-786 | the used entries of a directory, in slot order, are the bindings of its map and as many |
| NextFs.NextFS.DirAddEntry | kernel/src/fs/nextfs.rs:789-833 | adds one binding whether a slot is reused, appended or in a new block, and leaves a sound file system exactly when the stored name is new; every error with its exact cause in the state before, the blocks taken, and on every error nothing changed, except that for want of space the last free block may be lost, and exactly when |
| Invariant.EntryAppended | kernel/src/fs/nextfs.rs:819-832 | appending adds two slots, the second unused, and the directory's map gains exactly the new binding |
| Invariant.EntryDoubled | kernel/src/fs/nextfs.rs:819-832 | appending an entry whose stored name is bound leaves no sound file system |
| Invariant.SlotStored | kernel/src/fs/nextfs.rs:803-818 | rewriting one slot in place changes that entry of that directory and nothing else, and is sound exactly when the directory's names stay different |
| NextFs.NextFS.DirRemoveEntry | kernel/src/fs/nextfs.rs:1161-1192 | removes one binding and returns its inode number, or changes nothing |
| NextFs.NextFS.CreateFile | kernel/src/fs/nextfs.rs:836-849 | success exactly when the directory can take the name and an inode is free; then one empty file with mode 0644, owner 0 and the time of creation, under the stored form of the name, and no inode but that and the directory's touched; whether the invariant holds afterwards, after success as after failure, from the state before; a failure leaves at most the new inode in the table |
| NextFs.NextFS.CreateDir | kernel/src/fs/nextfs.rs:852-886 | success exactly when inode, block and room are there and the name is new; then one directory with its dots, mode 0755, owner 0 and the time of creation, or the self-containing one when the parent number was the first free one, and no inode but that and the parent's touched; whether the invariant holds afterwards from the state before; a failure leaves at most the new inode in the table |
| Instances.CreateTwice | kernel/src/fs/nextfs.rs:836-849 | from a blank device: creating a name a second time fails and leaves the invariant |
| Instances.CreateInItself | kernel/src/fs/nextfs.rs:852-886 | from a blank device: a directory created in the inode number it is about to get contains itself |
| NextFs.NextFS.Unlink | kernel/src/fs/nextfs.rs:1195-1222 | removes exactly one file with its entry, and succeeds exactly when the name is bound to a file; on a directory's name reports NotFile with the map unchanged although the entry was taken out and put back |
| NextFs.NextFS.Rmdir | kernel/src/fs/nextfs.rs:1225-1258 | removes exactly one directory of at most two entries with its entry, whenever the name is bound to such a one, and changes nothing otherwise |
| NextFs.NextFS.CheckPermission | kernel/src/fs/nextfs.rs:1324-1340 | reading takes bit 8, 5 or 2 of the mode, for owner, group or others, and writing bit 7, 4 or 1; both together take both; user 0 is always granted |
| NextFs.NextFS.ChangeOwner | kernel/src/fs/nextfs.rs:1293-1302 | gives one inode new owners and the present time and changes no other; the file system is as sound as it was and holds what it held |
| NextFs.NextFS.ChangeMode | kernel/src/fs/nextfs.rs:1282-1290 | gives one inode nine new permission bits and the present time and changes no other; the file system is as sound as it was and holds what it held |
| Invariant.MetaStored | kernel/src/fs/nextfs.rs:1282-1302 | storing another mode, owner or time makes no file system sound or unsound and no file or directory different |
| NextFs.NextFS.Format | kernel/src/fs/nextfs.rs:323-445 | leaves a superblock, a bitmap with only the root's block used and a table with only the root, for every device that is large enough, and touches nothing behind |
| Persistence.FormatLayout | kernel/src/fs/nextfs.rs:345-385 | the areas of a formatted device and the counters, for every size |
| NextFs.NextFS.Mount | kernel/src/fs/nextfs.rs:448-511 | loads the trimmed bitmap and rebuilds the inode bitmap from the table, and fails exactly for a bad superblock or for a bitmap or table that is not all on the device; for inode counts whose table size wraps in 32 bits the inode bitmap is empty |
| NextFs.NextFS.Sync | kernel/src/fs/nextfs.rs:1343-1356 | writes the superblock and the zero-padded bitmap and nothing else |
| Persistence.MountAfterSync | kernel/src/fs/nextfs.rs:448-511 | mounting a synced device rebuilds the same superblock and bitmaps, and the same files and directories |
| Persistence.MountAfterFormat | kernel/src/fs/nextfs.rs:323-511 | a freshly formatted device mounts as a sound file system holding just the root directory |
| NextFs.NextFS.SyncThenMount | kernel/src/fs/nextfs.rs:1343-1356 | sync followed by mount always succeeds and loses nothing |
| NextFs.NextFS.FormatThenMount | kernel/src/fs/nextfs.rs:323-511 | format followed by mount fails exactly on devices too small for the layout, and otherwise gives the file system with only the root |
| Namespace.StepKeepsTree | kernel/src/fs/nextfs.rs:836-1258 | every successful creation, removal or change of a file keeps the namespace a tree |
| Namespace.RunKeepsTree | kernel/src/fs/nextfs.rs:836-1258 | after any run of successful operations from a fresh file system the namespace is a tree |
| Namespace.LoopIsNoTree | kernel/src/fs/nextfs.rs:852-886 | a directory created inside the free number it is given destroys the tree |
| Namespace.UniquePath | kernel/src/fs/vfs.rs:440-462 | in a tree every live inode is reached from the root by exactly one path without dots |
| Namespace.WalkIsNormal | kernel/src/fs/vfs.rs:440-462 | a path that resolves, dots included, has as its lexical normal form the one path down to its node |
| Namespace.NormalWalks | kernel/src/fs/vfs.rs:440-462 | resolving a path and resolving its lexical normal form give the same node |
| Namespace.CreationKeepsPaths | kernel/src/fs/nextfs.rs:836-886 | creating a node leaves every path leading where it led |
| Namespace.RemovalKeepsPaths | kernel/src/fs/nextfs.rs:1195-1258 | after a removal a path to any other node still leads there once its dots are resolved |
| Namespace.SplitComponents | kernel/src/fs/vfs.rs:429-437 | splitting a path at its last slash and resolving in two steps visits the components of the whole path |
| Paths.Resolve | kernel/src/fs/vfs.rs:440-462 | resolves exactly the paths that lead somewhere, and to where they lead |
| Paths.MadeAtPath | kernel/src/fs/vfs.rs:949-962 | after a creation under a storable name the path used for it leads to the new node, and led nowhere before |
| Paths.Open | kernel/src/fs/vfs.rs:465-519 | opens the existing node, emptied if asked, or creates a file owned by the caller; success exactly if that can be done, and the caller may read it if it asks to read and write it if it asks to write; soundness exactly; both from the state before; a refused one leaves everything as it was, unless it has emptied a file |
| Paths.OpenFound | kernel/src/fs/vfs.rs:465-502 | for what exists: fails exactly when a directory is to be emptied, and then changes nothing; emptying a file is sound exactly when cutting it to nothing is right |
| Paths.MakeFileAt | kernel/src/fs/vfs.rs:477-495 | for what does not exist: success exactly when the caller may write to the directory of the path's parent and that can take the name, soundness exactly, and on success one file more, owned by the caller |
| Paths.Mkdir | kernel/src/fs/vfs.rs:949-962 | on success one new directory, owned by the caller, in the directory named by the path's parent, in which the caller may write; success and soundness exactly, both from the state before, and a failure that keeps the file system sound changed nothing |
| Paths.UnlinkPath | kernel/src/fs/vfs.rs:922-932 | one file fewer in the directory named by the path's parent, and success exactly when there is that file and the caller may write to the directory; always sound, and a failure leaves every file and directory as it was |
| Paths.RmdirPath | kernel/src/fs/vfs.rs:935-946 | one directory fewer in the directory named by the path's parent, and success exactly when there is such a bare directory and the caller may write to its parent; always sound, and a failure changes nothing |
| Paths.TruncatePath | kernel/src/fs/vfs.rs:965-975 | resizes the file at a path, and succeeds exactly when there is one that the caller may write to; soundness exactly, from the state before |
| Paths.Chmod | kernel/src/fs/vfs.rs:988-1001 | sets the mode of what a path leads to, exactly for its owner and user 0, and changes no file or directory |
| Paths.Chown | kernel/src/fs/vfs.rs:1004-1017 | sets the owners of what a path leads to, exactly for user 0, and changes no file or directory |
| Paths.EffectKeepsTree | kernel/src/fs/vfs.rs:465-975 | every path operation, as the abstract tree sees it, keeps the tree |
| Paths.BeyondIff | kernel/src/fs/nextfs.rs:1066-1158 | which operations on what exists are not followed: of files up to 2^41 bytes only a cut that strands pointers, of directories only a raw write |
| Paths.Perform | kernel/src/fs/vfs.rs:465-975 | one operation of a run, its outcome exactly from the state before: done if there is what it needs and the caller may, with its effect on the tree and on the permissions; refused if not, with the invariant kept and nothing changed but what a refused `open` or a write cut short has; failed if that may break the invariant; or not followed |
| Paths.Run | kernel/src/fs/vfs.rs:465-975 | formatting, mounting and any run of operations: in each state a tree with every block accounted for, the state before says whether the next operation succeeds and what that does to the tree and the permissions, and the run ends early exactly where it says so |
| Cow.ForkRefines | kernel/src/memory.rs:401-525 | sharing the parent's frames with the child shows user programs what copying every page would |
| Cow.ForkKeeps | kernel/src/memory.rs:401-525 | after a shared fork a frame behind a writable user leaf is still mapped by that leaf only |
| Cow.StoreRefines | kernel/src/interrupts.rs:156-246 | a store through a writable leaf changes that byte of that page of that space and nothing any other space sees |
| Cow.MappedIs | kernel/src/memory.rs:643-680 | mapping a stretch makes each of its pages zeroed and writable just if asked, and changes no other page |
| Cow.StoredIs | kernel/src/interrupts.rs:156-246 | a store changes one byte of one page of one space, and no right |
| AddressSpaces.MemoryManager.CreateUserMapper | kernel/src/memory.rs:330-379 | a new space shows user programs nothing, and panics exactly when fewer frames are left than the kernel's tables take |
| AddressSpaces.MemoryManager.CowFork | kernel/src/memory.rs:401-525 | panics exactly when the kernel's tables cannot be copied; otherwise the invariant holds, all spaces are as they were, and the child sees pages of the parent and no others, all of them if and only if no allocation failed, which is so with three frames for each of them |
| AddressSpaces.MemoryManager.DuplicateFork | kernel/src/memory.rs:536-622 | the same met by copying every page, with four frames for each |
| AddressSpaces.ForkOutOfMemory | kernel/src/memory.rs:401-525 | a fork that runs out of frames half-way: it returns a space, and that does not show the parent's pages |
| AddressSpaces.MemoryManager.MapUserRegion | kernel/src/memory.rs:643-680 | every page from the first on, up to the first in use, the end of memory or the end of the user half, where it panics, is zeroed and writable just if asked; says how far it came; no other page and no other space changes |
| AddressSpaces.MemoryManager.ResolveFault | kernel/src/interrupts.rs:165-246 | serves exactly the write faults on shared pages for which a frame is left, and changes nothing that user programs see |
| AddressSpaces.MemoryManager.UserStore | kernel/src/interrupts.rs:156-260 | a user store reaches its own page only; a task is killed only without the right to write or when memory is out |
| AddressSpaces.MemoryManager.UserLoad | kernel/src/interrupts.rs:156-260 | a load sees the page the abstract space has |
| AddressSpaces.Handle | kernel/src/memory.rs:401-680 | each event, on a sharing or on a copying machine, does to the user spaces what the copying semantics says, within a stated number of frames, and the kernel panics only for want of memory |
| AddressSpaces.RunBoth | kernel/src/memory.rs:401-680 | a machine that shares and one that copies show user programs the same spaces after any run of events, those that the copying semantics gives, whenever the frames that the run costs are there |
| PageTables.WithinKeeps | kernel/src/memory.rs:286-321 | walks depend on the tables they can reach and on nothing else |
| PageTables.TableMemory.DeepCopyTable | kernel/src/memory.rs:293-321 | the copy walks like the source for every page, at every level and for huge pages, consists of fresh tables only, and no existing table changed |
| PageTables.TableMemory.CreateUserMapper | kernel/src/memory.rs:330-379 | the new top-level table walks like the kernel's everywhere, and what lies under its first entry is its own |
| PageTables.TreeKeeps | kernel/src/memory.rs:286-321 | a tree of tables that share nothing stays one, with the same walks, whatever happens to other tables |
| PageTables.TableMemory.MapUnder | kernel/src/memory.rs:643-680 | mapping one page in a tree: that page then leads to the leaf, no other page leads elsewhere, and only tables of the tree or new ones changed |
| PageTables.TableMemory.MapInNewSpace | kernel/src/memory.rs:330-379 | after copying the kernel table and mapping a page in the copy, every walk from the kernel table is as it was, that page leads to the leaf in the copy, and every other page leads where it led |
| Processes.ForkKeeps | kernel/src/task.rs:838-871 | adding a child keeps links, children lists, wake-ups and records right |
| Processes.ExitKeeps | kernel/src/task.rs:484-551 | termination of any task but init, user or kernel, with adoption by init and the parent's wake-up keeps them right |
| Processes.ExitTask | kernel/src/task.rs:513-541 | what a termination makes of every other task, field by field: its children go to init, its parent has SIGCHLD pending and wakes from `wait` only, nothing else changes |
| Processes.ReapKeeps | kernel/src/task.rs:588-598 | a reaped zombie had not been collected before, and carries the status it exited with |
| Processes.WithoutOne | kernel/src/task.rs:588-592 | taking a child out of a list leaves the others in their order |
| Processes.SleepKeeps | kernel/src/task.rs:613-624 | falling asleep after a scan without a zombie keeps the no-lost-wake-up invariant |
| Scheduling.Scheduler.Switch | kernel/src/task.rs:1397-1471 | runs the first runnable task after the current one, going round, and changes no other state than those of the two |
| Scheduling.Scheduler.Schedule | kernel/src/task.rs:1397-1471 | afterwards exactly the current slot is running, and the process tree is as it was |
| Scheduling.ChoiceNears | kernel/src/task.rs:1404-1415 | each choice brings the turn strictly nearer to every task that stays runnable |
| Scheduling.FairTurn | kernel/src/task.rs:1397-1471 | in a table of n slots a task that stays runnable has its turn within n - 1 choices |
| Scheduling.Scheduler.AddTask | kernel/src/task.rs:295-306 | a new task takes the first dead slot, or a new one if there is none, and no other slot changes |
| Scheduling.Scheduler.Spawn | kernel/src/task.rs:309-316 | one more root task with an id never used before |
| Scheduling.Scheduler.Fork | kernel/src/task.rs:754-876 | one more child of the caller, runnable, with its dispositions of signals, none of them pending, and an id never used before; refused to kernel tasks |
| Scheduling.Scheduler.Exit | kernel/src/task.rs:484-556 | the caller, user or kernel task, becomes a zombie with its status, its children go to init, a parent in `wait` wakes and nobody else does, and the next runnable task runs; the invariant holds afterwards exactly when the caller was neither init nor the idle task |
| Scheduling.Scheduler.ReturnFromTask | kernel/src/task.rs:217-226 | a kernel task that returns leaves nothing behind in the process tree |
| Scheduling.Scheduler.Terminate | kernel/src/task.rs:894-951 | the same for another task, and nothing if it has already terminated |
| Scheduling.Scheduler.Kill | kernel/src/task.rs:965-1056 | an error exactly for a number that is no signal, a target never known, or one the caller may not aim at; a live target is ended by SIGKILL, and by signals 1 to 16, 24 to 27, 30 and 31 if it has the default for them, with status 128 and the signal; it is left with the signal pending and awake if it has a handler; nothing happens for 17 to 23, 28 and 29 by default, for what is ignored, and for 0; a user task never ends init or the idle task |
| Scheduling.Scheduler.AimIsKin | kernel/src/task.rs:979-991 | of the tasks there are, a user task may send signals to itself and its children and to no other |
| Scheduling.Scheduler.SetDisposition | kernel/src/task.rs:1066-1081 | changes what the caller does with one signal, never with SIGKILL, and leaves the process tree right |
| Scheduling.Scheduler.Wait | kernel/src/task.rs:564-627 | no children, the first terminated child in the list collected once with its exit status, or asleep with at least one child and no zombie among them |
| Scheduling.Scheduler.ReapSnapshot | kernel/src/task.rs:1196-1202 | notes exactly the children of init |
| Scheduling.Scheduler.ReapSelect | kernel/src/task.rs:1206-1213 | picks exactly the zombies among the children noted before |
| Scheduling.Scheduler.ReapNext | kernel/src/task.rs:1215-1226 | reaps the next zombie noted, once, with its exit status, whatever ran since the scan |
| Scheduling.Scheduler.BlockCurrent | kernel/src/task.rs:1278-1286 | the caller sleeps, the next runnable task runs, and nothing else changes |
| Scheduling.Scheduler.Unblock | kernel/src/task.rs:1289-1297 | wakes exactly a blocked task with the given id |
| Pipes.Vfs.AllocFd | kernel/src/fs/vfs.rs:238-255 | gives the first free descriptor from the next one on, going round to 3 past the limit; fails exactly when the table is full, and searches for ever exactly when the next one and all it comes past are taken |
| Pipes.Vfs.InitTaskFds | kernel/src/fs/vfs.rs:341-355 | a task starts with the keyboard to read as 0 and the console to write as 1 and 2; the reference counts stay right exactly when a table it had before held no pipe end |
| Pipes.Vfs.PipeDupEnd | kernel/src/fs/vfs.rs:195-204 | one holder more of one end of one registered pipe; its bytes, its other end and the other pipes stay |
| Pipes.Vfs.PipeCloseEnd | kernel/src/fs/vfs.rs:209-221 | one holder fewer of one end, never below none; the pipe goes exactly with its last end, and nothing else changes |
| Pipes.DupThenClose | kernel/src/fs/vfs.rs:195-221 | letting go of a duplicated end gives back the pipes as they were, exactly unless the pipe had no end at all |
| Pipes.FdClosed | kernel/src/fs/vfs.rs:209-221 | closing a descriptor finds a positive count, so the subtraction never saturates, and the pipe goes exactly with its last descriptor |
| Pipes.Vfs.MakePipe | kernel/src/fs/vfs.rs:853-879 | two new descriptors, the first to read only and the second to write only, and a pipe with one of each end, or the exact remains of a failure |
| Pipes.Vfs.Close | kernel/src/fs/vfs.rs:815-850 | removes one descriptor and lets go of its end |
| Pipes.Vfs.CloneTaskFds | kernel/src/fs/vfs.rs:389-426 | the child gets a copy of every descriptor, and each end counts its new holders; the counts are right exactly when a table that the child had before held no pipe end |
| Pipes.Replaced | kernel/src/fs/vfs.rs:389-426 | putting a table with counted ends in place of another keeps the counts right exactly when the old one held no pipe end |
| Pipes.Vfs.CleanupTaskFds | kernel/src/fs/vfs.rs:358-381 | all of a task's descriptors go, and the pipes that nobody else holds |
| Pipes.RegisteredIffHeld | kernel/src/fs/vfs.rs:177-221 | a pipe is registered exactly while some descriptor of some task holds one of its ends |
| Pipes.Vfs.ReadStep | kernel/src/fs/vfs.rs:601-639 | delivers the bytes at the front in order; end of file exactly with no bytes and no write end left |
| Pipes.Vfs.WriteStep | kernel/src/fs/vfs.rs:702-745 | pushes as much as fits and counts exactly that; stops for good when no read end is left, with an error exactly when nothing was written |
| Pipes.Read | kernel/src/fs/vfs.rs:540-639 | reading by descriptor: each error with its cause, waiting, end of file, or the bytes at the front of the pipe and those alone gone from it |
| Pipes.Write | kernel/src/fs/vfs.rs:661-745 | writing by descriptor in the same way: as much as fits is appended |
| Pipes.ThroughPipe | kernel/src/fs/vfs.rs:853-879 | what is written to the second descriptor of a new pipe is read from the first, and the other way round both refuse |
| StartStack.SetupUserStack | kernel/src/elf.rs:682-757 | lays out argc, the pointer arrays, the terminators and the strings without overlap at a 16-byte aligned stack pointer, which it says, and fails exactly when they do not fit |
| StartStack.StackEnds | kernel/src/elf.rs:735-755 | both pointer arrays end in a null pointer, and the auxiliary vector is the pair of zeros after them |
| StartStack.CopyUserCstrArray | kernel/src/syscall.rs:193-234 | reads an array of string pointers as the specification function does, with or without checking pointers |
| StartStack.KernelRefused | kernel/src/syscall.rs:154-215 | a caller in user space gets nothing for an array that reaches past its half, and a list ends at a string past it |
| StartStack.KernelTrusted | kernel/src/syscall.rs:193-215 | for the kernel itself a list ends at a null pointer or at the limit alone |
| StartStack.StringInside | kernel/src/syscall.rs:218-228 | a string read for a caller in user space ends where that does |
| StartStack.StackReadsBack | kernel/src/syscall.rs:193-234 | reading argv and envp of a start-up stack gives back the arguments and the environment that were written, up to the reader's limits |
| StartStack.ReadsBackIff | kernel/src/syscall.rs:193-234 | nothing is lost if and only if the lists stay within the reader's limits |
| ElfImage.FillFrame | kernel/src/elf.rs:530-572 | a page shows the file's bytes at the matching offsets and zeros elsewhere; fails exactly when the file is too short |
| ElfImage.LoadSegments | kernel/src/elf.rs:482-574 | succeeds exactly when there is an image: every page of every segment, none of two segments or in use, backed by the file, with frames enough for the pages and for every page table that is missing; then every page shows its image for any alignment; each error with its cause |
| ElfImage.WayCovers | kernel/src/elf.rs:515-526 | which page tables lead to a page: one at each of three levels, covering 512, 512 squared and 512 cubed pages |
| ElfImage.FileShown | kernel/src/elf.rs:482-574 | in a loaded image every address of a segment's file part, when that is no longer than the segment, is on a mapped page and shows the file's byte |
| Terminals.Terminal.ScrollUp | kernel/src/terminal.rs:288-300 | the rows scrolled off followed by the grid stay the same text, one blank row longer, less the oldest row when the scrollback is full |
| Terminals.Terminal.Put | kernel/src/terminal.rs:311-338 | a glyph lands under the cursor, wrapping and scrolling at the end of a row; a tab goes to the next stop, a backspace one position back across rows, and other control characters do nothing |
| Terminals.Terminal.Feed | kernel/src/terminal.rs:341-382 | the cursor stays on the grid through any characters and escape sequences; plain ones are shown, those of a sequence show nothing until its last, which is obeyed with the parameters its text spells |
| Terminals.Terminal.CsiDispatch | kernel/src/terminal.rs:385-420 | colours, cursor moves and erasures do exactly what the parameters say and nothing else |
| Terminals.SpelledValues | kernel/src/terminal.rs:355-366 | up to eight 16-bit numbers written out with semicolons are what the parser reads |
| Terminals.Terminal.ControlSequence | kernel/src/terminal.rs:341-420 | a control sequence sent character by character does what its text, read as decimal fields, says |
| LineEditing.LineEditor.Redraw | kernel/src/shell.rs:160-180 | after a repaint the row shows prompt, line and blanks, the cursors agree, and no other row changed |
| LineEditing.LineEditor.Insert | kernel/src/shell.rs:182-186 | inserts at the cursor and keeps row and editor in agreement |
| LineEditing.LineEditor.Backspace | kernel/src/shell.rs:189-195 | deletes before the cursor and keeps row and editor in agreement |
| LineEditing.LineEditor.HistoryPrev | kernel/src/shell.rs:242-264 | recalls the next older entry with the cursor at its end, saving the line first, and keeps row and editor in agreement |
| LineEditing.LineEditor.BrowseAndReturn | kernel/src/shell.rs:242-283 | browsing the history any way back and the same way forward brings back the line being edited, with the cursor at its end |
| LineEditing.LineEditor.PressAll | kernel/src/shell.rs:160-283 | after any sequence of keys that fit, line, cursor, history position and draft are what the keys make of them one after the other, the row shows prompt, line and blanks, and the two cursors agree |
| LineEditing.TypedAndUndone | kernel/src/shell.rs:182-216 | a character typed anywhere in a line is undone by a backspace, and by stepping back and deleting |
| Desktop.System.CreateWindow | kernel/src/wm.rs:165-196 | registers a window under the next id and queues it last, unless the registry is full or a side is zero; then nothing changes |
| Desktop.System.DestroyOwnedBy | kernel/src/wm.rs:250-269 | removes exactly the windows of one task, queues each of them for the compositor, and returns how many |
| Desktop.System.TakePendingDestroy | kernel/src/gui.rs:582-595 | removes the frame of one destroyed window, if it has one, and no other; the others keep their order, and the focus goes to the top; without such a frame frames and focus stay |
| Desktop.System.CloseButton | kernel/src/gui.rs:648-676 | closes one frame and its window, and keeps the focus on the frame that had it |
| Desktop.System.DrainAll | kernel/src/gui.rs:564-595 | once both queues are drained the framed client windows are exactly the registered ones: new ones on top in the order of the queue, all others, terminals among them, in their old order; and where the focus is |
| Desktop.SceneIsRegistry | kernel/src/gui.rs:564-595 | in any state with drained queues every registered window has exactly one frame, and no other client window has one |
| Irq.Line.CheckOrSleep | kernel/src/driver/irq.rs:82-99 | reports all that is pending, or sleeps with nothing pending and itself as the waiter |
| Irq.Line.NotifyFromIsr | kernel/src/driver/irq.rs:107-121 | counts the interrupt and wakes a sleeping driver |
| Irq.Line.Run | kernel/src/driver/irq.rs:82-121 | over any interleaving the state is what the steps make of it one after the other, the interrupts in it are those counted, and those reported by `wait` with those pending are the ones pending before and those in it; the driver never sleeps on a pending one |
| Irq.RanConserves | kernel/src/driver/irq.rs:82-121 | along any interleaving each interrupt is either reported or pending, and the driver sleeps only with none pending |
| Irq.AllReported | kernel/src/driver/irq.rs:82-121 | whatever happened before, after two more steps of the driver every interrupt has been reported |

## Left out

- WriteFile: a file whose cut to nothing would not be right (`CutsRight`), one of more than 2^41 bytes, is outside its precondition.
- Open: descriptors, positions and appending; the file system operations say what the inode comes to.
- Run: it ends where `Stops` says, at the first failure that may break the invariant and at operations it does not follow: raw writes into a directory, cuts that are not right (`CutsRight`) or shorten a file of more than 2^41 bytes, and names with a NUL that clash once stored. A write goes through a descriptor opened before, for which no permission is asked again.
- DirLookup: names are byte strings; they come from UTF-8 text, which stays UTF-8 when cut at a NUL.
- AddTask: dropping the task whose dead slot is reused; the drop of its guarded stack (kernel/src/memory.rs:250-267) unmaps 33 pages and expects each to be mapped, the guard page included, which never was, so reusing a slot depends on code outside this model.
- Scheduler: `exec`, the delivery of pending signals to handlers, stacks and address spaces of tasks; interrupts-off regions and system calls are single steps, and init's reaper is split into its critical sections.
- UserStore: writes by the kernel into user pages, which do not go through the page fault.
- CowFork: intermediate tables are a number of frames drawn at each mapping (up to three) and at each new space; the tables themselves are in `PageTables`.
- MapUserRegion: regions that start in the kernel half.
- MakePipe: descriptor numbers and pipe ids are unbounded, reference counts too.
- ReadStep: blocking is returning without bytes; the caller retries after any other steps.
- CopyUserCstrArray: memory is readable everywhere; whether bytes are UTF-8 is a parameter.
- LoadSegments: relocations, the stack pages and address arithmetic past 64 bits; a segment of length zero at address zero, for which the source's last address wraps.
- Feed: the focus, view and change counters of terminals; the shell's command execution.
- Devices and their failures other than a block number past the end; locks; TLB flushes; logging.
- Bootstrapping, drivers, network stack, IPC, capabilities, the DMA arena and user programs.
