/** The path operations over a mounted file system, and whole runs of them from a fresh device. */
module Paths {
  import opened Bytes
  import opened Layout
  import opened Accounting
  import opened Contents
  import opened Invariant
  import opened Persistence
  import opened NextFs
  import opened Namespace
  import opened Options

  lemma {:induction false} WalkStuck(a: Nodes, p: seq<Name>, i: nat)
    requires i <= |p| && Walk(a, p[..i]).None?
    ensures Walk(a, p).None?
    decreases |p|
  {
    if i < |p| {
      assert p[..|p| - 1][..i] == p[..i];
      WalkStuck(a, p[..|p| - 1], i);
    } else {
      assert p[..i] == p;
    }
  }

  /** The walk along `p` comes as far as component `i`, and no further. */
  predicate StopsAt(a: Nodes, p: seq<Name>, i: nat) {
    i < |p| && Walk(a, p[..i]).Some? && Walk(a, p[..i + 1]).None?
  }

  lemma StopsOnce(a: Nodes, p: seq<Name>, i: nat)
    requires StopsAt(a, p, i)
    ensures forall j: nat :: StopsAt(a, p, j) ==> j == i
  {
    forall j: nat | StopsAt(a, p, j) ensures j == i {
      if i < j { assert p[..j][..i + 1] == p[..i + 1]; WalkStuck(a, p[..j], i + 1); }
      if j < i { assert p[..i][..j + 1] == p[..j + 1]; WalkStuck(a, p[..i], j + 1); }
    }
  }

  /** A path that leads nowhere because a directory on the way does not have the next name. */
  ghost predicate Missing(a: Nodes, path: seq<byte>) {
    path == [] || exists i: nat :: StopsAt(a, Components(path), i) && IsDir(a, Walk(a, Components(path)[..i]).value)
  }

  lemma WalkGoesOn(a: Nodes, p: seq<Name>, i: nat)
    requires Walk(a, p).Some? && i <= |p|
    ensures Walk(a, p[..i]).Some?
  {
    if Walk(a, p[..i]).None? { WalkStuck(a, p, i); }
  }

  lemma LeadsNotMissing(a: Nodes, path: seq<byte>)
    requires path != [] && Walk(a, Components(path)).Some?
    ensures !Missing(a, path)
  {
    var p := Components(path);
    forall i: nat ensures !StopsAt(a, p, i) {
      if i < |p| { WalkGoesOn(a, p, i + 1); }
    }
  }

  method Resolve(fs: NextFS, path: seq<byte>) returns (r: Result<u32>)
    requires fs.Valid()
    ensures r.Ok? <==> path != [] && Walk(fs.Abs(), Components(path)).Some?
    ensures r.Ok? ==> r.value != 0 && Walk(fs.Abs(), Components(path)) == Some(r.value as nat)
    ensures r.Err? ==> r.error in {NotFound, InvalidInode, NotDirectory}
    ensures r == Err(NotFound) <==> Missing(fs.Abs(), path)
  {
    hide Sound, Table, Geometry, NodesOf, Pieces;
    if path == [] {
      return Err(NotFound);
    }
    var parts := Components(path);
    var current: u32 := ROOT_INODE;
    for i := 0 to |parts|
      invariant current != 0 && Walk(fs.Abs(), parts[..i]) == Some(current as nat)
    {
      assert parts[..i + 1][..i] == parts[..i];
      NodeKinds(fs.View(), Table(fs.View()), fs.owner, current);
      r := fs.DirLookup(current, parts[i]);
      if r.Err? {
        WalkStuck(fs.Abs(), parts, i + 1);
        assert StopsAt(fs.Abs(), parts, i);
        StopsOnce(fs.Abs(), parts, i);
        return;
      }
      current := r.value;
    }
    assert parts[..|parts|] == parts;
    LeadsNotMissing(fs.Abs(), path);
    return Ok(current);
  }

  /** Where `split_path` says an operation takes place. */
  ghost predicate At(a: Nodes, path: seq<byte>, dir: nat) { Walk(a, Components(ParentPath(path))) == Some(dir) }

  ghost predicate MakesFile(a: Nodes, path: seq<byte>, n: nat, a': Nodes) {
    exists dir :: At(a, path, dir) && CreatesFile(a, dir, Stored(BaseName(path)), n, a')
  }

  ghost predicate MakesDir(a: Nodes, path: seq<byte>, n: nat, a': Nodes) {
    exists dir :: At(a, path, dir) && CreatesDir(a, dir, Stored(BaseName(path)), n, a')
  }

  predicate Leads(a: Nodes, path: seq<byte>) { path != [] && Walk(a, Components(path)).Some? }

  /** The new name, cut at a NUL, is one the directory has already. */
  ghost predicate Doubles(a: Nodes, path: seq<byte>) {
    var d := DirOf(a, path);
    d.Some? && Stored(BaseName(path)) in Dirents(a, d.value)
  }

  /** The directory a path's last name is looked up in. */
  ghost function DirOf(a: Nodes, path: seq<byte>): Option<nat> { Walk(a, Components(ParentPath(path))) }

  /** What a mounted file system holds, as files and directories. */
  ghost function NodesIn(v: Fs): Nodes
    requires Geometry(v)
  {
    NodesOf(Table(v), v.disk)
  }

  ghost predicate ReadableBy(v: Fs, n: nat, who: Credentials)
    requires Geometry(v)
  {
    n < v.sb.inodeCount && MayRead(Table(v)[n], who)
  }

  ghost predicate WritableBy(v: Fs, n: nat, who: Credentials)
    requires Geometry(v)
  {
    n < v.sb.inodeCount && MayWrite(Table(v)[n], who)
  }

  /** `mkdir` will succeed. */
  ghost predicate CanMkdir(v: Fs, who: Credentials, path: seq<byte>)
    requires Geometry(v)
  {
    var d := DirOf(NodesIn(v), path);
    d.Some? && WritableBy(v, d.value, who) && TakesDir(v, d.value, BaseName(path))
  }

  /** A file can be created where the path says. */
  ghost predicate CanMakeFile(v: Fs, who: Credentials, path: seq<byte>)
    requires Geometry(v)
  {
    var d := DirOf(NodesIn(v), path);
    d.Some? && WritableBy(v, d.value, who) && TakesFile(v, d.value, BaseName(path))
  }

  /** There is no directory for the new name in which `who` may write. */
  ghost predicate KeptOut(v: Fs, who: Credentials, path: seq<byte>)
    requires Geometry(v)
  {
    var d := DirOf(NodesIn(v), path);
    d.None? || !WritableBy(v, d.value, who)
  }

  /** Inode `n` was set to `ino`, and stamped with some time. */
  predicate SetAt(t: seq<Inode>, t': seq<Inode>, n: nat, ino: Inode) {
    n < |t| == |t'| && t' == t[n := ino.(mtime := t'[n].mtime)]
  }

  function OwnedBy(ino: Inode, who: Credentials): Inode { ino.(uid := who.uid, gid := who.gid) }

  lemma NewOwned(t: seq<Inode>, t1: seq<Inode>, t2: seq<Inode>, n: nat, ino: Inode, who: Credentials)
    requires NewIn(t, t1, n, ino) && SetAt(t1, t2, n, OwnedBy(t1[n], who))
    ensures NewIn(t, t2, n, OwnedBy(ino, who))
  {}

  /** After a creation, the path used for it leads to the new node, if its last name can be stored. */
  lemma MadeAtPath(a: Nodes, path: seq<byte>, n: nat, a': Nodes)
    requires MakesFile(a, path, n, a') || MakesDir(a, path, n, a')
    requires BaseName(path) != [] && Storable(BaseName(path))
    ensures Walk(a', Components(path)) == Some(n)
    ensures Walk(a, Components(path)) == None
  {
    hide Components, LastSlash, ParentPath, BaseName, Stored;
    var q, name := Components(ParentPath(path)), BaseName(path);
    StoredIff(name);
    var dir := Walk(a, q).value;
    assert CreatesFile(a, dir, name, n, a') || CreatesDir(a, dir, name, n, a');
    CreationKeepsPaths(a, dir, name, n, a', q);
    SplitComponents(path);
    assert Components(path) == q + [name];
    assert (q + [name])[..|q|] == q;
    assert name in Dirents(a', dir) && Dirents(a', dir)[name] == n && name !in Dirents(a, dir);
  }

  lemma ParentPathLeads(path: seq<byte>)
    ensures ParentPath(path) != []
  {}

  /** The part of `open` for a node that does not exist. */
  method MakeFileAt(fs: NextFS, who: Credentials, path: seq<byte>) returns (r: Result<u32>)
    requires fs.Valid() && Tree(fs.Abs())
    modifies fs
    ensures r.Ok? <==> old(CanMakeFile(fs.View(), who, path))
    ensures fs.Valid() <==>
      || old(KeptOut(fs.View(), who, path))
      || if r.Ok? then !Doubles(old(fs.Abs()), path) else old(fs.sb.freeInodes) == 1
    ensures r.Err? && fs.Valid() ==> fs.View() == old(fs.View())
    ensures r.Err? && r.error in {NotFound, NotFile} ==> fs.Valid()
    ensures r.Ok? && NulFree(BaseName(path)) ==> fs.Valid()
    ensures r.Ok? ==>
      && r.value > 0 && Geometry(fs.View())
      && NewIn(old(Table(fs.View())), Table(fs.View()), r.value, OwnedBy(NEW_FILE, who))
    ensures r.Ok? && fs.Valid() ==> MakesFile(old(fs.Abs()), path, r.value, fs.Abs())
  {
    hide Sound, Table, Geometry, NodesOf, Pieces, Tree, CreatesFile, BaseName, Stored, NulFree, Walk, Components,
      ParentPath, IsDir, Dirents, TakesFile, NewIn, MayRead, MayWrite;
    ParentPathLeads(path);
    ghost var t := Table(fs.View());
    var parent := Resolve(fs, ParentPath(path));
    if parent.Err? {
      return parent;
    }
    ParentLive(fs, path, parent.value);
    var may := fs.CheckPermission(parent.value, who, MAY_WRITE);
    if may.Err? {
      return Err(may.error);
    }
    assert At(fs.Abs(), path, parent.value);
    r := fs.CreateFile(parent.value, BaseName(path));
    if r.Ok? {
      ghost var t1 := Table(fs.View());
      BornLive(t, t1, r.value, NEW_FILE);
      var c := fs.ChangeOwner(r.value, who);
      NewOwned(t, t1, Table(fs.View()), r.value, NEW_FILE, who);
    }
  }

  lemma BornLive(t: seq<Inode>, t': seq<Inode>, n: nat, ino: Inode)
    requires NewIn(t, t', n, ino) && ino.kind != FREE
    ensures n < |t'| && t'[n].kind != FREE
  {}

  /** In a tree a resolved directory is live. */
  lemma ParentLive(fs: NextFS, path: seq<byte>, n: nat)
    requires fs.Valid() && Tree(fs.Abs()) && DirOf(fs.Abs(), path) == Some(n)
    ensures 0 < n < fs.sb.inodeCount && fs.Ino(n).kind != FREE
  {
    hide Sound, Table, Geometry, NodesOf, Tree, Walk, Components, ParentPath;
    WalkLive(fs.Abs(), Components(ParentPath(path)));
    NodeKinds(fs.View(), Table(fs.View()), fs.owner, n);
    SoundInodes(fs.View(), Table(fs.View()), fs.owner);
  }

  /** If `n` is a file, cutting it to nothing is right. */
  ghost predicate EmptiesRight(v: Fs, n: nat)
    requires Geometry(v)
  {
    IsFile(NodesIn(v), n) ==> n < v.sb.inodeCount && CutsRight(v.disk, Table(v)[n], 0)
  }

  /** The part of `open` for a node that exists. */
  method OpenFound(fs: NextFS, n: u32, truncate: bool) returns (r: Result<u32>)
    requires fs.Valid() && n as nat in fs.Abs()
    modifies fs
    ensures fs.Valid() <==> (truncate ==> old(EmptiesRight(fs.View(), n)))
    ensures r.Ok? <==> (truncate ==> IsFile(old(fs.Abs()), n))
    ensures r.Err? ==> fs.View() == old(fs.View())
    ensures r.Ok? ==> r.value == n && Geometry(fs.View()) && SameRightsAt(old(fs.View()), fs.View(), n)
    ensures r.Ok? && fs.Valid() ==>
      if truncate then ResizesFile(old(fs.Abs()), n, 0, fs.Abs()) else fs.View() == old(fs.View())
  {
    hide Sound, Table, Geometry, NodesOf, Strands, Leaks, Shaped, CutsRight, ByteAt, RightsKept;
    NodeKinds(fs.View(), Table(fs.View()), fs.owner, n);
    RightsStay(Table(fs.View()));
    if truncate {
      CutFile(fs.Ino(n), 0);
      var t := fs.Truncate(n, 0);
      if t.Err? {
        return Err(t.error);
      }
    }
    return Ok(n);
  }

  /** All rights are as they were, and `n` is still a live inode. */
  ghost predicate SameRightsAt(v: Fs, v': Fs, n: nat)
    requires Geometry(v) && Geometry(v')
  {
    && RightsKept(Table(v), Table(v'))
    && 0 < n < v.sb.inodeCount == v'.sb.inodeCount && Table(v')[n].kind != FREE && SameFile(Table(v')[n], Table(v)[n])
  }

  datatype Flags = Flags(create: bool, truncate: bool, read: bool, write: bool) {
    function Want(): u16 { (if read then MAY_READ else 0) + if write then MAY_WRITE else 0 }
    predicate Cuts() { create && truncate }
  }

  /** `open` will succeed. */
  ghost predicate CanOpen(v: Fs, who: Credentials, path: seq<byte>, flags: Flags)
    requires Geometry(v)
  {
    var a := NodesIn(v);
    if Leads(a, path) then
      var n := Walk(a, Components(path)).value;
      && (flags.create && flags.truncate ==> IsFile(a, n))
      && (flags.read ==> ReadableBy(v, n, who)) && (flags.write ==> WritableBy(v, n, who))
    else
      flags.create && Missing(a, path) && CanMakeFile(v, who, path)
  }

  /** `open` will leave a sound file system. */
  ghost predicate SoundAfterOpen(v: Fs, who: Credentials, path: seq<byte>, flags: Flags)
    requires Geometry(v)
  {
    var a := NodesIn(v);
    if Leads(a, path) then
      flags.Cuts() ==> EmptiesRight(v, Walk(a, Components(path)).value)
    else
      || !flags.create || !Missing(a, path) || KeptOut(v, who, path)
      || if CanMakeFile(v, who, path) then !Doubles(a, path) else v.sb.freeInodes == 1
  }

  ghost predicate OpensFile(a: Nodes, path: seq<byte>, cut: bool, n: nat, a': Nodes) {
    if Leads(a, path) then
      n == Walk(a, Components(path)).value && if cut then ResizesFile(a, n, 0, a') else a' == a
    else MakesFile(a, path, n, a')
  }

  /** `open` gives an inode: one that exists, perhaps emptied first, or a new one. */
  method Open(fs: NextFS, who: Credentials, path: seq<byte>, flags: Flags) returns (r: Result<u32>)
    requires fs.Valid() && Tree(fs.Abs())
    modifies fs
    ensures r.Ok? <==> old(CanOpen(fs.View(), who, path, flags))
    ensures fs.Valid() <==> old(SoundAfterOpen(fs.View(), who, path, flags))
    ensures r.Ok? && !Leads(old(fs.Abs()), path) && NulFree(BaseName(path)) ==> fs.Valid()
    ensures r.Ok? && fs.Valid() ==> OpensFile(old(fs.Abs()), path, flags.Cuts(), r.value, fs.Abs())
    ensures r.Err? && fs.Valid() ==> RefusedOpen(old(fs.View()), path, flags, fs.View())
    ensures fs.Valid() ==>
      if r.Ok? && !Leads(old(fs.Abs()), path)
      then NewIn(old(Table(fs.View())), Table(fs.View()), r.value, OwnedBy(NEW_FILE, who))
      else RightsKept(old(Table(fs.View())), Table(fs.View()))
  {
    hide Sound, Table, Geometry, NodesOf, Pieces, Tree, LastSlash, Stored, NulFree, Walk, Components, ParentPath,
      BaseName, IsDir, Dirents, Missing, Doubles, CreatesFile, ResizesFile, MayRead, MayWrite, NewIn, RightsKept,
        CutsRight,
      TakesFile, MakesFile;
    RightsStay(Table(fs.View()));
    var found := Resolve(fs, path);
    if found.Ok? {
      WalkLive(fs.Abs(), Components(path));
      NodeKinds(fs.View(), Table(fs.View()), fs.owner, found.value);
      r := OpenFound(fs, found.value, flags.Cuts());
    } else if flags.create && found.error == NotFound {
      r := MakeFileAt(fs, who, path);
      if r.Ok? { BornLive(old(Table(fs.View())), Table(fs.View()), r.value, OwnedBy(NEW_FILE, who)); }
    } else {
      return found;
    }
    if r.Err? {
      return;
    }
    var want := flags.Want();
    if want != 0 {
      RightsSame(old(fs.View()), fs.View(), who, r.value);
      var may := fs.CheckPermission(r.value, who, want);
      if may.Err? {
        return Err(may.error);
      }
    }
  }

  /** What an `open` that is refused leaves: it has emptied the file if that was asked for, and else nothing changed. */
  ghost predicate RefusedOpen(v: Fs, path: seq<byte>, flags: Flags, v': Fs)
    requires Geometry(v) && Geometry(v')
  {
    var a := NodesIn(v);
    if Leads(a, path) && flags.Cuts() && IsFile(a, Walk(a, Components(path)).value)
    then ResizesFile(a, Walk(a, Components(path)).value, 0, NodesIn(v'))
    else v' == v
  }

  /** Rights that stay permit what they did, and a file that one has just made may be read and written. */
  lemma RightsSame(v: Fs, v': Fs, who: Credentials, n: nat)
    requires Geometry(v) && Geometry(v')
    ensures 0 < n < v.sb.inodeCount && SameRightsAt(v, v', n) ==>
      && (ReadableBy(v', n, who) <==> ReadableBy(v, n, who)) && (WritableBy(v', n, who) <==> WritableBy(v, n, who))
    ensures NewIn(Table(v), Table(v'), n, OwnedBy(NEW_FILE, who)) ==> ReadableBy(v', n, who) && WritableBy(v', n, who)
  {
    hide Table, Geometry, RightsKept;
  }

  method Mkdir(fs: NextFS, who: Credentials, path: seq<byte>) returns (r: Result<u32>)
    requires fs.Valid() && Tree(fs.Abs())
    modifies fs
    ensures r.Ok? <==> old(CanMkdir(fs.View(), who, path))
    ensures fs.Valid() <==>
      || old(KeptOut(fs.View(), who, path))
      || if r.Ok? then !Doubles(old(fs.Abs()), path) else old(fs.sb.freeInodes) == 1
    ensures r.Err? && fs.Valid() ==> fs.View() == old(fs.View())
    ensures r.Err? && r.error in {NotFound, NotFile} ==> fs.Valid()
    ensures r.Ok? && NulFree(BaseName(path)) ==> fs.Valid()
    ensures r.Ok? ==>
      && r.value > 0 && Geometry(fs.View())
      && NewIn(old(Table(fs.View())), Table(fs.View()), r.value, OwnedBy(NEW_DIR, who))
    ensures r.Ok? && fs.Valid() ==> MakesDir(old(fs.Abs()), path, r.value, fs.Abs())
  {
    hide Sound, Table, Geometry, NodesOf, Pieces, Tree, LastSlash, CreatesDir, BaseName, Stored, NulFree;
    hide Walk, Components, ParentPath, CreatesLoop, IsDir, Dirents, TakesDir, NewIn, MayRead, MayWrite;
    ParentPathLeads(path);
    ghost var t := Table(fs.View());
    var parent := Resolve(fs, ParentPath(path));
    if parent.Err? {
      return parent;
    }
    WalkLive(fs.Abs(), Components(ParentPath(path)));
    ParentLive(fs, path, parent.value);
    var may := fs.CheckPermission(parent.value, who, MAY_WRITE);
    if may.Err? {
      return Err(may.error);
    }
    assert At(fs.Abs(), path, parent.value);
    r := fs.CreateDir(parent.value, BaseName(path));
    if r.Ok? {
      ghost var t1 := Table(fs.View());
      BornLive(t, t1, r.value, NEW_DIR);
      var c := fs.ChangeOwner(r.value, who);
      NewOwned(t, t1, Table(fs.View()), r.value, NEW_DIR, who);
    }
  }

  /** In a tree the entries of every directory on a path are of live inodes. */
  lemma EntriesLive(a: Nodes, p: seq<Name>, name: Name)
    requires Tree(a) && Walk(a, p).Some? && name in Dirents(a, Walk(a, p).value)
    ensures Dirents(a, Walk(a, p).value)[name] in a
  {
    hide Tree;
    assert (p + [name])[..|p|] == p;
    WalkLive(a, p + [name]);
  }

  /** `unlink` will succeed. */
  ghost predicate CanUnlink(v: Fs, who: Credentials, path: seq<byte>)
    requires Geometry(v)
  {
    var d := DirOf(NodesIn(v), path);
    d.Some? && WritableBy(v, d.value, who) && HasFile(NodesIn(v), d.value, BaseName(path))
  }

  method UnlinkPath(fs: NextFS, who: Credentials, path: seq<byte>) returns (r: Result<()>)
    requires fs.Valid() && Tree(fs.Abs())
    modifies fs
    ensures fs.Valid()
    ensures r.Err? ==> fs.Abs() == old(fs.Abs())
    ensures r.Ok? <==> old(CanUnlink(fs.View(), who, path))
    ensures r.Ok? ==>
        exists dir :: At(old(fs.Abs()), path, dir) && RemovesFile(old(fs.Abs()), dir, BaseName(path), fs.Abs())
    ensures RightsKept(old(Table(fs.View())), Table(fs.View()))
  {
    hide Sound, Table, Geometry, NodesOf, Pieces, RemovesFile, HasFile, BaseName, Walk, Components, Tree, MayRead,
      MayWrite, RightsKept;
    RightsStay(Table(fs.View()));
    var parent := Resolve(fs, ParentPath(path));
    if parent.Err? {
      return Err(parent.error);
    }
    ParentLive(fs, path, parent.value);
    var may := fs.CheckPermission(parent.value, who, MAY_WRITE);
    if may.Err? {
      return Err(may.error);
    }
    if BaseName(path) in Dirents(fs.Abs(), parent.value) {
      EntriesLive(fs.Abs(), Components(ParentPath(path)), BaseName(path));
    }
    assert At(fs.Abs(), path, parent.value);
    r := fs.Unlink(parent.value, BaseName(path));
  }

  /** `rmdir` will succeed. */
  ghost predicate CanRmdir(v: Fs, who: Credentials, path: seq<byte>)
    requires Geometry(v)
  {
    var d := DirOf(NodesIn(v), path);
    d.Some? && WritableBy(v, d.value, who) && HasBareDir(NodesIn(v), d.value, BaseName(path))
  }

  method RmdirPath(fs: NextFS, who: Credentials, path: seq<byte>) returns (r: Result<()>)
    requires fs.Valid() && Tree(fs.Abs())
    modifies fs
    ensures fs.Valid()
    ensures r.Err? ==> fs.View() == old(fs.View())
    ensures r.Ok? <==> old(CanRmdir(fs.View(), who, path))
    ensures r.Ok? ==>
        exists dir :: At(old(fs.Abs()), path, dir) && RemovesDir(old(fs.Abs()), dir, BaseName(path), fs.Abs())
    ensures RightsKept(old(Table(fs.View())), Table(fs.View()))
  {
    hide Sound, Table, Geometry, NodesOf, Pieces, RemovesDir, HasBareDir, BaseName, Walk, Components, Tree, MayRead,
      MayWrite, RightsKept;
    RightsStay(Table(fs.View()));
    var parent := Resolve(fs, ParentPath(path));
    if parent.Err? {
      return Err(parent.error);
    }
    ParentLive(fs, path, parent.value);
    var may := fs.CheckPermission(parent.value, who, MAY_WRITE);
    if may.Err? {
      return Err(may.error);
    }
    assert At(fs.Abs(), path, parent.value);
    r := fs.Rmdir(parent.value, BaseName(path));
  }

  /** The node a path leads to exists in the table. */
  ghost predicate Found(v: Fs, path: seq<byte>)
    requires Geometry(v)
  {
    Leads(NodesIn(v), path) && Walk(NodesIn(v), Components(path)).value < v.sb.inodeCount
  }

  /** The stored inode that a path leads to. */
  ghost function FoundInode(v: Fs, path: seq<byte>): Inode
    requires Geometry(v) && Found(v, path)
  {
    Table(v)[Walk(NodesIn(v), Components(path)).value]
  }

  /** `truncate` of a path will succeed. */
  ghost predicate CanResize(v: Fs, who: Credentials, path: seq<byte>, size: u64)
    requires Geometry(v)
  {
    && Found(v, path) && FoundInode(v, path).kind == FILE && MayWrite(FoundInode(v, path), who)
    && !(ShrinksIndirect(FoundInode(v, path), size) && LastIndex(FoundInode(v, path).size) >= MAX_BLOCKS)
  }

  method TruncatePath(fs: NextFS, who: Credentials, path: seq<byte>, size: u64) returns (r: Result<()>)
    requires fs.Valid() && Tree(fs.Abs())
    modifies fs
    ensures r.Ok? <==> old(CanResize(fs.View(), who, path, size))
    ensures r.Err? && r.error != Panic ==> fs.View() == old(fs.View()) && fs.Valid()
    ensures r == Err(Panic) ==>
      && old(Found(fs.View(), path)) && old(FoundInode(fs.View(), path)).kind == FILE
      && old(MayWrite(FoundInode(fs.View(), path), who))
    ensures r.Ok? ==>
      (fs.Valid() <==> CutsRight(old(fs.disk), old(FoundInode(fs.View(), path)), size))
    ensures r.Ok? && fs.Valid() ==>
      && RightsKept(old(Table(fs.View())), Table(fs.View()))
      && ((size < old(FoundInode(fs.View(), path)).size ==> old(FoundInode(fs.View(), path)).size <= CUT_LIMIT) ==>
            ResizesFile(old(fs.Abs()), Walk(old(fs.Abs()), Components(path)).value, size, fs.Abs()))
  {
    hide Sound, NodesOf, Pieces, Tree, Strands, ResizesFile, InodeAt, BitmapBlocks, TableBlocks, CutsRight, Cut, Leaks,
      Accounted, MayRead, MayWrite, RightsKept, Walk, Components, Table, Geometry, ByteAt;
    var n := Resolve(fs, path);
    if n.Err? {
      return Err(n.error);
    }
    WalkLive(fs.Abs(), Components(path));
    NodeKinds(fs.View(), Table(fs.View()), fs.owner, n.value);
    var may := fs.CheckPermission(n.value, who, MAY_WRITE);
    if may.Err? {
      return Err(may.error);
    }
    r := fs.Truncate(n.value, size);
  }

  /** Only the owner and user 0 may change the mode of a node. */
  ghost predicate CanChmod(v: Fs, who: Credentials, path: seq<byte>)
    requires Geometry(v)
  {
    Found(v, path) && (who.uid == 0 || who.uid == FoundInode(v, path).uid)
  }

  /** In the table just the inode that the path leads to changed: it got this mode. */
  ghost predicate ModeSet(v: Fs, path: seq<byte>, v': Fs, mode: u16)
    requires Geometry(v) && Geometry(v')
  {
    && Found(v, path)
    && SetAt(Table(v), Table(v'), Walk(NodesIn(v), Components(path)).value,
         FoundInode(v, path).(mode := mode % 512))
  }

  ghost predicate OwnerSet(v: Fs, path: seq<byte>, v': Fs, to: Credentials)
    requires Geometry(v) && Geometry(v')
  {
    && Found(v, path)
    && SetAt(Table(v), Table(v'), Walk(NodesIn(v), Components(path)).value, OwnedBy(FoundInode(v, path), to))
  }

  method Chmod(fs: NextFS, who: Credentials, path: seq<byte>, mode: u16) returns (r: Result<()>)
    requires fs.Valid() && Tree(fs.Abs())
    modifies fs
    ensures fs.Valid() && fs.Abs() == old(fs.Abs())
    ensures r.Ok? <==> old(CanChmod(fs.View(), who, path))
    ensures if r.Ok? then ModeSet(old(fs.View()), path, fs.View(), mode) else fs.View() == old(fs.View())
  {
    hide Sound, NodesOf, Pieces, Tree, InodeAt, BitmapBlocks, TableBlocks, Walk, Components, Table, Geometry;
    var n := Resolve(fs, path);
    if n.Err? {
      return Err(n.error);
    }
    WalkLive(fs.Abs(), Components(path));
    NodeKinds(fs.View(), Table(fs.View()), fs.owner, n.value);
    var i := fs.ReadInode(n.value);
    if who.uid != 0 && who.uid != i.value.uid {
      return Err(PermissionDenied);
    }
    r := fs.ChangeMode(n.value, mode);
  }

  /** Only user 0 may give a node away. */
  method Chown(fs: NextFS, who: Credentials, path: seq<byte>, to: Credentials) returns (r: Result<()>)
    requires fs.Valid() && Tree(fs.Abs())
    modifies fs
    ensures fs.Valid() && fs.Abs() == old(fs.Abs())
    ensures r.Ok? <==> old(Found(fs.View(), path)) && who.uid == 0
    ensures if r.Ok? then OwnerSet(old(fs.View()), path, fs.View(), to) else fs.View() == old(fs.View())
  {
    hide Sound, NodesOf, Pieces, Tree, InodeAt, BitmapBlocks, TableBlocks, Walk, Components, Table, Geometry;
    var n := Resolve(fs, path);
    if n.Err? {
      return Err(n.error);
    }
    if who.uid != 0 {
      return Err(PermissionDenied);
    }
    WalkLive(fs.Abs(), Components(path));
    NodeKinds(fs.View(), Table(fs.View()), fs.owner, n.value);
    r := fs.ChangeOwner(n.value, to);
  }

  // ---------------------------------------------------------------- whole runs

  /** The operations of tasks with their credentials; a write goes through a descriptor opened before. */
  datatype Op =
    | OpenAt(who: Credentials, path: seq<byte>, flags: Flags) | MakeDirectory(who: Credentials, path: seq<byte>)
    | Remove(who: Credentials, path: seq<byte>) | RemoveDirectory(who: Credentials, path: seq<byte>)
    | Write(path: seq<byte>, pos: u64, data: seq<byte>) | Replace(path: seq<byte>, data: seq<byte>)
    | Resize(who: Credentials, path: seq<byte>, size: u64)
    | SetMode(who: Credentials, path: seq<byte>, mode: u16)
    | SetOwner(who: Credentials, path: seq<byte>, to: Credentials)

  /** Sizes are 64-bit numbers. */
  predicate Sane(op: Op) {
    && (op.Write? ==> op.pos + |op.data| < 0x1_0000_0000_0000_0000)
    && (op.Replace? ==> |op.data| < 0x1_0000_0000_0000_0000)
  }

  /** What an operation does to the tree when it succeeds. */
  ghost predicate Effect(op: Op, a: Nodes, a': Nodes) {
    match op
    case OpenAt(_, path, flags) => exists n :: OpensFile(a, path, flags.Cuts(), n, a')
    case MakeDirectory(_, path) => exists n :: MakesDir(a, path, n, a')
    case Remove(_, path) => exists dir :: At(a, path, dir) && RemovesFile(a, dir, BaseName(path), a')
    case RemoveDirectory(_, path) => exists dir :: At(a, path, dir) && RemovesDir(a, dir, BaseName(path), a')
    case Write(path, pos, data) => Leads(a, path) && WritesFile(a, Walk(a, Components(path)).value, pos, data, a')
    case Replace(path, data) =>
      Leads(a, path) && var n := Walk(a, Components(path)).value; IsFile(a, n) && a' == a[n := File(data)]
    case Resize(_, path, size) => Leads(a, path) && ResizesFile(a, Walk(a, Components(path)).value, size, a')
    case SetMode(_, _, _) => a' == a
    case SetOwner(_, _, _) => a' == a
  }

  /** What it does to the kinds, modes and owners of the inodes. */
  ghost predicate RightsEffect(op: Op, v: Fs, v': Fs)
    requires Geometry(v) && Geometry(v')
  {
    var t, t' := Table(v), Table(v');
    match op
    case OpenAt(who, path, _) =>
      if Leads(NodesIn(v), path) then RightsKept(t, t') else exists n :: NewIn(t, t', n, OwnedBy(NEW_FILE, who))
    case MakeDirectory(who, _) => exists n :: NewIn(t, t', n, OwnedBy(NEW_DIR, who))
    case SetMode(_, path, mode) => ModeSet(v, path, v', mode)
    case SetOwner(_, path, to) => OwnerSet(v, path, v', to)
    case _ => RightsKept(t, t')
  }

  lemma EffectKeepsTree(op: Op, a: Nodes, a': Nodes)
    requires Tree(a) && Effect(op, a, a')
    ensures Tree(a')
  {
    hide Tree, Walk, Components, ParentPath, BaseName, CreatesFile, CreatesDir, RemovesFile, RemovesDir;
    match op
    case OpenAt(_, path, flags) =>
      var n :| OpensFile(a, path, flags.Cuts(), n, a');
      OpenKeepsTree(a, path, flags.Cuts(), n, a');
    case MakeDirectory(_, path) =>
      var n :| MakesDir(a, path, n, a');
      var dir :| At(a, path, dir) && CreatesDir(a, dir, Stored(BaseName(path)), n, a');
      CreationKeepsTree(a, dir, Stored(BaseName(path)), n, a');
    case Remove(_, path) =>
      var dir :| At(a, path, dir) && RemovesFile(a, dir, BaseName(path), a');
      RemovalKeepsTree(a, dir, BaseName(path), a');
    case RemoveDirectory(_, path) =>
      var dir :| At(a, path, dir) && RemovesDir(a, dir, BaseName(path), a');
      RemovalKeepsTree(a, dir, BaseName(path), a');
    case SetMode(_, _, _) =>
    case SetOwner(_, _, _) =>
    case _ =>
      RefillKeepsTree(a, Walk(a, Components(op.path)).value, a');
  }

  lemma OpenKeepsTree(a: Nodes, path: seq<byte>, cut: bool, n: nat, a': Nodes)
    requires Tree(a) && OpensFile(a, path, cut, n, a')
    ensures Tree(a')
  {
    hide Tree, Walk, Components, ParentPath, BaseName, CreatesFile, IsFile;
    if MakesFile(a, path, n, a') {
      var dir :| At(a, path, dir) && CreatesFile(a, dir, Stored(BaseName(path)), n, a');
      CreationKeepsTree(a, dir, Stored(BaseName(path)), n, a');
    } else if cut {
      RefillKeepsTree(a, n, a');
    }
  }

  lemma RefillKeepsTree(a: Nodes, n: nat, a': Nodes)
    requires Tree(a) && n in a && a[n].File? && n in a' && a'[n].File? && a' == a[n := a'[n]]
    ensures Tree(a')
  {
    hide Tree;
    RefillsKeeps(a, n, a');
  }

  /** Raw writes into a directory, and cuts that are not right or that lose bytes below the new end. */
  predicate Beyond(op: Op, disk: seq<Block>, ino: Inode) {
    match op
    case Write(_, _, _) => ino.kind == DIR
    case Replace(_, _) => ino.kind == FILE && !CutsRight(disk, ino, 0)
    case Resize(_, _, size) => ino.kind == FILE
      && (!CutsRight(disk, ino, size) || (size < ino.size && ino.size > CUT_LIMIT))
    case OpenAt(_, _, flags) => flags.Cuts() && ino.kind == FILE && !CutsRight(disk, ino, 0)
    case _ => false
  }

  /** Of files up to 2^41 bytes only a cut that strands pointers is beyond, of directories only a raw write. */
  lemma BeyondIff(op: Op, disk: seq<Block>, ino: Inode)
    requires Shaped(disk, ino) && ino.kind in {FILE, DIR} && ino.size <= CUT_LIMIT
    ensures Beyond(op, disk, ino) <==>
      if ino.kind == FILE then op.Resize? && Strands(disk, ino, op.size) else op.Write?
  {
    hide Shaped, Strands, CutsRight;
    NeverStrandsToZero(disk, ino);
    CutsRightIff(disk, ino, 0);
    if op.Resize? { CutsRightIff(disk, ino, op.size); }
  }

  predicate Creates(op: Op) { (op.OpenAt? && op.flags.create) || op.MakeDirectory? }

  /** `op` is one that the model follows: it meets no file it is beyond, and stores no name twice. */
  ghost predicate Followed(v: Fs, op: Op)
    requires Geometry(v)
  {
    && Sane(op)
    && (Creates(op) && !NulFree(BaseName(op.path)) ==> !Doubles(NodesIn(v), op.path))
    && (Found(v, op.path) ==> !Beyond(op, v.disk, FoundInode(v, op.path)))
  }

  /** `op` will succeed. */
  ghost predicate Able(v: Fs, op: Op)
    requires Geometry(v)
  {
    match op
    case OpenAt(who, path, flags) => CanOpen(v, who, path, flags)
    case MakeDirectory(who, path) => CanMkdir(v, who, path)
    case Remove(who, path) => CanUnlink(v, who, path)
    case RemoveDirectory(who, path) => CanRmdir(v, who, path)
    case Write(path, pos, data) =>
      Found(v, path) && Fits(v.disk, FoundInode(v, path), v.sb.freeBlocks, Base(pos), |data|)
    case Replace(path, data) =>
      && Found(v, path) && FoundInode(v, path).kind == FILE
      && Replaceable(v.disk, FoundInode(v, path), v.sb.freeBlocks, |data|)
    case Resize(who, path, size) => CanResize(v, who, path, size)
    case SetMode(who, path, _) => CanChmod(v, who, path)
    case SetOwner(who, path, _) => Found(v, path) && who.uid == 0
  }

  /** Should `op` fail, the file system stays sound. */
  ghost predicate Safe(v: Fs, op: Op)
    requires Geometry(v)
  {
    match op
    case OpenAt(who, path, flags) =>
      || Leads(NodesIn(v), path) || !flags.create || !Missing(NodesIn(v), path)
      || KeptOut(v, who, path) || v.sb.freeInodes == 1
    case MakeDirectory(who, path) => KeptOut(v, who, path) || v.sb.freeInodes == 1
    case Write(path, pos, data) =>
      Found(v, path) ==> !Spoils(v.disk, FoundInode(v, path), v.sb.freeBlocks, Base(pos), |data|)
    case Replace(path, _) => Found(v, path) ==> FoundInode(v, path).kind != FILE
    case Resize(who, path, _) =>
      Found(v, path) ==> FoundInode(v, path).kind != FILE || !MayWrite(FoundInode(v, path), who)
    case _ => true
  }

  /** What such a failure leaves. */
  ghost predicate Refusal(op: Op, v: Fs, v': Fs)
    requires Geometry(v) && Geometry(v')
  {
    match op
    case OpenAt(_, path, flags) => RefusedOpen(v, path, flags, v')
    case Remove(_, _) => NodesIn(v') == NodesIn(v)
    case Write(path, pos, data) =>
      if Leads(NodesIn(v), path)
      then WritesPart(NodesIn(v), Walk(NodesIn(v), Components(path)).value, Base(pos), data, NodesIn(v'))
      else v' == v
    case _ => v' == v
  }

  lemma RefusalKeepsTree(op: Op, v: Fs, v': Fs)
    requires Geometry(v) && Geometry(v') && Tree(NodesIn(v)) && Refusal(op, v, v')
    ensures Tree(NodesIn(v'))
  {
    hide Tree, Walk, Components, Table, Geometry, NodesOf;
    if NodesIn(v') != NodesIn(v) {
      RefillKeepsTree(NodesIn(v), Walk(NodesIn(v), Components(op.path)).value, NodesIn(v'));
    }
  }

  method InScope(fs: NextFS, op: Op) returns (ok: bool)
    requires fs.Valid() && Tree(fs.Abs())
    ensures ok <==> Followed(fs.View(), op)
  {
    hide Sound, NodesOf, Pieces, Beyond, InodeAt, BitmapBlocks, TableBlocks, Components, ParentPath, BaseName, Stored,
      Walk, Tree, Table;
    if !Sane(op) {
      return false;
    }
    if Creates(op) && !NulFree(BaseName(op.path)) {
      var doubled := StoredTaken(fs, op.path);
      if doubled {
        return false;
      }
    }
    var found, ino := Stat(fs, op.path);
    return !found || !Beyond(op, fs.disk, ino);
  }

  /** Look at the inode that a path leads to. */
  method Stat(fs: NextFS, path: seq<byte>) returns (found: bool, ino: Inode)
    requires fs.Valid() && Tree(fs.Abs())
    ensures found <==> Found(fs.View(), path)
    ensures found <==> Leads(fs.Abs(), path)
    ensures found ==> ino == FoundInode(fs.View(), path) && ino.kind != FREE
  {
    hide Sound, NodesOf, Pieces, InodeAt, BitmapBlocks, TableBlocks, Components, Walk, Tree, Table;
    ino := EMPTY_INODE;
    var n := Resolve(fs, path);
    if n.Err? {
      return false, ino;
    }
    WalkLive(fs.Abs(), Components(path));
    NodeKinds(fs.View(), Table(fs.View()), fs.owner, n.value);
    var i := fs.ReadInode(n.value);
    return true, i.value;
  }

  /** Whether the parent directory has what a new name comes to once it is stored. */
  method StoredTaken(fs: NextFS, path: seq<byte>) returns (taken: bool)
    requires fs.Valid()
    ensures taken <==> Doubles(fs.Abs(), path)
  {
    hide Sound, NodesOf, Pieces, InodeAt, BitmapBlocks, TableBlocks, Components, ParentPath, BaseName, Stored, Walk,
      Dirents;
    ParentPathLeads(path);
    var d := Resolve(fs, ParentPath(path));
    if d.Err? {
      return false;
    }
    var l := fs.DirLookup(d.value, Stored(BaseName(path)));
    return l.Ok?;
  }

  /** Whether the parent directory of a path cannot be written to. */
  method CannotWrite(fs: NextFS, who: Credentials, path: seq<byte>) returns (out: bool)
    requires fs.Valid() && Tree(fs.Abs())
    ensures out <==> KeptOut(fs.View(), who, path)
  {
    hide Sound, NodesOf, Pieces, InodeAt, BitmapBlocks, TableBlocks, Components, ParentPath, Walk, Tree, MayRead,
      MayWrite, Table;
    ParentPathLeads(path);
    var d := Resolve(fs, ParentPath(path));
    if d.Err? {
      return true;
    }
    ParentLive(fs, path, d.value);
    var may := fs.CheckPermission(d.value, who, MAY_WRITE);
    return may.Err?;
  }

  method CanRefuse(fs: NextFS, op: Op) returns (safe: bool)
    requires fs.Valid() && Tree(fs.Abs())
    ensures safe <==> Safe(fs.View(), op)
  {
    hide Sound, NodesOf, Pieces, InodeAt, BitmapBlocks, TableBlocks, Components, ParentPath, Walk, Tree, MayRead,
      MayWrite, Table,
      Missing, KeptOut, Found, FoundInode, Spoils, Base;
    match op
    case OpenAt(who, path, flags) =>
      var found := Resolve(fs, path);
      if found.Ok? || !flags.create || found.error != NotFound {
        return true;
      }
      var out := CannotWrite(fs, who, path);
      return out || fs.sb.freeInodes == 1;
    case MakeDirectory(who, path) =>
      var out := CannotWrite(fs, who, path);
      return out || fs.sb.freeInodes == 1;
    case Write(path, pos, data) =>
      var found, ino := Stat(fs, path);
      return !found || !Spoils(fs.disk, ino, fs.sb.freeBlocks, Base(pos), |data|);
    case Replace(path, _) =>
      var found, ino := Stat(fs, path);
      return !found || ino.kind != FILE;
    case Resize(who, path, _) =>
      var found, ino := Stat(fs, path);
      return !found || ino.kind != FILE || !MayWrite(ino, who);
    case _ =>
      return true;
  }

  /** Writing through a descriptor, or replacing what a file holds. */
  method Rewrite(fs: NextFS, op: Op) returns (r: Result<()>)
    requires fs.Valid() && Tree(fs.Abs()) && Followed(fs.View(), op) && (op.Write? || op.Replace?)
    modifies fs
    ensures r.Ok? <==> old(Able(fs.View(), op))
    ensures r.Ok? ==> fs.Valid() && Effect(op, old(fs.Abs()), fs.Abs())
    ensures r.Err? && old(Safe(fs.View(), op)) ==> fs.Valid() && Refusal(op, old(fs.View()), fs.View())
    ensures r.Ok? || old(Safe(fs.View(), op)) ==> RightsKept(old(Table(fs.View())), Table(fs.View()))
  {
    hide WritesPart, Base, Spoils, Sound, NodesOf, Pieces, Tree, WritesFile, InodeAt, BitmapBlocks, TableBlocks,
      CutsRight, Unsound, Accounted, Fits, Replaceable, RightsKept, Walk, Components, Table, Geometry;
    RightsStay(Table(fs.View()));
    var n := Resolve(fs, op.path);
    if n.Err? {
      return Err(n.error);
    }
    WalkLive(fs.Abs(), Components(op.path));
    NodeKinds(fs.View(), Table(fs.View()), fs.owner, n.value);
    match op
    case Write(_, pos, data) =>
      var w := fs.WriteAt(n.value, pos, data);
      r := if w.Ok? then Ok(()) else Err(w.error);
    case Replace(_, data) =>
      r := fs.WriteFile(n.value, data);
  }

  /** Carry out one operation that the model follows. */
  method Apply(fs: NextFS, op: Op) returns (r: Result<()>)
    requires fs.Valid() && Tree(fs.Abs()) && Followed(fs.View(), op)
    modifies fs
    ensures r.Ok? <==> old(Able(fs.View(), op))
    ensures r.Ok? ==>
      fs.Valid() && Effect(op, old(fs.Abs()), fs.Abs()) && RightsEffect(op, old(fs.View()), fs.View())
    ensures r.Err? && old(Safe(fs.View(), op)) ==>
      && fs.Valid() && Refusal(op, old(fs.View()), fs.View())
      && RightsKept(old(Table(fs.View())), Table(fs.View()))
  {
    hide Sound, NodesOf, Pieces, Tree, Walk, LastSlash, Components, ParentPath, BaseName, Table, Geometry, CreatesFile,
      CreatesDir, RemovesFile, RemovesDir, ResizesFile, OpensFile, MakesDir, HasFile, HasBareDir, Missing, Stored;
    hide RightsKept, NewIn, CutsRight, TakesFile, TakesDir, MayRead, MayWrite, RefusedOpen, Doubles;
    RightsStay(Table(fs.View()));
    match op
    case OpenAt(who, path, flags) =>
      ghost var leads := Leads(fs.Abs(), path);
      if leads { Emptied(fs, op); }
      var n := Open(fs, who, path, flags);
      r := if n.Ok? then Ok(()) else Err(n.error);
    case MakeDirectory(who, path) =>
      var n := Mkdir(fs, who, path);
      r := if n.Ok? then Ok(()) else Err(n.error);
    case Remove(who, path) =>
      r := UnlinkPath(fs, who, path);
    case RemoveDirectory(who, path) =>
      r := RmdirPath(fs, who, path);
    case Resize(who, path, size) =>
      r := TruncatePath(fs, who, path, size);
    case SetMode(who, path, mode) =>
      r := Chmod(fs, who, path, mode);
    case SetOwner(who, path, to) =>
      r := Chown(fs, who, path, to);
    case _ =>
      r := Rewrite(fs, op);
  }

  /** What a followed `open` empties can be emptied. */
  lemma Emptied(fs: NextFS, op: Op)
    requires fs.Valid() && Tree(fs.Abs()) && op.OpenAt? && Followed(fs.View(), op) && Leads(fs.Abs(), op.path)
    ensures op.flags.Cuts() ==> EmptiesRight(fs.View(), Walk(fs.Abs(), Components(op.path)).value)
  {
    hide Sound, Tree, Walk, Components, Table, Geometry, NodesOf, CutsRight, Doubles;
    WalkLive(fs.Abs(), Components(op.path));
    NodeKinds(fs.View(), Table(fs.View()), fs.owner, Walk(fs.Abs(), Components(op.path)).value);
  }

  /** `Refused`: the operation failed and kept the invariant; `Failed`: it may have left the invariant broken. */
  datatype Outcome = Done | Refused(error: FsError) | Failed(error: FsError) | OutOfScope

  /** Perform one operation; the state before says which outcome it has. */
  method Perform(fs: NextFS, op: Op) returns (o: Outcome)
    requires fs.Valid() && Tree(fs.Abs())
    modifies fs
    ensures o.OutOfScope? <==> !old(Followed(fs.View(), op))
    ensures o.Done? <==> old(Followed(fs.View(), op)) && old(Able(fs.View(), op))
    ensures o.Refused? <==>
      old(Followed(fs.View(), op)) && !old(Able(fs.View(), op)) && old(Safe(fs.View(), op))
    ensures o.OutOfScope? ==> fs.View() == old(fs.View())
    ensures o.Done? || o.Refused? ==>
      fs.Valid() && Tree(fs.Abs()) && Turn(op, o.Done?, old(fs.View()), fs.View())
  {
    hide Sound, NodesOf, Tree, Sane, Effect, RightsEffect, RightsKept, Beyond, Table, Geometry, Walk, Components, Able,
      Safe, Refusal, Followed;
    var ok := InScope(fs, op);
    if !ok {
      return OutOfScope;
    }
    var safe := CanRefuse(fs, op);
    var done := Apply(fs, op);
    if done.Ok? {
      EffectKeepsTree(op, old(fs.Abs()), fs.Abs());
      return Done;
    }
    if !safe {
      return Failed(done.error);
    }
    RefusalKeepsTree(op, old(fs.View()), fs.View());
    return Refused(done.error);
  }

  /** A state with every block accounted for and a tree in it. */
  ghost predicate Healthy(v: Fs) {
    Geometry(v) && (exists o :: Sound(v, Table(v), o)) && Tree(NodesIn(v))
  }

  /** One step of a run: `ok` is what the state before says, and so is the state after. */
  ghost predicate Turn(op: Op, ok: bool, v: Fs, v': Fs)
    requires Geometry(v) && Geometry(v')
  {
    && Followed(v, op) && (ok <==> Able(v, op))
    && if ok then Effect(op, NodesIn(v), NodesIn(v')) && RightsEffect(op, v, v')
       else Safe(v, op) && Refusal(op, v, v') && RightsKept(Table(v), Table(v'))
  }

  ghost predicate TurnAt(ops: seq<Op>, oks: seq<bool>, views: seq<Fs>, i: nat)
    requires i < |ops| && i < |oks| && i + 1 < |views| && Healthy(views[i]) && Healthy(views[i + 1])
  {
    Turn(ops[i], oks[i], views[i], views[i + 1])
  }

  /** The states of a run, all of them healthy, and the results of its operations. */
  ghost predicate Trace(ops: seq<Op>, oks: seq<bool>, views: seq<Fs>) {
    && |oks| == |ops| && |views| == |ops| + 1
    && (forall i :: 0 <= i < |views| ==> Healthy(views[i]))
    && (forall i :: 0 <= i < |ops| ==> TurnAt(ops, oks, views, i))
  }

  lemma TraceGrows(ops: seq<Op>, oks: seq<bool>, views: seq<Fs>, op: Op, ok: bool, v: Fs)
    requires Trace(ops, oks, views) && Healthy(v)
    requires Healthy(views[|ops|]) && Turn(op, ok, views[|ops|], v)
    ensures Trace(ops + [op], oks + [ok], views + [v])
  {
    hide Turn, Healthy;
    var n, ops', oks', more := |ops|, ops + [op], oks + [ok], views + [v];
    assert forall i :: 0 <= i < |more| ==> Healthy(more[i]);
    forall i | 0 <= i < n + 1 ensures TurnAt(ops', oks', more, i) {
      if i < n { assert TurnAt(ops, oks, views, i); }
    }
  }

  /** A file system just formatted on `total` blocks: the root directory alone. */
  ghost predicate Formatted(v: Fs, total: u32) {
    && DataStartFor(total) < total && Geometry(v) && v.sb == FormatSuperblock(total)
    && Table(v) == RootOnly(v.sb.inodeCount, v.sb.dataStart)
    && NodesIn(v) == map[ROOT_INODE := FreshDir(ROOT_INODE, ROOT_INODE)]
  }

  /** A run ends at an operation that is not followed, or that fails with the invariant at stake. */
  ghost predicate Stops(v: Fs, op: Op)
    requires Geometry(v)
  {
    !Followed(v, op) || (!Able(v, op) && !Safe(v, op))
  }

  /**
   * Whole runs: format a device, mount it and perform operations, past those that fail safely. Each state says
   * which operation succeeds next and what it does; the run ends early exactly where the state says so, and all its
   * states are trees of files and directories with every block accounted for.
   */
  method Run(dev: seq<Block>, ops: seq<Op>) returns (fs: Option<NextFS>, oks: seq<bool>, ghost views: seq<Fs>)
    ensures DataStartFor(AsU32(|dev|)) >= AsU32(|dev|) ==> fs.None? && oks == []
    ensures DataStartFor(AsU32(|dev|)) < AsU32(|dev|) ==>
      && |oks| <= |ops| && Trace(ops[..|oks|], oks, views) && Formatted(views[0], AsU32(|dev|))
      && (fs.Some? <==> |oks| == |ops|)
      && (|oks| < |ops| ==> Geometry(views[|oks|]) && Stops(views[|oks|], ops[|oks|]))
    ensures fs.Some? ==> fresh(fs.value) && fs.value.Valid() && fs.value.View() == views[|ops|]
  {
    hide Sound, NodesOf, Tree, Geometry, Table, FreshDir, Followed, Able, Safe, Turn, Healthy, Trace;
    oks, views := [], [];
    var m := NextFS.FormatThenMount(dev);
    if m.Err? {
      return None, [], [];
    }
    var fsys := m.value;
    FreshTree();
    views := [fsys.View()];
    ItIsHealthy(fsys);
    TraceStarts(fsys.View());
    while |oks| < |ops|
      invariant |oks| <= |ops| && |views| == |oks| + 1 && fresh(fsys)
      invariant fsys.Valid() && Tree(fsys.Abs()) && views[|oks|] == fsys.View()
      invariant Trace(ops[..|oks|], oks, views) && Formatted(views[0], AsU32(|dev|))
      decreases |ops| - |oks|
    {
      var op := ops[|oks|];
      assert Healthy(fsys.View()) by { ItIsHealthy(fsys); }
      fsys.clock := *;  // time goes on between operations
      var o := Perform(fsys, op);
      if !o.Done? && !o.Refused? {
        return None, oks, views;
      }
      assert Healthy(fsys.View()) by { ItIsHealthy(fsys); }
      TraceGrows(ops[..|oks|], oks, views, op, o.Done?, fsys.View());
      assert ops[..|oks|] + [op] == ops[..|oks| + 1];
      views := views + [fsys.View()];
      oks := oks + [o.Done?];
    }
    assert ops[..|oks|] == ops;
    return Some(fsys), oks, views;
  }

  lemma ItIsHealthy(fs: NextFS)
    requires fs.Valid() && Tree(fs.Abs())
    ensures Healthy(fs.View())
  {
    hide Tree, Sound, Table, NodesOf;
  }

  lemma TraceStarts(v: Fs)
    requires Healthy(v)
    ensures Trace([], [], [v])
  {
    hide Healthy, TurnAt;
  }
}
