/** File-descriptor tables and anonymous pipes: reference counts, and the byte stream through a pipe. */
module Pipes {
  import opened Bytes
  import opened Options

  const PIPE_CAPACITY: nat := 4096
  const MAX_FDS: nat := 64

  datatype FileType = Regular(inode: nat) | Console | Keyboard | PipeEnd(id: nat, write: bool) | Socket(socket: nat)

  datatype OpenFile = OpenFile(kind: FileType, readable: bool, writable: bool)

  datatype FdTable = FdTable(files: map<nat, OpenFile>, nextFd: nat)

  datatype Pipe = Pipe(buf: seq<byte>, readEnds: nat, writeEnds: nat)

  datatype VfsError = InvalidOperation | BadFileDescriptor | TooManyFiles | ReadOnlyFile | WriteOnlyFile

  datatype Result<+T> = Ok(value: T) | Err(error: VfsError)

  function PipeFile(id: nat, write: bool): OpenFile { OpenFile(PipeEnd(id, write), !write, write) }

  const STANDARD: FdTable :=
    FdTable(map[0 := OpenFile(Keyboard, true, false), 1 := OpenFile(Console, false, true), 2 :=
      OpenFile(Console, false, true)], 3)

  type Tables = map<nat, FdTable>

  // ---------------------------------------------------------------- counting

  datatype Holder = Holder(task: nat, fd: nat)

  /** The descriptors of one table that hold the given end. */
  function Held(files: map<nat, OpenFile>, end: FileType): set<nat> {
    set fd | fd in files && files[fd].kind == end
  }

  /** All descriptors, over all tables, that hold the given end. */
  function Holders(tables: Tables, end: FileType): set<Holder> {
    set t, fd | t in tables && fd in tables[t].files && tables[t].files[fd].kind == end :: Holder(t, fd)
  }

  function Ends(p: Pipe, write: bool): nat { if write then p.writeEnds else p.readEnds }

  function TotalEnds(p: Pipe): nat { p.readEnds + p.writeEnds }

  function Tag(t: nat, fds: set<nat>): set<Holder> { set fd | fd in fds :: Holder(t, fd) }

  lemma {:induction false} TagSize(t: nat, fds: set<nat>)
    ensures |Tag(t, fds)| == |fds|
  {
    if fds != {} {
      var fd :| fd in fds;
      TagSize(t, fds - {fd});
      assert Tag(t, fds) == Tag(t, fds - {fd}) + {Holder(t, fd)};
    }
  }

  /** Putting a table in place of an absent one adds just what that table holds. */
  lemma TableAdded(tables: Tables, t: nat, table: FdTable, end: FileType)
    requires t !in tables
    ensures |Holders(tables[t := table], end)| == |Holders(tables, end)| + |Held(table.files, end)|
  {
    hide Holders, Held, Tag;
    var b, c := Holders(tables, end), Tag(t, Held(table.files, end));
    TagSize(t, Held(table.files, end));
    HoldersSplit(tables, t, table, end);
    assert |b + c| == |b| + |c|;
  }

  lemma HoldersSplit(tables: Tables, t: nat, table: FdTable, end: FileType)
    requires t !in tables
    ensures Holders(tables[t := table], end) == Holders(tables, end) + Tag(t, Held(table.files, end))
    ensures Holders(tables, end) !! Tag(t, Held(table.files, end))
  {
    var a, b, c := Holders(tables[t := table], end), Holders(tables, end), Tag(t, Held(table.files, end));
    forall x | x in a ensures x in b + c {
      if x.task == t { assert x.fd in Held(table.files, end); }
    }
    forall x | x in c ensures x in a && x.task == t {}
    forall x | x in b ensures x in a && x.task != t {}
  }

  /** The holders among one table and all the others. */
  lemma TableOut(tables: Tables, t: nat, end: FileType)
    requires t in tables
    ensures |Holders(tables, end)| == |Holders(tables - {t}, end)| + |Held(tables[t].files, end)|
  {
    hide Holders, Held;
    TableAdded(tables - {t}, t, tables[t], end);
    assert (tables - {t})[t := tables[t]] == tables;
  }

  lemma TableChanged(tables: Tables, t: nat, table: FdTable, end: FileType)
    requires t in tables
    ensures |Holders(tables[t := table], end)| + |Held(tables[t].files, end)| ==
            |Holders(tables, end)| + |Held(table.files, end)|
  {
    hide Holders, Held;
    TableOut(tables, t, end);
    TableOut(tables[t := table], t, end);
    assert tables[t := table] - {t} == tables - {t};
  }

  lemma FileAdded(files: map<nat, OpenFile>, fd: nat, f: OpenFile, end: FileType)
    requires fd !in files
    ensures |Held(files[fd := f], end)| == |Held(files, end)| + if f.kind == end then 1 else 0
  {
    assert Held(files[fd := f], end) == Held(files, end) + if f.kind == end then {fd} else {};
  }

  lemma FileRemoved(files: map<nat, OpenFile>, fd: nat, end: FileType)
    requires fd in files
    ensures |Held(files, end)| == |Held(files - {fd}, end)| + if files[fd].kind == end then 1 else 0
  {
    if files[fd].kind == end {
      assert Held(files, end) == Held(files - {fd}, end) + {fd};
    } else {
      assert Held(files, end) == Held(files - {fd}, end);
    }
  }

  // ---------------------------------------------------------------- invariants

  ghost predicate RightCount(p: Pipe, tables: Tables, id: nat) {
    p.readEnds == |Holders(tables, PipeEnd(id, false))| && p.writeEnds == |Holders(tables, PipeEnd(id, true))|
  }

  /** Each registered pipe counts exactly the descriptors holding its ends, and has at least one. */
  ghost predicate CountsIn(tables: Tables, pipes: map<nat, Pipe>) {
    forall id :: id in pipes ==> RightCount(pipes[id], tables, id) && pipes[id].readEnds + pipes[id].writeEnds > 0
  }

  /** Descriptors lie below the next one to be given out, and pipe ends are of known pipes. */
  predicate TableOk(table: FdTable, live: set<nat>) {
    forall fd :: fd in table.files ==>
      fd < table.nextFd && (table.files[fd].kind.PipeEnd? ==> table.files[fd].kind.id in live)
  }

  ghost predicate TablesOk(tables: Tables, live: set<nat>) {
    forall t :: t in tables ==> TableOk(tables[t], live)
  }

  // ---------------------------------------------------------------- the two global maps

  class Vfs {
    var tables: Tables
    var pipes: map<nat, Pipe>
    var nextPipeId: nat
    /** Ids whose `pipe` call failed half way: a descriptor may name them, but no pipe ever will. */
    ghost var stillborn: set<nat>
    /** All bytes ever pushed into, and delivered from, each pipe. */
    ghost var pushed: map<nat, seq<byte>>
    ghost var delivered: map<nat, seq<byte>>

    constructor ()
      ensures Valid() && tables == map[] && pipes == map[]
    {
      tables, pipes, nextPipeId := map[], map[], 1;
      stillborn, pushed, delivered := {}, map[], map[];
    }

    ghost predicate Counts()
      reads this
    {
      CountsIn(tables, pipes) && TablesOk(tables, pipes.Keys + stillborn)
    }

    /** Ids are below the next one, and no pipe has a stillborn one. */
    ghost predicate Ids()
      reads this
    {
      (forall id :: id in pipes || id in stillborn ==> id < nextPipeId) && pipes.Keys !! stillborn
    }

    ghost predicate Streams()
      reads this
    {
      StreamsIn(pipes, pushed, delivered)
    }

    ghost predicate Valid()
      reads this
    {
      Counts() && Ids() && Streams()
    }

    // -------------------------------------------------------------- descriptors

    /** The free descriptor met first on the way from `nextFd` to the limit and then from 3 up. */
    static ghost predicate FirstFree(table: FdTable, fd: nat) {
      && fd !in table.files
      && (table.nextFd <= fd ==> forall e :: table.nextFd <= e < fd ==> e in table.files)
      && (fd < table.nextFd ==>
            && 3 <= fd && table.nextFd in table.files
            && forall e :: table.nextFd <= e < MAX_FDS || 3 <= e < fd ==> e in table.files)
    }

    /** The next descriptor is taken, and so are all that the search comes past, over and over. */
    static ghost predicate Endless(table: FdTable) {
      && table.nextFd in table.files
      && forall e :: table.nextFd <= e < MAX_FDS || 3 <= e < MAX_FDS ==> e in table.files
    }

    /**
     * The first free descriptor from `nextFd` on, and from 3 on once those up to the limit are taken; `None` where the
     * search would go round for ever.
     */
    static method AllocFd(table: FdTable, file: OpenFile) returns (r: Option<Result<nat>>, table': FdTable)
      ensures r.None? <==> |table.files| < MAX_FDS && Endless(table)
      ensures r == Some(Err(TooManyFiles)) <==> |table.files| >= MAX_FDS
      ensures r.Some? && r.value.Ok? ==>
        && FirstFree(table, r.value.value)
        && table' == FdTable(table.files[r.value.value := file], r.value.value + 1)
        && (table.nextFd !in table.files ==> r.value.value == table.nextFd)
      ensures r.Some? && r.value.Err? ==> r.value.error == TooManyFiles && table' == table
    {
      table' := table;
      if |table.files| >= MAX_FDS {
        return Some(Err(TooManyFiles)), table;
      }
      var next, wrapped := table.nextFd, false;
      ghost var start := next;
      while next in table.files
        invariant wrapped ==> start in table.files && 3 <= next < MAX_FDS
        invariant wrapped ==> forall fd :: start <= fd < MAX_FDS || 3 <= fd < next ==> fd in table.files
        invariant !wrapped ==> start <= next && forall fd :: start <= fd < next ==> fd in table.files
        invariant !wrapped && next != start ==> next < MAX_FDS
        decreases !wrapped, MAX_FDS - next
      {
        next := next + 1;
        if next >= MAX_FDS {
          if wrapped {
            return None, table;
          }
          next, wrapped := 3, true;
        }
      }
      return Some(Ok(next)), FdTable(table.files[next := file], next + 1);
    }

    method InitTaskFds(task: nat)
      requires Valid()
      modifies this`tables
      ensures tables == old(tables)[task := STANDARD] && tables[task].nextFd == 3
      ensures tables[task].files == map[0 := OpenFile(Keyboard, true, false),
                  1 := OpenFile(Console, false, true), 2 := OpenFile(Console, false, true)]
      ensures Valid() <==> !HoldsEnd(old(tables), task, pipes)
      ensures AllDuplicated(pipes, pipes, STANDARD.files)
    {
      hide CountsIn, TablesOk, AllDuplicated, HoldsEnd;
      StandardEnds(pipes, pipes.Keys + stillborn);
      Replaced(tables, pipes, pipes, task, STANDARD, stillborn);
      tables := tables[task := STANDARD];
    }

    /** Enter a file that is no pipe end. */
    method Install(task: nat, file: OpenFile) returns (r: Result<nat>)
      requires Valid() && !file.kind.PipeEnd?
      modifies this`tables
      ensures Valid()
      ensures r.Ok? ==>
        && task in old(tables) && r.value == old(tables)[task].nextFd
        && tables == old(tables)[task := FdTable(old(tables)[task].files[r.value := file], r.value + 1)]
      ensures r.Err? ==> tables == old(tables)
    {
      hide Holders, Held, CountsIn;
      if task !in tables {
        return Err(InvalidOperation);
      }
      NextFree(tables, task, pipes.Keys + stillborn);
      var a, table := AllocFd(tables[task], file);
      r := a.value;
      if r.Ok? {
        forall end: FileType | end.PipeEnd? ensures |Holders(tables[task := table], end)| == |Holders(tables, end)| {
          TableChanged(tables, task, table, end);
          FileAdded(tables[task].files, r.value, file, end);
        }
        CountsSame(tables, tables[task := table], pipes);
        tables := tables[task := table];
      }
    }

    // -------------------------------------------------------------- pipe ends

    method PipeDupEnd(id: nat, write: bool)
      modifies this`pipes
      ensures OneMore(old(pipes), pipes, id, write)
    {
      if id in pipes {
        var p := pipes[id];
        pipes := pipes[id := Opened(p, write, 1)];
      }
    }

    method PipeCloseEnd(id: nat, write: bool)
      modifies this`pipes
      ensures OneFewer(old(pipes), pipes, id, write)
    {
      if id in pipes {
        var p := Closed(pipes[id], write);
        pipes := pipes[id := p];
        if p.readEnds == 0 && p.writeEnds == 0 {
          pipes := pipes - {id};
        }
      }
    }

    /** A descriptor for each end of a pipe: both, none, or only the one for reading. */
    static method AllocPair(table: FdTable, id: nat) returns (r: Result<(nat, nat)>, table': FdTable)
      requires forall fd :: fd in table.files ==> fd < table.nextFd
      ensures r.Err? <==> |table.files| >= MAX_FDS - 1
      ensures r.Err? ==> r.error == TooManyFiles
      ensures |table.files| >= MAX_FDS ==> table' == table
      ensures |table.files| == MAX_FDS - 1 ==>
          table' == FdTable(table.files[table.nextFd := PipeFile(id, false)], table.nextFd + 1)
      ensures r.Ok? ==>
        && r.value == (table.nextFd, table.nextFd + 1)
        && table' == WithPipe(table, r.value.0, r.value.1, id)
    {
      hide FirstFree;
      var a, table1 := AllocFd(table, PipeFile(id, false));
      if a.value.Err? {
        return Err(a.value.error), table;
      }
      assert |table1.files| == |table.files| + 1;
      var b, table2 := AllocFd(table1, PipeFile(id, true));
      if b.value.Err? {
        return Err(b.value.error), table1;
      }
      return Ok((a.value.value, b.value.value)), table2;
    }

    /** Create a pipe with one descriptor for each end. */
    method MakePipe(task: nat) returns (r: Result<(nat, nat)>)
      requires Valid()
      modifies this
      ensures Valid()
      ensures r == Err(InvalidOperation) <==> task !in old(tables)
      ensures r == Err(TooManyFiles) <==> task in old(tables) && |old(tables)[task].files| >= MAX_FDS - 1
      ensures r.Err? ==> pipes == old(pipes) && r.error in {InvalidOperation, TooManyFiles}
      ensures r.Err? && (task in old(tables) ==> |old(tables)[task].files| >= MAX_FDS) ==> tables == old(tables)
      ensures task in old(tables) && |old(tables)[task].files| == MAX_FDS - 1 ==>
        var t := old(tables)[task]; var lost :=
          FdTable(t.files[t.nextFd := PipeFile(old(nextPipeId), false)], t.nextFd + 1);
        tables == old(tables)[task := lost]
      ensures r.Ok? ==>
        && task in old(tables) && old(nextPipeId) !in old(pipes) && r.value.0 != r.value.1
        && r.value.0 !in old(tables)[task].files && r.value.1 !in old(tables)[task].files
        && pipes == old(pipes)[old(nextPipeId) := Pipe([], 1, 1)]
        && tables == old(tables)[task := WithPipe(old(tables)[task], r.value.0, r.value.1, old(nextPipeId))]
      ensures r.Ok? ==>
        TwoEnds(old(tables)[task].files, tables[task].files, r.value.0, r.value.1, old(nextPipeId))
      ensures nextPipeId == old(nextPipeId) + if task in old(tables) then 1 else 0
    {
      hide Holders, Held, CountsIn, TablesOk, TableOk, StreamsIn, WithPipe, TwoEnds;
      if task !in tables {
        return Err(InvalidOperation);
      }
      var id := nextPipeId;
      nextPipeId := nextPipeId + 1;
      NextFree(tables, task, pipes.Keys + stillborn);
      ghost var table := tables[task];
      var table2;
      r, table2 := AllocPair(tables[task], id);
      tables := tables[task := table2];
      if r.Err? {
        if |table.files| == MAX_FDS - 1 {
          HalfMade(old(tables), pipes, task, table2, table.nextFd, id, stillborn);
          stillborn := stillborn + {id};
        } else {
          assert tables == old(tables);
        }
        return;
      }
      BothMade(old(tables), pipes, task, r.value.0, r.value.1, id, stillborn);
      PipeGiven(table, r.value.0, r.value.1, id);
      pipes := pipes[id := Pipe([], 1, 1)];
      StreamBorn(old(pipes), pushed, delivered, id);
      pushed, delivered := pushed[id := []], delivered[id := []];
    }

    /** Close a descriptor; the last one of a pipe takes the pipe along. */
    method Close(task: nat, fd: nat) returns (r: Result<()>)
      requires Valid()
      modifies this`tables, this`pipes
      ensures Valid()
      ensures r == Err(InvalidOperation) <==> task !in old(tables)
      ensures r == Err(BadFileDescriptor) <==> task in old(tables) && fd !in old(tables)[task].files
      ensures r.Err? ==>
          tables == old(tables) && pipes == old(pipes) && r.error in {InvalidOperation, BadFileDescriptor}
      ensures r.Ok? ==> tables == old(tables)[task := FdTable(old(tables)[task].files - {fd}, old(tables)[task].nextFd)]
      ensures r.Ok? ==>
        var kind := old(tables)[task].files[fd].kind;
        && pipes == Released(kind, old(pipes))
        && (kind.PipeEnd? && kind.id in old(pipes) ==>
              Ends(old(pipes)[kind.id], kind.write) > 0 && (kind.id !in pipes <==> TotalEnds(old(pipes)[kind.id]) == 1))
    {
      hide Holders, Held, CountsIn;
      if task !in tables {
        return Err(InvalidOperation);
      }
      if fd !in tables[task].files {
        return Err(BadFileDescriptor);
      }
      var kind := tables[task].files[fd].kind;
      FdClosed(tables, pipes, task, fd, stillborn);
      tables := tables[task := WithoutFd(tables[task], fd)];
      if kind.PipeEnd? {
        PipeCloseEnd(kind.id, kind.write);
        FewerIsReleased(old(pipes), pipes, kind.id, kind.write);
      }
      return Ok(());
    }

    /**
     * `fork`: the child gets a copy of every descriptor, and each pipe end one more holder for each. A table the
     * child may have had before is replaced; the ends it held stay counted for ever.
     */
    method CloneTaskFds(parent: nat, child: nat)
      requires Valid()
      modifies this`tables, this`pipes
      ensures Valid() <==> !HoldsEnd(old(tables), child, old(pipes))
      ensures tables == old(tables)[child := if parent in old(tables) then old(tables)[parent] else STANDARD]
      ensures AllDuplicated(old(pipes), pipes, tables[child].files)
    {
      hide Holders, Held, CountsIn, TableOk, TablesOk, StreamsIn, AllDuplicated, Part, HoldsEnd;
      if parent !in tables {
        InitTaskFds(child);
        return;
      }
      var table := tables[parent];
      NextFree(tables, parent, pipes.Keys + stillborn);
      DuplicateAll(table.files);
      AllDuplicatedKeeps(old(pipes), pipes, table.files);
      Replaced(tables, old(pipes), pipes, child, table, stillborn);
      StreamsFewer(old(pipes), pipes, pushed, delivered);
      tables := tables[child := table];
    }

    /** One more end open for every descriptor in `files` that holds one. */
    method DuplicateAll(files: map<nat, OpenFile>)
      modifies this`pipes
      ensures AllDuplicated(old(pipes), pipes, files)
    {
      hide AllDuplicated, Part, Held;
      var todo, done := files.Keys, {};
      NoneHeldYet(pipes, files);
      while todo != {}
        invariant todo + done == files.Keys && todo !! done
        invariant AllDuplicated(old(pipes), pipes, Part(files, done))
        decreases |todo|
      {
        var fd :| fd in todo;
        OneMoreHeld(old(pipes), pipes, files, done, fd);
        if files[fd].kind.PipeEnd? {
          ghost var before := pipes;
          PipeDupEnd(files[fd].kind.id, files[fd].kind.write);
          MoreIsOpened(before, pipes, files[fd].kind.id, files[fd].kind.write);
        }
        todo, done := todo - {fd}, done + {fd};
      }
      WholePart(files, done);
    }

    /** Let go of every pipe end in a table that has just been taken out. */
    method ReleaseAll(ghost task: nat, table: FdTable)
      requires Draining(tables, pipes, task, table, table.files.Keys, stillborn)
      modifies this`pipes
      ensures Draining(tables, pipes, task, table, {}, stillborn) && SameBytes(old(pipes), pipes)
    {
      hide Released, Draining, SameBytes, Part;
      SameBytesRefl(pipes);
      var todo := table.files.Keys;
      while todo != {}
        invariant todo <= table.files.Keys
        invariant SameBytes(old(pipes), pipes) && Draining(tables, pipes, task, table, todo, stillborn)
        decreases |todo|
      {
        var fd :| fd in todo;
        var kind := table.files[fd].kind;
        ghost var before := pipes;
        DrainStep(tables, pipes, task, table, todo, fd, stillborn);
        if kind.PipeEnd? {
          PipeCloseEnd(kind.id, kind.write);
          FewerIsReleased(before, pipes, kind.id, kind.write);
        }
        SameBytesTrans(old(pipes), before, pipes);
        todo := todo - {fd};
      }
    }

    /** Exit: every descriptor goes, and with it the pipes that nobody else holds. */
    method CleanupTaskFds(task: nat)
      requires Valid()
      modifies this`tables, this`pipes
      ensures Valid() && tables == old(tables) - {task} && SameBytes(old(pipes), pipes)
      ensures task !in old(tables) ==> pipes == old(pipes)
    {
      hide Holders, Held, CountsIn, TablesOk, Released, Draining, SameBytes, StreamsIn;
      if task !in tables {
        SameBytesRefl(pipes);
        return;
      }
      var table := tables[task];
      DrainStart(tables, pipes, task, stillborn);
      tables := tables - {task};
      ReleaseAll(task, table);
      EmptyTable(tables, pipes, task, table, stillborn);
      StreamsFewer(old(pipes), pipes, pushed, delivered);
    }

    // -------------------------------------------------------------- bytes

    /** Pop bytes off the front until there are `want` of them or none is left. */
    static method PopFront(buf: seq<byte>, want: nat) returns (got: seq<byte>, rest: seq<byte>)
      ensures got == buf[..Min(want, |buf|)] && rest == buf[|got|..]
    {
      got, rest := [], buf;
      while |got| < want && rest != []
        invariant got + rest == buf && |got| <= want
        decreases |rest|
      {
        got, rest := got + [rest[0]], rest[1..];
      }
      assert got == buf[..|got|] && rest == buf[|got|..];
    }

    /** One attempt of a pipe read, under the lock: bytes, end of file (no bytes), or `None` to wait and retry. */
    method ReadStep(id: nat, write: bool, want: nat) returns (r: Result<Option<seq<byte>>>)
      requires Valid()
      modifies this`pipes, this`delivered
      ensures Valid() && pipes.Keys == old(pipes).Keys
      ensures r.Err? <==> write
      ensures r.Err? ==> r.error == WriteOnlyFile
      ensures r == Ok(None) <==> !write && id in pipes && old(pipes)[id].buf == [] && pipes[id].writeEnds > 0
      ensures r.Ok? && r.value.Some? ==>
        var got := r.value.value;
        && got == (if id in old(pipes) then old(pipes)[id].buf[..Min(want, |old(pipes)[id].buf|)] else [])
        && (id in pipes ==> delivered == old(delivered)[id := old(delivered)[id] + got]
                            && pipes == old(pipes)[id := old(pipes)[id].(buf := old(pipes)[id].buf[|got|..])])
        && (got == [] && want > 0 ==> id !in pipes || (pipes[id].buf == [] && pipes[id].writeEnds == 0))
      ensures !(r.Ok? && r.value.Some? && id in pipes) ==> pipes == old(pipes) && delivered == old(delivered)
    {
      hide Holders, Held, TablesOk, CountsIn, StreamsIn;
      if write {
        return Err(WriteOnlyFile);
      }
      if id !in pipes {
        return Ok(Some([]));
      }
      var p := pipes[id];
      if p.buf == [] {
        if p.writeEnds > 0 {
          return Ok(None);
        }
        StreamPop(pipes, pushed, delivered, id, 0);
        assert p.buf[0..] == p.buf && pipes[id := p] == pipes;
        delivered := delivered[id := delivered[id] + []];
        return Ok(Some([]));
      }
      var got, buf := PopFront(p.buf, want);
      StreamPop(pipes, pushed, delivered, id, |got|);
      BufferOnly(tables, pipes, id, p.(buf := buf));
      pipes := pipes[id := p.(buf := buf)];
      assert pipes.Keys == old(pipes).Keys;
      delivered := delivered[id := delivered[id] + got];
      return Ok(Some(got));
    }

    /** What a write reports that cannot go on: a broken pipe is an error if nothing at all was written. */
    static function Ended(written: nat, data: seq<byte>): Result<nat> {
      if written == 0 && data != [] then Err(InvalidOperation) else Ok(written)
    }

    /** One pass of the loop of a pipe write, under the lock. `more`: the pass may be repeated after a yield. */
    method WriteStep(id: nat, write: bool, data: seq<byte>, written: nat) returns (r: Result<nat>, more: bool)
      requires Valid() && written <= |data|
      modifies this`pipes, this`pushed
      ensures Valid() && pipes.Keys == old(pipes).Keys
      ensures r == Err(ReadOnlyFile) <==> !write
      ensures r == Err(InvalidOperation) <==>
        write && written == 0 && data != [] && (id !in old(pipes) || old(pipes)[id].readEnds == 0)
      ensures r.Err? ==>
        r.error in {ReadOnlyFile, InvalidOperation} && !more && pipes == old(pipes) && pushed == old(pushed)
      ensures r.Ok? ==>
        && written <= r.value <= |data|
        && (id in pipes ==> pushed == old(pushed)[id := old(pushed)[id] + data[written..r.value]]
                            && pipes == old(pipes)[id := old(pipes)[id].(buf :=
                               old(pipes)[id].buf + data[written..r.value])])
        && (id !in pipes || old(pipes)[id].readEnds == 0 ==> r.value == written && !more)
        && (id in pipes && old(pipes)[id].readEnds > 0 ==>
              r.value == Min(|data|, written + PIPE_CAPACITY - |old(pipes)[id].buf|) && (more <==> r.value < |data|))
      ensures id !in pipes ==> pipes == old(pipes) && pushed == old(pushed)
    {
      hide Holders, Held, TablesOk, CountsIn, StreamsIn;
      if !write {
        return Err(ReadOnlyFile), false;
      }
      if id !in pipes {
        return Ended(written, data), false;
      }
      var p := pipes[id];
      if p.readEnds == 0 {
        StreamPop(pipes, pushed, delivered, id, 0);
        StreamPush(pipes, pushed, delivered, id, data[written..written]);
        assert pushed[id] + data[written..written] == pushed[id] && p.buf + data[written..written] == p.buf;
        assert pipes[id := p] == pipes && pushed[id := pushed[id] + data[written..written]] == pushed;
        return Ended(written, data), false;
      }
      StreamPop(pipes, pushed, delivered, id, 0);
      var take := Min(PIPE_CAPACITY - |p.buf|, |data| - written);
      var buf := p.buf + data[written..written + take];
      StreamPush(pipes, pushed, delivered, id, data[written..written + take]);
      BufferOnly(tables, pipes, id, p.(buf := buf));
      pipes := pipes[id := p.(buf := buf)];
      assert pipes.Keys == old(pipes).Keys;
      pushed := pushed[id := pushed[id] + data[written..written + take]];
      return Ok(written + take), written + take < |data|;
    }
  }

  // ---------------------------------------------------------------- reading and writing by descriptor

  /** What one attempt of a read or write by descriptor comes to; `Elsewhere`: the file is not a pipe. */
  datatype Moved<+T> = Moved(value: T) | Wait | Elsewhere

  /** `read` of a file, as far as it is for pipes to say. */
  ghost predicate ReadOf(f: OpenFile, pipes: map<nat, Pipe>, pipes': map<nat, Pipe>, want: nat,
                         r: Result<Moved<seq<byte>>>) {
    if !f.readable || f.kind == Console || (f.kind.PipeEnd? && f.kind.write) then
      r == Err(WriteOnlyFile) && pipes' == pipes
    else if !f.kind.PipeEnd? then
      r == Ok(Elsewhere) && pipes' == pipes
    else if f.kind.id !in pipes then
      r == Ok(Moved([])) && pipes' == pipes
    else
      var p := pipes[f.kind.id];
      if p.buf == [] && p.writeEnds > 0 then r == Ok(Wait) && pipes' == pipes
      else
        var n := Min(want, |p.buf|);
        r == Ok(Moved(p.buf[..n])) && pipes' == pipes[f.kind.id := p.(buf := p.buf[n..])]
  }

  /** `write` to a file in the same way, one pass of its loop; `more`: the pass may be repeated. */
  ghost predicate WriteOf(f: OpenFile, pipes: map<nat, Pipe>, pipes': map<nat, Pipe>, data: seq<byte>, written: nat,
                          r: Result<Moved<nat>>, more: bool)
    requires written <= |data|
  {
    if !f.writable || f.kind == Keyboard || (f.kind.PipeEnd? && !f.kind.write) then
      r == Err(ReadOnlyFile) && pipes' == pipes && !more
    else if !f.kind.PipeEnd? then
      r == Ok(Elsewhere) && pipes' == pipes && !more
    else if f.kind.id !in pipes || pipes[f.kind.id].readEnds == 0 then
      && pipes' == pipes && !more
      && r == if written == 0 && data != [] then Err(InvalidOperation) else Ok(Moved(written))
    else
      var p := pipes[f.kind.id];
      var n := Min(|data|, written + PIPE_CAPACITY - |p.buf|);
      && written <= n && r == Ok(Moved(n)) && (more <==> n < |data|)
      && pipes' == pipes[f.kind.id := p.(buf := p.buf + data[written..n])]
  }

  /** One attempt of `read`. */
  method Read(v: Vfs, task: nat, fd: nat, want: nat) returns (r: Result<Moved<seq<byte>>>)
    requires v.Valid()
    modifies v`pipes, v`delivered
    ensures v.Valid()
    ensures task !in v.tables ==> r == Err(InvalidOperation) && v.pipes == old(v.pipes)
    ensures task in v.tables && fd !in v.tables[task].files ==> r == Err(BadFileDescriptor) && v.pipes == old(v.pipes)
    ensures task in v.tables && fd in v.tables[task].files ==>
      ReadOf(v.tables[task].files[fd], old(v.pipes), v.pipes, want, r)
  {
    hide Holders, Held, TablesOk, CountsIn, StreamsIn;
    if task !in v.tables {
      return Err(InvalidOperation);
    }
    if fd !in v.tables[task].files {
      return Err(BadFileDescriptor);
    }
    var f := v.tables[task].files[fd];
    if !f.readable || f.kind == Console {
      return Err(WriteOnlyFile);
    }
    if !f.kind.PipeEnd? {
      return Ok(Elsewhere);
    }
    ghost var before := v.pipes;
    var a := v.ReadStep(f.kind.id, f.kind.write, want);
    if f.kind.id in before {
      var p := before[f.kind.id];
      assert before[f.kind.id := p.(buf := p.buf)] == before;
      assert p.buf == [] ==> p.buf[..0] == p.buf[0..] == p.buf;
    }
    r := match a case Err(e) => Err(e) case Ok(None) => Ok(Wait) case Ok(Some(got)) => Ok(Moved(got));
  }

  /** One pass of `write`. */
  method Write(v: Vfs, task: nat, fd: nat, data: seq<byte>, written: nat) returns (r: Result<Moved<nat>>, more: bool)
    requires v.Valid() && written <= |data|
    modifies v`pipes, v`pushed
    ensures v.Valid()
    ensures task !in v.tables ==> r == Err(InvalidOperation) && v.pipes == old(v.pipes)
    ensures task in v.tables && fd !in v.tables[task].files ==> r == Err(BadFileDescriptor) && v.pipes == old(v.pipes)
    ensures task in v.tables && fd in v.tables[task].files ==>
      WriteOf(v.tables[task].files[fd], old(v.pipes), v.pipes, data, written, r, more)
  {
    hide Holders, Held, TablesOk, CountsIn, StreamsIn;
    if task !in v.tables {
      return Err(InvalidOperation), false;
    }
    if fd !in v.tables[task].files {
      return Err(BadFileDescriptor), false;
    }
    var f := v.tables[task].files[fd];
    if !f.writable || f.kind == Keyboard {
      return Err(ReadOnlyFile), false;
    }
    if !f.kind.PipeEnd? {
      return Ok(Elsewhere), false;
    }
    ghost var before := v.pipes;
    var a;
    a, more := v.WriteStep(f.kind.id, f.kind.write, data, written);
    if f.kind.id in before {
      var p := before[f.kind.id];
      assert data[written..written] == [] && p.buf + [] == p.buf && before[f.kind.id := p.(buf := p.buf)] == before;
    }
    r := match a case Err(e) => Err(e) case Ok(n) => Ok(Moved(n));
  }

  lemma WrongWay(id: nat, pipes: map<nat, Pipe>, pipes': map<nat, Pipe>, data: seq<byte>, want: nat)
    ensures forall r, more :: WriteOf(OpenFile(PipeEnd(id, false), true, false), pipes, pipes', data, 0, r, more) ==>
      r == Err(ReadOnlyFile) && pipes' == pipes
    ensures forall r :: ReadOf(OpenFile(PipeEnd(id, true), false, true), pipes, pipes', want, r) ==>
      r == Err(WriteOnlyFile) && pipes' == pipes
  {}

  lemma WrittenWhole(id: nat, pipes: map<nat, Pipe>, pipes': map<nat, Pipe>, data: seq<byte>, r: Result<Moved<nat>>,
                     more: bool)
    requires WriteOf(OpenFile(PipeEnd(id, true), false, true), pipes, pipes', data, 0, r, more)
    requires id in pipes && pipes[id] == Pipe([], 1, 1) && |data| <= PIPE_CAPACITY
    ensures r == Ok(Moved(|data|)) && !more && pipes' == pipes[id := Pipe(data, 1, 1)]
  {
    assert [] + data[0..|data|] == data;
  }

  lemma ReadWhole(id: nat, pipes: map<nat, Pipe>, pipes': map<nat, Pipe>, data: seq<byte>, r: Result<Moved<seq<byte>>>)
    requires ReadOf(OpenFile(PipeEnd(id, false), true, false), pipes, pipes', |data|, r)
    requires id in pipes && pipes[id] == Pipe(data, 1, 1) && data != []
    ensures r == Ok(Moved(data))
  {
    assert data[..|data|] == data;
  }

  /** What is written to the second descriptor of a new pipe is read from the first, and nothing the other way. */
  method ThroughPipe(v: Vfs, task: nat, data: seq<byte>) returns (r: Result<(nat, nat)>, got: seq<byte>)
    requires v.Valid() && 0 < |data| <= PIPE_CAPACITY
    modifies v
    ensures v.Valid()
    ensures r.Ok? <==> task in old(v.tables) && |old(v.tables)[task].files| < MAX_FDS - 1
    ensures r.Ok? ==> got == data
  {
    hide Holders, Held, TablesOk, CountsIn, StreamsIn, WithPipe, ReadOf, WriteOf;
    got := [];
    ghost var id := v.nextPipeId;
    r := v.MakePipe(task);
    if r.Err? {
      return;
    }
    ghost var made := v.pipes;
    var _, _ := Write(v, task, r.value.0, data, 0);
    WrongWay(id, made, v.pipes, data, |data|);
    var _ := Read(v, task, r.value.1, |data|);
    WrongWay(id, made, v.pipes, data, |data|);
    var w, more := Write(v, task, r.value.1, data, 0);
    ghost var full := v.pipes;
    WrittenWhole(id, made, full, data, w, more);
    var g := Read(v, task, r.value.0, |data|);
    ReadWhole(id, full, v.pipes, data, g);
    got := g.value.value;
  }

  /** The pipes after one descriptor of kind `kind` was let go. */
  function Released(kind: FileType, pipes: map<nat, Pipe>): map<nat, Pipe> {
    if kind.PipeEnd? && kind.id in pipes then
      var p := Closed(pipes[kind.id], kind.write);
      if p.readEnds == 0 && p.writeEnds == 0 then pipes - {kind.id} else pipes[kind.id := p]
    else pipes
  }

  function WithPipe(table: FdTable, a: nat, b: nat, id: nat): FdTable {
    FdTable(table.files[a := PipeFile(id, false)][b := PipeFile(id, true)], b + 1)
  }

  /** Two descriptors were added: one that only reads pipe `id`, and one that only writes to it. */
  ghost predicate TwoEnds(files: map<nat, OpenFile>, files': map<nat, OpenFile>, a: nat, b: nat, id: nat) {
    && files'.Keys == files.Keys + {a, b} && a !in files && b !in files
    && files'[a] == OpenFile(PipeEnd(id, false), true, false)
    && files'[b] == OpenFile(PipeEnd(id, true), false, true)
    && forall fd :: fd in files ==> files'[fd] == files[fd]
  }

  lemma PipeGiven(table: FdTable, a: nat, b: nat, id: nat)
    requires a !in table.files && b !in table.files && a != b
    ensures TwoEnds(table.files, WithPipe(table, a, b, id).files, a, b, id)
  {}

  function WithoutFd(table: FdTable, fd: nat): FdTable { table.(files := table.files - {fd}) }

  /** The pipes after one more descriptor of kind `kind` came to be. */
  function OneOpened(kind: FileType, pipes: map<nat, Pipe>): map<nat, Pipe> {
    if kind.PipeEnd? && kind.id in pipes then pipes[kind.id := Opened(pipes[kind.id], kind.write, 1)] else pipes
  }

  /** A pipe with `n` more ends open. */
  function Opened(p: Pipe, write: bool, n: nat): Pipe {
    if write then p.(writeEnds := p.writeEnds + n) else p.(readEnds := p.readEnds + n)
  }

  /** A pipe with one end fewer open. */
  function Closed(p: Pipe, write: bool): Pipe {
    if write then p.(writeEnds := if p.writeEnds == 0 then 0 else p.writeEnds - 1)
    else p.(readEnds := if p.readEnds == 0 then 0 else p.readEnds - 1)
  }

  /** The count of one end of one pipe has gone up by one; all other counts, and all bytes, are as they were. */
  ghost predicate OneMore(pipes: map<nat, Pipe>, pipes': map<nat, Pipe>, id: nat, write: bool) {
    && pipes'.Keys == pipes.Keys && SameBytes(pipes, pipes')
    && forall i, w :: i in pipes ==> Ends(pipes'[i], w) == Ends(pipes[i], w) + if i == id && w == write then 1 else 0
  }

  /**
   * The count of one end of one pipe has gone down by one, unless it was zero, and the pipe is gone if that left
   * it without any end; all other counts, and all bytes, are as they were.
   */
  ghost predicate OneFewer(pipes: map<nat, Pipe>, pipes': map<nat, Pipe>, id: nat, write: bool) {
    && SameBytes(pipes, pipes')
    && (forall i :: i in pipes ==>
       (i in pipes' <==> !(i == id && Ends(pipes[i], write) <= 1 && Ends(pipes[i], !write) == 0)))
    && (forall i, w :: i in pipes' && !(i == id && w == write) ==> Ends(pipes'[i], w) == Ends(pipes[i], w))
    && (id in pipes' ==> Ends(pipes'[id], write) == if Ends(pipes[id], write) == 0 then 0
       else Ends(pipes[id], write) - 1)
  }

  lemma SamePipe(p: Pipe, p': Pipe)
    requires p.buf == p'.buf && forall w :: Ends(p, w) == Ends(p', w)
    ensures p == p'
  {
    assert Ends(p, true) == Ends(p', true) && Ends(p, false) == Ends(p', false);
  }

  lemma MoreIsOpened(pipes: map<nat, Pipe>, pipes': map<nat, Pipe>, id: nat, write: bool)
    requires OneMore(pipes, pipes', id, write)
    ensures pipes' == OneOpened(PipeEnd(id, write), pipes)
  {
    hide Ends;
    forall i | i in pipes ensures pipes'[i] == OneOpened(PipeEnd(id, write), pipes)[i] {
      OpenedEnds(pipes[i], write);
      SamePipe(pipes'[i], OneOpened(PipeEnd(id, write), pipes)[i]);
    }
  }

  lemma OpenedEnds(p: Pipe, write: bool)
    ensures forall w :: Ends(Opened(p, write, 1), w) == Ends(p, w) + if w == write then 1 else 0
    ensures forall w :: Ends(Closed(p, write), w) == if w == write && Ends(p, w) > 0 then Ends(p, w) - 1 else Ends(p, w)
  {}

  lemma FewerIsReleased(pipes: map<nat, Pipe>, pipes': map<nat, Pipe>, id: nat, write: bool)
    requires OneFewer(pipes, pipes', id, write)
    ensures pipes' == Released(PipeEnd(id, write), pipes)
  {
    var r := Released(PipeEnd(id, write), pipes);
    forall i | i in pipes' ensures i in r && pipes'[i] == r[i] {
      OpenedEnds(pipes[i], write);
      SamePipe(pipes'[i], r[i]);
    }
  }

  /** Letting go of an end that has just been duplicated changes nothing, as long as the pipe had an end at all. */
  lemma DupThenClose(pipes0: map<nat, Pipe>, pipes1: map<nat, Pipe>, pipes2: map<nat, Pipe>, id: nat, write: bool)
    requires OneMore(pipes0, pipes1, id, write) && OneFewer(pipes1, pipes2, id, write)
    ensures pipes2 == pipes0 <==> (id in pipes0 ==> TotalEnds(pipes0[id]) > 0)
  {
    MoreIsOpened(pipes0, pipes1, id, write);
    FewerIsReleased(pipes1, pipes2, id, write);
  }

  /** Nothing is lost, repeated or reordered: what was delivered and what is buffered is what was pushed. */
  ghost predicate StreamsIn(pipes: map<nat, Pipe>, pushed: map<nat, seq<byte>>, delivered: map<nat, seq<byte>>) {
    forall id :: id in pipes ==>
      && |pipes[id].buf| <= PIPE_CAPACITY
      && id in pushed && id in delivered && pushed[id] == delivered[id] + pipes[id].buf
  }

  // ---------------------------------------------------------------- what the methods keep

  /** Some pipes may be gone, and ends may have been opened or closed, but the bytes are as they were. */
  ghost predicate SameBytes(pipes: map<nat, Pipe>, pipes': map<nat, Pipe>) {
    forall id :: id in pipes' ==> id in pipes && pipes'[id].buf == pipes[id].buf
  }

  lemma StreamsFewer(pipes: map<nat, Pipe>, pipes': map<nat, Pipe>, pushed: map<nat, seq<byte>>,
                     delivered: map<nat, seq<byte>>)
    requires StreamsIn(pipes, pushed, delivered) && SameBytes(pipes, pipes')
    ensures StreamsIn(pipes', pushed, delivered) && pipes'.Keys <= pipes.Keys
  {}

  lemma StreamBorn(pipes: map<nat, Pipe>, pushed: map<nat, seq<byte>>, delivered: map<nat, seq<byte>>, id: nat)
    requires StreamsIn(pipes, pushed, delivered) && id !in pipes
    ensures StreamsIn(pipes[id := Pipe([], 1, 1)], pushed[id := []], delivered[id := []])
  {}

  lemma StreamPush(pipes: map<nat, Pipe>, pushed: map<nat, seq<byte>>, delivered: map<nat, seq<byte>>, id: nat,
                   x: seq<byte>)
    requires StreamsIn(pipes, pushed, delivered) && id in pipes && |pipes[id].buf| + |x| <= PIPE_CAPACITY
    ensures id in pushed
    ensures StreamsIn(pipes[id := pipes[id].(buf := pipes[id].buf + x)], pushed[id := pushed[id] + x], delivered)
  {
    assert pushed[id] + x == delivered[id] + (pipes[id].buf + x);
  }

  lemma StreamPop(pipes: map<nat, Pipe>, pushed: map<nat, seq<byte>>, delivered: map<nat, seq<byte>>, id: nat, n: nat)
    requires StreamsIn(pipes, pushed, delivered) && id in pipes && n <= |pipes[id].buf|
    ensures id in delivered && |pipes[id].buf| <= PIPE_CAPACITY
    ensures StreamsIn(pipes[id := pipes[id].(buf := pipes[id].buf[n..])], pushed,
        delivered[id := delivered[id] + pipes[id].buf[..n]])
  {
    assert pushed[id] == (delivered[id] + pipes[id].buf[..n]) + pipes[id].buf[n..];
  }

  lemma NoneHeld(files: map<nat, OpenFile>, end: FileType)
    requires forall fd :: fd in files ==> files[fd].kind != end
    ensures Held(files, end) == {}
  {}

  lemma CountsSame(tables: Tables, tables': Tables, pipes: map<nat, Pipe>)
    requires CountsIn(tables, pipes)
    requires forall end: FileType :: end.PipeEnd? ==> |Holders(tables', end)| == |Holders(tables, end)|
    ensures CountsIn(tables', pipes)
  {
    hide Holders;
  }

  lemma NextFree(tables: Tables, t: nat, live: set<nat>)
    requires TablesOk(tables, live) && t in tables
    ensures TableOk(tables[t], live) && forall fd :: fd in tables[t].files ==> fd < tables[t].nextFd
  {}

  /** An end nobody was told of has no holders. */
  lemma Unheld(tables: Tables, live: set<nat>, id: nat, write: bool)
    requires TablesOk(tables, live) && id !in live
    ensures Holders(tables, PipeEnd(id, write)) == {}
  {
    assert forall x :: x in Holders(tables, PipeEnd(id, write)) ==> TableOk(tables[x.task], live);
  }

  lemma HalfMade(tables: Tables, pipes: map<nat, Pipe>, t: nat, table: FdTable, a: nat, id: nat, stillborn: set<nat>)
    requires t in tables && CountsIn(tables, pipes) && TablesOk(tables, pipes.Keys + stillborn)
    requires id !in pipes && a !in tables[t].files && a == tables[t].nextFd
    requires table == FdTable(tables[t].files[a := PipeFile(id, false)], a + 1)
    ensures CountsIn(tables[t := table], pipes) && TablesOk(tables[t := table], pipes.Keys + (stillborn + {id}))
  {
    hide Holders, Held;
    forall x, write | x in pipes
      ensures |Holders(tables[t := table], PipeEnd(x, write))| == |Holders(tables, PipeEnd(x, write))|
    {
      TableChanged(tables, t, table, PipeEnd(x, write));
      FileAdded(tables[t].files, a, PipeFile(id, false), PipeEnd(x, write));
    }
    assert TableOk(tables[t], pipes.Keys + stillborn);
  }

  lemma BothMade(tables: Tables, pipes: map<nat, Pipe>, t: nat, a: nat, b: nat, id: nat, stillborn: set<nat>)
    requires t in tables && CountsIn(tables, pipes) && TablesOk(tables, pipes.Keys + stillborn)
    requires id !in pipes && id !in stillborn && a !in tables[t].files && b !in tables[t].files
        && a == tables[t].nextFd && a < b
    ensures var tables', pipes' := tables[t := WithPipe(tables[t], a, b, id)], pipes[id := Pipe([], 1, 1)];
            CountsIn(tables', pipes') && TablesOk(tables', pipes'.Keys + stillborn)
  {
    hide Holders, Held;
    var table := WithPipe(tables[t], a, b, id);
    var files1 := tables[t].files[a := PipeFile(id, false)];
    forall x, write
      ensures |Holders(tables[t := table], PipeEnd(x, write))| == |Holders(tables, PipeEnd(x, write))| + if x == id
          then 1 else 0
    {
      TableChanged(tables, t, table, PipeEnd(x, write));
      FileAdded(tables[t].files, a, PipeFile(id, false), PipeEnd(x, write));
      FileAdded(files1, b, PipeFile(id, true), PipeEnd(x, write));
    }
    Unheld(tables, pipes.Keys + stillborn, id, false);
    Unheld(tables, pipes.Keys + stillborn, id, true);
    assert TableOk(tables[t], pipes.Keys + stillborn);
  }

  /** When no descriptor holds an end of pipe `id`, nobody can tell that it is gone. */
  lemma LastGone(tables: Tables, live: set<nat>, live': set<nat>, id: nat)
    requires TablesOk(tables, live) && forall x :: x in live && x != id ==> x in live'
    requires Holders(tables, PipeEnd(id, false)) == {} && Holders(tables, PipeEnd(id, true)) == {}
    ensures TablesOk(tables, live')
  {
    forall t | t in tables ensures TableOk(tables[t], live') {
      assert TableOk(tables[t], live);
      forall fd | fd in tables[t].files && tables[t].files[fd].kind.PipeEnd? ensures tables[t].files[fd].kind.id != id {
        assert Holder(t, fd) !in Holders(tables, PipeEnd(id, tables[t].files[fd].kind.write));
      }
    }
  }

  lemma FdClosed(tables: Tables, pipes: map<nat, Pipe>, t: nat, fd: nat, stillborn: set<nat>)
    requires t in tables && fd in tables[t].files && CountsIn(tables, pipes) && TablesOk(tables, pipes.Keys + stillborn)
    ensures var tables', kind := tables[t := WithoutFd(tables[t], fd)], tables[t].files[fd].kind;
            && CountsIn(tables', Released(kind, pipes)) && TablesOk(tables', Released(kind, pipes).Keys + stillborn)
            && (kind.PipeEnd? && kind.id in pipes ==>
                  && Ends(pipes[kind.id], kind.write) > 0
                  && (kind.id !in Released(kind, pipes) <==> TotalEnds(pipes[kind.id]) == 1))
  {
    hide Holders, Held;
    var tables', kind := tables[t := WithoutFd(tables[t], fd)], tables[t].files[fd].kind;
    assert TableOk(tables[t], pipes.Keys + stillborn);
    forall end: FileType ensures |Holders(tables, end)| == |Holders(tables', end)| + if kind == end then 1 else 0 {
      TableChanged(tables, t, WithoutFd(tables[t], fd), end);
      FileRemoved(tables[t].files, fd, end);
    }
    if kind.PipeEnd? && kind.id in pipes {
      assert RightCount(pipes[kind.id], tables, kind.id);
      assert RightCount(Closed(pipes[kind.id], kind.write), tables', kind.id);
      if TotalEnds(pipes[kind.id]) == 1 {
        LastGone(tables', pipes.Keys + stillborn, Released(kind, pipes).Keys + stillborn, kind.id);
      } else {
        assert Released(kind, pipes).Keys == pipes.Keys;
      }
    }
  }

  /** The files of some of the descriptors. */
  function Part(files: map<nat, OpenFile>, fds: set<nat>): map<nat, OpenFile> {
    map fd | fd in fds && fd in files :: files[fd]
  }

  /** `p'` is `p` with one more end open for each descriptor in `files` that holds one. */
  ghost predicate Duplicated(p: Pipe, p': Pipe, id: nat, files: map<nat, OpenFile>) {
    p' == Pipe(p.buf, p.readEnds + |Held(files, PipeEnd(id, false))|, p.writeEnds + |Held(files, PipeEnd(id, true))|)
  }

  ghost predicate AllDuplicated(pipes: map<nat, Pipe>, pipes': map<nat, Pipe>, files: map<nat, OpenFile>) {
    pipes'.Keys == pipes.Keys && forall id :: id in pipes ==> Duplicated(pipes[id], pipes'[id], id, files)
  }

  lemma NoneHeldYet(pipes: map<nat, Pipe>, files: map<nat, OpenFile>)
    ensures AllDuplicated(pipes, pipes, Part(files, {}))
  {
    assert Part(files, {}) == map[];
    assert forall end: FileType :: Held(map[], end) == {};
  }

  lemma WholePart(files: map<nat, OpenFile>, done: set<nat>)
    requires files.Keys == done
    ensures Part(files, done) == files
  {}

  lemma OneMoreHeld(pipes0: map<nat, Pipe>, pipes: map<nat, Pipe>, files: map<nat, OpenFile>, done: set<nat>, fd: nat)
    requires AllDuplicated(pipes0, pipes, Part(files, done)) && fd in files && fd !in done
    ensures AllDuplicated(pipes0, OneOpened(files[fd].kind, pipes), Part(files, done + {fd}))
  {
    hide Held;
    assert Part(files, done + {fd}) == Part(files, done)[fd := files[fd]];
    forall id | id in pipes0
      ensures Duplicated(pipes0[id], OneOpened(files[fd].kind, pipes)[id], id, Part(files, done + {fd}))
    {
      FileAdded(Part(files, done), fd, files[fd], PipeEnd(id, false));
      FileAdded(Part(files, done), fd, files[fd], PipeEnd(id, true));
    }
  }

  lemma AllDuplicatedKeeps(pipes: map<nat, Pipe>, pipes': map<nat, Pipe>, files: map<nat, OpenFile>)
    requires AllDuplicated(pipes, pipes', files)
    ensures pipes'.Keys == pipes.Keys && SameBytes(pipes, pipes')
  {
    assert forall id :: id in pipes ==> Duplicated(pipes[id], pipes'[id], id, files);
  }

  lemma StandardEnds(pipes: map<nat, Pipe>, live: set<nat>)
    ensures AllDuplicated(pipes, pipes, STANDARD.files) && TableOk(STANDARD, live)
  {
    forall end: FileType | end.PipeEnd? ensures Held(STANDARD.files, end) == {} {
      NoneHeld(STANDARD.files, end);
    }
  }

  /** A table holds an end of a registered pipe. */
  ghost predicate HoldsEnd(tables: Tables, t: nat, pipes: map<nat, Pipe>) {
    t in tables && exists fd ::
      fd in tables[t].files && tables[t].files[fd].kind.PipeEnd? && tables[t].files[fd].kind.id in pipes
  }

  /** A table put in place of another is counted right if and only if the other held no end of a registered pipe. */
  lemma Replaced(tables: Tables, pipes: map<nat, Pipe>, pipes': map<nat, Pipe>, t: nat, table: FdTable,
                 stillborn: set<nat>)
    requires CountsIn(tables, pipes) && TablesOk(tables, pipes.Keys + stillborn)
        && TableOk(table, pipes.Keys + stillborn)
    requires AllDuplicated(pipes, pipes', table.files)
    ensures CountsIn(tables[t := table], pipes') <==> !HoldsEnd(tables, t, pipes)
    ensures TablesOk(tables[t := table], pipes'.Keys + stillborn)
  {
    hide Holders, Held, RightCount;
    var was := if t in tables then tables[t].files else map[];
    forall id | id in pipes
      ensures RightCount(pipes'[id], tables[t := table], id) <==>
          Held(was, PipeEnd(id, false)) == Held(was, PipeEnd(id, true)) == {}
      ensures TotalEnds(pipes'[id]) > 0
    {
      assert Duplicated(pipes[id], pipes'[id], id, table.files);
      RecountedIff(tables, pipes[id], pipes'[id], t, table, id);
    }
    HeldEnds(was, pipes);
  }

  lemma HeldEnds(files: map<nat, OpenFile>, pipes: map<nat, Pipe>)
    ensures (exists fd :: fd in files && files[fd].kind.PipeEnd? && files[fd].kind.id in pipes) <==>
            exists id :: id in pipes && !(Held(files, PipeEnd(id, false)) == Held(files, PipeEnd(id, true)) == {})
  {
    if fd :| fd in files && files[fd].kind.PipeEnd? && files[fd].kind.id in pipes {
      assert fd in Held(files, files[fd].kind) && files[fd].kind == PipeEnd(files[fd].kind.id, files[fd].kind.write);
    }
    if id, w :| id in pipes && Held(files, PipeEnd(id, w)) != {} {
      var fd :| fd in Held(files, PipeEnd(id, w));
    }
  }

  lemma RecountedIff(tables: Tables, p: Pipe, p': Pipe, t: nat, table: FdTable, id: nat)
    requires RightCount(p, tables, id) && Duplicated(p, p', id, table.files)
    ensures var was := if t in tables then tables[t].files else map[];
            RightCount(p', tables[t := table], id) <==>
              Held(was, PipeEnd(id, false)) == Held(was, PipeEnd(id, true)) == {}
  {
    hide Holders, Held;
    forall w: bool
      ensures var was := if t in tables then tables[t].files else map[];
              |Holders(tables[t := table], PipeEnd(id, w))| + |Held(was, PipeEnd(id, w))| ==
              |Holders(tables, PipeEnd(id, w))| + |Held(table.files, PipeEnd(id, w))|
    {
      if t in tables {
        TableChanged(tables, t, table, PipeEnd(id, w));
      } else {
        TableAdded(tables, t, table, PipeEnd(id, w));
        NoneHeld(map[], PipeEnd(id, w));
      }
    }
  }

  /** Counts and descriptors agree as if the descriptors in `todo` were still there. */
  ghost predicate Draining(tables: Tables, pipes: map<nat, Pipe>, t: nat, table: FdTable, todo: set<nat>,
                           stillborn: set<nat>) {
    && t !in tables
    && CountsIn(tables[t := FdTable(Part(table.files, todo), table.nextFd)], pipes)
    && TablesOk(tables[t := FdTable(Part(table.files, todo), table.nextFd)], pipes.Keys + stillborn)
  }

  lemma DrainStart(tables: Tables, pipes: map<nat, Pipe>, t: nat, stillborn: set<nat>)
    requires t in tables && CountsIn(tables, pipes) && TablesOk(tables, pipes.Keys + stillborn)
    ensures Draining(tables - {t}, pipes, t, tables[t], tables[t].files.Keys, stillborn)
  {
    hide Holders, CountsIn, TablesOk;
    var table := tables[t];
    assert Part(table.files, table.files.Keys) == table.files;
    assert (tables - {t})[t := table] == tables;
  }

  lemma SameBytesRefl(pipes: map<nat, Pipe>)
    ensures SameBytes(pipes, pipes)
  {}

  lemma SameBytesTrans(a: map<nat, Pipe>, b: map<nat, Pipe>, c: map<nat, Pipe>)
    requires SameBytes(a, b) && SameBytes(b, c)
    ensures SameBytes(a, c)
  {}

  lemma DrainStep(tables: Tables, pipes: map<nat, Pipe>, t: nat, table: FdTable, todo: set<nat>, fd: nat,
                  stillborn: set<nat>)
    requires Draining(tables, pipes, t, table, todo, stillborn) && fd in todo && fd in table.files
    ensures var pipes' := Released(table.files[fd].kind, pipes);
            && Draining(tables, pipes', t, table, todo - {fd}, stillborn)
            && (!table.files[fd].kind.PipeEnd? ==> pipes' == pipes)
            && SameBytes(pipes, pipes')
  {
    hide Holders, Held, CountsIn, TablesOk;
    var rest := FdTable(Part(table.files, todo), table.nextFd);
    var whole := tables[t := rest];
    FdClosed(whole, pipes, t, fd, stillborn);
    assert WithoutFd(rest, fd) == FdTable(Part(table.files, todo - {fd}), table.nextFd);
    assert whole[t := WithoutFd(rest, fd)] == tables[t := WithoutFd(rest, fd)];
    ReleasedBufs(table.files[fd].kind, pipes);
  }

  lemma EmptyTable(tables: Tables, pipes: map<nat, Pipe>, t: nat, table: FdTable, stillborn: set<nat>)
    requires Draining(tables, pipes, t, table, {}, stillborn)
    ensures CountsIn(tables, pipes) && TablesOk(tables, pipes.Keys + stillborn)
  {
    hide Holders, Held;
    assert Part(table.files, {}) == map[];
    var tables' := tables[t := FdTable(map[], table.nextFd)];
    forall end: FileType ensures |Holders(tables, end)| == |Holders(tables', end)| {
      TableAdded(tables, t, FdTable(map[], table.nextFd), end);
      NoneHeld(map[], end);
    }
    forall u | u in tables ensures TableOk(tables[u], pipes.Keys + stillborn) {
      assert TableOk(tables'[u], pipes.Keys + stillborn);
    }
  }

  lemma ReleasedBufs(kind: FileType, pipes: map<nat, Pipe>)
    ensures forall id :: id in Released(kind, pipes) ==> id in pipes && Released(kind, pipes)[id].buf == pipes[id].buf
    ensures !kind.PipeEnd? ==> Released(kind, pipes) == pipes
  {}

  lemma BufferOnly(tables: Tables, pipes: map<nat, Pipe>, id: nat, p: Pipe)
    requires CountsIn(tables, pipes) && id in pipes && p == pipes[id].(buf := p.buf)
    ensures CountsIn(tables, pipes[id := p])
  {
    hide Holders;
  }

  /** A pipe is registered exactly while some descriptor holds one of its ends. */
  lemma RegisteredIffHeld(v: Vfs, id: nat)
    requires v.Valid() && id !in v.stillborn
    ensures id in v.pipes <==> Holders(v.tables, PipeEnd(id, false)) + Holders(v.tables, PipeEnd(id, true)) != {}
  {
    if id in v.pipes {
      assert RightCount(v.pipes[id], v.tables, id);
    } else {
      Unheld(v.tables, v.pipes.Keys + v.stillborn, id, false);
      Unheld(v.tables, v.pipes.Keys + v.stillborn, id, true);
    }
  }
}
