/** Page tables as a tree of table pages, and the copy of that tree made for each new address space. */
module PageTables {
  import opened Options

  const ENTRIES: nat := 512
  const ALL_PAGES: nat := 0x10_0000_0000  // page numbers that four levels of tables tell apart

  /** `bits` stands for the flags of an entry other than the huge-page flag. */
  datatype Entry = Unused | Used(frame: nat, huge: bool, bits: nat)

  type Table = t: seq<Entry> | |t| == ENTRIES witness seq(ENTRIES, _ => Unused)

  type Tables = map<nat, Table>

  /** Where a walk ends: the entry, and the level it was found at (above 1 for a huge page). */
  datatype Hit = Hit(entry: Entry, level: nat)

  predicate IsLeaf(e: Entry, level: nat) { e.Used? && (level == 1 || e.huge) }

  predicate IsBranch(e: Entry, level: nat) { e.Used? && level > 1 && !e.huge }

  function Scale(level: nat): (r: nat)
    requires level >= 1
    ensures r > 0
  {
    if level == 1 then 1 else ENTRIES * Scale(level - 1)
  }

  /** The slot that page number `page` selects in a table of the given level. */
  function Index(page: nat, level: nat): (i: nat)
    requires level >= 1
    ensures i < ENTRIES
  {
    page / Scale(level) % ENTRIES
  }

  /** What the processor finds for a page, starting at table `f`. */
  function Walk(tables: Tables, level: nat, f: nat, page: nat): Option<Hit>
    requires level >= 1
    decreases level
  {
    if f !in tables then None
    else
      var e := tables[f][Index(page, level)];
      if e.Unused? then None
      else if IsLeaf(e, level) then Some(Hit(e, level))
      else Walk(tables, level - 1, e.frame, page)
  }

  /** Every table reachable from `f` exists and lies in `area`. */
  predicate Within(tables: Tables, level: nat, f: nat, area: set<nat>)
    requires level >= 1
    decreases level
  {
    && f in area && f in tables
    && forall i :: 0 <= i < ENTRIES && IsBranch(tables[f][i], level) ==>
         Within(tables, level - 1, tables[f][i].frame, area)
  }

  ghost predicate Agree(a: Tables, b: Tables, area: set<nat>) {
    forall f :: f in area && f in a ==> f in b && b[f] == a[f]
  }

  /** From two tables, every page leads to the same entry at the same level. */
  ghost predicate SameWalks(a: Tables, f: nat, b: Tables, g: nat, level: nat)
    requires level >= 1
  {
    forall page :: Walk(a, level, f, page) == Walk(b, level, g, page)
  }

  /** Walks depend only on the tables they can reach. */
  lemma {:induction false} WithinKeeps(a: Tables, b: Tables, level: nat, f: nat, area: set<nat>, area': set<nat>)
    requires level >= 1 && Within(a, level, f, area) && Agree(a, b, area) && area <= area'
    ensures Within(b, level, f, area')
    ensures SameWalks(a, f, b, f, level)
    decreases level
  {
    forall i | 0 <= i < ENTRIES && IsBranch(a[f][i], level)
      ensures Within(b, level - 1, a[f][i].frame, area')
      ensures SameWalks(a, a[f][i].frame, b, a[f][i].frame, level - 1)
    {
      WithinKeeps(a, b, level - 1, a[f][i].frame, area, area');
    }
    forall page ensures Walk(a, level, f, page) == Walk(b, level, f, page) {
      var e := a[f][Index(page, level)];
      if IsBranch(e, level) {
        assert SameWalks(a, e.frame, b, e.frame, level - 1);
      }
    }
  }

  /** The tables reachable from `f`. */
  ghost function Below(tables: Tables, level: nat, f: nat): set<nat>
    requires level >= 1
    decreases level, 1
  {
    if f !in tables then {} else {f} + set i, g | 0 <= i < ENTRIES && g in Under(tables, level, tables[f][i]) :: g
  }

  /** The tables reachable through entry `e` of a table of the given level. */
  ghost function Under(tables: Tables, level: nat, e: Entry): set<nat>
    requires level >= 1
    decreases level, 0
  {
    if IsBranch(e, level) then Below(tables, level - 1, e.frame) else {}
  }

  /** The tables reachable from `f` form a tree: no two entries lead to one table. */
  ghost predicate Tree(tables: Tables, level: nat, f: nat)
    requires level >= 1
    decreases level
  {
    && f in tables
    && (forall i :: 0 <= i < ENTRIES && IsBranch(tables[f][i], level) ==> Tree(tables, level - 1, tables[f][i].frame))
    && Spread(tables, level, f)
  }

  /** The subtrees of one table have nothing in common with one another or with the table. */
  ghost predicate Spread(tables: Tables, level: nat, f: nat)
    requires level >= 1 && f in tables
  {
    && (forall i :: 0 <= i < ENTRIES ==> f !in Under(tables, level, tables[f][i]))
    && (forall i, j :: 0 <= i < j < ENTRIES ==>
       Under(tables, level, tables[f][i]) !! Under(tables, level, tables[f][j]))
  }

  lemma BelowParts(tables: Tables, level: nat, f: nat)
    requires level >= 1 && f in tables
    ensures f in Below(tables, level, f)
    ensures forall i :: 0 <= i < ENTRIES ==> Under(tables, level, tables[f][i]) <= Below(tables, level, f)
    ensures forall g :: g in Below(tables, level, f) && g != f ==>
        exists i :: 0 <= i < ENTRIES && g in Under(tables, level, tables[f][i])
  {}

  /** A tree depends only on its own tables. */
  lemma {:induction false} TreeKeeps(a: Tables, b: Tables, level: nat, f: nat)
    requires level >= 1 && Tree(a, level, f) && Agree(a, b, Below(a, level, f))
    ensures Tree(b, level, f) && Below(b, level, f) == Below(a, level, f) && SameWalks(a, f, b, f, level)
    decreases level
  {
    hide Below, SameWalks;
    BelowParts(a, level, f);
    assert b[f] == a[f];
    forall i | 0 <= i < ENTRIES
      ensures Under(b, level, b[f][i]) == Under(a, level, a[f][i])
      ensures IsBranch(a[f][i], level) ==>
        Tree(b, level - 1, b[f][i].frame) && SameWalks(a, a[f][i].frame, b, b[f][i].frame, level - 1)
    {
      if IsBranch(a[f][i], level) {
        assert Agree(a, b, Under(a, level, a[f][i]));
        TreeKeeps(a, b, level - 1, a[f][i].frame);
      }
    }
    SameBelow(a, b, level, f);
    SameEntries(a, b, level, f);
  }

  lemma SameBelow(a: Tables, b: Tables, level: nat, f: nat)
    requires level >= 1 && f in a && f in b
    requires forall i :: 0 <= i < ENTRIES ==> Under(b, level, b[f][i]) == Under(a, level, a[f][i])
    ensures Below(b, level, f) == Below(a, level, f)
  {}

  lemma SameEntries(a: Tables, b: Tables, level: nat, f: nat)
    requires level >= 1 && f in a && f in b && a[f] == b[f]
    requires forall i :: 0 <= i < ENTRIES && IsBranch(a[f][i], level) ==>
        SameWalks(a, a[f][i].frame, b, b[f][i].frame, level - 1)
    ensures SameWalks(a, f, b, f, level)
  {
    forall page ensures Walk(a, level, f, page) == Walk(b, level, f, page) {
      var e := a[f][Index(page, level)];
      if IsBranch(e, level) { assert SameWalks(a, e.frame, b, e.frame, level - 1); }
    }
  }

  /** What hangs below the first `n` entries of table `d` are trees apart from one another, all inside `area`. */
  ghost predicate SubTrees(tables: Tables, level: nat, d: nat, n: nat, area: set<nat>)
    requires level >= 1
  {
    && d in tables && d !in area && n <= ENTRIES
    && (forall i :: 0 <= i < n && IsBranch(tables[d][i], level) ==> Tree(tables, level - 1, tables[d][i].frame))
    && (forall i :: 0 <= i < n ==> Under(tables, level, tables[d][i]) <= area)
    && (forall i, j :: 0 <= i < j < n ==> Under(tables, level, tables[d][i]) !! Under(tables, level, tables[d][j]))
  }

  lemma SubTreesStep(was: Tables, tables: Tables, level: nat, d: nat, n: nat, area: set<nat>, young: set<nat>)
    requires level >= 1 && n < ENTRIES && SubTrees(was, level, d, n, area) && d in tables && d !in young
        && area !! young
    requires Agree(was, tables, area) && forall i :: 0 <= i < n ==> tables[d][i] == was[d][i]
    requires Under(tables, level, tables[d][n]) <= young
    requires IsBranch(tables[d][n], level) ==> Tree(tables, level - 1, tables[d][n].frame)
    ensures SubTrees(tables, level, d, n + 1, area + young)
  {
    hide Tree, Below;
    forall i | 0 <= i < n
      ensures Under(tables, level, tables[d][i]) == Under(was, level, was[d][i])
      ensures IsBranch(was[d][i], level) ==> Tree(tables, level - 1, tables[d][i].frame)
    {
      if IsBranch(was[d][i], level) {
        assert Under(was, level, was[d][i]) <= area;
        TreeKeeps(was, tables, level - 1, was[d][i].frame);
      }
    }
  }

  lemma SubTreesAll(tables: Tables, level: nat, d: nat, area: set<nat>)
    requires level >= 1 && SubTrees(tables, level, d, ENTRIES, area)
    ensures Tree(tables, level, d) && Below(tables, level, d) <= area + {d}
  {
    BelowParts(tables, level, d);
  }

  /** Entry `d` of a copy stands for entry `e` of the source: the same leaf, or a private table walking alike. */
  ghost predicate EntryCopied(src0: Tables, e: Entry, tables: Tables, d: Entry, level: nat, area: set<nat>)
    requires level >= 1
  {
    if IsBranch(e, level) then
      && d.Used? && d == e.(frame := d.frame)
      && Within(tables, level - 1, d.frame, area)
      && SameWalks(src0, e.frame, tables, d.frame, level - 1)
    else d == e
  }

  lemma EntryKept(src0: Tables, e: Entry, a: Tables, d: Entry, level: nat, area: set<nat>, b: Tables, area': set<nat>)
    requires level >= 1 && EntryCopied(src0, e, a, d, level, area) && Agree(a, b, area) && area <= area'
    ensures EntryCopied(src0, e, b, d, level, area')
  {
    if IsBranch(e, level) {
      WithinKeeps(a, b, level - 1, d.frame, area, area');
      SameWalksTrans(src0, e.frame, a, d.frame, b, d.frame, level - 1);
    }
  }

  /** A table whose entries are all copied walks like its source. */
  lemma TableCopied(src0: Tables, src: nat, tables: Tables, dst: nat, level: nat, area: set<nat>)
    requires level >= 1 && src in src0 && dst in tables && dst in area
    requires forall i :: 0 <= i < ENTRIES ==> EntryCopied(src0, src0[src][i], tables, tables[dst][i], level, area)
    ensures Within(tables, level, dst, area)
    ensures SameWalks(src0, src, tables, dst, level)
  {
    forall page ensures Walk(src0, level, src, page) == Walk(tables, level, dst, page) {
      var i := Index(page, level);
      assert EntryCopied(src0, src0[src][i], tables, tables[dst][i], level, area);
      if IsBranch(src0[src][i], level) {
        assert Walk(src0, level - 1, src0[src][i].frame, page) == Walk(tables, level - 1, tables[dst][i].frame, page);
      }
    }
    forall i | 0 <= i < ENTRIES && IsBranch(tables[dst][i], level)
      ensures Within(tables, level - 1, tables[dst][i].frame, area)
    {
      assert EntryCopied(src0, src0[src][i], tables, tables[dst][i], level, area);
    }
  }

  ghost predicate Unseen(usable: seq<nat>, next: nat, tables: Tables) {
    && (forall i, j :: 0 <= i < j < |usable| ==> usable[i] != usable[j])
    && (forall i :: next <= i < |usable| ==> usable[i] !in tables)
  }

  class TableMemory {
    /** Usable frames in allocation order. */
    const usable: seq<nat>
    var next: nat
    var tables: Tables

    constructor (usable: seq<nat>, tables: Tables)
      requires Unseen(usable, 0, tables)
      ensures this.usable == usable && next == 0 && this.tables == tables
    {
      this.usable, next, this.tables := usable, 0, tables;
    }

    /** Allocate a frame and zero it as a page table. */
    method NewTable() returns (f: Option<nat>)
      requires Unseen(usable, next, tables)
      modifies this
      ensures Unseen(usable, next, tables) && next == old(next) + 1
      ensures f.None? ==> tables == old(tables) && next > |usable|
      ensures f.Some? ==> f.value !in old(tables) && tables == old(tables)[f.value := seq(ENTRIES, _ => Unused)]
    {
      f := if next < |usable| then Some(usable[next]) else None;
      next := next + 1;
      if f.Some? {
        tables := tables[f.value := seq(ENTRIES, _ => Unused)];
      }
    }

    /** Write one entry in place. */
    method Put(f: nat, i: nat, e: Entry)
      requires f in tables && i < ENTRIES
      modifies this`tables
      ensures tables.Keys == old(tables).Keys && tables == old(tables)[f := tables[f]]
      ensures tables[f][i] == e && forall j :: 0 <= j < ENTRIES && j != i ==> tables[f][j] == old(tables)[f][j]
    {
      tables := tables[f := tables[f][i := e]];
    }

    /** The tables made since `before`. */
    ghost function Made(before: Tables): set<nat>
      reads this
    {
      tables.Keys - before.Keys
    }

    /**
     * Copy a tree of tables, sharing the frames its leaves point at. The copy walks like the source for every
     * page, at every level and for huge pages too, and consists of fresh tables only; `None` is out of memory.
     */
    method DeepCopyTable(level: nat, src: nat) returns (dst: Option<nat>)
      requires level >= 1 && Within(tables, level, src, tables.Keys) && Unseen(usable, next, tables)
      modifies this
      ensures Unseen(usable, next, tables) && old(next) <= next
      ensures Agree(old(tables), tables, old(tables).Keys)
      ensures dst.None? ==> next > |usable|
      ensures dst.Some? ==> Within(tables, level, dst.value, Made(old(tables)))
      ensures dst.Some? ==> SameWalks(old(tables), src, tables, dst.value, level)
      ensures dst.Some? ==> Tree(tables, level, dst.value) && Below(tables, level, dst.value) <= Made(old(tables))
      decreases level
    {
      hide Within, SameWalks, EntryCopied, Tree, Below, Copying;
      ghost var before := tables;
      dst := NewTable();
      if dst.None? { return; }
      assert src in before by { WithinRoot(before, level, src, before.Keys); }
      var d := dst.value;
      CopyingNothing(before, src, tables, d, level);
      for i := 0 to ENTRIES
        invariant Unseen(usable, next, tables) && old(next) <= next
        invariant src in before && d in tables && d !in before && Agree(before, tables, before.Keys)
        invariant forall j :: i <= j < ENTRIES ==> tables[d][j] == Unused
        invariant Copying(before, src, tables, d, level, i)
      {
        var e := tables[src][i];
        ghost var was := tables;
        if e.Unused? {
          CopyingLeaf(before, src, was, tables, d, level, i);
          continue;
        }
        if level == 1 || e.huge {
          Put(d, i, e);
          CopyingLeaf(before, src, was, tables, d, level, i);
        } else {
          WithinBranch(before, level, src, before.Keys, i);
          WithinKeeps(before, tables, level - 1, e.frame, before.Keys, tables.Keys);
          var child := DeepCopyTable(level - 1, e.frame);
          if child.None? {
            return None;
          }
          ghost var made := tables;
          Put(d, i, e.(frame := child.value));
          CopyingBranch(before, src, was, made, tables, d, level, i, child.value);
        }
      }
      CopyingDone(before, src, tables, d, level);
    }

    /**
     * Map a page below table `f`, making the tables that are missing on the way. Only tables of the tree below `f`
     * change, and only this page's walk.
     */
    method MapUnder(level: nat, f: nat, page: nat, leaf: Entry, bits: nat) returns (r: MapResult)
      requires level >= 1 && Tree(tables, level, f) && Unseen(usable, next, tables) && leaf.Used?
      modifies this
      ensures Unseen(usable, next, tables) && old(next) <= next && old(tables).Keys <= tables.Keys
      ensures Agree(old(tables), tables, old(tables).Keys - Below(old(tables), level, f))
      ensures Tree(tables, level, f) && Below(tables, level, f) <= Below(old(tables), level, f) + Made(old(tables))
      ensures r == InUse <==> Walk(old(tables), level, f, page).Some?
      ensures r == NoFrame ==> next > |usable|
      ensures r == Done ==> Walk(tables, level, f, page) == Some(Hit(leaf, 1))
      ensures OtherPages(old(tables), tables, level, f, page, r == Done)
      decreases level
    {
      hide Below, SameWalks, Walk, Tree, SamePath, OtherPages;
      ghost var before := tables;
      TreeRoot(before, level, f);
      var i := Index(page, level);
      var e := tables[f][i];
      WalkStep(before, level, f, page);
      NothingMoved(before, level, f, page);
      if IsLeaf(e, level) {
        return InUse;
      }
      if level == 1 {
        Put(f, i, leaf);
        LeafPut(before, tables, f, page, leaf);
        return Done;
      }
      if e.Unused? {
        var t := NewTable();
        if t.None? {
          return NoFrame;
        }
        e := Used(t.value, false, bits);
        Put(f, i, e);
        assert tables[f] == before[f][i := e];
        TableHung(before, tables, level, f, i, t.value, bits);
      }
      ghost var hung := tables;
      SubTree(hung, level, f, i);
      r := MapUnder(level - 1, e.frame, page, leaf, bits);
      Grafted(before, hung, tables, level, f, page, if r == Done then Some(leaf) else None);
    }

    /**
     * A new address space: the kernel's top-level entries, with the tables under the first one copied. It walks
     * like the kernel's everywhere, and what lies under its first entry is its own.
     */
    method CreateUserMapper(kernelL4: nat) returns (l4: Option<nat>)
      requires Within(tables, 4, kernelL4, tables.Keys) && Unseen(usable, next, tables)
      modifies this
      ensures Unseen(usable, next, tables)
      ensures Agree(old(tables), tables, old(tables).Keys)
      ensures l4.None? ==> next > |usable|
      ensures l4.Some? ==>
        && l4.value in Made(old(tables)) && Within(tables, 4, l4.value, tables.Keys)
        && SameWalks(old(tables), kernelL4, tables, l4.value, 4)
        && kernelL4 in old(tables) && (forall i :: 1 <= i < ENTRIES ==> tables[l4.value][i] == old(tables)[kernelL4][i])
        && (IsBranch(tables[l4.value][0], 4) ==>
              && Within(tables, 3, tables[l4.value][0].frame, Made(old(tables)) - {l4.value})
              && Tree(tables, 3, tables[l4.value][0].frame)
              && Below(tables, 3, tables[l4.value][0].frame) <= Made(old(tables)) - {l4.value})
    {
      hide Within, SameWalks, EntryCopied, Tree, Below;
      ghost var before := tables;
      l4 := NewTable();
      if l4.None? { return; }
      WithinRoot(before, 4, kernelL4, before.Keys);
      var d := l4.value;
      for i := 0 to ENTRIES
        invariant Unseen(usable, next, tables) && Agree(before, tables, before.Keys)
        invariant d in tables && d !in before
        invariant forall j :: 0 <= j < i ==> tables[d][j] == before[kernelL4][j]
      {
        Put(d, i, tables[kernelL4][i]);
      }
      var k0 := tables[kernelL4][0];
      ghost var child: Option<nat> := None;
      if k0.Used? && !k0.huge {
        WithinBranch(before, 4, kernelL4, before.Keys, 0);
        WithinKeeps(before, tables, 3, k0.frame, before.Keys, tables.Keys);
        ghost var was := tables;
        var l3 := DeepCopyTable(3, k0.frame);
        if l3.None? {
          return None;
        }
        ghost var made := tables;
        Put(d, 0, k0.(frame := l3.value));
        CopiedBranch(before, k0, was, made, tables, l3.value, 4, made.Keys - was.Keys, Made(before) - {d});
        TreeKeeps(made, tables, 3, l3.value);
        EntryKept(before, k0, tables, tables[d][0], 4, Made(before) - {d}, tables, tables.Keys);
        CopiedWithin(before, k0, tables, tables[d][0], 4, Made(before) - {d});
      } else {
        CopiedLeaf(before, k0, tables, 4, tables.Keys);
      }
      forall i | 1 <= i < ENTRIES
        ensures EntryCopied(before, before[kernelL4][i], tables, tables[d][i], 4, tables.Keys) {
        SharedEntry(before, tables, kernelL4, i);
      }
      TableCopied(before, kernelL4, tables, d, 4, tables.Keys);
    }

    /** Map a user page from the top-level table of a user space, whose first entry leads into tables of its own. */
    method MapTo(l4: nat, page: nat, leaf: Entry, bits: nat) returns (r: MapResult)
      requires OwnTree(tables, l4) && Index(page, 4) == 0 && leaf.Used? && Unseen(usable, next, tables)
      modifies this
      ensures OwnTree(tables, l4) && Unseen(usable, next, tables) && old(next) <= next
          && old(tables).Keys <= tables.Keys
      ensures Agree(old(tables), tables, old(tables).Keys - Own(old(tables), l4))
      ensures Own(tables, l4) <= Own(old(tables), l4) + Made(old(tables))
      ensures forall i :: 1 <= i < ENTRIES ==> tables[l4][i] == old(tables)[l4][i]
      ensures r == InUse <==> Walk(old(tables), 4, l4, page).Some?
      ensures r == NoFrame ==> next > |usable|
      ensures r == Done ==> Walk(tables, 4, l4, page) == Some(Hit(leaf, 1))
      ensures forall p :: Index(p, 4) == 0 && (r != Done || !SamePath(p, page, 3)) ==>
        Walk(tables, 4, l4, p) == Walk(old(tables), 4, l4, p)
    {
      hide Below, SameWalks, Walk, Tree, SamePath, OtherPages, Index;
      ghost var before := tables;
      var e := tables[l4][0];
      forall p | Index(p, 4) == 0 ensures WalkStepped(before, 4, l4, p) { WalkStep(before, 4, l4, p); }
      if IsLeaf(e, 4) {
        return InUse;
      }
      if e.Unused? {
        var t := NewTable();
        if t.None? {
          return NoFrame;
        }
        e := Used(t.value, false, bits);
        Put(l4, 0, e);
        EmptyTree(tables, 3, t.value);
      }
      ghost var hung := tables;
      r := MapUnder(3, e.frame, page, leaf, bits);
      forall p | Index(p, 4) == 0 ensures WalkStepped(tables, 4, l4, p) { WalkStep(tables, 4, l4, p); }
      OtherWalksAre(hung, tables, 3, e.frame, page, r == Done);
    }

    /**
     * However a page is mapped in a new address space, no walk from the kernel's table changes; in the new space
     * that page leads to its leaf, and every other page where it leads the kernel.
     */
    method MapInNewSpace(kernelL4: nat, page: nat, leaf: Entry, bits: nat) returns (l4: Option<nat>, r: MapResult)
      requires Within(tables, 4, kernelL4, tables.Keys) && Unseen(usable, next, tables)
      requires Index(page, 4) == 0 && leaf.Used?
      modifies this
      ensures SameWalks(old(tables), kernelL4, tables, kernelL4, 4)
      ensures l4.None? ==> next > |usable|
      ensures l4.Some? ==>
        && (r == InUse <==> Walk(old(tables), 4, kernelL4, page).Some?)
        && (r == NoFrame ==> next > |usable|)
        && (r == Done ==> Walk(tables, 4, l4.value, page) == Some(Hit(leaf, 1)))
        && forall p :: r != Done || Index(p, 4) != 0 || !SamePath(p, page, 3) ==>
             Walk(tables, 4, l4.value, p) == Walk(old(tables), 4, kernelL4, p)
      ensures l4.Some? && page < ALL_PAGES ==> forall p: nat :: p < ALL_PAGES && (r != Done || p != page) ==>
        Walk(tables, 4, l4.value, p) == Walk(old(tables), 4, kernelL4, p)
    {
      hide Within, SameWalks, Walk, Tree, Below, SamePath, Index;
      ghost var before := tables;
      r := NoFrame;
      l4 := CreateUserMapper(kernelL4);
      ghost var mid := tables;
      if l4.None? {
        WithinKeeps(before, tables, 4, kernelL4, before.Keys, tables.Keys);
        return;
      }
      r := MapTo(l4.value, page, leaf, bits);
      WithinKeeps(before, tables, 4, kernelL4, before.Keys, tables.Keys);
      SameWalkAt(before, kernelL4, mid, l4.value, 4, page);
      forall p | r != Done || Index(p, 4) != 0 || !SamePath(p, page, 3)
        ensures Walk(tables, 4, l4.value, p) == Walk(before, 4, kernelL4, p)
      {
        SameWalkAt(before, kernelL4, mid, l4.value, 4, p);
        if Index(p, 4) != 0 { SharedWalk(before, tables, kernelL4, l4.value, p); }
      }
      forall p: nat | page < ALL_PAGES && p < ALL_PAGES && p != page ensures Index(p, 4) != 0 || !SamePath(p, page, 3) {
        OtherPath(p, page);
      }
    }
  }

  // ---------------------------------------------------------------- mapping a page

  datatype MapResult = Done | InUse | NoFrame

  /** Two pages take the same entries from a table of the given level down. */
  ghost predicate SamePath(p: nat, q: nat, level: nat)
    requires level >= 1
    decreases level
  {
    Index(p, level) == Index(q, level) && (level > 1 ==> SamePath(p, q, level - 1))
  }

  /** Under one entry of a top-level table only a page itself takes the same path. */
  lemma SamePathIsSamePage(p: nat, q: nat)
    requires p < 0x800_0000 && q < 0x800_0000
    ensures SamePath(p, q, 3) <==> p == q
  {
    assert Scale(1) == 1 && Scale(2) == 512 && Scale(3) == 262144;
    assert p == 262144 * Index(p, 3) + 512 * Index(p, 2) + Index(p, 1);
    assert q == 262144 * Index(q, 3) + 512 * Index(q, 2) + Index(q, 1);
  }

  lemma OtherPath(p: nat, q: nat)
    requires p < ALL_PAGES && q < ALL_PAGES && p != q && Index(q, 4) == 0
    ensures Index(p, 4) != 0 || !SamePath(p, q, 3)
  {
    hide SamePath;
    assert Scale(1) == 1 && Scale(2) == 512 && Scale(3) == 262144 && Scale(4) == 0x800_0000;
    assert forall x: nat :: x < ALL_PAGES && Index(x, 4) == 0 ==> x < 0x800_0000;
    if Index(p, 4) == 0 { SamePathIsSamePage(p, q); }
  }

  /** Every page, or every other page once `page` has been mapped, walks as before. */
  ghost predicate OtherPages(a: Tables, b: Tables, level: nat, f: nat, page: nat, mapped: bool)
    requires level >= 1
  {
    forall p :: !mapped || !SamePath(p, page, level) ==> Walk(b, level, f, p) == Walk(a, level, f, p)
  }

  lemma {:induction false} BelowKnown(tables: Tables, level: nat, f: nat)
    requires level >= 1
    ensures Below(tables, level, f) <= tables.Keys
    decreases level
  {
    if f in tables {
      forall i | 0 <= i < ENTRIES ensures Under(tables, level, tables[f][i]) <= tables.Keys {
        if IsBranch(tables[f][i], level) { BelowKnown(tables, level - 1, tables[f][i].frame); }
      }
    }
  }

  ghost predicate NoWalks(tables: Tables, level: nat, g: nat)
    requires level >= 1
  {
    forall page :: Walk(tables, level, g, page) == None
  }

  /** Hanging a fresh, empty table below an unused entry. */
  lemma TableHung(a: Tables, b: Tables, level: nat, f: nat, i: nat, g: nat, bits: nat)
    requires level >= 2 && Tree(a, level, f) && i < ENTRIES && a[f][i] == Unused && g !in a
    requires b == a[g := seq(ENTRIES, _ => Unused)][f := a[f][i := Used(g, false, bits)]]
    ensures Tree(b, level, f) && Below(b, level, f) == Below(a, level, f) + {g} && SameWalks(a, f, b, f, level)
    ensures Tree(b, level - 1, g) && Below(b, level - 1, g) == {g}
    ensures NoWalks(b, level - 1, g)
  {
    BelowKnown(a, level, f);
    BelowParts(a, level, f);
    EmptyTree(b, level - 1, g);
    hide Below, SameWalks;
    forall j | 0 <= j < ENTRIES && j != i
      ensures Under(b, level, b[f][j]) == Under(a, level, a[f][j])
      ensures IsBranch(a[f][j], level) ==>
        Tree(b, level - 1, b[f][j].frame) && SameWalks(a, a[f][j].frame, b, b[f][j].frame, level - 1)
    {
      if IsBranch(a[f][j], level) {
        assert Agree(a, b, Under(a, level, a[f][j]));
        TreeKeeps(a, b, level - 1, a[f][j].frame);
      }
    }
    assert Under(b, level, b[f][i]) == {g} && Under(a, level, a[f][i]) == {};
    HungBelow(a, b, level, f, i, g);
    HungWalks(a, b, level, f, i, g);
  }

  lemma HungBelow(a: Tables, b: Tables, level: nat, f: nat, i: nat, g: nat)
    requires level >= 1 && f in a && f in b && i < ENTRIES
    requires forall j :: 0 <= j < ENTRIES && j != i ==> Under(b, level, b[f][j]) == Under(a, level, a[f][j])
    requires Under(b, level, b[f][i]) == {g} && Under(a, level, a[f][i]) == {}
    ensures Below(b, level, f) == Below(a, level, f) + {g}
  {
    BelowParts(a, level, f);
    BelowParts(b, level, f);
  }

  lemma HungWalks(a: Tables, b: Tables, level: nat, f: nat, i: nat, g: nat)
    requires level >= 2 && f in a && f in b && i < ENTRIES && a[f][i] == Unused && b[f][i].Used? && b[f][i].frame == g
        && !b[f][i].huge
    requires forall j :: 0 <= j < ENTRIES && j != i ==> b[f][j] == a[f][j]
    requires forall j :: 0 <= j < ENTRIES && j != i && IsBranch(a[f][j], level) ==>
        SameWalks(a, a[f][j].frame, b, b[f][j].frame, level - 1)
    requires NoWalks(b, level - 1, g)
    ensures SameWalks(a, f, b, f, level)
  {
    forall page ensures Walk(a, level, f, page) == Walk(b, level, f, page) {
      var j := Index(page, level);
      if j != i && IsBranch(a[f][j], level) { assert SameWalks(a, a[f][j].frame, b, b[f][j].frame, level - 1); }
    }
  }

  lemma EmptyTree(tables: Tables, level: nat, g: nat)
    requires level >= 1 && g in tables && forall i :: 0 <= i < ENTRIES ==> tables[g][i] == Unused
    ensures Tree(tables, level, g) && Below(tables, level, g) == {g}
    ensures NoWalks(tables, level, g)
  {}

  /** A change inside one subtree. */
  lemma SubTreeChanged(a: Tables, b: Tables, level: nat, f: nat, i: nat)
    requires level >= 2 && Tree(a, level, f) && i < ENTRIES && IsBranch(a[f][i], level)
    requires a.Keys <= b.Keys && Agree(a, b, a.Keys - Below(a, level - 1, a[f][i].frame))
    requires Tree(b, level - 1, a[f][i].frame)
    requires Below(b, level - 1, a[f][i].frame) <= Below(a, level - 1, a[f][i].frame) + (b.Keys - a.Keys)
    ensures f in b && b[f] == a[f] && Tree(b, level, f) && Below(b, level, f) <= Below(a, level, f) + (b.Keys - a.Keys)
    ensures Below(a, level - 1, a[f][i].frame) <= Below(a, level, f)
    ensures forall j :: 0 <= j < ENTRIES && j != i && IsBranch(a[f][j], level) ==>
        SameWalks(a, a[f][j].frame, b, b[f][j].frame, level - 1)
  {
    BelowParts(a, level, f);
    var c := a[f][i].frame;
    assert Under(a, level, a[f][i]) == Below(a, level - 1, c);
    BelowKnown(a, level, f);
    forall j | 0 <= j < ENTRIES && j != i
      ensures Under(b, level, a[f][j]) == Under(a, level, a[f][j])
      ensures IsBranch(a[f][j], level) ==>
        Tree(b, level - 1, a[f][j].frame) && SameWalks(a, a[f][j].frame, b, a[f][j].frame, level - 1)
    {
      SubTreeApart(a, b, level, f, i, j);
    }
    hide Below, SameWalks, Tree;
    assert f in a.Keys - Below(a, level - 1, c);
    BranchGrown(a, b, level, f, i, b.Keys - a.Keys);
  }

  lemma SubTreeApart(a: Tables, b: Tables, level: nat, f: nat, i: nat, j: nat)
    requires level >= 2 && Tree(a, level, f) && i < ENTRIES && IsBranch(a[f][i], level) && j < ENTRIES && j != i
    requires Agree(a, b, a.Keys - Below(a, level - 1, a[f][i].frame))
    ensures Under(b, level, a[f][j]) == Under(a, level, a[f][j])
    ensures IsBranch(a[f][j], level) ==>
      Tree(b, level - 1, a[f][j].frame) && SameWalks(a, a[f][j].frame, b, a[f][j].frame, level - 1)
  {
    hide Below, SameWalks;
    assert Under(a, level, a[f][i]) == Below(a, level - 1, a[f][i].frame);
    assert Under(a, level, a[f][j]) !! Under(a, level, a[f][i]);
    if IsBranch(a[f][j], level) {
      BelowKnown(a, level - 1, a[f][j].frame);
      assert Agree(a, b, Below(a, level - 1, a[f][j].frame));
      TreeKeeps(a, b, level - 1, a[f][j].frame);
    }
  }

  /** One subtree has taken in some new tables. */
  lemma BranchGrown(a: Tables, b: Tables, level: nat, f: nat, i: nat, young: set<nat>)
    requires level >= 2 && f in a && f in b && b[f] == a[f] && i < ENTRIES && Spread(a, level, f)
    requires forall j :: 0 <= j < ENTRIES && IsBranch(b[f][j], level) ==> Tree(b, level - 1, b[f][j].frame)
    requires forall j :: 0 <= j < ENTRIES && j != i ==> Under(b, level, b[f][j]) == Under(a, level, a[f][j])
    requires Under(b, level, b[f][i]) <= Under(a, level, a[f][i]) + young && f !in young
    requires forall j :: 0 <= j < ENTRIES ==> Under(a, level, a[f][j]) !! young
    ensures Tree(b, level, f) && Below(b, level, f) <= Below(a, level, f) + young
  {
    BelowParts(a, level, f);
    BelowParts(b, level, f);
    hide Below, Under;
  }

  /** Walks that do not go through the changed subtree are as they were. */
  lemma OtherWalks(a: Tables, b: Tables, level: nat, f: nat, i: nat, p: nat)
    requires level >= 2 && f in a && f in b && b[f] == a[f] && i < ENTRIES && IsBranch(a[f][i], level)
    requires forall j :: 0 <= j < ENTRIES && j != i && IsBranch(a[f][j], level) ==>
        SameWalks(a, a[f][j].frame, b, b[f][j].frame, level - 1)
    requires Index(p, level) == i ==> Walk(b, level - 1, a[f][i].frame, p) == Walk(a, level - 1, a[f][i].frame, p)
    ensures Walk(b, level, f, p) == Walk(a, level, f, p)
  {
    var j := Index(p, level);
    if j != i && IsBranch(a[f][j], level) { assert SameWalks(a, a[f][j].frame, b, b[f][j].frame, level - 1); }
  }

  /** The tables that belong to a user space alone: its top-level table and those under the first entry. */
  ghost function Own(tables: Tables, l4: nat): set<nat>
    requires l4 in tables
  {
    {l4} + Under(tables, 4, tables[l4][0])
  }

  ghost predicate OwnTree(tables: Tables, l4: nat) {
    && l4 in tables && l4 !in Under(tables, 4, tables[l4][0])
    && (IsBranch(tables[l4][0], 4) ==> Tree(tables, 3, tables[l4][0].frame))
  }

  ghost predicate WalkStepped(tables: Tables, level: nat, f: nat, page: nat)
    requires level >= 1 && f in tables
  {
    var e := tables[f][Index(page, level)];
    Walk(tables, level, f, page) ==
      if e.Unused? then None else if IsLeaf(e, level) then Some(Hit(e, level))
        else Walk(tables, level - 1, e.frame, page)
  }

  lemma SameWalkAt(a: Tables, f: nat, b: Tables, g: nat, level: nat, p: nat)
    requires level >= 1 && SameWalks(a, f, b, g, level)
    ensures Walk(a, level, f, p) == Walk(b, level, g, p)
  {}

  /** A walk through an entry that was taken over as it is. */
  lemma SharedWalk(before: Tables, tables: Tables, kernelL4: nat, l4: nat, p: nat)
    requires Within(before, 4, kernelL4, before.Keys) && Agree(before, tables, before.Keys)
    requires kernelL4 in before && l4 in tables && tables[l4][Index(p, 4)] == before[kernelL4][Index(p, 4)]
    ensures Walk(tables, 4, l4, p) == Walk(before, 4, kernelL4, p)
  {
    hide Within, SameWalks, Walk;
    WalkStep(before, 4, kernelL4, p);
    WalkStep(tables, 4, l4, p);
    var e := before[kernelL4][Index(p, 4)];
    if IsBranch(e, 4) {
      WithinBranch(before, 4, kernelL4, before.Keys, Index(p, 4));
      WithinKeeps(before, tables, 3, e.frame, before.Keys, tables.Keys);
      SameWalkAt(before, e.frame, tables, e.frame, 3, p);
    }
  }

  lemma OtherWalksAre(a: Tables, b: Tables, level: nat, f: nat, page: nat, mapped: bool)
    requires level >= 1 && OtherPages(a, b, level, f, page, mapped)
    ensures forall p :: !mapped || !SamePath(p, page, level) ==> Walk(b, level, f, p) == Walk(a, level, f, p)
  {}

  lemma NothingMoved(tables: Tables, level: nat, f: nat, page: nat)
    requires level >= 1
    ensures OtherPages(tables, tables, level, f, page, false) && SameWalks(tables, f, tables, f, level)
  {}

  lemma TreeRoot(tables: Tables, level: nat, f: nat)
    requires level >= 1 && Tree(tables, level, f)
    ensures f in tables && f in Below(tables, level, f)
  {}

  lemma SubTree(tables: Tables, level: nat, f: nat, i: nat)
    requires level >= 1 && Tree(tables, level, f) && i < ENTRIES && IsBranch(tables[f][i], level)
    ensures Tree(tables, level - 1, tables[f][i].frame)
  {}

  lemma WalkStep(tables: Tables, level: nat, f: nat, page: nat)
    requires level >= 1 && f in tables
    ensures var e := tables[f][Index(page, level)];
            Walk(tables, level, f, page) ==
            if e.Unused? then None else if IsLeaf(e, level) then Some(Hit(e, level))
              else Walk(tables, level - 1, e.frame, page)
  {}

  lemma LeafPut(a: Tables, b: Tables, f: nat, page: nat, leaf: Entry)
    requires f in a && f in b && b == a[f := b[f]] && leaf.Used?
    requires b[f][Index(page, 1)] == leaf && forall j :: 0 <= j < ENTRIES && j != Index(page, 1) ==> b[f][j] == a[f][j]
    ensures Tree(b, 1, f) && Below(b, 1, f) == Below(a, 1, f) == {f}
    ensures Walk(b, 1, f, page) == Some(Hit(leaf, 1))
    ensures OtherPages(a, b, 1, f, page, true)
  {}

  /** After the mapping in a subtree: `hung` has the subtree, new or old, and `after` the page if there was a leaf. */
  lemma Grafted(before: Tables, hung: Tables, after: Tables, level: nat, f: nat, page: nat, leaf: Option<Entry>)
    requires level >= 2 && f in before && Tree(hung, level, f) && before.Keys <= hung.Keys <= after.Keys
    requires SameWalks(before, f, hung, f, level) && Agree(before, hung, before.Keys - {f})
    requires Below(hung, level, f) <= Below(before, level, f) + (hung.Keys - before.Keys)
        && f in Below(before, level, f)
    requires var e := hung[f][Index(page, level)];
             && IsBranch(e, level) && Agree(hung, after, hung.Keys - Below(hung, level - 1, e.frame))
             && Tree(after, level - 1, e.frame)
             && Below(after, level - 1, e.frame) <= Below(hung, level - 1, e.frame) + (after.Keys - hung.Keys)
             && (leaf.Some? ==> Walk(after, level - 1, e.frame, page) == Some(Hit(leaf.value, 1)))
             && OtherPages(hung, after, level - 1, e.frame, page, leaf.Some?)
    ensures Agree(before, after, before.Keys - Below(before, level, f))
    ensures Tree(after, level, f) && Below(after, level, f) <= Below(before, level, f) + (after.Keys - before.Keys)
    ensures Walk(before, level, f, page) == Walk(hung, level - 1, hung[f][Index(page, level)].frame, page)
    ensures leaf.Some? ==> Walk(after, level, f, page) == Some(Hit(leaf.value, 1))
    ensures OtherPages(before, after, level, f, page, leaf.Some?)
  {
    var i := Index(page, level);
    SubTreeChanged(hung, after, level, f, i);
    hide Below, Tree;
    assert SamePath(page, page, level) by { SamePathRefl(page, level); }
    WalkStep(hung, level, f, page);
    WalkStep(after, level, f, page);
    assert Walk(before, level, f, page) == Walk(hung, level, f, page);
    forall p | leaf.None? || !SamePath(p, page, level) ensures Walk(after, level, f, p) == Walk(before, level, f, p) {
      assert Walk(before, level, f, p) == Walk(hung, level, f, p);
      assert Index(p, level) == i ==> leaf.None? || !SamePath(p, page, level - 1);
      OtherWalks(hung, after, level, f, i, p);
    }
  }

  lemma {:induction false} SamePathRefl(p: nat, level: nat)
    requires level >= 1
    ensures SamePath(p, p, level)
    decreases level
  {
    if level > 1 { SamePathRefl(p, level - 1); }
  }

  lemma WithinRoot(tables: Tables, level: nat, f: nat, area: set<nat>)
    requires level >= 1 && Within(tables, level, f, area)
    ensures f in tables && f in area
  {}

  lemma WithinBranch(tables: Tables, level: nat, f: nat, area: set<nat>, i: nat)
    requires level >= 1 && Within(tables, level, f, area) && i < ENTRIES && f in tables && IsBranch(tables[f][i], level)
    ensures Within(tables, level - 1, tables[f][i].frame, area)
  {}

  lemma CopiedLeaf(src0: Tables, e: Entry, tables: Tables, level: nat, area: set<nat>)
    requires level >= 1 && !IsBranch(e, level)
    ensures EntryCopied(src0, e, tables, e, level, area)
  {}

  lemma SameWalksTrans(a: Tables, f: nat, b: Tables, g: nat, c: Tables, h: nat, level: nat)
    requires level >= 1 && SameWalks(a, f, b, g, level) && SameWalks(b, g, c, h, level)
    ensures SameWalks(a, f, c, h, level)
  {
    forall page ensures Walk(a, level, f, page) == Walk(c, level, h, page) {
      assert Walk(a, level, f, page) == Walk(b, level, g, page);
    }
  }

  lemma CopiedBranch(src0: Tables, e: Entry, was: Tables, made: Tables, tables: Tables, child: nat, level: nat,
                     young: set<nat>, area: set<nat>)
    requires IsBranch(e, level)
    requires SameWalks(src0, e.frame, was, e.frame, level - 1) && SameWalks(was, e.frame, made, child, level - 1)
    requires Within(made, level - 1, child, young) && Agree(made, tables, young) && young <= area
    ensures EntryCopied(src0, e, tables, e.(frame := child), level, area)
  {
    hide Within, SameWalks;
    WithinKeeps(made, tables, level - 1, child, young, area);
    SameWalksTrans(src0, e.frame, was, e.frame, made, child, level - 1);
    SameWalksTrans(src0, e.frame, made, child, tables, child, level - 1);
  }

  /** The first `n` entries of table `d` copy those of `src`, with trees of their own apart from one another. */
  ghost predicate Copying(before: Tables, src: nat, tables: Tables, d: nat, level: nat, n: nat)
    requires level >= 1 && src in before
  {
    var area := tables.Keys - before.Keys - {d};
    && n <= ENTRIES && SubTrees(tables, level, d, n, area)
    && forall j :: 0 <= j < n ==> EntryCopied(before, before[src][j], tables, tables[d][j], level, area)
  }

  lemma CopyingNothing(before: Tables, src: nat, tables: Tables, d: nat, level: nat)
    requires level >= 1 && src in before && d in tables
    ensures Copying(before, src, tables, d, level, 0)
  {}

  lemma CopyingStep(before: Tables, src: nat, was: Tables, tables: Tables, d: nat, level: nat, i: nat)
    requires level >= 1 && src in before && i < ENTRIES && Copying(before, src, was, d, level, i)
    requires d in was && d in tables && d !in before && before.Keys <= was.Keys <= tables.Keys
    requires Agree(was, tables, was.Keys - {d}) && forall j :: 0 <= j < i ==> tables[d][j] == was[d][j]
    requires EntryCopied(before, before[src][i], tables, tables[d][i], level, tables.Keys - before.Keys - {d})
    requires Under(tables, level, tables[d][i]) <= tables.Keys - was.Keys
    requires IsBranch(tables[d][i], level) ==> Tree(tables, level - 1, tables[d][i].frame)
    ensures Copying(before, src, tables, d, level, i + 1)
  {
    hide EntryCopied, SubTrees, Tree, Below;
    var area, area' := was.Keys - before.Keys - {d}, tables.Keys - before.Keys - {d};
    SubTreesStep(was, tables, level, d, i, area, tables.Keys - was.Keys);
    assert area + (tables.Keys - was.Keys) == area';
    forall j | 0 <= j < i ensures EntryCopied(before, before[src][j], tables, tables[d][j], level, area') {
      EntryKept(before, before[src][j], was, was[d][j], level, area, tables, area');
    }
  }

  lemma CopyingLeaf(before: Tables, src: nat, was: Tables, tables: Tables, d: nat, level: nat, i: nat)
    requires level >= 1 && src in before && i < ENTRIES && Copying(before, src, was, d, level, i)
    requires d in was && d in tables && d !in before && before.Keys <= was.Keys == tables.Keys
    requires Agree(was, tables, was.Keys - {d}) && forall j :: 0 <= j < i ==> tables[d][j] == was[d][j]
    requires tables[d][i] == before[src][i] && !IsBranch(before[src][i], level)
    ensures Copying(before, src, tables, d, level, i + 1)
  {
    hide EntryCopied, Tree, Below, Copying;
    CopiedLeaf(before, before[src][i], tables, level, tables.Keys - before.Keys - {d});
    CopyingStep(before, src, was, tables, d, level, i);
  }

  lemma CopyingBranch(before: Tables, src: nat, was: Tables, made: Tables, tables: Tables, d: nat, level: nat, i: nat,
                      child: nat)
    requires level >= 1 && src in before && i < ENTRIES && Copying(before, src, was, d, level, i)
    requires d in was && d in tables && d !in before && before.Keys <= was.Keys <= made.Keys == tables.Keys
    requires Agree(was, made, was.Keys) && Agree(made, tables, made.Keys - {d})
    requires forall j :: 0 <= j < i ==> tables[d][j] == was[d][j]
    requires IsBranch(before[src][i], level) && tables[d][i] == before[src][i].(frame := child)
    requires SameWalks(before, before[src][i].frame, was, before[src][i].frame, level - 1)
    requires SameWalks(was, before[src][i].frame, made, child, level - 1)
    requires Within(made, level - 1, child, made.Keys - was.Keys)
    requires Tree(made, level - 1, child) && Below(made, level - 1, child) <= made.Keys - was.Keys
    ensures Copying(before, src, tables, d, level, i + 1)
  {
    hide EntryCopied, Tree, Below, Copying, Within, SameWalks;
    CopiedBranch(before, before[src][i], was, made, tables, child, level, made.Keys - was.Keys,
      tables.Keys - before.Keys - {d});
    TreeKeeps(made, tables, level - 1, child);
    CopyingStep(before, src, was, tables, d, level, i);
  }

  lemma CopyingDone(before: Tables, src: nat, tables: Tables, d: nat, level: nat)
    requires level >= 1 && src in before && Copying(before, src, tables, d, level, ENTRIES)
    requires d in tables && d !in before
    ensures Within(tables, level, d, tables.Keys - before.Keys) && SameWalks(before, src, tables, d, level)
    ensures Tree(tables, level, d) && Below(tables, level, d) <= tables.Keys - before.Keys
  {
    hide EntryCopied, SubTrees, Tree, Below, Within, SameWalks;
    CopiedWhole(before, src, tables, d, level, tables.Keys - before.Keys);
    SubTreesAll(tables, level, d, tables.Keys - before.Keys - {d});
  }

  lemma CopiedWhole(src0: Tables, src: nat, tables: Tables, dst: nat, level: nat, area: set<nat>)
    requires level >= 1 && src in src0 && dst in tables && dst in area
    requires forall i :: 0 <= i < ENTRIES ==>
        EntryCopied(src0, src0[src][i], tables, tables[dst][i], level, area - {dst})
    ensures Within(tables, level, dst, area)
    ensures SameWalks(src0, src, tables, dst, level)
  {
    hide Within, SameWalks, EntryCopied;
    forall i | 0 <= i < ENTRIES ensures EntryCopied(src0, src0[src][i], tables, tables[dst][i], level, area) {
      EntryKept(src0, src0[src][i], tables, tables[dst][i], level, area - {dst}, tables, area);
    }
    TableCopied(src0, src, tables, dst, level, area);
  }

  lemma CopiedWithin(src0: Tables, e: Entry, tables: Tables, d: Entry, level: nat, area: set<nat>)
    requires level >= 1 && IsBranch(e, level) && EntryCopied(src0, e, tables, d, level, area)
    ensures IsBranch(d, level) && Within(tables, level - 1, d.frame, area)
  {}

  /** An entry taken over as it is leads into tables that are still as they were. */
  lemma SharedEntry(before: Tables, tables: Tables, l4: nat, i: nat)
    requires Within(before, 4, l4, before.Keys) && Agree(before, tables, before.Keys)
    requires i < ENTRIES && l4 in before
    ensures EntryCopied(before, before[l4][i], tables, before[l4][i], 4, tables.Keys)
  {
    hide Within, SameWalks;
    if IsBranch(before[l4][i], 4) {
      WithinBranch(before, 4, l4, before.Keys, i);
      WithinKeeps(before, tables, 3, before[l4][i].frame, before.Keys, tables.Keys);
    }
  }
}
