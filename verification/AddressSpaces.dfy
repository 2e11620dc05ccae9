/** The memory manager: user address spaces, both forks, page faults and user-mode accesses. */
module AddressSpaces {
  import opened Bytes
  import opened Cow
  import opened Options

  datatype MapOutcome = Complete | CutShort | Panics

  /** First page of the kernel's half; between the halves addresses are not canonical. */
  const KERNEL_HALF: nat := 0xF_FFF8_0000_0000

  /** How many of the pages from `start` on lie in the user half. */
  function InUserHalf(start: nat, count: nat): nat {
    if start >= USER_PAGES then 0 else Min(count, USER_PAGES - start)
  }

  class MemoryManager {
    /** Usable frames in allocation order; the allocator never hands one out twice. */
    const usable: seq<nat>
    /** Leaves of the kernel's low half, present in every address space. */
    const kernel: Leaves
    /** Page-table pages that copying the kernel's tables takes. */
    const kernelTables: nat
    /** How many intermediate tables a mapping finds missing, by frames drawn so far, space and page; at most three. */
    const lacking: (nat, nat, nat) -> nat
    var next: nat
    var mem: Memory
    /** User address spaces; a CR3 value is an index here. */
    var spaces: seq<Leaves>

    function Taken(): seq<nat>
      reads this`next
    {
      usable[..Min(next, |usable|)]
    }

    ghost predicate Valid()
      reads this
    {
      && kernelTables > 0 && Cow.Distinct(usable)
      && Drawn(spaces, Taken()) && KernelKept(spaces, kernel) && Exclusive(spaces)
    }

    /** What user programs see, space by space. */
    ghost function Abs(): seq<Space>
      reads this
    {
      SpacesOf(mem, spaces)
    }

    /** No allocation has failed so far. */
    predicate Enough()
      reads this`next
    {
      next <= |usable|
    }

    /** Every new mapping needs three new tables. */
    ghost predicate Sparse() { forall n, cr3, page :: lacking(n, cr3, page) >= 3 }

    constructor (usable: seq<nat>, kernel: Leaves, kernelTables: nat, lacking: (nat, nat, nat) -> nat)
      requires Cow.Distinct(usable) && kernelTables > 0
      requires forall p :: p in kernel ==> !kernel[p].user
      ensures Valid() && Abs() == [] && next == 0
      ensures this.usable == usable && this.kernel == kernel && this.kernelTables == kernelTables
          && this.lacking == lacking
    {
      this.usable, this.kernel, this.kernelTables, this.lacking := usable, kernel, kernelTables, lacking;
      next, mem, spaces := 0, map[], [];
    }

    // -------------------------------------------------------------- frames and tables

    method AllocateFrame() returns (f: Option<nat>)
      modifies this`next
      ensures next == old(next) + 1
      ensures f.Some? <==> Enough()
      ensures f.Some? ==> f.value == usable[old(next)] && Taken() == old(Taken()) + [f.value]
      ensures f.None? ==> Taken() == old(Taken())
    {
      f := if next < |usable| then Some(usable[next]) else None;
      next := next + 1;
    }

    /** Draw `count` frames for page-table pages. */
    method AllocateTables(count: nat) returns (ok: bool)
      modifies this`next
      ensures old(next) <= next <= old(next) + count && old(Taken()) <= Taken()
      ensures ok <==> count == 0 || old(next) + count <= |usable|
      ensures ok ==> next == old(next) + count
      ensures !ok ==> !Enough()
    {
      for i := 0 to count
        invariant next == old(next) + i && old(Taken()) <= Taken()
        invariant i > 0 ==> Enough()
      {
        var f := AllocateFrame();
        if f.None? {
          return false;
        }
      }
      return true;
    }

    /** A new address space with the kernel's mappings; `None` where the kernel panics for want of memory. */
    method CreateUserMapper() returns (cr3: Option<nat>)
      requires Valid()
      modifies this`next, this`spaces
      ensures old(next) <= next <= old(next) + kernelTables && old(Taken()) <= Taken()
      ensures cr3.Some? <==> old(next) + kernelTables <= |usable|
      ensures cr3.None? <==> !Enough()
      ensures cr3.Some? ==> next == old(next) + kernelTables
      ensures cr3.None? ==> spaces == old(spaces)
      ensures cr3.Some? ==> Valid() && cr3.value == |old(spaces)| && spaces == old(spaces) + [kernel]
      ensures cr3.Some? ==> Abs() == old(Abs()) + [map[]]
    {
      var ok := AllocateTables(kernelTables);
      if !ok {
        return None;
      }
      MoreTaken(spaces, old(Taken()), Taken());
      EmptySpace(spaces, mem, kernel, Taken());
      cr3 := Some(|spaces|);
      spaces := spaces + [kernel];
    }

    /** Install a leaf where none is; up to three intermediate tables may have to be made. */
    method MapTo(cr3: nat, page: nat, l: Leaf) returns (ok: bool)
      requires cr3 < |spaces|
      modifies this`next, this`spaces
      ensures old(next) <= next <= old(next) + 3 && old(Taken()) <= Taken()
      ensures Sparse() && ok ==> next == old(next) + 3
      ensures ok ==> page !in old(spaces)[cr3] && spaces == WithLeaf(old(spaces), cr3, page, l)
      ensures ok ==> old(Enough()) ==> Enough()
      ensures !ok ==> spaces == old(spaces) && (page in spaces[cr3] || !Enough())
    {
      var missing := if page in spaces[cr3] then 0 else Min(3, lacking(next, cr3, page));
      ok := AllocateTables(missing);
      if !ok {
        return;
      }
      if page in spaces[cr3] {
        return false;
      }
      spaces := WithLeaf(spaces, cr3, page, l);
    }

    /** Allocate a frame, fill it and map it; `None` when there is no frame, false when the page cannot be mapped. */
    method MapFresh(cr3: nat, page: nat, data: PageData, template: Leaf) returns (ok: Option<bool>)
      requires Valid() && cr3 < |spaces| && page < USER_PAGES
      requires template.user && !(template.writable && template.cow)
      modifies this`next, this`spaces, this`mem
      ensures Valid() && (Enough() ==> old(Enough())) && |spaces| == |old(spaces)|
      ensures next <= old(next) + 4 && (Sparse() && ok == Some(true) ==> next == old(next) + 4)
      ensures ok.None? ==> !Enough()
      ensures ok.Some? && ok.value ==>
        && page !in old(spaces)[cr3] && (old(Enough()) ==> Enough())
        && spaces == old(spaces)[cr3 := spaces[cr3]] && spaces[cr3].Keys == old(spaces)[cr3].Keys + {page}
        && Abs() == WithPage(old(Abs()), cr3, page, UserPage(data, template.writable || template.cow, template.rest))
      ensures ok.None? || !ok.value ==> spaces == old(spaces) && Abs() == old(Abs())
      ensures ok.Some? && !ok.value ==> page in spaces[cr3] || !Enough()
    {
      hide Drawn, Exclusive, KernelKept, KernelIn, Cow.Distinct, SpacesOf, SpaceOf;
      ghost var spaces0, mem0 := spaces, mem;
      var f := AllocateFrame();
      if f.None? {
        return None;
      }
      Unused(usable, old(next));
      mem := mem[f.value := data];
      var mapped := MapTo(cr3, page, template.(frame := f.value));
      if mapped {
        NotKernel(spaces0, kernel, cr3, page);
        FreshLeaf(spaces0, mem0, kernel, old(Taken()), cr3, page, template.(frame := f.value), data);
      } else {
        UnseenFrame(spaces0, mem0, old(Taken()), f.value, data);
      }
      MoreTaken(spaces, if mapped then old(Taken()) + [f.value] else old(Taken()), Taken());
      return Some(mapped);
    }

    // -------------------------------------------------------------- fork

    /** First pass of the copy-on-write fork: mark the parent's writable user leaves, and list them all. */
    method MarkShared(parent: nat) returns (leaves: seq<(nat, Leaf)>)
      requires Valid() && parent < |spaces|
      modifies this`spaces
      ensures spaces == old(spaces)[parent := SharedLeaves(old(spaces)[parent])]
      ensures Listed(old(spaces)[parent], leaves, USER_PAGES, true)
    {
      hide Listed, SharedBelow, Drawn, Exclusive, KernelKept, Cow.Distinct;
      ghost var s := spaces[parent];
      leaves := [];
      MarkBounds(spaces, parent, Taken());
      for page := 0 to USER_PAGES
        invariant spaces == old(spaces)[parent := SharedBelow(s, page)]
        invariant Listed(s, leaves, page, true)
      {
        SharedStep(s, page);
        ListedStep(s, leaves, page, true);
        if page in spaces[parent] && spaces[parent][page].user {
          var l := spaces[parent][page];
          if l.writable {
            l := l.(writable := false, cow := true);
            spaces := WithLeaf(spaces, parent, page, l);
          }
          leaves := leaves + [(page, l)];
        }
      }
    }

    /** Share every user frame of `parent` with a new address space, marking writable pages copy-on-write. */
    method CowFork(parent: nat) returns (cr3: Option<nat>)
      requires Valid() && parent < |spaces|
      modifies this`next, this`spaces
      ensures cr3.Some? <==> old(next) + kernelTables <= |usable|
      ensures cr3.None? ==> !Enough()
      ensures next <= old(next) + kernelTables + 3 * |old(Abs())[parent]|
      ensures Sparse() && Enough() ==> next == old(next) + kernelTables + 3 * |old(Abs())[parent]|
      ensures cr3.Some? ==> Valid() && cr3.value == |old(spaces)|
      ensures cr3.Some? ==> (Abs() == Forked(old(Abs()), parent) <==> Enough())
      ensures cr3.Some? ==> PartForked(old(Abs()), Abs(), parent)
    {
      hide Listed, Drawn, Exclusive, KernelKept, Cow.Distinct, ChildLeaves, SharedLeaves, Partial, SpacesOf;
      ghost var spaces0, s := spaces, spaces[parent];
      var leaves := MarkShared(parent);
      ListedSize(spaces0, mem, Taken(), parent, leaves, true);
      MarkKeeps(spaces0, kernel, parent, Taken());
      cr3 := CreateUserMapper();
      if cr3.None? { return; }
      PartialNone(kernel, s, leaves);
      for i := 0 to |leaves|
        invariant cr3.value == |spaces0| && |spaces| == |spaces0| + 1
        invariant spaces[..|spaces0|] == spaces0[parent := SharedLeaves(s)]
        invariant Partial(spaces[cr3.value], kernel, s, leaves, i)
        invariant Enough() <==> forall j :: 0 <= j < i ==> leaves[j].0 in spaces[cr3.value]
        invariant old(Taken()) <= Taken()
        invariant next <= old(next) + kernelTables + 3 * i
        invariant Sparse() && Enough() ==> next == old(next) + kernelTables + 3 * i
      {
        var page, leaf := leaves[i].0, leaves[i].1;
        ghost var child := spaces[cr3.value];
        PartialStep(spaces0, child, kernel, parent, s, leaves, i);
        var ok := MapTo(cr3.value, page, Leaf(leaf.frame, true, false, false, 0));
        if !ok {
          continue;
        }
        spaces := WithLeaf(spaces, cr3.value, page, leaf);
        assert spaces[cr3.value] == child[page := leaf];
      }
      PartialFork(spaces0, mem, kernel, parent, old(Taken()), Taken(), leaves, spaces[cr3.value]);
      PartialPages(spaces0, mem, kernel, parent, old(Taken()), leaves, spaces[cr3.value]);
      assert spaces == spaces0[parent := SharedLeaves(s)] + [spaces[cr3.value]];
    }

    method ListPages(parent: nat) returns (pages: seq<(nat, Leaf)>)
      requires Valid() && parent < |spaces|
      ensures Listed(spaces[parent], pages, USER_PAGES, false)
    {
      hide Listed, Drawn, Exclusive, KernelKept, Cow.Distinct;
      pages := [];
      MarkBounds(spaces, parent, Taken());
      for page := 0 to USER_PAGES
        invariant Listed(spaces[parent], pages, page, false)
      {
        ListedStep(spaces[parent], pages, page, false);
        if page in spaces[parent] && spaces[parent][page].user {
          pages := pages + [(page, spaces[parent][page])];
        }
      }
    }

    /** Copy every user page of `parent` into a new address space. */
    method DuplicateFork(parent: nat) returns (cr3: Option<nat>)
      requires Valid() && parent < |spaces|
      modifies this`next, this`spaces, this`mem
      ensures cr3.None? ==> !Enough()
      ensures next <= old(next) + kernelTables + 4 * |old(Abs())[parent]|
      ensures cr3.Some? ==> Valid() && cr3.value == |old(spaces)|
      ensures cr3.Some? ==> (Abs() == Forked(old(Abs()), parent) <==> Enough())
      ensures cr3.Some? ==> PartForked(old(Abs()), Abs(), parent)
    {
      hide Listed, Drawn, Exclusive, KernelKept, Cow.Distinct, Copied, SpacesOf, PartForked;
      ghost var a := Abs();
      var pages := ListPages(parent);
      ghost var s := spaces[parent];
      ListedSize(spaces, mem, Taken(), parent, pages, false);
      cr3 := CreateUserMapper();
      if cr3.None? { return; }
      CopiedNone(a[parent], s, pages);
      for i := 0 to |pages|
        invariant Valid() && cr3.value == |a| && |spaces| == |a| + 1 && spaces[parent] == s
        invariant spaces[cr3.value].Keys == kernel.Keys + Abs()[cr3.value].Keys
        invariant Abs() == a + [Abs()[cr3.value]] && Copied(Abs()[cr3.value], a[parent], s, pages, i)
        invariant Enough() <==> forall j :: 0 <= j < i ==> pages[j].0 in Abs()[cr3.value]
        invariant next <= old(next) + kernelTables + 4 * i
      {
        var page, leaf := pages[i].0, pages[i].1;
        ghost var part := Abs()[cr3.value];
        CopiedStep(spaces, mem, kernel, Taken(), parent, s, a[parent], pages, part, i);
        var ok := MapFresh(cr3.value, page, Content(mem, leaf.frame), leaf);
        if ok.None? {
          return None;
        }
        assert Abs()[cr3.value] == if ok.value then part[page := a[parent][page]] else part;
      }
      CopiedAll(old(spaces), old(mem), old(Taken()), parent, s, a[parent], pages, Abs()[cr3.value]);
      CopiedPart(a, parent, s, pages, Abs()[cr3.value]);
    }

    // -------------------------------------------------------------- user regions

    /** Map `count` zeroed pages from page `start` on. An address past the user half is not canonical and panics. */
    method MapUserRegion(cr3: nat, start: nat, count: nat, writable: bool) returns (r: MapOutcome, ghost done: nat)
      requires Valid() && cr3 < |spaces| && start < KERNEL_HALF
      modifies this`next, this`spaces, this`mem
      ensures Valid() && |spaces| == |old(spaces)| && next <= old(next) + 4 * count
      ensures r == Complete <==> start < USER_PAGES && done == count
      ensures r == Complete && Sparse() ==> next == old(next) + 4 * count
      ensures r == Panics <==> start >= USER_PAGES || (done < count && start + done == USER_PAGES)
      ensures done <= count && (start < USER_PAGES ==> start + done <= USER_PAGES)
      ensures Enough() ==> done == Reach(old(Abs())[cr3], kernel.Keys, start, InUserHalf(start, count))
      ensures Abs() == old(Abs())[cr3 := Mapped(old(Abs())[cr3], start, done, writable, 0)]
      ensures forall s :: 0 <= s < |spaces| && s != cr3 ==> Abs()[s] == old(Abs())[s]
      ensures forall p :: p in Abs()[cr3] <==> p in old(Abs())[cr3] || start <= p < start + done
      ensures forall p :: start <= p < start + done ==> Abs()[cr3][p] == UserPage(Zeros(PAGE_SIZE), writable, 0)
      ensures forall p :: p in old(Abs())[cr3] && !(start <= p < start + done) ==> Abs()[cr3][p] == old(Abs())[cr3][p]
    {
      hide Drawn, Exclusive, KernelKept, Cow.Distinct, SpacesOf;
      ghost var a, s, fit := Abs(), spaces[cr3], InUserHalf(start, count);
      if start >= USER_PAGES {
        MappedIs(a[cr3], start, 0, writable, 0);
        return Panics, 0;
      }
      for i := 0 to count
        invariant Valid() && |spaces| == |old(spaces)| && i <= fit
        invariant Abs() == a[cr3 := Mapped(a[cr3], start, i, writable, 0)]
        invariant forall p :: p in spaces[cr3] <==> p in s || start <= p < start + i
        invariant forall p :: start <= p < start + i ==> p !in s
        invariant next <= old(next) + 4 * i && (Sparse() ==> next == old(next) + 4 * i)
      {
        if start + i >= USER_PAGES {
          InUse(old(spaces), old(mem), kernel, cr3, start, fit, i);
          MappedIs(a[cr3], start, i, writable, 0);
          return Panics, i;
        }
        var m := MapFresh(cr3, start + i, Zeros(PAGE_SIZE), Leaf(0, true, writable, false, 0));
        if m.None? || !m.value {
          if Enough() { InUse(old(spaces), old(mem), kernel, cr3, start, fit, i); }
          MappedIs(a[cr3], start, i, writable, 0);
          return CutShort, i;
        }
      }
      InUse(old(spaces), old(mem), kernel, cr3, start, fit, count);
      MappedIs(a[cr3], start, count, writable, 0);
      return Complete, count;
    }

    // -------------------------------------------------------------- user-mode accesses

    /** The copy-on-write part of the page-fault handler, for a user-mode write to a mapped page. */
    method ResolveFault(cr3: nat, page: nat) returns (resolved: bool)
      requires Valid() && cr3 < |spaces|
      modifies this`next, this`spaces, this`mem
      ensures Valid() && Abs() == old(Abs()) && |spaces| == |old(spaces)| && next <= old(next) + 1
      ensures resolved ==> UserLeaf(old(spaces), Spot(cr3, page))
      ensures UserLeaf(old(spaces), Spot(cr3, page)) ==>
        var l := LeafAt(old(spaces), Spot(cr3, page));
        resolved <==> !l.writable && l.cow && old(next) < |usable|
      ensures resolved ==> UserLeaf(spaces, Spot(cr3, page)) && LeafAt(spaces, Spot(cr3, page)).writable
      ensures !resolved ==> spaces == old(spaces) && mem == old(mem)
      ensures !resolved && UserLeaf(spaces, Spot(cr3, page)) ==>
        var l := LeafAt(spaces, Spot(cr3, page)); l.writable || !l.cow || !Enough()
    {
      hide Drawn, Exclusive, KernelKept, Cow.Distinct, SpacesOf;
      if page !in spaces[cr3] {
        return false;
      }
      var l := spaces[cr3][page];
      if !l.user || l.writable || !l.cow {
        return false;
      }
      var f := AllocateFrame();
      if f.None? {
        return false;
      }
      Unused(usable, old(next));
      UserNotKernel(spaces, kernel, old(Taken()), cr3, page);
      var private := l.(frame := f.value, writable := true, cow := false);
      FreshLeaf(spaces, mem, kernel, old(Taken()), cr3, page, private, Content(mem, l.frame));
      SamePage(spaces, mem, cr3, page);
      mem := mem[f.value := Content(mem, l.frame)];
      spaces := WithLeaf(spaces, cr3, page, private);
      return true;
    }

    /** A user program stores one byte: directly, or again after a resolved fault; otherwise it is killed. */
    method UserStore(cr3: nat, page: nat, off: nat, v: byte) returns (alive: bool)
      requires Valid() && cr3 < |spaces| && off < PAGE_SIZE
      modifies this`next, this`spaces, this`mem
      ensures Valid() && |spaces| == |old(spaces)| && next <= old(next) + 1
      ensures alive ==> page in old(Abs())[cr3] && old(Abs())[cr3][page].writable
      ensures alive ==> Abs() == Stored(old(Abs()), cr3, page, off, v)
      ensures !alive ==> Abs() == old(Abs())
      ensures !alive && page in old(Abs())[cr3] && old(Abs())[cr3][page].writable ==> !Enough()
    {
      hide Drawn, Exclusive, KernelKept, Cow.Distinct;
      if page !in spaces[cr3] || !spaces[cr3][page].user {
        return false;
      }
      if !spaces[cr3][page].writable {
        var resolved := ResolveFault(cr3, page);
        if !resolved {
          return false;
        }
      }
      StoreRefines(spaces, mem, Spot(cr3, page), off, v);
      var f := spaces[cr3][page].frame;
      mem := mem[f := Content(mem, f)[off := v]];
      return true;
    }

    /** A user program loads one byte; `None` when it is killed for touching a page it does not have. */
    method UserLoad(cr3: nat, page: nat, off: nat) returns (v: Option<byte>)
      requires cr3 < |spaces| && off < PAGE_SIZE
      ensures v == if page in Abs()[cr3] then Some(Abs()[cr3][page].data[off]) else None
    {
      if page in spaces[cr3] && spaces[cr3][page].user {
        v := Some(Content(mem, spaces[cr3][page].frame)[off]);
      } else {
        v := None;
      }
    }
  }

  function SharedBelow(s: Leaves, n: nat): Leaves {
    map p | p in s :: if s[p].user && p < n then Shared(s[p]) else s[p]
  }

  function Entry(l: Leaf, mark: bool): Leaf { if mark then Shared(l) else l }

  /** `leaves` lists, once each and in page order, the user leaves of `s` below page `n`, in shared form if marked. */
  ghost predicate Listed(s: Leaves, leaves: seq<(nat, Leaf)>, n: nat, mark: bool) {
    && (forall i, j :: 0 <= i < j < |leaves| ==> leaves[i].0 < leaves[j].0)
    && (forall i :: 0 <= i < |leaves| ==>
          leaves[i].0 < n && leaves[i].0 in s && s[leaves[i].0].user && leaves[i].1 == Entry(s[leaves[i].0], mark))
    && (forall p :: p in s && s[p].user && p < n ==> exists i :: 0 <= i < |leaves| && leaves[i].0 == p)
  }

  /** A listing has as many entries as the user program sees pages. */
  lemma ListedSize(spaces: seq<Leaves>, mem: Memory, taken: seq<nat>, parent: nat, leaves: seq<(nat, Leaf)>, mark: bool)
    requires parent < |spaces| && Drawn(spaces, taken) && Listed(spaces[parent], leaves, USER_PAGES, mark)
    ensures |leaves| == |SpacesOf(mem, spaces)[parent]|
  {
    var s := SpacesOf(mem, spaces)[parent];
    var pages := seq(|leaves|, i requires 0 <= i < |leaves| => leaves[i].0);
    forall p | p in s ensures p in pages {
      assert UserLeaf(spaces, Spot(parent, p));
      var i :| 0 <= i < |leaves| && leaves[i].0 == p;
      assert pages[i] == p;
    }
    hide Drawn, Listed, SpacesOf;
    DistinctKeys(pages, s.Keys);
  }

  lemma {:induction false} DistinctKeys(pages: seq<nat>, keys: set<nat>)
    requires (forall i, j :: 0 <= i < j < |pages| ==> pages[i] != pages[j]) && forall p :: p in pages <==> p in keys
    ensures |pages| == |keys|
  {
    if pages == [] {
      assert keys == {};
    } else {
      var p := pages[|pages| - 1];
      assert pages == pages[..|pages| - 1] + [p];
      DistinctKeys(pages[..|pages| - 1], keys - {p});
    }
  }

  lemma MarkBounds(spaces: seq<Leaves>, parent: nat, taken: seq<nat>)
    requires parent < |spaces| && Drawn(spaces, taken)
    ensures SharedBelow(spaces[parent], 0) == spaces[parent] && forall mark :: Listed(spaces[parent], [], 0, mark)
    ensures SharedBelow(spaces[parent], USER_PAGES) == SharedLeaves(spaces[parent])
  {
    forall p | p in spaces[parent] && spaces[parent][p].user ensures p < USER_PAGES {
      assert UserLeaf(spaces, Spot(parent, p));
    }
  }

  lemma SharedStep(s: Leaves, n: nat)
    ensures n in SharedBelow(s, n) <==> n in s
    ensures n in s && s[n].user ==> SharedBelow(s, n)[n := Shared(s[n])] == SharedBelow(s, n + 1)
    ensures n in s && s[n].user && !s[n].writable ==> SharedBelow(s, n) == SharedBelow(s, n + 1)
    ensures !(n in s && s[n].user) ==> SharedBelow(s, n) == SharedBelow(s, n + 1)
    ensures n in s ==> SharedBelow(s, n)[n] == s[n]
  {}

  lemma ListedStep(s: Leaves, leaves: seq<(nat, Leaf)>, n: nat, mark: bool)
    requires Listed(s, leaves, n, mark)
    ensures n in s && s[n].user ==> Listed(s, leaves + [(n, Entry(s[n], mark))], n + 1, mark)
    ensures !(n in s && s[n].user) ==> Listed(s, leaves, n + 1, mark)
  {
    if !(n in s && s[n].user) { return; }
    var leaves' := leaves + [(n, Entry(s[n], mark))];
    forall p | p in s && s[p].user && p < n + 1 ensures exists i :: 0 <= i < |leaves'| && leaves'[i].0 == p {
      if p == n {
        assert leaves'[|leaves|].0 == p;
      } else {
        var i :| 0 <= i < |leaves| && leaves[i].0 == p;
        assert leaves'[i].0 == p;
      }
    }
  }

  /** `child` holds the kernel's leaves and some of the first `n` listed ones. */
  ghost predicate Partial(child: Leaves, kernel: Leaves, s: Leaves, leaves: seq<(nat, Leaf)>, n: nat) {
    && n <= |leaves| && Listed(s, leaves, USER_PAGES, true) && KernelIn(child, kernel)
    && forall p :: p in child && p !in kernel ==>
         p in s && s[p].user && child[p] == Shared(s[p]) && (n < |leaves| ==> p < leaves[n].0)
  }

  lemma MarkKeeps(spaces: seq<Leaves>, kernel: Leaves, parent: nat, taken: seq<nat>)
    requires parent < |spaces| && Drawn(spaces, taken) && KernelKept(spaces, kernel) && Exclusive(spaces)
    ensures var spaces' := spaces[parent := SharedLeaves(spaces[parent])];
            Drawn(spaces', taken) && KernelKept(spaces', kernel) && Exclusive(spaces')
  {
    hide SharedLeaves, ChildLeaves, KernelIn;
    ForkKeeps(spaces, kernel, parent, taken);
    var full := ForkedLeaves(spaces, kernel, parent);
    var spaces' := spaces[parent := SharedLeaves(spaces[parent])];
    assert forall i :: 0 <= i < |spaces'| ==> spaces'[i] == full[i];
    forall x | UserLeaf(spaces', x) ensures UserLeaf(full, x) && LeafAt(full, x) == LeafAt(spaces', x) {}
  }

  lemma PartialNone(kernel: Leaves, s: Leaves, leaves: seq<(nat, Leaf)>)
    requires Listed(s, leaves, USER_PAGES, true)
    ensures Partial(kernel, kernel, s, leaves, 0)
  {}

  lemma PartialStep(spaces: seq<Leaves>, child: Leaves, kernel: Leaves, parent: nat, s: Leaves,
                    leaves: seq<(nat, Leaf)>, n: nat)
    requires parent < |spaces| && s == spaces[parent] && KernelKept(spaces, kernel)
    requires Partial(child, kernel, s, leaves, n) && n < |leaves|
    ensures leaves[n].0 !in child && forall j :: 0 <= j < n ==> leaves[j].0 != leaves[n].0
    ensures Partial(child, kernel, s, leaves, n + 1)
    ensures Partial(child[leaves[n].0 := leaves[n].1], kernel, s, leaves, n + 1)
  {
    assert KernelIn(s, kernel);
  }

  lemma AllMapped(spaces: seq<Leaves>, kernel: Leaves, parent: nat, taken: seq<nat>, leaves: seq<(nat, Leaf)>,
                  child: Leaves)
    requires parent < |spaces| && Drawn(spaces, taken) && KernelKept(spaces, kernel)
    requires Partial(child, kernel, spaces[parent], leaves, |leaves|)
    requires forall j :: 0 <= j < |leaves| ==> leaves[j].0 in child
    ensures child == ChildLeaves(kernel, spaces[parent])
  {
    var s := spaces[parent];
    assert KernelIn(s, kernel);
    forall p | p in s && s[p].user ensures p in child && child[p] == Shared(s[p]) {
      assert UserLeaf(spaces, Spot(parent, p));
      var i :| 0 <= i < |leaves| && leaves[i].0 == p;
    }
  }

  lemma PartialSafe(spaces: seq<Leaves>, kernel: Leaves, parent: nat, taken: seq<nat>, leaves: seq<(nat, Leaf)>,
                    child: Leaves)
    requires parent < |spaces| && Drawn(spaces, taken) && KernelKept(spaces, kernel) && Exclusive(spaces)
    requires Partial(child, kernel, spaces[parent], leaves, |leaves|)
    ensures var spaces' := spaces[parent := SharedLeaves(spaces[parent])] + [child];
            Drawn(spaces', taken) && KernelKept(spaces', kernel) && Exclusive(spaces')
  {
    hide Listed, SharedLeaves, Drawn, Exclusive;
    var s, full := spaces[parent], ForkedLeaves(spaces, kernel, parent);
    var spaces' := spaces[parent := SharedLeaves(s)] + [child];
    assert KernelIn(s, kernel);
    ForkKeeps(spaces, kernel, parent, taken);
    assert forall p :: p in child ==> p in full[|spaces|] && child[p] == full[|spaces|][p];
    assert forall i :: 0 <= i < |spaces| ==> spaces'[i] == full[i] && full[i] in full;
    assert KernelIn(child, kernel);
    hide KernelIn, ChildLeaves, Partial;
    FewerLeaves(full, kernel, taken, spaces');
  }

  /** What a fork that could not map every page is: still safe, and a copy exactly when it mapped them all. */
  lemma PartialFork(spaces: seq<Leaves>, mem: Memory, kernel: Leaves, parent: nat, taken: seq<nat>, taken': seq<nat>,
                    leaves: seq<(nat, Leaf)>, child: Leaves)
    requires parent < |spaces| && Drawn(spaces, taken) && KernelKept(spaces, kernel) && Exclusive(spaces)
        && taken <= taken'
    requires Partial(child, kernel, spaces[parent], leaves, |leaves|)
    ensures var spaces' := spaces[parent := SharedLeaves(spaces[parent])] + [child];
            && Drawn(spaces', taken') && KernelKept(spaces', kernel) && Exclusive(spaces')
            && (SpacesOf(mem, spaces') == Forked(SpacesOf(mem, spaces), parent) <==>
                  forall j :: 0 <= j < |leaves| ==> leaves[j].0 in child)
  {
    hide Drawn, KernelKept, Exclusive, SharedLeaves, ChildLeaves, PageOf;
    var s := spaces[parent];
    var spaces' := spaces[parent := SharedLeaves(s)] + [child];
    PartialSafe(spaces, kernel, parent, taken, leaves, child);
    MoreTaken(spaces', taken, taken');
    ForkRefines(spaces, mem, kernel, parent);
    if forall j :: 0 <= j < |leaves| ==> leaves[j].0 in child {
      AllMapped(spaces, kernel, parent, taken, leaves, child);
    } else {
      var j :| 0 <= j < |leaves| && leaves[j].0 !in child;
      assert leaves[j].0 in SpaceOf(mem, s) && leaves[j].0 !in SpaceOf(mem, child);
      assert SpacesOf(mem, spaces')[|spaces|] == SpaceOf(mem, child);
    }
  }

  lemma PartialPages(spaces: seq<Leaves>, mem: Memory, kernel: Leaves, parent: nat, taken: seq<nat>,
                     leaves: seq<(nat, Leaf)>, child: Leaves)
    requires parent < |spaces| && Drawn(spaces, taken) && KernelKept(spaces, kernel) && Exclusive(spaces)
    requires Partial(child, kernel, spaces[parent], leaves, |leaves|)
    ensures var spaces' := spaces[parent := SharedLeaves(spaces[parent])] + [child];
            PartForked(SpacesOf(mem, spaces), SpacesOf(mem, spaces'), parent)
  {
    hide Drawn, KernelKept, Exclusive, SharedLeaves, Listed;
    var s, full := spaces[parent], ForkedLeaves(spaces, kernel, parent);
    var spaces' := spaces[parent := SharedLeaves(s)] + [child];
    var a, whole, part := SpacesOf(mem, spaces), SpacesOf(mem, full), SpacesOf(mem, spaces');
    ForkRefines(spaces, mem, kernel, parent);
    assert KernelIn(s, kernel) by { KernelIsIn(spaces, kernel, parent); }
    assert forall p :: p in child ==> p in full[|spaces|] && child[p] == full[|spaces|][p];
    forall i | 0 <= i < |a| ensures part[i] == a[i] {
      assert spaces'[i] == full[i];
      assert part[i] == whole[i];
    }
    assert part[..|a|] == a;
    forall p | p in part[|a|] ensures p in a[parent] && part[|a|][p] == a[parent][p] {
      assert p in whole[|a|] && whole[|a|][p] == part[|a|][p];
    }
  }

  lemma KernelIsIn(spaces: seq<Leaves>, kernel: Leaves, i: nat)
    requires KernelKept(spaces, kernel) && i < |spaces|
    ensures KernelIn(spaces[i], kernel)
  {}

  /** `part` has some of the first `n` listed pages, each as it is in `whole`. */
  ghost predicate Copied(part: Space, whole: Space, s: Leaves, pages: seq<(nat, Leaf)>, n: nat) {
    && n <= |pages| && Listed(s, pages, USER_PAGES, false)
    && forall p :: p in part ==> p in whole && part[p] == whole[p] && (n < |pages| ==> p < pages[n].0)
  }

  lemma Unused(usable: seq<nat>, n: nat)
    requires Cow.Distinct(usable) && n < |usable|
    ensures usable[n] !in usable[..n]
  {}

  lemma NotKernel(spaces: seq<Leaves>, kernel: Leaves, i: nat, page: nat)
    requires KernelKept(spaces, kernel) && i < |spaces| && page !in spaces[i]
    ensures page !in kernel
  {
    assert KernelIn(spaces[i], kernel);
  }

  lemma CopiedNone(whole: Space, s: Leaves, pages: seq<(nat, Leaf)>)
    requires Listed(s, pages, USER_PAGES, false)
    ensures Copied(map[], whole, s, pages, 0)
  {}

  lemma CopiedPart(a: seq<Space>, parent: nat, s: Leaves, pages: seq<(nat, Leaf)>, part: Space)
    requires parent < |a| && Copied(part, a[parent], s, pages, |pages|)
    ensures PartForked(a, a + [part], parent)
  {}

  lemma CopiedStep(spaces: seq<Leaves>, mem: Memory, kernel: Leaves, taken: seq<nat>, parent: nat, s: Leaves,
                   whole: Space, pages: seq<(nat, Leaf)>, part: Space, n: nat)
    requires parent < |spaces| && s == spaces[parent] && whole == SpacesOf(mem, spaces)[parent]
    requires KernelKept(spaces, kernel) && Drawn(spaces, taken)
    requires Copied(part, whole, s, pages, n) && n < |pages|
    ensures var page, leaf := pages[n].0, pages[n].1;
            && page < USER_PAGES && page !in part && page !in kernel
            && leaf.user && !(leaf.writable && leaf.cow)
            && page in whole && whole[page] == PageOf(mem, leaf)
            && Copied(part, whole, s, pages, n + 1) && Copied(part[page := whole[page]], whole, s, pages, n + 1)
            && forall j :: 0 <= j < n ==> pages[j].0 != page
  {
    var page := pages[n].0;
    assert UserLeaf(spaces, Spot(parent, page));
    assert KernelIn(s, kernel);
  }

  lemma CopiedAll(spaces: seq<Leaves>, mem: Memory, taken: seq<nat>, parent: nat, s: Leaves, whole: Space,
                  pages: seq<(nat, Leaf)>, part: Space)
    requires parent < |spaces| && s == spaces[parent] && whole == SpacesOf(mem, spaces)[parent] && Drawn(spaces, taken)
    requires Copied(part, whole, s, pages, |pages|)
    ensures part == whole <==> forall j :: 0 <= j < |pages| ==> pages[j].0 in part
  {
    assert forall i :: 0 <= i < |pages| ==> pages[i].0 in whole;
    if forall j :: 0 <= j < |pages| ==> pages[j].0 in part {
      forall p | p in whole ensures p in part {
        assert UserLeaf(spaces, Spot(parent, p));
        var i :| 0 <= i < |pages| && pages[i].0 == p;
      }
    }
  }

  lemma UserNotKernel(spaces: seq<Leaves>, kernel: Leaves, taken: seq<nat>, i: nat, page: nat)
    requires KernelKept(spaces, kernel) && Drawn(spaces, taken)
    requires i < |spaces| && page in spaces[i] && spaces[i][page].user
    ensures page !in kernel && page < USER_PAGES
  {
    assert KernelIn(spaces[i], kernel);
    assert UserLeaf(spaces, Spot(i, page));
  }

  lemma SamePage(spaces: seq<Leaves>, mem: Memory, i: nat, page: nat)
    requires UserLeaf(spaces, Spot(i, page))
    ensures WithPage(SpacesOf(mem, spaces), i, page, PageOf(mem, spaces[i][page])) == SpacesOf(mem, spaces)
  {
    var s := SpaceOf(mem, spaces[i]);
    assert s[page := PageOf(mem, spaces[i][page])] == s;
  }

  // ---------------------------------------------------------------- two machines, one behaviour

  /** What the kernel does for user programs, and what they do themselves. */
  datatype Event =
    | NewSpace
    | Fork(parent: nat)
    | Map(cr3: nat, start: nat, count: nat, writable: bool)
    | Store(cr3: nat, page: nat, off: nat, v: byte)

  /** A mapping that runs off the user half. */
  predicate OffEnd(a: Space, kernel: set<nat>, start: nat, count: nat) {
    start >= USER_PAGES ||
    (start + count > USER_PAGES && Reach(a, kernel, start, USER_PAGES - start) == USER_PAGES - start)
  }

  /** Pages up to the end of the user half can be mapped, and the next one is asked for. */
  lemma PanicsOffEnd(a: Space, kernel: set<nat>, start: nat, count: nat)
    requires !OffEnd(a, kernel, start, count)
    ensures start < USER_PAGES
    ensures var done := Reach(a, kernel, start, InUserHalf(start, count));
            !(done < count && start + done == USER_PAGES)
  {
    if start + count > USER_PAGES {
      var done := Reach(a, kernel, start, USER_PAGES - start);
      assert InUserHalf(start, count) == USER_PAGES - start;
    }
  }

  /** The event concerns a space there is, and does not make the kernel panic. */
  predicate Possible(e: Event, kernel: set<nat>, a: seq<Space>) {
    match e
    case NewSpace => true
    case Fork(parent) => parent < |a|
    case Map(cr3, start, count, _) => cr3 < |a| && !OffEnd(a[cr3], kernel, start, count)
    case Store(cr3, page, off, _) => cr3 < |a| && off < PAGE_SIZE
  }

  /** What an event does to the user spaces of a kernel that copies on fork. */
  function After(e: Event, kernel: set<nat>, a: seq<Space>): seq<Space>
    requires Possible(e, kernel, a)
  {
    match e
    case NewSpace => a + [map[]]
    case Fork(parent) => Forked(a, parent)
    case Map(cr3, start, count, writable) =>
      a[cr3 := Mapped(a[cr3], start, Reach(a[cr3], kernel, start, InUserHalf(start, count)), writable, 0)]
    case Store(cr3, page, off, v) =>
      if page in a[cr3] && a[cr3][page].writable then Stored(a, cr3, page, off, v) else a
  }

  /** Frames that an event may draw: the kernel's tables, and for each page three tables and, if need be, the page. */
  function Cost(e: Event, eager: bool, kernelTables: nat, a: seq<Space>): nat {
    match e
    case NewSpace => kernelTables
    case Fork(parent) => if parent < |a| then kernelTables + (if eager then 4 else 3) * |a[parent]| else 0
    case Map(_, _, count, _) => 4 * count
    case Store(_, _, _, _) => 1
  }

  /**
   * One event on a machine that forks by sharing or, if `eager`, by copying; not `ok`: memory ran out. Nothing but
   * that makes the kernel panic.
   */
  method Handle(m: MemoryManager, e: Event, eager: bool) returns (ok: bool, panics: bool)
    requires m.Valid() && m.Enough() && Possible(e, m.kernel.Keys, m.Abs())
    modifies m
    ensures ok ==> m.Valid() && m.Enough() && m.Abs() == After(e, m.kernel.Keys, old(m.Abs()))
    ensures !ok ==> !m.Enough()
    ensures panics ==> !ok
    ensures m.next <= old(m.next) + Cost(e, eager, m.kernelTables, old(m.Abs()))
  {
    hide SpacesOf, Drawn, Exclusive, KernelKept, Cow.Distinct;
    panics := false;
    match e {
      case NewSpace =>
        var r := m.CreateUserMapper();
        panics := r.None?;
      case Fork(parent) =>
        if eager {
          var r := m.DuplicateFork(parent);
          panics := r.None?;
        } else {
          var r := m.CowFork(parent);
          panics := r.None?;
        }
      case Map(cr3, start, count, writable) =>
        var r, done := m.MapUserRegion(cr3, start, count, writable);
        panics := r == Panics;
        PanicsOffEnd(old(m.Abs())[cr3], m.kernel.Keys, start, count);
      case Store(cr3, page, off, v) =>
        var r := m.UserStore(cr3, page, off, v);
    }
    ok := m.Enough();
  }

  predicate AllPossible(events: seq<Event>, kernel: set<nat>, a: seq<Space>) {
    events == [] || (Possible(events[0], kernel, a) && AllPossible(events[1..], kernel, After(events[0], kernel, a)))
  }

  function AfterAll(events: seq<Event>, kernel: set<nat>, a: seq<Space>): seq<Space>
    requires AllPossible(events, kernel, a)
  {
    if events == [] then a else AfterAll(events[1..], kernel, After(events[0], kernel, a))
  }

  function TotalCost(events: seq<Event>, eager: bool, kernelTables: nat, kernel: set<nat>, a: seq<Space>): nat
    requires AllPossible(events, kernel, a)
  {
    if events == [] then
      0
    else
      var next := After(events[0], kernel, a);
      Cost(events[0], eager, kernelTables, a) + TotalCost(events[1..], eager, kernelTables, kernel, next)
  }

  /**
   * Copy-on-write is invisible: a machine that shares frames on fork and one that copies every page show user
   * programs the same spaces after any run of events, those of a kernel that copies, as long as memory lasts; and
   * it lasts at least as long as the events may cost.
   */
  method RunBoth(shares: MemoryManager, copies: MemoryManager, events: seq<Event>) returns (ok: bool)
    requires shares != copies && shares.kernel.Keys == copies.kernel.Keys
    requires shares.Valid() && shares.Enough() && copies.Valid() && copies.Enough()
    requires shares.Abs() == copies.Abs() && AllPossible(events, shares.kernel.Keys, shares.Abs())
    modifies shares, copies
    ensures ok ==>
      && shares.Valid() && copies.Valid()
      && shares.Abs() == copies.Abs() == AfterAll(events, shares.kernel.Keys, old(shares.Abs()))
    ensures !ok ==> !shares.Enough() || !copies.Enough()
    ensures var keys, a := shares.kernel.Keys, old(shares.Abs());
            old(shares.next) + TotalCost(events, false, shares.kernelTables, keys, a) <= |shares.usable| ==>
            old(copies.next) + TotalCost(events, true, copies.kernelTables, keys, a) <= |copies.usable| ==> ok
  {
    hide SpacesOf, Drawn, Exclusive, KernelKept, Cow.Distinct, After, Possible, Cost;
    ghost var keys, a0 := shares.kernel.Keys, shares.Abs();
    ghost var sharesBound := shares.next + TotalCost(events, false, shares.kernelTables, keys, a0);
    ghost var copiesBound := copies.next + TotalCost(events, true, copies.kernelTables, keys, a0);
    for i := 0 to |events|
      invariant shares.Valid() && shares.Enough() && copies.Valid() && copies.Enough()
      invariant shares.Abs() == copies.Abs() && AllPossible(events[i..], keys, shares.Abs())
      invariant AfterAll(events[i..], keys, shares.Abs()) == AfterAll(events, keys, a0)
      invariant shares.next + TotalCost(events[i..], false, shares.kernelTables, keys, shares.Abs()) <= sharesBound
      invariant copies.next + TotalCost(events[i..], true, copies.kernelTables, keys, shares.Abs()) <= copiesBound
    {
      assert events[i..][0] == events[i] && events[i..][1..] == events[i + 1..];
      var shared, sharingPanics := Handle(shares, events[i], false);
      if !shared {
        return false;
      }
      var copied, copyingPanics := Handle(copies, events[i], true);
      if !copied {
        return false;
      }
    }
    return true;
  }

  /** A shared fork that runs out of frames for the child's tables succeeds all the same, with a page missing. */
  method ForkOutOfMemory() returns (m: MemoryManager, cr3: Option<nat>, ghost before: seq<Space>)
    ensures cr3.Some? && m.Valid() && |before| == 1 && m.Abs() != Forked(before, 0)
  {
    hide SpacesOf, Drawn, Exclusive, KernelKept;
    m := new MemoryManager([10, 11, 12, 13, 14, 15, 16, 17], map[], 1, (n, c, p) => 3);
    var space := m.CreateUserMapper();
    var region, done := m.MapUserRegion(0, 5, 1, true);
    assert region == Complete;
    before := m.Abs();
    assert |before| == 1 && 5 in before[0];
    assert |before[0]| >= 1;
    cr3 := m.CowFork(0);
  }

  lemma InUse(spaces: seq<Leaves>, mem: Memory, kernel: Leaves, i: nat, start: nat, count: nat, r: nat)
    requires i < |spaces| && KernelKept(spaces, kernel)
    requires r <= count && forall p :: start <= p < start + r ==> p !in spaces[i]
    requires r < count ==> start + r in spaces[i]
    ensures r == Reach(SpacesOf(mem, spaces)[i], kernel.Keys, start, count)
  {
    assert KernelIn(spaces[i], kernel);
    ReachIs(SpacesOf(mem, spaces)[i], kernel.Keys, start, count, r);
  }
}
