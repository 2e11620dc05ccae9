/** Copy-on-write fork of user address spaces, refining the fork that copies every page. */
module Cow {
  import opened Bytes

  const PAGE_SIZE: nat := 4096
  const USER_PAGES: nat := 0x8_0000_0000  // 256 * 512 * 512 * 512 page numbers below the kernel half

  type PageData = s: seq<byte> | |s| == PAGE_SIZE witness Zeros(PAGE_SIZE)

  /** A level-1 page-table entry; `rest` stands for the flags that fork and faults carry along. */
  datatype Leaf = Leaf(frame: nat, user: bool, writable: bool, cow: bool, rest: nat)

  type Leaves = map<nat, Leaf>

  /** What a user program sees of a page. */
  datatype UserPage = UserPage(data: PageData, writable: bool, rest: nat)

  type Space = map<nat, UserPage>

  type Memory = map<nat, PageData>

  function Content(mem: Memory, frame: nat): PageData { if frame in mem then mem[frame] else Zeros(PAGE_SIZE) }

  function PageOf(mem: Memory, l: Leaf): UserPage { UserPage(Content(mem, l.frame), l.writable || l.cow, l.rest) }

  function SpaceOf(mem: Memory, s: Leaves): Space {
    map p | p in s && s[p].user :: PageOf(mem, s[p])
  }

  function SpacesOf(mem: Memory, spaces: seq<Leaves>): (r: seq<Space>)
    ensures |r| == |spaces|
  {
    seq(|spaces|, i requires 0 <= i < |spaces| => SpaceOf(mem, spaces[i]))
  }

  // ---------------------------------------------------------------- the eager machine

  /** Fork by copying: the child starts with the parent's pages. */
  function Forked(a: seq<Space>, parent: nat): seq<Space>
    requires parent < |a|
  {
    a + [a[parent]]
  }

  /** One more space, which has some of the pages of `parent` and no others; the spaces before are as they were. */
  predicate PartForked(a: seq<Space>, a': seq<Space>, parent: nat) {
    && parent < |a| && |a'| == |a| + 1 && a'[..|a|] == a
    && forall p :: p in a'[|a|] ==> p in a[parent] && a'[|a|][p] == a[parent][p]
  }

  function WithPage(a: seq<Space>, s: nat, page: nat, x: UserPage): seq<Space>
    requires s < |a|
  {
    var space: Space := a[s][page := x];
    a[s := space]
  }

  /** A user-mode store. */
  function Stored(a: seq<Space>, s: nat, page: nat, off: nat, v: byte): seq<Space>
    requires s < |a| && page in a[s] && off < PAGE_SIZE
  {
    WithPage(a, s, page, a[s][page].(data := a[s][page].data[off := v]))
  }

  /** One byte of one page of one space changes, and no right. */
  lemma StoredIs(a: seq<Space>, s: nat, page: nat, off: nat, v: byte)
    requires s < |a| && page in a[s] && off < PAGE_SIZE
    ensures var b := Stored(a, s, page, off, v);
            && |b| == |a| && (forall t :: 0 <= t < |a| ==> b[t].Keys == a[t].Keys)
            && forall t, p :: 0 <= t < |a| && p in a[t] ==>
                 && b[t][p].writable == a[t][p].writable && b[t][p].rest == a[t][p].rest
                 && forall k :: 0 <= k < PAGE_SIZE ==>
                      b[t][p].data[k] == if t == s && p == page && k == off then v else a[t][p].data[k]
  {}

  /** `count` zeroed pages mapped from `start` on. */
  function Mapped(a: Space, start: nat, count: nat, writable: bool, rest: nat): Space {
    if count == 0 then a
    else Mapped(a, start, count - 1, writable, rest)[start + count - 1 := UserPage(Zeros(PAGE_SIZE), writable, rest)]
  }

  /** Mapping a stretch: zeroed pages with the rights asked for there, everything else as it was. */
  lemma {:induction false} MappedIs(a: Space, start: nat, count: nat, writable: bool, rest: nat)
    ensures var b := Mapped(a, start, count, writable, rest);
            && (forall p :: p in b <==> p in a || start <= p < start + count)
            && (forall p :: start <= p < start + count ==> b[p] == UserPage(Zeros(PAGE_SIZE), writable, rest))
            && (forall p :: p in a && !(start <= p < start + count) ==> p in b && b[p] == a[p])
  {
    if count > 0 { MappedIs(a, start, count - 1, writable, rest); }
  }

  /** How many of the `count` pages from `start` on come before the first one in use. */
  function Reach(a: Space, kernel: set<nat>, start: nat, count: nat): (r: nat)
    ensures r <= count
    ensures forall p :: start <= p < start + r ==> p !in a && p !in kernel
    ensures r < count ==> start + r in a || start + r in kernel
  {
    if count == 0 then 0
    else
      var r := Reach(a, kernel, start, count - 1);
      if r < count - 1 || start + r in a || start + r in kernel then r else count
  }

  lemma {:induction false} ReachIs(a: Space, kernel: set<nat>, start: nat, count: nat, r: nat)
    requires r <= count && forall p :: start <= p < start + r ==> p !in a && p !in kernel
    requires r < count ==> start + r in a || start + r in kernel
    ensures Reach(a, kernel, start, count) == r
  {}

  // ---------------------------------------------------------------- invariant

  datatype Spot = Spot(space: nat, page: nat)

  predicate UserLeaf(spaces: seq<Leaves>, x: Spot) {
    x.space < |spaces| && x.page in spaces[x.space] && spaces[x.space][x.page].user
  }

  function LeafAt(spaces: seq<Leaves>, x: Spot): Leaf
    requires UserLeaf(spaces, x)
  {
    spaces[x.space][x.page]
  }

  /** The frame behind a writable user leaf is mapped by that one leaf only. */
  ghost predicate Exclusive(spaces: seq<Leaves>) {
    forall x, y :: UserLeaf(spaces, x) && UserLeaf(spaces, y) && LeafAt(spaces, x).writable && x != y
      ==> LeafAt(spaces, x).frame != LeafAt(spaces, y).frame
  }

  /** User leaves name frames handed out so far, below the kernel half, and are not both writable and shared. */
  ghost predicate Drawn(spaces: seq<Leaves>, taken: seq<nat>) {
    forall x :: UserLeaf(spaces, x) ==>
      && LeafAt(spaces, x).frame in taken && x.page < USER_PAGES
      && !(LeafAt(spaces, x).writable && LeafAt(spaces, x).cow)
  }

  /** Every space holds the kernel's low-half leaves, which no user program can reach, and else user leaves. */
  ghost predicate KernelKept(spaces: seq<Leaves>, kernel: Leaves) {
    && (forall p :: p in kernel ==> !kernel[p].user)
    && forall s :: s in spaces ==> KernelIn(s, kernel)
  }

  predicate KernelIn(s: Leaves, kernel: Leaves) {
    && (forall p :: p in kernel ==> p in s && s[p] == kernel[p])
    && (forall p :: p in s && p !in kernel ==> s[p].user)
  }

  ghost predicate Distinct(usable: seq<nat>) {
    forall i, j :: 0 <= i < j < |usable| ==> usable[i] != usable[j]
  }

  /** `s` and `s'` map the same user pages to the same data and rights. */
  lemma SameSpace(mem: Memory, mem': Memory, s: Leaves, s': Leaves)
    requires forall p :: p in s && s[p].user <==> p in s' && s'[p].user
    requires forall p :: p in s && s[p].user ==> PageOf(mem', s'[p]) == PageOf(mem, s[p])
    ensures SpaceOf(mem', s') == SpaceOf(mem, s)
  {
    hide PageOf;
  }

  // ---------------------------------------------------------------- marking and sharing

  /** The entry a fork leaves in the parent and gives to the child. */
  function Shared(l: Leaf): Leaf { if l.writable then l.(writable := false, cow := true) else l }

  function SharedLeaves(s: Leaves): Leaves { map p | p in s :: if s[p].user then Shared(s[p]) else s[p] }

  /** The child's leaves: the kernel's, and the parent's user leaves. */
  function ChildLeaves(kernel: Leaves, parent: Leaves): Leaves {
    map p | p in kernel.Keys + parent.Keys && (p in kernel || parent[p].user) ::
      if p in kernel then kernel[p] else Shared(parent[p])
  }

  /** The spaces after a fork. */
  function ForkedLeaves(spaces: seq<Leaves>, kernel: Leaves, parent: nat): seq<Leaves>
    requires parent < |spaces|
  {
    spaces[parent := SharedLeaves(spaces[parent])] + [ChildLeaves(kernel, spaces[parent])]
  }

  /** The leaf before the fork that a leaf after it comes from. */
  function Origin(spaces: seq<Leaves>, parent: nat, x: Spot): Spot {
    if x.space == |spaces| then Spot(parent, x.page) else x
  }

  lemma ForkOrigin(spaces: seq<Leaves>, kernel: Leaves, parent: nat, x: Spot)
    requires parent < |spaces| && KernelKept(spaces, kernel) && UserLeaf(ForkedLeaves(spaces, kernel, parent), x)
    ensures UserLeaf(spaces, Origin(spaces, parent, x))
    ensures var l, y := LeafAt(ForkedLeaves(spaces, kernel, parent), x), Origin(spaces, parent, x);
            l == if y.space == parent then Shared(LeafAt(spaces, y)) else LeafAt(spaces, y)
  {
    assert KernelIn(spaces[parent], kernel);
  }

  /** Sharing a parent's frames with a new child looks, from user mode, like copying its pages. */
  lemma ForkRefines(spaces: seq<Leaves>, mem: Memory, kernel: Leaves, parent: nat)
    requires parent < |spaces| && KernelKept(spaces, kernel)
    ensures SpacesOf(mem, ForkedLeaves(spaces, kernel, parent)) == Forked(SpacesOf(mem, spaces), parent)
  {
    var s := spaces[parent];
    assert KernelIn(s, kernel) && forall p :: p in kernel ==> !kernel[p].user;
    hide SpaceOf, KernelIn;
    SharedSame(mem, s);
    ChildSame(mem, kernel, s);
  }

  lemma SharedSame(mem: Memory, s: Leaves)
    ensures SpaceOf(mem, SharedLeaves(s)) == SpaceOf(mem, s)
  {
    hide Content;
    SameSpace(mem, mem, s, SharedLeaves(s));
  }

  lemma ChildSame(mem: Memory, kernel: Leaves, s: Leaves)
    requires KernelIn(s, kernel) && forall p :: p in kernel ==> !kernel[p].user
    ensures SpaceOf(mem, ChildLeaves(kernel, s)) == SpaceOf(mem, s)
  {
    hide Content;
    SameSpace(mem, mem, s, ChildLeaves(kernel, s));
  }

  lemma ForkKeeps(spaces: seq<Leaves>, kernel: Leaves, parent: nat, taken: seq<nat>)
    requires parent < |spaces| && Drawn(spaces, taken) && KernelKept(spaces, kernel) && Exclusive(spaces)
    ensures var spaces' := ForkedLeaves(spaces, kernel, parent);
            Drawn(spaces', taken) && KernelKept(spaces', kernel) && Exclusive(spaces')
  {
    var spaces' := ForkedLeaves(spaces, kernel, parent);
    forall s | s in spaces' ensures KernelIn(s, kernel) {
      assert KernelIn(spaces[parent], kernel);
      if s in spaces {}
    }
    hide KernelIn, ForkedLeaves;
    forall x | UserLeaf(spaces', x)
      ensures UserLeaf(spaces, Origin(spaces, parent, x))
      ensures var l, y := LeafAt(spaces', x), Origin(spaces, parent, x);
              l == if y.space == parent then Shared(LeafAt(spaces, y)) else LeafAt(spaces, y)
    {
      ForkOrigin(spaces, kernel, parent, x);
    }
    hide UserLeaf, LeafAt;
    forall x, y | UserLeaf(spaces', x) && UserLeaf(spaces', y) && LeafAt(spaces', x).writable && x != y
      ensures LeafAt(spaces', x).frame != LeafAt(spaces', y).frame
    {
      assert Origin(spaces, parent, x) == x;
      assert Origin(spaces, parent, x) != Origin(spaces, parent, y);
    }
  }

  // ---------------------------------------------------------------- new frames and stores

  function WithLeaf(spaces: seq<Leaves>, i: nat, p: nat, l: Leaf): seq<Leaves>
    requires i < |spaces|
  {
    var s: Leaves := spaces[i][p := l];
    spaces[i := s]
  }

  /** No user program sees a frame that was never handed out. */
  lemma UnseenFrame(spaces: seq<Leaves>, mem: Memory, taken: seq<nat>, f: nat, data: PageData)
    requires Drawn(spaces, taken) && f !in taken
    ensures SpacesOf(mem[f := data], spaces) == SpacesOf(mem, spaces)
  {
    forall j | 0 <= j < |spaces| ensures SpaceOf(mem[f := data], spaces[j]) == SpaceOf(mem, spaces[j]) {
      forall q | q in spaces[j] && spaces[j][q].user ensures spaces[j][q].frame != f {
        assert UserLeaf(spaces, Spot(j, q)) && LeafAt(spaces, Spot(j, q)).frame in taken;
      }
      SameSpace(mem, mem[f := data], spaces[j], spaces[j]);
    }
  }

  /** A user leaf on a frame nobody has yet: only that page of that space changes. */
  lemma FreshLeaf(spaces: seq<Leaves>, mem: Memory, kernel: Leaves, taken: seq<nat>, i: nat, p: nat, l: Leaf,
                  data: PageData)
    requires Drawn(spaces, taken) && KernelKept(spaces, kernel) && Exclusive(spaces)
    requires i < |spaces| && p < USER_PAGES && p !in kernel && l.user && !(l.writable && l.cow) && l.frame !in taken
    ensures var spaces', mem' := WithLeaf(spaces, i, p, l), mem[l.frame := data];
            && Drawn(spaces', taken + [l.frame]) && KernelKept(spaces', kernel) && Exclusive(spaces')
            && SpacesOf(mem', spaces') ==
               WithPage(SpacesOf(mem, spaces), i, p, UserPage(data, l.writable || l.cow, l.rest))
  {
    var spaces', mem' := WithLeaf(spaces, i, p, l), mem[l.frame := data];
    FreshKeeps(spaces, kernel, taken, i, p, l);
    UnseenFrame(spaces, mem, taken, l.frame, data);
    assert SpacesOf(mem', spaces)[i] == SpacesOf(mem, spaces)[i];
    assert SpaceOf(mem', spaces'[i]) == SpaceOf(mem', spaces[i])[p := PageOf(mem', l)];
    assert forall j :: 0 <= j < |spaces| ==> SpacesOf(mem', spaces)[j] == SpacesOf(mem, spaces)[j];
  }

  lemma FreshKeeps(spaces: seq<Leaves>, kernel: Leaves, taken: seq<nat>, i: nat, p: nat, l: Leaf)
    requires Drawn(spaces, taken) && KernelKept(spaces, kernel) && Exclusive(spaces)
    requires i < |spaces| && p < USER_PAGES && p !in kernel && l.user && !(l.writable && l.cow) && l.frame !in taken
    ensures var spaces' := WithLeaf(spaces, i, p, l);
            Drawn(spaces', taken + [l.frame]) && KernelKept(spaces', kernel) && Exclusive(spaces')
  {
    var spaces' := WithLeaf(spaces, i, p, l);
    forall s | s in spaces' ensures KernelIn(s, kernel) {
      assert KernelIn(spaces[i], kernel);
      if s in spaces {}
    }
    hide KernelIn;
    forall x | UserLeaf(spaces', x)
      ensures if x == Spot(i, p) then LeafAt(spaces', x) == l
              else UserLeaf(spaces, x) && LeafAt(spaces, x) == LeafAt(spaces', x)
    {}
    hide UserLeaf, LeafAt;
    assert forall x :: UserLeaf(spaces', x) && x != Spot(i, p) ==> LeafAt(spaces', x).frame in taken;
  }

  /** A store through a writable leaf reaches that page of that space and no other. */
  lemma StoreRefines(spaces: seq<Leaves>, mem: Memory, x: Spot, off: nat, v: byte)
    requires Exclusive(spaces) && UserLeaf(spaces, x) && LeafAt(spaces, x).writable && off < PAGE_SIZE
    ensures var f := LeafAt(spaces, x).frame;
            SpacesOf(mem[f := Content(mem, f)[off := v]], spaces) ==
              Stored(SpacesOf(mem, spaces), x.space, x.page, off, v)
  {
    var l := LeafAt(spaces, x);
    var data: PageData := Content(mem, l.frame)[off := v];
    var mem' := mem[l.frame := data];
    forall j | 0 <= j < |spaces| && j != x.space ensures SpaceOf(mem', spaces[j]) == SpaceOf(mem, spaces[j]) {
      forall q | q in spaces[j] && spaces[j][q].user ensures spaces[j][q].frame != l.frame {
        assert UserLeaf(spaces, Spot(j, q)) && LeafAt(spaces, Spot(j, q)).frame != l.frame;
      }
      SameSpace(mem, mem', spaces[j], spaces[j]);
    }
    var s := spaces[x.space];
    forall q | q in s && s[q].user && q != x.page ensures PageOf(mem', s[q]) == PageOf(mem, s[q]) {
      assert UserLeaf(spaces, Spot(x.space, q)) && LeafAt(spaces, Spot(x.space, q)).frame != l.frame;
    }
    assert SpaceOf(mem', s) == SpaceOf(mem, s)[x.page := PageOf(mem, l).(data := data)];
  }

  /** Leaving user leaves out of a space keeps the invariant. */
  lemma FewerLeaves(spaces: seq<Leaves>, kernel: Leaves, taken: seq<nat>, spaces': seq<Leaves>)
    requires Drawn(spaces, taken) && KernelKept(spaces, kernel) && Exclusive(spaces)
    requires |spaces'| == |spaces| && forall s :: s in spaces' ==> KernelIn(s, kernel)
    requires forall i, p :: 0 <= i < |spaces| && p in spaces'[i] ==> p in spaces[i] && spaces'[i][p] == spaces[i][p]
    ensures Drawn(spaces', taken) && KernelKept(spaces', kernel) && Exclusive(spaces')
  {
    hide KernelIn;
    forall x | UserLeaf(spaces', x) ensures UserLeaf(spaces, x) && LeafAt(spaces', x) == LeafAt(spaces, x) {}
    hide UserLeaf, LeafAt;
  }

  lemma MoreTaken(spaces: seq<Leaves>, taken: seq<nat>, taken': seq<nat>)
    requires Drawn(spaces, taken) && taken <= taken'
    ensures Drawn(spaces, taken')
  {
    hide UserLeaf, LeafAt;
    assert forall f :: f in taken ==> f in taken';
  }

  /** A space holding the kernel's leaves only. */
  lemma EmptySpace(spaces: seq<Leaves>, mem: Memory, kernel: Leaves, taken: seq<nat>)
    requires Drawn(spaces, taken) && KernelKept(spaces, kernel) && Exclusive(spaces)
    ensures var spaces' := spaces + [kernel];
            && Drawn(spaces', taken) && KernelKept(spaces', kernel) && Exclusive(spaces')
            && SpacesOf(mem, spaces') == SpacesOf(mem, spaces) + [map[]]
  {
    var spaces' := spaces + [kernel];
    assert SpaceOf(mem, kernel) == map[];
    forall s | s in spaces' ensures KernelIn(s, kernel) { if s in spaces {} }
    hide KernelIn;
    forall x | UserLeaf(spaces', x) ensures UserLeaf(spaces, x) && LeafAt(spaces', x) == LeafAt(spaces, x) {}
    hide UserLeaf, LeafAt;
  }
}
