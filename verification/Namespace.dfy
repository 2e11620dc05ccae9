/** The directory tree: what every operation keeps, and where paths lead in it. */
module Namespace {
  import opened Bytes
  import opened Layout
  import opened Contents
  import opened Invariant
  import opened Options

  predicate Named(name: Name) { name != DOT && name != DOTDOT }

  /** The directory and name under which a node is found. */
  datatype Link = Link(dir: nat, name: Name)

  predicate Edge(a: Nodes, l: Link, n: nat) {
    l.name in Dirents(a, l.dir) && Named(l.name) && Dirents(a, l.dir)[l.name] == n
  }

  function Parent(up: map<nat, Link>, d: nat): nat { if d in up then up[d].dir else ROOT_INODE }

  /** "." names the directory itself and ".." its parent. */
  predicate DotsRight(a: Nodes, up: map<nat, Link>, d: nat) {
    var m := Dirents(a, d);
    DOT in m && m[DOT] == d && DOTDOT in m && m[DOTDOT] == Parent(up, d)
  }

  predicate Spans(a: Nodes, up: map<nat, Link>, depth: map<nat, nat>) {
    IsDir(a, ROOT_INODE) && 0 !in a && ROOT_INODE !in up && up.Keys + {ROOT_INODE} == a.Keys && depth.Keys == a.Keys
  }

  predicate Below(a: Nodes, depth: map<nat, nat>, l: Link, n: nat) {
    Edge(a, l, n) && n in depth && l.dir in depth && depth[n] == depth[l.dir] + 1
  }

  /** Every node but the root sits under its link, one level below the directory holding it. */
  ghost predicate Climbs(a: Nodes, up: map<nat, Link>, depth: map<nat, nat>) {
    forall n :: n in up ==> Below(a, depth, up[n], n)
  }

  /** There are no links besides those. */
  ghost predicate Sole(a: Nodes, up: map<nat, Link>) {
    forall l, n :: Edge(a, l, n) ==> n in up && up[n] == l
  }

  ghost predicate Dotted(a: Nodes, up: map<nat, Link>) {
    forall d :: IsDir(a, d) ==> DotsRight(a, up, d)
  }

  /** `up` gives every node but the root its one link, and following it always comes nearer to the root. */
  ghost predicate Rooted(a: Nodes, up: map<nat, Link>, depth: map<nat, nat>) {
    Spans(a, up, depth) && Climbs(a, up, depth) && Sole(a, up) && Dotted(a, up)
  }

  /** The namespace is a tree. */
  ghost predicate Tree(a: Nodes) {
    exists up, depth :: Rooted(a, up, depth)
  }

  // ---------------------------------------------------------------- the first tree

  lemma FreshTree()
    ensures Tree(map[ROOT_INODE := FreshDir(ROOT_INODE, ROOT_INODE)])
  {
    var a: Nodes := map[ROOT_INODE := FreshDir(ROOT_INODE, ROOT_INODE)];
    assert Rooted(a, map[], map[ROOT_INODE := 0]);
  }

  // ---------------------------------------------------------------- steps

  /** File `n` now holds other bytes. */
  predicate Refills(a: Nodes, n: nat, a': Nodes) { IsFile(a, n) && IsFile(a', n) && a' == a[n := a'[n]] }

  lemma RefillsKeeps(a: Nodes, n: nat, a': Nodes)
    requires Tree(a) && Refills(a, n, a')
    ensures Tree(a')
  {
    hide Rooted;
    var up, depth :| Rooted(a, up, depth);
    RefillsRooted(a, n, a', up, depth);
  }

  lemma RefillsRooted(a: Nodes, n: nat, a': Nodes, up: map<nat, Link>, depth: map<nat, nat>)
    requires Rooted(a, up, depth) && Refills(a, n, a')
    ensures Rooted(a', up, depth)
  {
    forall l, m | Edge(a', l, m) || Edge(a, l, m) ensures Edge(a', l, m) && Edge(a, l, m) {}
    forall d | IsDir(a', d) ensures DotsRight(a', up, d) { assert DotsRight(a, up, d); }
  }

  /** A new node under a new name; a directory brings its own dots. */
  lemma NodeAdded(a: Nodes, dir: nat, name: Name, n: nat, node: Node, a': Nodes)
    requires Tree(a) && IsDir(a, dir) && name !in Dirents(a, dir) && n !in a && n != 0
    requires node == File([]) || node == FreshDir(n, dir)
    requires a' == WithEntry(a[n := node], dir, name, n)
    ensures Tree(a')
  {
    hide Rooted, FreshDir, Dirents;
    var up, depth :| Rooted(a, up, depth);
    AddedRooted(a, dir, name, n, node, a', up, depth);
  }

  lemma AddedRooted(a: Nodes, dir: nat, name: Name, n: nat, node: Node, a': Nodes, up: map<nat, Link>,
                    depth: map<nat, nat>)
    requires Rooted(a, up, depth) && IsDir(a, dir) && name !in Dirents(a, dir) && n !in a && n != 0
    requires node == File([]) || node == FreshDir(n, dir)
    requires a' == WithEntry(a[n := node], dir, name, n)
    ensures dir in depth && Rooted(a', up[n := Link(dir, name)], depth[n := depth[dir] + 1])
  {
    hide FreshDir, Dirents, Edge, Climbs, Sole;
    assert Named(name) by { assert DotsRight(a, up, dir); }
    AddedSpans(a, dir, name, n, node, a', up, depth);
    AddedClimbs(a, dir, name, n, node, a', up, depth);
    AddedSole(a, dir, name, n, node, a', up, depth);
  }

  lemma AddedSpans(a: Nodes, dir: nat, name: Name, n: nat, node: Node, a': Nodes, up: map<nat, Link>,
                   depth: map<nat, nat>)
    requires Rooted(a, up, depth) && IsDir(a, dir) && Named(name) && name !in Dirents(a, dir) && n !in a && n != 0
    requires node == File([]) || node == FreshDir(n, dir)
    requires a' == WithEntry(a[n := node], dir, name, n)
    ensures dir in depth && Spans(a', up[n := Link(dir, name)], depth[n := depth[dir] + 1])
  {
    hide FreshDir, Dirents, Climbs, Sole, Dotted;
    assert a'.Keys == a.Keys + {n};
  }

  lemma AddedClimbs(a: Nodes, dir: nat, name: Name, n: nat, node: Node, a': Nodes, up: map<nat, Link>,
                    depth: map<nat, nat>)
    requires Rooted(a, up, depth) && IsDir(a, dir) && Named(name) && name !in Dirents(a, dir) && n !in a && n != 0
    requires node == File([]) || node == FreshDir(n, dir)
    requires a' == WithEntry(a[n := node], dir, name, n)
    ensures dir in depth && Climbs(a', up[n := Link(dir, name)], depth[n := depth[dir] + 1])
  {
    hide FreshDir, Dirents, Edge, Sole, Dotted;
    NewNodeEdges(a, dir, name, n, node, a');
    var up', depth' := up[n := Link(dir, name)], depth[n := depth[dir] + 1];
    forall m | m in up' ensures Below(a', depth', up'[m], m) {
      if m != n { assert Below(a, depth, up[m], m); }
    }
  }

  lemma AddedSole(a: Nodes, dir: nat, name: Name, n: nat, node: Node, a': Nodes, up: map<nat, Link>,
                  depth: map<nat, nat>)
    requires Rooted(a, up, depth) && IsDir(a, dir) && Named(name) && name !in Dirents(a, dir) && n !in a && n != 0
    requires node == File([]) || node == FreshDir(n, dir)
    requires a' == WithEntry(a[n := node], dir, name, n)
    ensures Sole(a', up[n := Link(dir, name)]) && Dotted(a', up[n := Link(dir, name)])
  {
    hide FreshDir, Dirents, Edge, Climbs;
    NewNodeEdges(a, dir, name, n, node, a');
    var up' := up[n := Link(dir, name)];
    forall d | IsDir(a', d) ensures DotsRight(a', up', d) {
      if d != n { assert DotsRight(a, up, d); }
    }
    forall l, m | Edge(a', l, m) ensures m in up' && up'[m] == l {
      if Edge(a, l, m) { assert m != n; }
    }
  }

  lemma NewNodeEdges(a: Nodes, dir: nat, name: Name, n: nat, node: Node, a': Nodes)
    requires IsDir(a, dir) && Named(name) && name !in Dirents(a, dir) && n !in a && n != 0 && 0 !in a
    requires node == File([]) || node == FreshDir(n, dir)
    requires a' == WithEntry(a[n := node], dir, name, n)
    ensures forall d :: d != n ==> (IsDir(a', d) <==> IsDir(a, d))
    ensures forall d :: d != n && d != dir ==> Dirents(a', d) == Dirents(a, d)
    ensures Dirents(a', dir) == Dirents(a, dir)[name := n]
    ensures IsDir(a', n) ==> Dirents(a', n) == map[DOT := n, DOTDOT := dir]
    ensures forall l, m :: Edge(a', l, m) <==> Edge(a, l, m) || (l == Link(dir, name) && m == n)
  {
    assert forall x, m :: Named(x) ==> !Edge(a', Link(n, x), m);
  }

  /** A node without named entries, taken out together with its link. */
  lemma NodeRemoved(a: Nodes, dir: nat, name: Name, a': Nodes)
    requires Tree(a) && name in Dirents(a, dir) && Named(name)
    requires forall x :: x in Dirents(a, Dirents(a, dir)[name]) ==> !Named(x)
    requires a' == WithoutEntry(a, dir, name) - {Dirents(a, dir)[name]}
    ensures Tree(a')
  {
    hide Rooted, Dirents;
    var up, depth :| Rooted(a, up, depth);
    RemovedRooted(a, dir, name, Dirents(a, dir)[name], a', up, depth);
  }

  lemma RemovedRooted(a: Nodes, dir: nat, name: Name, n: nat, a': Nodes, up: map<nat, Link>, depth: map<nat, nat>)
    requires Rooted(a, up, depth) && name in Dirents(a, dir) && Named(name) && Dirents(a, dir)[name] == n
    requires forall x :: x in Dirents(a, n) ==> !Named(x)
    requires a' == WithoutEntry(a, dir, name) - {n}
    ensures Rooted(a', up - {n}, depth - {n})
  {
    hide Dirents, Edge, Spans, Climbs, Sole, Dotted;
    RemovedSpans(a, dir, name, n, a', up, depth);
    RemovedClimbs(a, dir, name, n, a', up, depth);
    RemovedSole(a, dir, name, n, a', up, depth);
  }

  lemma RemovedLink(a: Nodes, dir: nat, name: Name, n: nat, up: map<nat, Link>, depth: map<nat, nat>)
    requires Rooted(a, up, depth) && name in Dirents(a, dir) && Named(name) && Dirents(a, dir)[name] == n
    ensures n in up && up[n] == Link(dir, name) && n != dir
  {
    hide Dotted, Spans, Dirents;
    assert Edge(a, Link(dir, name), n);
    hide Edge;
    assert Below(a, depth, up[n], n);
  }

  lemma RemovedSpans(a: Nodes, dir: nat, name: Name, n: nat, a': Nodes, up: map<nat, Link>, depth: map<nat, nat>)
    requires Rooted(a, up, depth) && name in Dirents(a, dir) && Named(name) && Dirents(a, dir)[name] == n
    requires forall x :: x in Dirents(a, n) ==> !Named(x)
    requires a' == WithoutEntry(a, dir, name) - {n}
    ensures Spans(a', up - {n}, depth - {n})
  {
    hide Dotted, Dirents, Sole, Climbs, Edge;
    RemovedLink(a, dir, name, n, up, depth);
    GoneNodeEdges(a, dir, name, n, a');
  }

  lemma RemovedClimbs(a: Nodes, dir: nat, name: Name, n: nat, a': Nodes, up: map<nat, Link>, depth: map<nat, nat>)
    requires Rooted(a, up, depth) && name in Dirents(a, dir) && Named(name) && Dirents(a, dir)[name] == n
    requires forall x :: x in Dirents(a, n) ==> !Named(x)
    requires a' == WithoutEntry(a, dir, name) - {n}
    ensures Climbs(a', up - {n}, depth - {n})
  {
    hide Dotted, Dirents, Edge, Spans, Sole;
    RemovedLink(a, dir, name, n, up, depth);
    GoneNodeEdges(a, dir, name, n, a');
    var up': map<nat, Link>, depth': map<nat, nat> := up - {n}, depth - {n};
    forall m | m in up' ensures Below(a', depth', up'[m], m) { assert Below(a, depth, up[m], m); }
  }

  lemma RemovedSole(a: Nodes, dir: nat, name: Name, n: nat, a': Nodes, up: map<nat, Link>, depth: map<nat, nat>)
    requires Rooted(a, up, depth) && name in Dirents(a, dir) && Named(name) && Dirents(a, dir)[name] == n
    requires forall x :: x in Dirents(a, n) ==> !Named(x)
    requires a' == WithoutEntry(a, dir, name) - {n}
    ensures Sole(a', up - {n}) && Dotted(a', up - {n})
  {
    hide Dirents, Edge, Spans, Climbs;
    RemovedLink(a, dir, name, n, up, depth);
    GoneNodeEdges(a, dir, name, n, a');
    var up': map<nat, Link> := up - {n};
    forall d | IsDir(a', d) ensures DotsRight(a', up', d) {
      assert DotsRight(a, up, d);
      assert d != n && Dirents(a', d) == (if d == dir then Dirents(a, d) - {name} else Dirents(a, d));
    }
    forall k, m | Edge(a', k, m) ensures m in up' && up'[m] == k {
      assert Edge(a, k, m);
    }
  }

  lemma GoneNodeEdges(a: Nodes, dir: nat, name: Name, n: nat, a': Nodes)
    requires name in Dirents(a, dir) && Named(name) && Dirents(a, dir)[name] == n && n != dir
    requires forall x :: x in Dirents(a, n) ==> !Named(x)
    requires a' == WithoutEntry(a, dir, name) - {n}
    ensures forall d :: d != n ==> (IsDir(a', d) <==> IsDir(a, d))
    ensures forall d :: d != n && d != dir ==> Dirents(a', d) == Dirents(a, d)
    ensures Dirents(a', dir) == Dirents(a, dir) - {name} && !IsDir(a', n)
    ensures a'.Keys == a.Keys - {n}
    ensures forall l, m :: Edge(a, l, m) ==> l.dir != n
    ensures forall m :: Edge(a, Link(dir, name), m) ==> m == n
    ensures forall l, m :: Edge(a', l, m) <==> Edge(a, l, m) && l != Link(dir, name)
  {}

  /** In a tree, a directory with at most two entries has only its dots. */
  lemma OnlyDots(a: Nodes, d: nat)
    requires Tree(a) && IsDir(a, d) && |Dirents(a, d)| <= 2
    ensures forall x :: x in Dirents(a, d) ==> !Named(x)
  {
    var up, depth :| Rooted(a, up, depth);
    assert DotsRight(a, up, d);
    var m := Dirents(a, d);
    Subset({DOT, DOTDOT}, m.Keys);
    assert |m.Keys| == |m| && |{DOT, DOTDOT}| == 2;
  }

  /** One operation of the file system that returned Ok. */
  ghost predicate Step(a: Nodes, a': Nodes) {
    || (exists dir, name, n :: CreatesFile(a, dir, name, n, a'))
    || (exists dir, name, n :: CreatesDir(a, dir, name, n, a'))
    || (exists dir, name :: RemovesFile(a, dir, name, a'))
    || (exists dir, name :: RemovesDir(a, dir, name, a'))
    || (exists n :: Refills(a, n, a'))
  }

  lemma CreationKeepsTree(a: Nodes, dir: nat, name: Name, n: nat, a': Nodes)
    requires Tree(a) && (CreatesFile(a, dir, name, n, a') || CreatesDir(a, dir, name, n, a'))
    ensures Tree(a')
  {
    hide Tree, FreshDir;
    if CreatesFile(a, dir, name, n, a') {
      NodeAdded(a, dir, name, n, File([]), a');
    } else {
      NodeAdded(a, dir, name, n, FreshDir(n, dir), a');
    }
  }

  lemma RemovalKeepsTree(a: Nodes, dir: nat, name: Name, a': Nodes)
    requires Tree(a) && (RemovesFile(a, dir, name, a') || RemovesDir(a, dir, name, a'))
    ensures Tree(a')
  {
    hide Tree;
    if RemovesDir(a, dir, name, a') {
      OnlyDots(a, Dirents(a, dir)[name]);
    }
    NodeRemoved(a, dir, name, a');
  }

  lemma StepKeepsTree(a: Nodes, a': Nodes)
    requires Tree(a) && Step(a, a')
    ensures Tree(a')
  {
    hide Tree, CreatesFile, CreatesDir, RemovesFile, RemovesDir, Refills;
    if dir, name, n :| CreatesFile(a, dir, name, n, a') {
      CreationKeepsTree(a, dir, name, n, a');
    } else if dir, name, n :| CreatesDir(a, dir, name, n, a') {
      CreationKeepsTree(a, dir, name, n, a');
    } else if dir, name :| RemovesFile(a, dir, name, a') {
      RemovalKeepsTree(a, dir, name, a');
    } else if dir, name :| RemovesDir(a, dir, name, a') {
      RemovalKeepsTree(a, dir, name, a');
    } else {
      var n :| Refills(a, n, a');
      RefillsKeeps(a, n, a');
    }
  }

  /** Whole runs: from a fresh file system, every state that Ok operations lead to is a tree. */
  lemma {:induction false} RunKeepsTree(run: seq<Nodes>)
    requires |run| > 0 && run[0] == map[ROOT_INODE := FreshDir(ROOT_INODE, ROOT_INODE)]
    requires forall i :: 0 <= i < |run| - 1 ==> Step(run[i], run[i + 1])
    ensures forall i :: 0 <= i < |run| ==> Tree(run[i])
  {
    hide Tree, Step, FreshDir;
    if |run| == 1 {
      FreshTree();
    } else {
      var last := |run| - 1;
      RunKeepsTree(run[..last]);
      assert Tree(run[..last][last - 1]) && run[..last][last - 1] == run[last - 1];
      assert Step(run[last - 1], run[last - 1 + 1]);
      StepKeepsTree(run[last - 1], run[last]);
      forall i | 0 <= i < last ensures Tree(run[i]) { assert run[..last][i] == run[i]; }
    }
  }

  /** A directory created inside the free number it is given ends up as its own child: no tree. */
  lemma LoopIsNoTree(a: Nodes, parent: nat, name: Name, n: nat, a': Nodes)
    requires CreatesLoop(a, parent, name, n, a')
    ensures !Tree(a')
  {
    if Tree(a') {
      var up, depth :| Rooted(a', up, depth);
      assert Edge(a', Link(n, name), n);
      assert false;
    }
  }

  // ---------------------------------------------------------------- paths

  /** The node that a list of path components leads to from the root. */
  function Walk(a: Nodes, p: seq<Name>): Option<nat> {
    if p == [] then Some(ROOT_INODE)
    else
      var d := Walk(a, p[..|p| - 1]);
      if d.Some? && p[|p| - 1] in Dirents(a, d.value) then Some(Dirents(a, d.value)[p[|p| - 1]]) else None
  }

  /** The lexical normal form: "." drops out, ".." takes the component before it along. */
  function Normal(p: seq<Name>): seq<Name> {
    if p == [] then []
    else
      var q, x := Normal(p[..|p| - 1]), p[|p| - 1];
      if x == DOT then q else if x == DOTDOT then (if q == [] then [] else q[..|q| - 1]) else q + [x]
  }

  /** The names on the way from the root down to `n`. */
  ghost function PathTo(a: Nodes, up: map<nat, Link>, depth: map<nat, nat>, n: nat): seq<Name>
    requires Rooted(a, up, depth) && n in a
    decreases depth[n]
  {
    if n == ROOT_INODE then [] else
    assert n in up;
    PathTo(a, up, depth, up[n].dir) + [up[n].name]
  }

  lemma UpLink(a: Nodes, up: map<nat, Link>, depth: map<nat, nat>, n: nat)
    requires Rooted(a, up, depth) && n in a && n != ROOT_INODE
    ensures n in up && Edge(a, up[n], n) && up[n].dir in a && up[n].dir in depth && n in depth
        && depth[up[n].dir] < depth[n]
  {
    assert n in up;
    hide Edge, Sole, Dotted;
    assert Below(a, depth, up[n], n);
  }

  lemma WalkOn(a: Nodes, p: seq<Name>, l: Link, n: nat)
    requires Walk(a, p) == Some(l.dir) && Edge(a, l, n)
    ensures Walk(a, p + [l.name]) == Some(n)
  {
    assert (p + [l.name])[..|p|] == p;
  }

  lemma {:induction false} PathReaches(a: Nodes, up: map<nat, Link>, depth: map<nat, nat>, n: nat)
    requires Rooted(a, up, depth) && n in a
    ensures Walk(a, PathTo(a, up, depth, n)) == Some(n)
    ensures forall x :: x in PathTo(a, up, depth, n) ==> Named(x)
    decreases depth[n]
  {
    if n != ROOT_INODE {
      UpLink(a, up, depth, n);
      assert Named(up[n].name);
      hide Rooted, Edge, Walk, Named;
      PathReaches(a, up, depth, up[n].dir);
      WalkOn(a, PathTo(a, up, depth, up[n].dir), up[n], n);
    } else {
      hide Rooted, Edge;
    }
  }

  /** Every path that resolves, dots included, normalises to the one path down to its node. */
  lemma {:induction false} WalkIsNormal(a: Nodes, up: map<nat, Link>, depth: map<nat, nat>, p: seq<Name>)
    requires Rooted(a, up, depth) && Walk(a, p).Some?
    ensures Walk(a, p).value in a
    ensures Normal(p) == PathTo(a, up, depth, Walk(a, p).value)
  {
    if p != [] {
      var q, x := p[..|p| - 1], p[|p| - 1];
      WalkIsNormal(a, up, depth, q);
      var d, n := Walk(a, q).value, Walk(a, p).value;
      assert IsDir(a, d) && DotsRight(a, up, d);
      if Named(x) {
        assert Edge(a, Link(d, x), n);
      } else if x == DOT {
        assert n == d;
      } else if d == ROOT_INODE {
        assert n == d && Normal(q) == [];
      } else {
        assert d in up && Edge(a, up[d], d) && n == up[d].dir;
        var r := PathTo(a, up, depth, n);
        assert Normal(q) == r + [up[d].name];
        assert (r + [up[d].name])[..|r|] == r;
      }
    }
  }

  /** Every node of a tree is reached from the root by exactly one path without dots. */
  lemma UniquePath(a: Nodes, n: nat)
    requires Tree(a) && n in a
    ensures exists p :: PlainPath(a, p, n)
    ensures forall p, q :: PlainPath(a, p, n) && PlainPath(a, q, n) ==> p == q
  {
    var up, depth :| Rooted(a, up, depth);
    PathReaches(a, up, depth, n);
    assert PlainPath(a, PathTo(a, up, depth, n), n);
    forall p | PlainPath(a, p, n) ensures p == PathTo(a, up, depth, n) {
      WalkIsNormal(a, up, depth, p);
      PlainIsNormal(p);
    }
  }

  ghost predicate PlainPath(a: Nodes, p: seq<Name>, n: nat) {
    Walk(a, p) == Some(n) && forall x :: x in p ==> Named(x)
  }

  lemma {:induction false} PlainIsNormal(p: seq<Name>)
    requires forall x :: x in p ==> Named(x)
    ensures Normal(p) == p
  {
    if p != [] {
      var q := p[..|p| - 1];
      PlainIsNormal(q);
      assert p[|p| - 1] in p;
      assert p == q + [p[|p| - 1]];
    }
  }

  /** Resolving a path and resolving its normal form give the same node. */
  lemma NormalWalks(a: Nodes, p: seq<Name>)
    requires Tree(a) && Walk(a, p).Some?
    ensures Walk(a, Normal(p)) == Walk(a, p)
  {
    var up, depth :| Rooted(a, up, depth);
    WalkIsNormal(a, up, depth, p);
    PathReaches(a, up, depth, Walk(a, p).value);
  }

  /** The node a path leads to is live. */
  lemma WalkLive(a: Nodes, p: seq<Name>)
    requires Tree(a) && Walk(a, p).Some?
    ensures Walk(a, p).value in a
  {
    var up, depth :| Rooted(a, up, depth);
    WalkIsNormal(a, up, depth, p);
  }

  // ---------------------------------------------------------------- paths across a change

  /** Every binding of `a` is also one of `b`. */
  ghost predicate Within(a: Nodes, b: Nodes) {
    forall d, x :: x in Dirents(a, d) ==> x in Dirents(b, d) && Dirents(b, d)[x] == Dirents(a, d)[x]
  }

  lemma {:induction false} WithinWalk(a: Nodes, b: Nodes, p: seq<Name>)
    requires Within(a, b) && Walk(a, p).Some?
    ensures Walk(b, p) == Walk(a, p)
  {
    if p != [] { WithinWalk(a, b, p[..|p| - 1]); }
  }

  /** Creating a node leaves every path leading where it led. */
  lemma {:induction false} CreationKeepsPaths(a: Nodes, dir: nat, name: Name, n: nat, a': Nodes, p: seq<Name>)
    requires CreatesFile(a, dir, name, n, a') || CreatesDir(a, dir, name, n, a')
    requires Walk(a, p).Some?
    ensures Walk(a', p) == Walk(a, p)
  {
    WithinWalk(a, a', p);
  }

  /** Removing a node: a path to any other node still leads there, once its dots are resolved. */
  lemma RemovalKeepsPaths(a: Nodes, dir: nat, name: Name, a': Nodes, p: seq<Name>)
    requires Tree(a) && (RemovesFile(a, dir, name, a') || RemovesDir(a, dir, name, a'))
    requires Walk(a, p).Some? && Walk(a, p).value != Dirents(a, dir)[name]
    ensures Walk(a', Normal(p)) == Walk(a, p)
  {
    hide Tree, Rooted, Dirents;
    var m := Walk(a, p).value;
    RemovalKeepsTree(a, dir, name, a');
    WalkLive(a, p);
    assert m in a' by { hide *; assert a'.Keys ==
      a.Keys - {Dirents(a, dir)[name]} by { RemovedKeys(a, dir, name, a'); } }
    UniquePath(a', m);
    var q :| PlainPath(a', q, m);
    RemovedWithin(a, dir, name, a');
    WithinWalk(a', a, q);
    UniquePath(a, m);
    NormalIsPlain(p);
    NormalWalks(a, p);
    assert PlainPath(a, q, m) && PlainPath(a, Normal(p), m);
  }

  lemma RemovedKeys(a: Nodes, dir: nat, name: Name, a': Nodes)
    requires RemovesFile(a, dir, name, a') || RemovesDir(a, dir, name, a')
    ensures a'.Keys == a.Keys - {Dirents(a, dir)[name]}
  {}

  lemma RemovedWithin(a: Nodes, dir: nat, name: Name, a': Nodes)
    requires RemovesFile(a, dir, name, a') || RemovesDir(a, dir, name, a')
    ensures Within(a', a)
  {}

  lemma {:induction false} NormalIsPlain(p: seq<Name>)
    ensures forall x :: x in Normal(p) ==> Named(x)
  {
    if p != [] { NormalIsPlain(p[..|p| - 1]); }
  }

  // ---------------------------------------------------------------- path text

  const SLASH: byte := 0x2F

  /** The non-empty pieces of `cur + path` between slashes, `cur` being the piece already under way. */
  function Pieces(path: seq<byte>, cur: Name): seq<Name>
    decreases |path|
  {
    var done := if cur == [] then [] else [cur];
    if path == [] then done
    else if path[0] == SLASH then done + Pieces(path[1..], [])
    else Pieces(path[1..], cur + [path[0]])
  }

  function Components(path: seq<byte>): seq<Name> { Pieces(path, []) }

  function LastSlash(path: seq<byte>): (r: int)
    ensures -1 <= r < |path| && (r >= 0 ==> path[r] == SLASH)
    ensures SLASH !in path[r + 1..]
  {
    if path == [] then -1
    else if path[|path| - 1] == SLASH then |path| - 1
    else
      assert path[..|path| - 1] + [path[|path| - 1]] == path;
      LastSlash(path[..|path| - 1])
  }

  /** `split_path`: everything before the last slash, and the name after it. */
  function ParentPath(path: seq<byte>): seq<byte> {
    var i := LastSlash(path);
    if i <= 0 then [SLASH] else path[..i]
  }

  function BaseName(path: seq<byte>): Name { path[LastSlash(path) + 1..] }

  lemma {:induction false} PiecesSlash(path: seq<byte>, cur: Name, name: Name)
    ensures Pieces(path + [SLASH] + name, cur) == Pieces(path, cur) + Pieces(name, [])
    decreases |path|
  {
    var whole := path + [SLASH] + name;
    if path == [] {
      assert whole[0] == SLASH && whole[1..] == name;
    } else {
      assert whole[0] == path[0] && whole[1..] == path[1..] + [SLASH] + name;
      if path[0] == SLASH {
        PiecesSlash(path[1..], [], name);
      } else {
        PiecesSlash(path[1..], cur + [path[0]], name);
      }
    }
  }

  lemma {:induction false} PiecesPlain(name: Name, cur: Name)
    requires SLASH !in name
    ensures Pieces(name, cur) == if cur + name == [] then [] else [cur + name]
    decreases |name|
  {
    if name == [] {
      assert cur + name == cur;
    } else {
      assert name[0] in name && name[0] != SLASH;
      PiecesPlain(name[1..], cur + [name[0]]);
      assert cur + [name[0]] + name[1..] == cur + name;
    }
  }

  lemma NoComponents()
    ensures Components([SLASH]) == [] && Components([]) == []
  {
    var path: seq<byte> := [SLASH];
    assert path[0] == SLASH && path[1..] == [];
    assert Pieces(path[1..], []) == [];
    assert Pieces(path, []) == [] + Pieces(path[1..], []);
  }

  function NameOnly(name: Name): seq<Name> { if name == [] then [] else [name] }

  lemma PiecesJoined(parent: seq<byte>, name: Name)
    requires SLASH !in name
    ensures Components(parent + [SLASH] + name) == Components(parent) + NameOnly(name)
    ensures Components(name) == NameOnly(name)
  {
    hide Pieces;
    PiecesSlash(parent, [], name);
    PiecesPlain(name, []);
    assert [] + name == name;
  }

  lemma CutAt(path: seq<byte>, i: nat)
    requires i < |path|
    ensures path == path[..i] + [path[i]] + path[i + 1..]
  {}

  /** Splitting a path and resolving in two steps visits the components of the whole path. */
  lemma SplitComponents(path: seq<byte>)
    ensures Components(path) == Components(ParentPath(path)) + NameOnly(BaseName(path))
  {
    hide Components, NameOnly, LastSlash;
    NoComponents();
    var i := LastSlash(path);
    if i < 0 {
      SplitPlain(path);
    } else {
      CutAt(path, i);
      PiecesJoined(path[..i], path[i + 1..]);
      if i == 0 { assert path[..i] == []; }
    }
  }

  lemma SplitPlain(path: seq<byte>)
    requires LastSlash(path) < 0
    ensures Components(path) == Components([SLASH]) + NameOnly(path) && BaseName(path) == path
  {
    hide Components, NameOnly, LastSlash;
    NoComponents();
    assert path[0..] == path;
    PiecesJoined([], path);
  }
}
