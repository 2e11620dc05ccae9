/** The process tree: fork, exit, adoption and reaping over the tasks that are not dead. */
module Processes {
  import opened Options

  datatype State = Runnable | Running | Blocked | Zombie | Dead

  const NSIG: nat := 32
  const SIGKILL: nat := 9
  const SIGCHLD: nat := 17

  /** What a task does with a signal; a handler is a user address. */
  datatype Disposition = Default | Ignored | Handler(address: nat)

  const EIGHT_DEFAULT := [Default, Default, Default, Default, Default, Default, Default, Default]
  const ALL_DEFAULT := EIGHT_DEFAULT + EIGHT_DEFAULT + EIGHT_DEFAULT + EIGHT_DEFAULT

  type Dispositions = d: seq<Disposition> | |d| == NSIG witness ALL_DEFAULT

  datatype Task = Task(id: nat, state: State, user: bool, parent: Option<nat>, children: seq<nat>,
                       exitStatus: int, waitBlocked: bool, handlers: Dispositions, pending: set<nat>)

  /** The tasks that are not dead, by id. */
  type Procs = map<nat, Task>

  predicate NoDuplicates(s: seq<nat>) { forall i, j :: 0 <= i < j < |s| ==> s[i] != s[j] }

  /** Each child of `q` names `q` as its parent, once. */
  ghost predicate KidsRight(p: Procs, q: nat)
    requires q in p
  {
    p[q].id == q && NoDuplicates(p[q].children) && forall c :: c in p[q].children ==> c in p && p[c].parent == Some(q)
  }

  /** The parent that `c` names is an older task that has `c` among its children. */
  predicate ParentRight(p: Procs, c: nat)
    requires c in p
  {
    p[c].parent.Some? ==> p[c].parent.value in p && p[c].parent.value < c && c in p[p[c].parent.value].children
  }

  /** Children lists and parent links name each other. */
  ghost predicate Linked(p: Procs) {
    forall q :: q in p ==> KidsRight(p, q) && ParentRight(p, q)
  }

  /** Zombies have let their children go; kernel tasks have no parent and do not wait; init adopts and never ends. */
  predicate MannerOf(t: Task, init: nat) {
    && t.state != Dead && (t.state == Zombie ==> t.children == [])
    && (t.user ==> init < t.id)
    && (!t.user ==> t.parent == None && !t.waitBlocked && (t.id != init ==> t.children == []))
    && (t.id == init ==> t.state != Zombie)
  }

  ghost predicate Mannered(p: Procs, init: nat) {
    (forall q :: q in p ==> MannerOf(p[q], init)) && init in p && !p[init].user
  }

  /** A task asleep in `wait` has children, and none that it could collect. */
  ghost predicate Rested(p: Procs, q: nat)
    requires q in p
  {
    p[q].state == Blocked && p[q].waitBlocked ==>
      p[q].children != [] && forall c :: c in p[q].children ==> c in p && p[c].state != Zombie
  }

  ghost predicate NoLostWakeup(p: Procs) {
    forall q :: q in p ==> Rested(p, q)
  }

  /** `exits` has the status each terminated task ended with, `collected` those handed to a parent or reaped by init. */
  predicate RecordOf(t: Task, exits: map<nat, int>, collected: map<nat, int>) {
    && t.id !in collected
    && (if t.state == Zombie then t.id in exits && t.exitStatus == exits[t.id] else t.id !in exits)
  }

  ghost predicate Recorded(p: Procs, exits: map<nat, int>, collected: map<nat, int>) {
    && (forall q :: q in p ==> RecordOf(p[q], exits, collected))
    && (forall q :: q in collected ==> q in exits && collected[q] == exits[q])
  }

  ghost predicate Sound(p: Procs, init: nat, exits: map<nat, int>, collected: map<nat, int>) {
    Linked(p) && Mannered(p, init) && NoLostWakeup(p) && Recorded(p, exits, collected)
  }

  /** Everything the invariant says of one task. */
  ghost predicate RightAt(p: Procs, r: nat, init: nat, exits: map<nat, int>, collected: map<nat, int>)
    requires r in p
  {
    KidsRight(p, r) && ParentRight(p, r) && Rested(p, r) && MannerOf(p[r], init) && RecordOf(p[r], exits, collected)
  }

  lemma EachRight(p: Procs, r: nat, init: nat, exits: map<nat, int>, collected: map<nat, int>)
    requires Sound(p, init, exits, collected) && r in p
    ensures RightAt(p, r, init, exits, collected) && init in p && !p[init].user
  {
    assert Rested(p, r) && MannerOf(p[r], init) && RecordOf(p[r], exits, collected);
  }

  lemma AllRight(p: Procs, init: nat, exits: map<nat, int>, collected: map<nat, int>)
    requires init in p && !p[init].user && forall r :: r in p ==> RightAt(p, r, init, exits, collected)
    requires forall q :: q in collected ==> q in exits && collected[q] == exits[q]
    ensures Sound(p, init, exits, collected)
  {
    assert forall r :: r in p ==> RightAt(p, r, init, exits, collected);
  }

  // ---------------------------------------------------------------- scheduling states

  /** Only the running states and spurious wake-ups differ. */
  predicate Awake(s: State) { s == Runnable || s == Running }

  ghost predicate SameButStates(p: Procs, p': Procs) {
    && p'.Keys == p.Keys
    && forall q :: q in p ==>
         && p'[q] == p[q].(state := p'[q].state)
         && (p'[q].state == p[q].state || (Awake(p'[q].state) && (Awake(p[q].state) || p[q].state == Blocked)))
  }

  /** Only which of the tasks that are awake runs differs. */
  ghost predicate SameButTurns(p: Procs, p': Procs) {
    && p'.Keys == p.Keys
    && forall q :: q in p ==>
         && p'[q] == p[q].(state := p'[q].state)
         && (p'[q].state == p[q].state || (Awake(p'[q].state) && Awake(p[q].state)))
  }

  lemma StatesKeep(p: Procs, p': Procs, init: nat, exits: map<nat, int>, collected: map<nat, int>)
    requires Sound(p, init, exits, collected) && SameButStates(p, p')
    ensures Sound(p', init, exits, collected)
  {
    hide Sound, RightAt;
    SoundRecords(p, init, exits, collected);
    forall r | r in p' ensures RightAt(p', r, init, exits, collected) {
      EachRight(p, r, init, exits, collected);
      StateKept(p, p', r, init, exits, collected);
    }
    assert p'[init] == p[init].(state := p'[init].state);
    AllRight(p', init, exits, collected);
  }

  lemma StateKept(p: Procs, p': Procs, r: nat, init: nat, exits: map<nat, int>, collected: map<nat, int>)
    requires SameButStates(p, p') && r in p && RightAt(p, r, init, exits, collected)
    ensures RightAt(p', r, init, exits, collected)
  {
    hide NoDuplicates;
    assert p'[r] == p[r].(state := p'[r].state);
    forall c | c in p[r].children
      ensures c in p' && p'[c].parent == Some(r) && (p[c].state != Zombie ==> p'[c].state != Zombie) {
      assert p'[c] == p[c].(state := p'[c].state);
    }
  }

  lemma OwnId(p: Procs, r: nat, init: nat, exits: map<nat, int>, collected: map<nat, int>)
    requires r in p && RightAt(p, r, init, exits, collected)
    ensures p[r].id == r && r !in collected
  {}

  lemma SoundParts(p: Procs, init: nat, exits: map<nat, int>, collected: map<nat, int>)
    requires Sound(p, init, exits, collected)
    ensures Linked(p) && Mannered(p, init) && NoLostWakeup(p)
  {}

  lemma SoundRecords(p: Procs, init: nat, exits: map<nat, int>, collected: map<nat, int>)
    requires Sound(p, init, exits, collected)
    ensures init in p && !p[init].user && forall q :: q in collected ==> q in exits && collected[q] == exits[q]
  {}

  /** A task that blocks for something other than a child. */
  lemma BlockKeeps(p: Procs, q: nat, init: nat, exits: map<nat, int>, collected: map<nat, int>)
    requires Sound(p, init, exits, collected) && q in p && Awake(p[q].state) && !p[q].waitBlocked
    ensures Sound(p[q := p[q].(state := Blocked)], init, exits, collected)
  {
    hide Sound, NoDuplicates;
    var p' := p[q := p[q].(state := Blocked)];
    SoundRecords(p, init, exits, collected);
    forall r | r in p' ensures RightAt(p', r, init, exits, collected) {
      EachRight(p, r, init, exits, collected);
    }
    AllRight(p', init, exits, collected);
  }

  // ---------------------------------------------------------------- signals

  predicate DefaultTerminates(sig: nat) { sig !in {SIGCHLD, 18, 19, 20, 21, 22, 23, 28, 29} }

  predicate Alive(t: Task) { t.state != Zombie && t.state != Dead }

  /** The signal ends the task: `SIGKILL` always, any other by its default action alone. */
  predicate Deadly(t: Task, sig: nat)
    requires sig < NSIG
  {
    sig == SIGKILL || (t.handlers[sig] == Default && (1 <= sig <= 16 || 24 <= sig <= 27 || sig >= 30))
  }

  /** The task has a handler that the signal will be delivered to. */
  predicate Caught(t: Task, sig: nat)
    requires sig < NSIG
  {
    sig != SIGKILL && sig != 0 && t.handlers[sig].Handler?
  }

  /** Signals leave the process tree alone. */
  lemma SignalsKeep(p: Procs, q: nat, t: Task, init: nat, exits: map<nat, int>, collected: map<nat, int>,
                    snapshot: seq<nat>, zombies: seq<nat>)
    requires Sound(p, init, exits, collected) && Noted(p, init, snapshot, zombies)
    requires q in p && t == p[q].(handlers := t.handlers, pending := t.pending)
    ensures Sound(p[q := t], init, exits, collected) && Noted(p[q := t], init, snapshot, zombies)
  {
    hide Sound, NoDuplicates;
    SoundRecords(p, init, exits, collected);
    forall r | r in p ensures RightAt(p[q := t], r, init, exits, collected) {
      EachRight(p, r, init, exits, collected);
    }
    AllRight(p[q := t], init, exits, collected);
  }

  // ---------------------------------------------------------------- birth

  function NewTask(id: nat, user: bool, parent: Option<nat>): Task {
    Task(id, Runnable, user, parent, [], 0, false, ALL_DEFAULT, {})
  }

  lemma SpawnKeeps(p: Procs, id: nat, user: bool, init: nat, exits: map<nat, int>, collected: map<nat, int>)
    requires Sound(p, init, exits, collected) && id !in p && id !in exits && id !in collected && init < id
    ensures Sound(p[id := NewTask(id, user, None)], init, exits, collected)
  {
    hide Sound;
    var p' := p[id := NewTask(id, user, None)];
    SoundRecords(p, init, exits, collected);
    forall r | r in p' ensures RightAt(p', r, init, exits, collected) {
      if r != id { EachRight(p, r, init, exits, collected); }
    }
    AllRight(p', init, exits, collected);
  }

  /** A child has its parent's dispositions, and no signal pending. */
  function ChildOf(parent: Task, id: nat): Task {
    NewTask(id, true, Some(parent.id)).(handlers := parent.handlers)
  }

  /** The tree after a fork. */
  function Forked(p: Procs, q: nat, id: nat): Procs
    requires q in p
  {
    p[q := p[q].(children := p[q].children + [id])][id := ChildOf(p[q], id)]
  }

  lemma ForkKeeps(p: Procs, q: nat, id: nat, init: nat, exits: map<nat, int>, collected: map<nat, int>)
    requires Sound(p, init, exits, collected) && q in p && p[q].user && Awake(p[q].state)
    requires id !in p && id !in exits && id !in collected && init < id && q < id
    ensures Sound(Forked(p, q, id), init, exits, collected)
  {
    hide Sound;
    var p' := Forked(p, q, id);
    SoundRecords(p, init, exits, collected);
    EachRight(p, q, init, exits, collected);
    forall r | r in p' ensures RightAt(p', r, init, exits, collected) {
      if r != id { EachRight(p, r, init, exits, collected); }
    }
    AllRight(p', init, exits, collected);
  }

  // ---------------------------------------------------------------- death

  /** A task told that a child has terminated. */
  function Woken(t: Task): Task {
    t.(pending := t.pending + {SIGCHLD}, state := if t.state == Blocked && t.waitBlocked then Runnable else t.state)
  }

  /** Task `r` of the tree after `q` has terminated: its children adopted by init, its parent woken. */
  function AfterExit(p: Procs, q: nat, status: int, init: nat, r: nat): Task
    requires q in p && r in p
  {
    if r == q then p[q].(state := Zombie, exitStatus := status, children := [])
    else
      var t := if r in p[q].children then p[r].(parent := Some(init)) else p[r];
      var t := if r == init then t.(children := t.children + p[q].children) else t;
      if p[q].parent == Some(r) then Woken(t) else t
  }

  function Exited(p: Procs, q: nat, status: int, init: nat): Procs
    requires q in p
  {
    map r | r in p :: AfterExit(p, q, status, init, r)
  }

  lemma ExitKeeps(p: Procs, q: nat, status: int, init: nat, exits: map<nat, int>, collected: map<nat, int>)
    requires Sound(p, init, exits, collected) && q in p && q != init && p[q].state != Zombie
    ensures Sound(Exited(p, q, status, init), init, exits[q := status], collected)
  {
    hide Sound, Exited, NoDuplicates, ParentRight, Rested;
    var p' := Exited(p, q, status, init);
    SoundRecords(p, init, exits, collected);
    EachRight(p, q, init, exits, collected);
    assert q !in collected by { OwnId(p, q, init, exits, collected); }
    SoundParts(p, init, exits, collected);
    ExitTask(p, q, status, init, init);
    forall r | r in p' ensures RightAt(p', r, init, exits[q := status], collected) {
      ExitTask(p, q, status, init, r);
      EachRight(p, r, init, exits, collected);
      ExitKids(p, q, status, init, r);
      ExitParent(p, q, status, init, r);
      ExitRested(p, q, status, init, r);
    }
    AllRight(p', init, exits[q := status], collected);
  }

  /** What the exit of `q` makes of another task, field by field. */
  lemma ExitTask(p: Procs, q: nat, status: int, init: nat, r: nat)
    requires Linked(p) && Mannered(p, init) && q in p && q != init && r in p
    ensures var p' := Exited(p, q, status, init);
            && p'.Keys == p.Keys && p'[r].id == p[r].id && p'[r].user == p[r].user
               && p'[r].waitBlocked == p[r].waitBlocked
            && p'[r].parent == (if r in p[q].children then Some(init) else p[r].parent)
            && p'[r].children == (if r == q then [] else if r == init then p[init].children + p[q].children
               else p[r].children)
            && (r == q ==> p'[r].state == Zombie && p'[r].exitStatus == status)
            && (r != q ==> p'[r].exitStatus == p[r].exitStatus)
            && (r != q && p[q].parent == Some(r) && p[r].state == Blocked && p[r].waitBlocked ==>
                  p'[r].state == Runnable)
            && (r != q && !(p[q].parent == Some(r) && p[r].state == Blocked && p[r].waitBlocked) ==>
                  p'[r].state == p[r].state)
            && p'[r].handlers == p[r].handlers
            && p'[r].pending == p[r].pending + if p[q].parent == Some(r) then {17} else {}
  {
    assert KidsRight(p, q) && ParentRight(p, q);
  }

  lemma ExitKids(p: Procs, q: nat, status: int, init: nat, r: nat)
    requires Linked(p) && Mannered(p, init) && q in p && q != init && r in p
    ensures var p' := Exited(p, q, status, init); p'.Keys == p.Keys && KidsRight(p', r)
  {
    hide Exited, Linked;
    var p' := Exited(p, q, status, init);
    assert KidsRight(p, r) && KidsRight(p, q) && KidsRight(p, init) by { EachLinked(p, q, init, r); }
    assert MannerOf(p[init], init);
    forall c | c in p[q].children ensures c !in p[init].children { assert p[c].parent == Some(q); }
    ExitTask(p, q, status, init, r);
    forall c | c in p ensures p'[c].parent == if c in p[q].children then Some(init) else p[c].parent {
      ExitTask(p, q, status, init, c);
    }
    if r == init {
      NoDuplicatesJoin(p[init].children, p[q].children);
    } else if r != q {
      forall c | c in p[r].children ensures c !in p[q].children { assert p[c].parent == Some(r); }
    }
  }

  lemma EachLinked(p: Procs, a: nat, b: nat, c: nat)
    requires Linked(p) && a in p && b in p && c in p
    ensures KidsRight(p, a) && KidsRight(p, b) && KidsRight(p, c)
    ensures ParentRight(p, a) && ParentRight(p, b) && ParentRight(p, c)
  {}

  lemma NoDuplicatesJoin(s: seq<nat>, t: seq<nat>)
    requires NoDuplicates(s) && NoDuplicates(t) && forall x :: x in t ==> x !in s
    ensures NoDuplicates(s + t)
  {
    forall i, j | 0 <= i < j < |s + t| ensures (s + t)[i] != (s + t)[j] {
      if i < |s| <= j { assert s[i] in s && t[j - |s|] in t; }
    }
  }

  lemma ExitParent(p: Procs, q: nat, status: int, init: nat, r: nat)
    requires Linked(p) && Mannered(p, init) && q in p && q != init && r in p
    ensures var p' := Exited(p, q, status, init); p'.Keys == p.Keys && ParentRight(p', r)
  {
    hide Exited, Linked;
    var p' := Exited(p, q, status, init);
    ExitTask(p, q, status, init, r);
    ExitTask(p, q, status, init, init);
    EachLinked(p, q, init, r);
    assert MannerOf(p[r], init);
    if p[r].parent.Some? {
      ExitTask(p, q, status, init, p[r].parent.value);
    }
  }

  lemma ExitRested(p: Procs, q: nat, status: int, init: nat, r: nat)
    requires Linked(p) && Mannered(p, init) && NoLostWakeup(p) && q in p && q != init && r in p
    ensures var p' := Exited(p, q, status, init); p'.Keys == p.Keys && Rested(p', r)
  {
    hide Exited, Linked;
    var p' := Exited(p, q, status, init);
    EachLinked(p, q, init, r);
    assert Rested(p, r) && MannerOf(p[r], init) && MannerOf(p[init], init);
    ExitTask(p, q, status, init, r);
    forall c | c in p && c != q ensures p'[c].state == Zombie ==> p[c].state == Zombie {
      ExitTask(p, q, status, init, c);
    }
  }

  /** The tree after child `c` of `q` has been reaped. */
  function Reaped(p: Procs, q: nat, c: nat): Procs
    requires q in p
  {
    p[q := p[q].(children := Without(p[q].children, c))] - {c}
  }

  function Without(s: seq<nat>, c: nat): (r: seq<nat>)
    ensures forall x :: x in r <==> x in s && x != c
    ensures NoDuplicates(s) ==> NoDuplicates(r)
  {
    if s == [] then []
    else
      var r := Without(s[..|s| - 1], c);
      assert NoDuplicates(s) ==> NoDuplicates(s[..|s| - 1]) && s[|s| - 1] !in s[..|s| - 1];
      assert s == s[..|s| - 1] + [s[|s| - 1]];
      if s[|s| - 1] == c then r else r + [s[|s| - 1]]
  }

  /** Without duplicates, just that one goes, and the others keep their order. */
  lemma {:induction false} WithoutOne(a: seq<nat>, c: nat, b: seq<nat>)
    requires c !in a && c !in b
    ensures Without(a + [c] + b, c) == a + b
  {
    var s := a + [c] + b;
    if b == [] {
      assert s[..|s| - 1] == a && a + b == a;
      WithoutNone(a, c);
    } else {
      assert s[..|s| - 1] == a + [c] + b[..|b| - 1] && a + b == (a + b[..|b| - 1]) + [b[|b| - 1]];
      WithoutOne(a, c, b[..|b| - 1]);
    }
  }

  lemma {:induction false} WithoutNone(a: seq<nat>, c: nat)
    requires c !in a
    ensures Without(a, c) == a
  {
    if a != [] {
      WithoutNone(a[..|a| - 1], c);
      assert a == a[..|a| - 1] + [a[|a| - 1]];
    }
  }

  lemma ReapKeeps(p: Procs, q: nat, c: nat, init: nat, exits: map<nat, int>, collected: map<nat, int>)
    requires Sound(p, init, exits, collected) && q in p && Awake(p[q].state)
    requires c in p[q].children && c in p && p[c].state == Zombie
    ensures c in exits && c !in collected && p[c].exitStatus == exits[c]
    ensures Sound(Reaped(p, q, c), init, exits, collected[c := p[c].exitStatus])
  {
    hide Sound, RightAt, Reaped;
    EachRight(p, q, init, exits, collected);
    EachRight(p, c, init, exits, collected);
    SoundRecords(p, init, exits, collected);
    var p' := Reaped(p, q, c);
    ReapBasics(p, q, c, init, exits, collected);
    forall r | r in p' ensures RightAt(p', r, init, exits, collected[c := p[c].exitStatus]) {
      EachRight(p, r, init, exits, collected);
      ReapRight(p, q, c, r, init, exits, collected);
    }
    AllRight(p', init, exits, collected[c := p[c].exitStatus]);
  }

  lemma ReapBasics(p: Procs, q: nat, c: nat, init: nat, exits: map<nat, int>, collected: map<nat, int>)
    requires q in p && RightAt(p, q, init, exits, collected) && c in p && RightAt(p, c, init, exits, collected)
    requires c in p[q].children && p[c].state == Zombie && init in p && !p[init].user
    ensures c in exits && c !in collected && p[c].exitStatus == exits[c]
    ensures c != q && c != init && Reaped(p, q, c).Keys == p.Keys - {c} && Reaped(p, q, c)[init].user == p[init].user
  {}

  lemma ReapRight(p: Procs, q: nat, c: nat, r: nat, init: nat, exits: map<nat, int>, collected: map<nat, int>)
    requires q in p && RightAt(p, q, init, exits, collected) && c in p && RightAt(p, c, init, exits, collected)
    requires c in p[q].children && p[c].state == Zombie && Awake(p[q].state) && c != q
    requires r in p && r != c && RightAt(p, r, init, exits, collected)
    ensures r in Reaped(p, q, c) && RightAt(Reaped(p, q, c), r, init, exits, collected[c := p[c].exitStatus])
  {
    hide NoDuplicates, Without;
    assert p[r].parent != Some(c);
  }

  // ---------------------------------------------------------------- the reaper's notes

  /** What init noted while scanning stays true until init itself acts on it. */
  ghost predicate Noted(p: Procs, init: nat, snapshot: seq<nat>, zombies: seq<nat>) {
    && init in p && NoDuplicates(snapshot) && NoDuplicates(zombies)
    && (forall c :: c in snapshot ==> c in p[init].children)
    && (forall c :: c in zombies ==> c in p[init].children && c in p && p[c].state == Zombie)
  }

  lemma ExitNoted(p: Procs, q: nat, status: int, init: nat, snapshot: seq<nat>, zombies: seq<nat>)
    requires Linked(p) && Mannered(p, init) && q in p && q != init && Noted(p, init, snapshot, zombies)
    ensures Noted(Exited(p, q, status, init), init, snapshot, zombies)
  {
    hide Linked, Exited;
    ExitTask(p, q, status, init, init);
    forall c | c in zombies ensures Exited(p, q, status, init)[c].state == Zombie {
      ExitTask(p, q, status, init, c);
    }
  }

  /** Another parent's reaping takes nothing from init. */
  lemma ReapNoted(p: Procs, q: nat, c: nat, init: nat, snapshot: seq<nat>, zombies: seq<nat>)
    requires Linked(p) && Noted(p, init, snapshot, zombies) && q in p && q != init && c in p[q].children && c != init
    ensures Noted(Reaped(p, q, c), init, snapshot, zombies)
  {
    EachLinked(p, q, init, init);
  }

  lemma ForkNoted(p: Procs, q: nat, id: nat, init: nat, snapshot: seq<nat>, zombies: seq<nat>)
    requires Noted(p, init, snapshot, zombies) && q in p && id !in p && q != init && Awake(p[q].state)
    ensures Noted(Forked(p, q, id), init, snapshot, zombies)
  {}

  lemma BlockNoted(p: Procs, q: nat, init: nat, snapshot: seq<nat>, zombies: seq<nat>)
    requires Noted(p, init, snapshot, zombies) && q in p && Awake(p[q].state)
    ensures Noted(p[q := p[q].(state := Blocked)], init, snapshot, zombies)
  {}

  lemma InitIsKernel(p: Procs, init: nat, exits: map<nat, int>, collected: map<nat, int>)
    requires Sound(p, init, exits, collected)
    ensures init in p && !p[init].user && !p[init].waitBlocked && Linked(p) && Mannered(p, init)
  {
    assert MannerOf(p[init], init);
  }

  /** A kernel task other than init leaves nothing behind. */
  lemma KernelGone(p: Procs, q: nat, init: nat, exits: map<nat, int>, collected: map<nat, int>, snapshot: seq<nat>,
                   zombies: seq<nat>)
    requires Sound(p, init, exits, collected) && Noted(p, init, snapshot, zombies) && q in p && !p[q].user
        && q != init && p[q].state != Zombie
    ensures Sound(p - {q}, init, exits, collected) && Noted(p - {q}, init, snapshot, zombies)
  {
    hide Sound, NoDuplicates;
    var p': Procs := p - {q};
    SoundRecords(p, init, exits, collected);
    EachRight(p, q, init, exits, collected);
    forall r | r in p' ensures RightAt(p', r, init, exits, collected) {
      EachRight(p, r, init, exits, collected);
      forall c | c in p[r].children ensures c != q { assert p[c].parent == Some(r); }
    }
    AllRight(p', init, exits, collected);
    EachRight(p, init, init, exits, collected);
  }

  // ---------------------------------------------------------------- waiting

  /** Back from the sleep inside `wait`. */
  lemma AwakeKeeps(p: Procs, q: nat, init: nat, exits: map<nat, int>, collected: map<nat, int>, snapshot: seq<nat>,
                   zombies: seq<nat>)
    requires Sound(p, init, exits, collected) && Noted(p, init, snapshot, zombies) && q in p && Awake(p[q].state)
    ensures Sound(p[q := p[q].(waitBlocked := false)], init, exits, collected)
    ensures Noted(p[q := p[q].(waitBlocked := false)], init, snapshot, zombies)
  {
    hide Sound, NoDuplicates;
    var p' := p[q := p[q].(waitBlocked := false)];
    SoundRecords(p, init, exits, collected);
    forall r | r in p' ensures RightAt(p', r, init, exits, collected) {
      EachRight(p, r, init, exits, collected);
    }
    AllRight(p', init, exits, collected);
  }

  /** Falling asleep in `wait` after a scan that found children, none of them terminated. */
  lemma SleepKeeps(p: Procs, q: nat, init: nat, exits: map<nat, int>, collected: map<nat, int>, snapshot: seq<nat>,
                   zombies: seq<nat>)
    requires Sound(p, init, exits, collected) && Noted(p, init, snapshot, zombies) && q in p && Awake(p[q].state)
        && p[q].user
    requires p[q].children != [] && forall c :: c in p[q].children && c in p ==> p[c].state != Zombie
    ensures Sound(p[q := p[q].(state := Blocked, waitBlocked := true)], init, exits, collected)
    ensures Noted(p[q := p[q].(state := Blocked, waitBlocked := true)], init, snapshot, zombies)
  {
    hide Sound, NoDuplicates;
    var p' := p[q := p[q].(state := Blocked, waitBlocked := true)];
    SoundRecords(p, init, exits, collected);
    forall r | r in p' ensures RightAt(p', r, init, exits, collected) {
      EachRight(p, r, init, exits, collected);
    }
    AllRight(p', init, exits, collected);
  }

  /** Init reaps the first zombie it noted. */
  lemma OwnReapNoted(p: Procs, c: nat, init: nat, zombies: seq<nat>)
    requires Linked(p) && Noted(p, init, [], [c] + zombies) && c != init
    ensures Noted(Reaped(p, init, c), init, [], zombies)
  {
    EachLinked(p, init, init, init);
    var z := [c] + zombies;
    forall i | 0 <= i < |zombies| ensures zombies[i] != c && zombies[i] in z { assert z[0] != z[i + 1]; }
    forall i, j | 0 <= i < j < |zombies| ensures zombies[i] != zombies[j] { assert z[i + 1] != z[j + 1]; }
  }
}
