/** The task table: round-robin scheduling, and the process calls that run on it with interrupts off. */
module Scheduling {
  import opened Processes
  import opened Options

  // ---------------------------------------------------------------- the table

  predicate Unique(tasks: seq<Task>) { forall i, j :: 0 <= i < j < |tasks| ==> tasks[i].id != tasks[j].id }

  predicate LiveAt(tasks: seq<Task>, i: nat, id: nat) { i < |tasks| && tasks[i].state != Dead && tasks[i].id == id }

  ghost function LiveIds(tasks: seq<Task>): set<nat> {
    set i | 0 <= i < |tasks| && tasks[i].state != Dead :: tasks[i].id
  }

  ghost function SlotOf(tasks: seq<Task>, id: nat): (i: nat)
    requires id in LiveIds(tasks)
    ensures LiveAt(tasks, i, id)
  {
    var i :| 0 <= i < |tasks| && tasks[i].state != Dead && tasks[i].id == id;
    i
  }

  /** The tasks that are not dead, by id. */
  ghost function ProcsOf(tasks: seq<Task>): Procs {
    map id | id in LiveIds(tasks) :: tasks[SlotOf(tasks, id)]
  }

  lemma Lookup(tasks: seq<Task>, i: nat)
    requires Unique(tasks) && i < |tasks|
    ensures tasks[i].state != Dead ==> tasks[i].id in ProcsOf(tasks) && ProcsOf(tasks)[tasks[i].id] == tasks[i]
    ensures tasks[i].state == Dead ==> tasks[i].id !in ProcsOf(tasks)
  {
    if tasks[i].state != Dead {
      assert tasks[i].id in LiveIds(tasks);
      assert LiveAt(tasks, SlotOf(tasks, tasks[i].id), tasks[i].id);
    }
  }

  lemma Located(tasks: seq<Task>, id: nat) returns (i: nat)
    requires Unique(tasks) && id in ProcsOf(tasks)
    ensures LiveAt(tasks, i, id) && ProcsOf(tasks)[id] == tasks[i]
  {
    i := SlotOf(tasks, id);
  }

  /** A table shows the tree `p` when its live slots are the nodes of `p`. */
  lemma ProcsAre(tasks: seq<Task>, p: Procs)
    requires Unique(tasks)
    requires forall i :: 0 <= i < |tasks| && tasks[i].state != Dead ==> tasks[i].id in p && p[tasks[i].id] == tasks[i]
    requires forall id :: id in p ==> exists i :: LiveAt(tasks, i, id)
    ensures ProcsOf(tasks) == p
  {
    forall id | id in ProcsOf(tasks) ensures id in p && p[id] == ProcsOf(tasks)[id] {
      var i := Located(tasks, id);
    }
    forall id | id in p ensures id in ProcsOf(tasks) {
      var i :| LiveAt(tasks, i, id);
      Lookup(tasks, i);
    }
  }

  lemma SlotChanged(tasks: seq<Task>, i: nat, t: Task)
    requires Unique(tasks) && i < |tasks| && forall j :: 0 <= j < |tasks| && j != i ==> tasks[j].id != t.id
    ensures Unique(tasks[i := t])
    ensures var p := ProcsOf(tasks) - {tasks[i].id};
            ProcsOf(tasks[i := t]) == if t.state == Dead then p else p[t.id := t]
    ensures t.state != Dead && t.id == tasks[i].id ==> ProcsOf(tasks[i := t]) == ProcsOf(tasks)[t.id := t]
  {
    hide ProcsOf;
    var tasks' := tasks[i := t];
    var p: Procs := ProcsOf(tasks) - {tasks[i].id};
    var p' := if t.state == Dead then p else p[t.id := t];
    forall j | 0 <= j < |tasks'| && tasks'[j].state != Dead
      ensures tasks'[j].id in p' && p'[tasks'[j].id] == tasks'[j] {
      if j != i { Lookup(tasks, j); assert tasks[j].id != tasks[i].id; }
    }
    forall id | id in p' ensures exists j :: LiveAt(tasks', j, id) {
      if id == t.id && t.state != Dead {
        assert LiveAt(tasks', i, id);
      } else {
        var j := Located(tasks, id);
        assert LiveAt(tasks', j, id);
      }
    }
    ProcsAre(tasks', p');
  }

  lemma SlotPushed(tasks: seq<Task>, t: Task)
    requires Unique(tasks) && t.state != Dead && forall j :: 0 <= j < |tasks| ==> tasks[j].id != t.id
    ensures Unique(tasks + [t]) && ProcsOf(tasks + [t]) == ProcsOf(tasks)[t.id := t]
  {
    hide ProcsOf;
    var tasks', p' := tasks + [t], ProcsOf(tasks)[t.id := t];
    forall j | 0 <= j < |tasks'| && tasks'[j].state != Dead
      ensures tasks'[j].id in p' && p'[tasks'[j].id] == tasks'[j] {
      if j < |tasks| { Lookup(tasks, j); }
    }
    forall id | id in p' ensures exists j :: LiveAt(tasks', j, id) {
      if id == t.id {
        assert LiveAt(tasks', |tasks|, id);
      } else {
        var j := Located(tasks, id);
        assert LiveAt(tasks', j, id);
      }
    }
    ProcsAre(tasks', p');
  }

  // ---------------------------------------------------------------- round robin

  /** How many slots lie between `cur` and `k`, going round. */
  function Gap(cur: nat, k: nat, n: nat): (d: nat)
    requires cur < n && k < n
    ensures d < n && (d == n - 1 <==> k == cur)
  {
    if k > cur then k - cur - 1 else k + n - cur - 1
  }

  /** `j` is the first runnable slot after `cur`, going round. */
  predicate FirstAfter(tasks: seq<Task>, cur: nat, j: nat)
    requires cur < |tasks|
  {
    && j < |tasks| && tasks[j].state == Runnable
    && forall k :: 0 <= k < |tasks| && Gap(cur, k, |tasks|) < Gap(cur, j, |tasks|) ==> tasks[k].state != Runnable
  }

  /** The slot that runs next: the first runnable one after `cur`, or `cur` itself when there is none. */
  ghost predicate Chosen(tasks: seq<Task>, cur: nat, next: nat)
    requires cur < |tasks|
  {
    if exists k :: 0 <= k < |tasks| && tasks[k].state == Runnable then FirstAfter(tasks, cur, next) else next == cur
  }

  /** Every slot passed over on the way from `cur` to `next` has a task that is not waiting for a turn. */
  predicate InTurn(tasks: seq<Task>, cur: nat, next: nat) {
    && cur < |tasks| && next < |tasks|
    && forall k :: 0 <= k < |tasks| && Gap(cur, k, |tasks|) < Gap(cur, next, |tasks|) ==> tasks[k].state != Runnable
  }

  /** Each choice brings the turn strictly nearer to every task that stays runnable. */
  lemma ChoiceNears(tasks: seq<Task>, cur: nat, next: nat, i: nat)
    requires cur < |tasks| && i < |tasks| && i != cur && tasks[i].state == Runnable && Chosen(tasks, cur, next)
    ensures next < |tasks|
    ensures next == i || Gap(next, i, |tasks|) < Gap(cur, i, |tasks|)
  {
    assert FirstAfter(tasks, cur, next);
  }

  /** In a table of `n` slots, a task that stays runnable has its turn within `n - 1` choices. */
  lemma {:induction false} FairTurn(tables: seq<seq<Task>>, turns: seq<nat>, i: nat, n: nat)
    requires i < n && |turns| == |tables| + 1 && turns[0] < n
    requires forall k :: 0 <= k < |tables| ==>
      |tables[k]| == n && turns[k] < n && Chosen(tables[k], turns[k], turns[k + 1]) &&
      (turns[k] != i ==> tables[k][i].state == Runnable)
    requires Gap(turns[0], i, n) < |tables| || turns[0] == i
    ensures exists k :: 0 <= k < |turns| && k < n && turns[k] == i && (turns[0] != i ==> k <= Gap(turns[0], i, n) + 1)
  {
    if turns[0] == i {
      assert turns[0] == i;
    } else {
      ChoiceNears(tables[0], turns[0], turns[0 + 1], i);
      if turns[1] == i {
        assert turns[1] == i;
      } else {
        FairTurn(tables[1..], turns[1..], i, n);
        var k :| 0 <= k < |turns[1..]| && k < n && turns[1..][k] == i && k <= Gap(turns[1], i, n) + 1;
        assert turns[k + 1] == i;
      }
    }
  }

  // ---------------------------------------------------------------- the scheduler

  /** Slot `j` after the task in slot `i`, number `q` of the tree `p`, has terminated. */
  function AfterRetire(p: Procs, q: nat, status: int, init: nat, t: Task): Task
    requires q in p
  {
    if t.state == Dead || t.id !in p then t else AfterExit(p, q, status, init, t.id)
  }

  /** A task that has been sent a signal it has a handler for. */
  function Marked(t: Task, sig: nat): Task {
    t.(pending := t.pending + {sig}, state := if t.state == Blocked then Runnable else t.state)
  }

  /** `c` is the first in the list that has terminated. */
  predicate FirstZombie(children: seq<nat>, k: nat, c: nat, p: Procs) {
    && k < |children| && children[k] == c
    && forall j :: 0 <= j < k && children[j] in p ==> p[children[j]].state != Zombie
  }

  predicate FirstDead(tasks: seq<Task>, i: nat) {
    i < |tasks| && tasks[i].state == Dead && forall j :: 0 <= j < i ==> tasks[j].state != Dead
  }

  datatype Waited = NoChildren | Collected(child: nat, status: int) | Asleep

  class Scheduler {
    var tasks: seq<Task>
    var current: nat
    var nextId: nat
    /** The task that adopts orphans, registered at boot. */
    const init: nat
    /** Slot of the idle task. */
    const idle: nat
    /** What init keeps in local variables while it reaps, between one critical section and the next. */
    var snapshot: seq<nat>
    var zombies: seq<nat>
    /** Statuses of terminated tasks, and those of them that were collected. */
    ghost var exits: map<nat, int>
    ghost var collected: map<nat, int>

    ghost function Procs(): Procs
      reads this
    {
      ProcsOf(tasks)
    }

    /** The table itself: distinct ids below the next one, and an idle task that never stops. */
    ghost predicate Table()
      reads this
    {
      && Unique(tasks) && (forall i :: 0 <= i < |tasks| ==> tasks[i].id < nextId)
      && (forall q :: q in exits || q in collected ==> q < nextId) && init < nextId
      && current < |tasks| && idle < |tasks| && Awake(tasks[idle].state) && !tasks[idle].user && tasks[idle].id != init
    }

    /** Exactly the current slot is running. */
    predicate OneRuns()
      reads this
    {
      forall i :: 0 <= i < |tasks| ==> (tasks[i].state == Running <==> i == current)
    }

    ghost predicate Tree()
      reads this
    {
      Sound(Procs(), init, exits, collected) && Noted(Procs(), init, snapshot, zombies)
    }

    ghost predicate Valid()
      reads this
    {
      Table() && OneRuns() && Tree()
    }

    /** Boot: the idle task runs, and the reaper is registered. */
    constructor ()
      ensures Valid() && fresh(this)
    {
      var boot := [NewTask(0, false, None).(state := Running), NewTask(1, false, None)];
      tasks, current, nextId, init, idle := boot, 0, 2, 1, 0;
      snapshot, zombies, exits, collected := [], [], map[], map[];
      new;
      BootTree(boot);
    }

    /** Pass the processor on, if any task is runnable; the current one waits its turn unless it has stopped. */
    method Switch()
      requires current < |tasks|
      modifies this`tasks, this`current
      ensures |tasks| == |old(tasks)| && current < |tasks| && Chosen(old(tasks), old(current), current)
      ensures InTurn(tasks, old(current), current)
      ensures forall i :: 0 <= i < |tasks| ==> tasks[i] == old(tasks)[i].(state := tasks[i].state)
      ensures forall i :: 0 <= i < |tasks| && i != current ==>
        tasks[i].state == if i == old(current) && old(tasks)[i].state == Running then Runnable else old(tasks)[i].state
      ensures tasks[current].state ==
        if old(tasks)[current].state == Runnable || old(tasks)[current].state == Running then Running
          else old(tasks)[current].state
    {
      var cur := current;
      var found, next := FindRunnable();
      if !found {
        if tasks[cur].state == Running || tasks[cur].state == Runnable {
          tasks := tasks[cur := tasks[cur].(state := Running)];
        }
      } else if next == cur {
        if tasks[cur].state != Dead {
          tasks := tasks[cur := tasks[cur].(state := Running)];
        }
      } else {
        if tasks[cur].state == Running {
          tasks := tasks[cur := tasks[cur].(state := Runnable)];
        }
        tasks := tasks[next := tasks[next].(state := Running)];
        current := next;
      }
    }

    /** `schedule`, from a state whose current task runs on or has just stopped. */
    method Schedule()
      requires Table() && Tree()
      requires forall i :: 0 <= i < |tasks| && i != current ==> tasks[i].state != Running
      requires tasks[current].state == Running || current != idle
      modifies this`tasks, this`current
      ensures Valid() && |tasks| == |old(tasks)| && Chosen(old(tasks), old(current), current)
      ensures forall i :: 0 <= i < |tasks| ==> tasks[i] == old(tasks)[i].(state := tasks[i].state)
      ensures forall i :: 0 <= i < |tasks| && !Awake(old(tasks)[i].state) ==> tasks[i] == old(tasks)[i]
      ensures SameButTurns(old(Procs()), Procs()) && InTurn(tasks, old(current), current)
    {
      hide Sound, Noted, ProcsOf;
      ghost var before := tasks;
      Switch();
      StatesShown(before, tasks, init, exits, collected, snapshot, zombies);
    }

    /** Search the slots after the current one, going round, for a runnable task. */
    method FindRunnable() returns (found: bool, idx: nat)
      requires current < |tasks|
      ensures found ==> FirstAfter(tasks, current, idx)
      ensures !found ==> forall k :: 0 <= k < |tasks| ==> tasks[k].state != Runnable
    {
      var n := |tasks|;
      idx := current;
      found := false;
      for step := 0 to n
        invariant idx == Around(current, step, n) < n
        invariant forall k :: 0 <= k < n && Gap(current, k, n) < step ==> tasks[k].state != Runnable
      {
        NextSlot(idx, n);
        idx := (idx + 1) % n;
        if tasks[idx].state == Runnable {
          return true, idx;
        }
      }
    }

    // -------------------------------------------------------------- tables and ids

    method Find(id: nat) returns (found: bool, i: nat)
      ensures found ==> i < |tasks| && tasks[i].id == id
      ensures !found ==> forall j :: 0 <= j < |tasks| ==> tasks[j].id != id
    {
      for k := 0 to |tasks|
        invariant forall j :: 0 <= j < k ==> tasks[j].id != id
      {
        if tasks[k].id == id {
          return true, k;
        }
      }
      return false, 0;
    }

    /** Put a task into the table, reusing the slot of a dead one if there is any. */
    method AddTask(t: Task)
      requires Unique(tasks) && t.state != Dead && forall j :: 0 <= j < |tasks| ==> tasks[j].id != t.id
      modifies this`tasks
      ensures Unique(tasks) && |old(tasks)| <= |tasks| && Procs() == old(Procs())[t.id := t]
      ensures forall i :: 0 <= i < |old(tasks)| && old(tasks)[i].state != Dead ==> tasks[i] == old(tasks)[i]
      ensures forall i :: 0 <= i < |tasks| ==> tasks[i] == t || (i < |old(tasks)| && tasks[i] == old(tasks)[i])
      ensures forall i: nat :: FirstDead(old(tasks), i) ==> tasks == old(tasks)[i := t]
      ensures (forall i :: 0 <= i < |old(tasks)| ==> old(tasks)[i].state != Dead) ==> tasks == old(tasks) + [t]
    {
      hide ProcsOf;
      for i := 0 to |tasks|
        invariant tasks == old(tasks) && forall j :: 0 <= j < i ==> tasks[j].state != Dead
      {
        if tasks[i].state == Dead {
          Lookup(tasks, i);
          SlotChanged(tasks, i, t);
          tasks := tasks[i := t];
          return;
        }
      }
      SlotPushed(tasks, t);
      tasks := tasks + [t];
    }

    method Spawn(user: bool) returns (id: nat)
      requires Valid()
      modifies this`tasks, this`nextId
      ensures Valid() && id !in old(Procs()) && Procs() == old(Procs())[id := NewTask(id, user, None)]
      ensures id == old(nextId) && nextId == id + 1
      ensures Procs()[id] == Task(id, Runnable, user, None, [], 0, false, ALL_DEFAULT, {})
    {
      hide Sound, ProcsOf;
      id := nextId;
      nextId := nextId + 1;
      NewId(tasks, id);
      SpawnKeeps(Procs(), id, user, init, exits, collected);
      AddTask(NewTask(id, user, None));
    }

    method Fork() returns (child: Option<nat>)
      requires Valid()
      modifies this`tasks, this`nextId
      ensures Valid()
      ensures child.Some? <==> old(tasks)[old(current)].user
      ensures child.None? ==> tasks == old(tasks)
      ensures child.Some? ==>
        child.value !in old(Procs()) && Procs() == Forked(old(Procs()), old(tasks)[old(current)].id, child.value)
      ensures child.Some? ==>
        var me, id := old(tasks)[old(current)], child.value;
        && id == old(nextId) && nextId == id + 1 && id in Procs()
        && Procs()[id] == Task(id, Runnable, true, Some(me.id), [], 0, false, me.handlers, {})
        && me.id in Procs() && Procs()[me.id] == me.(children := me.children + [id])
    {
      hide Sound, Noted, ProcsOf, Linked, Mannered, NoDuplicates;
      var parent := tasks[current].id;
      if !tasks[current].user {
        return None;
      }
      var id := nextId;
      nextId := nextId + 1;
      ghost var p := Procs();
      NewId(tasks, id);
      Lookup(tasks, current);
      InitIsKernel(p, init, exits, collected);
      ForkKeeps(p, parent, id, init, exits, collected);
      ForkNoted(p, parent, id, init, snapshot, zombies);
      AddTask(ChildOf(tasks[current], id));
      var found, i := Find(parent);
      assert i == current;
      var t := tasks[i].(children := tasks[i].children + [id]);
      SlotChanged(tasks, i, t);
      ghost var added: Procs := p[id := ChildOf(p[parent], id)];
      assert Forked(p, parent, id) == added[parent as nat := t];
      tasks := tasks[i := t];
      return Some(id);
    }

    // -------------------------------------------------------------- waking and blocking

    method Unblock(id: nat)
      requires Valid()
      modifies this`tasks
      ensures Valid() && |tasks| == |old(tasks)| && SameButStates(old(Procs()), Procs())
      ensures forall i :: 0 <= i < |tasks| ==>
        tasks[i] == if old(tasks)[i].id == id && old(tasks)[i].state == Blocked then old(tasks)[i].(state := Runnable)
          else old(tasks)[i]
    {
      hide Sound, Noted, ProcsOf;
      var found, i := Find(id);
      if found && tasks[i].state == Blocked {
        tasks := tasks[i := tasks[i].(state := Runnable)];
      }
      StatesShown(old(tasks), tasks, init, exits, collected, snapshot, zombies);
    }

    /** Sleep until somebody calls `Unblock`. */
    method BlockCurrent()
      requires Valid() && current != idle && !tasks[current].waitBlocked
      modifies this`tasks, this`current
      ensures Valid() && |tasks| == |old(tasks)| && InTurn(tasks, old(current), current)
      ensures var t := old(tasks)[old(current)].(state := Blocked);
        && t.id in Procs() && Procs()[t.id] == t && SameButTurns(old(Procs())[t.id := t], Procs())
    {
      hide Sound, Noted, ProcsOf;
      var t := tasks[current].(state := Blocked);
      Lookup(tasks, current);
      BlockKeeps(Procs(), t.id, init, exits, collected);
      BlockNoted(Procs(), t.id, init, snapshot, zombies);
      SlotChanged(tasks, current, t);
      tasks := tasks[current := t];
      Schedule();
      assert tasks[old(current)].state == Blocked;
      Lookup(tasks, old(current));
    }

    // -------------------------------------------------------------- termination

    /** Hand the children of a terminated task to init. */
    method Adopt(children: seq<nat>)
      requires Unique(tasks) && init !in children && children != []
      modifies this`tasks
      ensures |tasks| == |old(tasks)|
      ensures forall j :: 0 <= j < |tasks| ==> tasks[j] == Adopted(old(tasks)[j], children, init)
    {
      for k := 0 to |children|
        invariant |tasks| == |old(tasks)|
        invariant forall j :: 0 <= j < |tasks| ==>
          tasks[j] == if old(tasks)[j].id in children[..k] then old(tasks)[j].(parent := Some(init)) else old(tasks)[j]
      {
        var found, j := Find(children[k]);
        if found {
          tasks := tasks[j := tasks[j].(parent := Some(init))];
        }
      }
      assert children[..|children|] == children;
      var found, j := Find(init);
      if found {
        tasks := tasks[j := tasks[j].(children := tasks[j].children + children)];
      }
    }

    /** The table changes of a termination: zombie, adoption of the children, wake-up of a waiting parent. */
    method LetGo(i: nat, status: int)
      requires Unique(tasks) && i < |tasks| && init !in tasks[i].children
      modifies this`tasks
      ensures |tasks| == |old(tasks)|
      ensures forall j :: 0 <= j < |tasks| ==> tasks[j] == Steps(old(tasks), i, status, init, j)
    {
      var t := tasks[i];
      tasks := tasks[i := t.(exitStatus := status, state := Zombie, children := [])];
      if t.children != [] {
        Adopt(t.children);
      }
      if t.parent.Some? {
        var found, j := Find(t.parent.value);
        if found {
          tasks := tasks[j := Woken(tasks[j])];
        }
      }
    }

    /** Turn the task in slot `i` into a zombie: children adopted, a waiting parent woken. */
    method Retire(i: nat, status: int)
      requires Unique(tasks) && Tree() && i < |tasks| && tasks[i].state != Zombie && tasks[i].state != Dead
      modifies this`tasks, this`exits
      ensures |tasks| == |old(tasks)| && Unique(tasks)
      ensures tasks[i].state == Zombie && exits == old(exits)[old(tasks)[i].id := status]
      ensures forall j :: 0 <= j < |tasks| ==> tasks[j].id == old(tasks)[j].id && tasks[j].user == old(tasks)[j].user
      ensures forall j :: 0 <= j < |tasks| && j != i ==>
        tasks[j].state == old(tasks)[j].state || (old(tasks)[j].state == Blocked && tasks[j].state == Runnable)
      ensures tasks[i].id != init ==> Tree() && Procs() == Exited(old(Procs()), old(tasks)[i].id, status, init)
    {
      hide Sound, Noted, ProcsOf, Exited, Linked, Mannered, Steps, Unique;
      InitIsKernel(Procs(), init, exits, collected);
      Lookup(tasks, i);
      InitNoChild(Procs(), tasks[i].id, init);
      var id := tasks[i].id;
      LetGo(i, status);
      StepsShape(old(tasks), tasks, i, status, init);
      if id != init {
        Retired(old(tasks), tasks, i, status, init, exits, collected, snapshot, zombies);
      }
      exits := exits[id := status];
    }

    /** The kernel cannot go on without init and the idle task, and neither ever calls `exit`. */
    ghost predicate Vital(id: nat)
      requires idle < |tasks|
      reads this
    {
      id == init || id == tasks[idle].id
    }

    lemma VitalGone(i: nat)
      requires i < |tasks| && Unique(tasks) && idle < |tasks| && Vital(tasks[i].id) && tasks[i].state == Zombie
      ensures !Valid()
    {
      hide ProcsOf;
      Lookup(tasks, i);
    }

    /** `exit`: the calling task becomes a zombie and another one runs. */
    method Exit(status: int)
      requires Valid() && !tasks[current].waitBlocked
      modifies this`tasks, this`current, this`exits
      ensures |tasks| == |old(tasks)| && (Valid() <==> !old(Vital(tasks[current].id)))
      ensures var q := old(tasks)[old(current)].id;
              && q !in old(exits) && exits == old(exits)[q := status] && InTurn(tasks, old(current), current)
              && (Valid() ==> SameButTurns(Exited(old(Procs()), q, status, init), Procs()))
    {
      hide Sound, Noted, ProcsOf, Exited, InTurn, SameButTurns;
      NotYet(tasks, current, init, exits, collected);
      ghost var i := current;
      Retire(current, status);
      ghost var before := tasks;
      Switch();
      if tasks[i].id == init || i == idle {
        VitalGone(i);
      } else {
        StatesShown(before, tasks, init, exits, collected, snapshot, zombies);
      }
    }

    /** A kernel task's entry function returns. */
    method ReturnFromTask()
      requires Valid() && !tasks[current].user && current != idle && tasks[current].id != init
      modifies this`tasks, this`current
      ensures Valid() && SameButTurns(old(Procs()) - {old(tasks)[old(current)].id}, Procs())
      ensures |tasks| == |old(tasks)| && InTurn(tasks, old(current), current)
    {
      hide Sound, Noted, ProcsOf;
      var t := tasks[current].(state := Dead);
      Lookup(tasks, current);
      KernelGone(Procs(), t.id, init, exits, collected, snapshot, zombies);
      SlotChanged(tasks, current, t);
      tasks := tasks[current := t];
      Schedule();
    }

    /** Terminate another task, or the caller itself. */
    method Terminate(id: nat, status: int) returns (done: bool)
      requires Valid() && !tasks[current].waitBlocked
      modifies this`tasks, this`current, this`exits
      ensures |tasks| == |old(tasks)| && (Valid() <==> !(done && old(Vital(id))))
      ensures done <==> id in old(Procs()) && old(Procs())[id].state != Zombie
      ensures done ==> id !in old(exits) && exits == old(exits)[id := status]
      ensures done && Valid() ==> SameButTurns(Exited(old(Procs()), id, status, init), Procs())
      ensures !done ==> tasks == old(tasks) && exits == old(exits)
    {
      hide Sound, Noted, ProcsOf, Exited;
      if id == tasks[current].id {
        Lookup(tasks, current);
        Exit(status);
        return true;
      }
      var found, i := Find(id);
      if !found {
        Absent(tasks, id);
        return false;
      }
      Lookup(tasks, i);
      if tasks[i].state == Zombie || tasks[i].state == Dead {
        return false;
      }
      NotYet(tasks, i, init, exits, collected);
      Retire(i, status);
      if id == init || i == idle { VitalGone(i); }
      return true;
    }

    /** Whom the current task may send signals: a user task itself and its children, a kernel task anybody. */
    ghost predicate MayAim(pid: nat)
      requires current < |tasks|
      reads this
    {
      var me := tasks[current];
      || !me.user || me.id == pid || me.id == init || pid in me.children
      || exists i :: 0 <= i < |tasks| && tasks[i].id == pid && tasks[i].parent == Some(me.id)
    }

    /** Of the tasks there are, those that a user task may send signals are itself and its children. */
    lemma AimIsKin(pid: nat)
      requires Valid() && tasks[current].user && pid in Procs()
      ensures MayAim(pid) <==> pid == tasks[current].id || pid in tasks[current].children
    {
      hide Sound, ProcsOf;
      if MayAim(pid) { VictimIsUser(tasks, current, pid, init, exits, collected); }
    }

    /** A task has or had this number. */
    ghost predicate Known(pid: nat)
      reads this
    {
      exists i :: 0 <= i < |tasks| && tasks[i].id == pid
    }

    /** The signal will end the task: it is alive, and the caller may send it. */
    ghost predicate Kills(pid: nat, sig: nat)
      requires current < |tasks|
      reads this
    {
      sig < NSIG && Reaches(pid) && Deadly(Procs()[pid], sig)
    }

    ghost predicate Marks(pid: nat, sig: nat)
      requires current < |tasks|
      reads this
    {
      sig < NSIG && Reaches(pid) && Caught(Procs()[pid], sig)
    }

    /** There is a live task `pid` that the caller may send signals. */
    ghost predicate Reaches(pid: nat)
      requires current < |tasks|
      reads this
    {
      MayAim(pid) && pid in Procs() && Procs()[pid].state != Zombie
    }

    /** The task in slot `i` is `pid`, awake, with the signal pending. */
    ghost predicate Informed(i: nat, pid: nat, sig: nat)
      reads this
    {
      i < |tasks| && tasks[i].id == pid && sig in tasks[i].pending && tasks[i].state != Blocked
    }

    /** The permission check of `kill`; whatever a user task may aim at, the kernel can go on without. */
    method CheckAim(pid: nat) returns (may: bool)
      requires Valid()
      ensures may <==> MayAim(pid)
      ensures may && tasks[current].user ==> !Vital(pid)
    {
      hide Sound, Noted, ProcsOf;
      var me := tasks[current];
      Lookup(tasks, current);
      if me.user {
        if me.id != pid {
          var isChild := pid in me.children || exists i ::
            0 <= i < |tasks| && tasks[i].id == pid && tasks[i].parent == Some(me.id);
          if !isChild && me.id != init {
            return false;
          }
        }
        VictimIsUser(tasks, current, pid, init, exits, collected);
      }
      return true;
    }

    /**
     * `kill`: a signal ends its target, is left pending for its handler, or does nothing. A user task may only aim at
     * itself and its children, so neither init nor the idle task is ever its victim.
     */
    method Kill(pid: nat, sig: nat) returns (ok: bool)
      requires Valid() && !tasks[current].waitBlocked
      modifies this`tasks, this`current, this`exits
      ensures |tasks| == |old(tasks)| && (Valid() <==> !old(Kills(pid, sig) && Vital(pid)))
      ensures old(tasks)[old(current)].user ==> Valid()
      ensures ok <==> sig < NSIG && old(MayAim(pid)) && old(Known(pid))
      ensures old(Kills(pid, sig)) ==>
        && pid !in old(exits) && exits == old(exits)[pid := 128 + sig]
        && (Valid() ==> SameButTurns(Exited(old(Procs()), pid, 128 + sig, init), Procs()))
      ensures old(Marks(pid, sig)) ==>
        && exits == old(exits) && current == old(current)
        && forall i :: 0 <= i < |tasks| ==>
             tasks[i] == if old(tasks)[i].id == pid then Marked(old(tasks)[i], sig) else old(tasks)[i]
      ensures !old(Kills(pid, sig)) && !old(Marks(pid, sig)) ==>
        tasks == old(tasks) && exits == old(exits) && current == old(current)
      ensures old(Reaches(pid)) ==>
        var how := old(Procs())[pid].handlers;
        && (sig == 9 || (0 < sig < 32 && how[sig] == Default && (sig <= 16 || 24 <= sig <= 27 || sig >= 30)) ==>
              exits == old(exits)[pid := 128 + sig])
        && (0 < sig < 32 && how[sig] == Default && (17 <= sig <= 23 || 28 <= sig <= 29) ==>
              tasks == old(tasks) && exits == old(exits))
        && (0 < sig < 32 && how[sig] == Ignored && sig != 9 ==> tasks == old(tasks) && exits == old(exits))
      ensures old(Reaches(pid)) && 0 < sig < 32 && old(Procs())[pid].handlers[sig].Handler? && sig != 9 ==>
        exits == old(exits) && exists i :: Informed(i, pid, sig)
    {
      hide Sound, Noted, ProcsOf, Exited, MayAim, Marked, SameButTurns;
      if sig >= NSIG {
        return false;
      }
      var may := CheckAim(pid);
      if !may {
        return false;
      }
      var found, i := Find(pid);
      if !found {
        Absent(tasks, pid);
        return false;
      }
      Lookup(tasks, i);
      ok := true;
      if !Alive(tasks[i]) || sig == 0 {
        return;
      }
      if sig == SIGKILL {
        var done := Terminate(pid, 128 + sig);
        return;
      }
      match tasks[i].handlers[sig]
      case Ignored =>
      case Default =>
        if DefaultTerminates(sig) {
          var done := Terminate(pid, 128 + sig);
        }
      case Handler(_) =>
        Mark(i, sig);
        assert Informed(i, pid, sig);
    }

    /** A signal for a handler is left pending, and wakes its task whatever that sleeps for. */
    method Mark(i: nat, sig: nat)
      requires Valid() && i < |tasks| && Alive(tasks[i])
      modifies this`tasks
      ensures Valid() && tasks == old(tasks)[i := Marked(old(tasks)[i], sig)] && Informed(i, old(tasks)[i].id, sig)
    {
      hide Sound, Noted, ProcsOf;
      var t := tasks[i].(pending := tasks[i].pending + {sig});
      Lookup(tasks, i);
      SignalsKeep(Procs(), t.id, t, init, exits, collected, snapshot, zombies);
      SlotChanged(tasks, i, t);
      tasks := tasks[i := t];
      ghost var before := tasks;
      if tasks[i].state == Blocked {
        tasks := tasks[i := t.(state := Runnable)];
      }
      StatesShown(before, tasks, init, exits, collected, snapshot, zombies);
    }

    /** `signal`: set what the calling task does with a signal; `SIGKILL` keeps its default. */
    method SetDisposition(sig: nat, to: Disposition) returns (before: Option<Disposition>)
      requires Valid()
      modifies this`tasks
      ensures Valid()
      ensures before.Some? <==> 0 < sig < NSIG && sig != SIGKILL
      ensures before.None? ==> tasks == old(tasks)
      ensures before.Some? ==>
        var me := old(tasks)[current];
        && before.value == me.handlers[sig]
        && tasks == old(tasks)[current := me.(handlers := me.handlers[sig := to])]
    {
      hide Sound, Noted, ProcsOf;
      if sig == 0 || sig >= NSIG || sig == SIGKILL {
        return None;
      }
      var me := tasks[current];
      var t := me.(handlers := me.handlers[sig := to]);
      Lookup(tasks, current);
      SignalsKeep(Procs(), t.id, t, init, exits, collected, snapshot, zombies);
      SlotChanged(tasks, current, t);
      tasks := tasks[current := t];
      return Some(me.handlers[sig]);
    }

    // -------------------------------------------------------------- waiting

    /** Take child `c` out of its parent's list and retire its slot. */
    method Collect(parent: nat, c: nat)
      requires Table() && OneRuns() && Sound(Procs(), init, exits, collected)
      requires parent in Procs() && Awake(Procs()[parent].state) && c in Procs()[parent].children
      requires c in Procs() && Procs()[c].state == Zombie
      modifies this`tasks, this`collected
      ensures Table() && OneRuns() && |tasks| == |old(tasks)| && Sound(Procs(), init, exits, collected)
      ensures c in exits && c !in old(collected) && collected == old(collected)[c := exits[c]]
      ensures Procs() == Reaped(old(Procs()), parent, c)
    {
      hide Sound, ProcsOf;
      ghost var p := Procs();
      ReapKeeps(p, parent, c, init, exits, collected);
      ghost var i0 := Located(tasks, parent);
      ghost var j0 := Located(tasks, c);
      var found, i := Find(parent);
      assert i == i0 && i != j0;
      if found {
        var t := tasks[i].(children := Without(tasks[i].children, c));
        SlotChanged(tasks, i, t);
        tasks := tasks[i := t];
      }
      assert tasks[j0].id == c;
      var found', j := Find(c);
      assert j == j0;
      if found' {
        var t := tasks[j].(state := Dead);
        SlotChanged(tasks, j, t);
        tasks := tasks[j := t];
      }
      collected := collected[c := exits[c]];
    }

    /** The first child in the list that has terminated. */
    method ScanChildren(children: seq<nat>) returns (found: bool, c: nat, status: int)
      requires Unique(tasks)
      ensures found ==> c in children && c in Procs() && Procs()[c].state == Zombie && status == Procs()[c].exitStatus
      ensures found ==> exists k :: FirstZombie(children, k, c, Procs())
      ensures !found ==> forall x :: x in children && x in Procs() ==> Procs()[x].state != Zombie
    {
      hide ProcsOf;
      for k := 0 to |children|
        invariant forall x :: x in children[..k] && x in Procs() ==> Procs()[x].state != Zombie
      {
        var f, i := Find(children[k]);
        if f {
          Lookup(tasks, i);
          if tasks[i].state == Zombie {
            assert forall j :: 0 <= j < k ==> children[j] in children[..k];
            assert FirstZombie(children, k, children[k], Procs());
            return true, children[k], tasks[i].exitStatus;
          }
        } else {
          Absent(tasks, children[k]);
        }
      }
      assert children[..|children|] == children;
      return false, 0, 0;
    }

    /** A caller of `wait` is awake: back from a sleep, or not having slept. */
    method WakeUp()
      requires Valid()
      modifies this`tasks
      ensures Valid() && |tasks| == |old(tasks)|
      ensures tasks[current] == old(tasks)[current].(waitBlocked := false)
      ensures tasks[current].id in old(Procs()) && old(Procs())[tasks[current].id] == old(tasks)[current]
      ensures Procs() == old(Procs())[tasks[current].id := tasks[current]]
    {
      hide Sound, Noted, ProcsOf;
      Lookup(tasks, current);
      AwakeKeeps(Procs(), tasks[current].id, init, exits, collected, snapshot, zombies);
      var t := tasks[current].(waitBlocked := false);
      SlotChanged(tasks, current, t);
      tasks := tasks[current := t];
    }

    /** The sleep inside `wait`. */
    method FallAsleep()
      requires Valid() && tasks[current].user && tasks[current].children != []
      requires forall c :: c in tasks[current].children && c in Procs() ==> Procs()[c].state != Zombie
      modifies this`tasks, this`current
      ensures Valid() && |tasks| == |old(tasks)| && InTurn(tasks, old(current), current)
      ensures var t := old(tasks)[old(current)].(waitBlocked := true, state := Blocked);
        && t.id in Procs() && Procs()[t.id] == t && SameButTurns(old(Procs())[t.id := t], Procs())
    {
      hide Sound, Noted, ProcsOf;
      Lookup(tasks, current);
      SleepKeeps(Procs(), tasks[current].id, init, exits, collected, snapshot, zombies);
      var t := tasks[current].(waitBlocked := true, state := Blocked);
      SlotChanged(tasks, current, t);
      tasks := tasks[current := t];
      ghost var i := current;
      assert i != idle;
      Schedule();
      Lookup(tasks, i);
    }

    /**
     * One round of `wait`, entered from the system call or back from a sleep: no children, a terminated child
     * collected with the status it exited with, or asleep until a child terminates.
     */
    method Wait() returns (w: Waited)
      requires Valid() && tasks[current].id != init
      modifies this`tasks, this`current, this`collected
      ensures Valid() && |tasks| == |old(tasks)|
      ensures var q := old(tasks)[old(current)].id;
              && q in old(Procs())
              && (w == NoChildren <==> old(Procs())[q].children == [])
              && (w.Collected? ==>
                    && w.child in old(Procs())[q].children && w.child in old(Procs())
                       && old(Procs())[w.child].state == Zombie
                    && (exists k :: FirstZombie(old(Procs())[q].children, k, w.child, old(Procs())))
                    && w.child in exits && w.status == exits[w.child]
                    && w.child !in old(collected) && collected == old(collected)[w.child := w.status]
                    && Procs() == Reaped(old(Procs())[q := old(Procs())[q].(waitBlocked := false)], q, w.child))
              && (w == Asleep ==>
                    && (forall c :: c in old(Procs())[q].children && c in old(Procs()) ==>
                       old(Procs())[c].state != Zombie)
                    && InTurn(tasks, old(current), current)
                    && SameButTurns(
                         old(Procs())[q := old(Procs())[q].(waitBlocked := true, state := Blocked)], Procs()))
              && (w == NoChildren ==> Procs() == old(Procs())[q := old(Procs())[q].(waitBlocked := false)])
      ensures !w.Collected? ==> collected == old(collected)
    {
      hide Sound, Noted, ProcsOf, Unique, Reaped;
      WakeUp();
      ghost var p, q := Procs(), tasks[current].id;
      var children := tasks[current].children;
      if children == [] {
        return NoChildren;
      }
      EachRight(p, q, init, exits, collected);
      var found, c, status := ScanChildren(children);
      if !found {
        FallAsleep();
        return Asleep;
      }
      assert exists k :: FirstZombie(old(Procs())[q].children, k, c, old(Procs())) by {
        var k :| FirstZombie(children, k, c, p);
        assert FirstZombie(old(Procs())[q].children, k, c, old(Procs()));
      }
      InitIsKernel(p, init, exits, collected);
      ReapKeeps(p, q, c, init, exits, collected);
      NotInit(p, q, c, init);
      ReapNoted(p, q, c, init, snapshot, zombies);
      Collect(tasks[current].id, c);
      return Collected(c, status);
    }

    // -------------------------------------------------------------- the reaper, one critical section at a time

    method ReapSnapshot()
      requires Valid() && tasks[current].id == init
      modifies this`snapshot, this`zombies
      ensures Valid() && zombies == []
      ensures init in Procs() && snapshot == Procs()[init].children
    {
      hide Sound, ProcsOf;
      Lookup(tasks, current);
      InitIsKernel(Procs(), init, exits, collected);
      EachLinked(Procs(), init, init, init);
      snapshot, zombies := tasks[current].children, [];
    }

    method ReapSelect()
      requires Valid() && tasks[current].id == init
      modifies this`snapshot, this`zombies
      ensures Valid() && snapshot == [] && NoDuplicates(zombies)
      ensures forall c :: c in zombies <==> c in old(snapshot) && c in Procs() && Procs()[c].state == Zombie
    {
      hide Sound, ProcsOf;
      zombies := [];
      for k := 0 to |snapshot|
        invariant snapshot == old(snapshot) && NoDuplicates(zombies)
        invariant forall c :: c in zombies <==> c in snapshot[..k] && c in Procs() && Procs()[c].state == Zombie
      {
        var found, c, status := ScanChildren([snapshot[k]]);
        assert snapshot[k] !in snapshot[..k];
        assert [snapshot[k]][0] == snapshot[k];
        if found {
          zombies := zombies + [snapshot[k]];
        }
      }
      assert snapshot[..|snapshot|] == snapshot;
      snapshot := [];
    }

    /** Reap the next zombie noted; any number of other tasks may have run since it was. */
    method ReapNext() returns (c: nat)
      requires Valid() && tasks[current].id == init && zombies != [] && snapshot == []
      modifies this`tasks, this`zombies, this`collected
      ensures Valid() && c == old(zombies)[0] && zombies == old(zombies)[1..]
      ensures c in exits && c !in old(collected) && collected == old(collected)[c := exits[c]]
      ensures init in old(Procs()) && Procs() == Reaped(old(Procs()), init, c)
    {
      hide Sound, ProcsOf;
      c := zombies[0];
      Lookup(tasks, current);
      InitIsKernel(Procs(), init, exits, collected);
      assert zombies == [c] + zombies[1..];
      OwnReapNoted(Procs(), c, init, zombies[1..]);
      Collect(init, c);
      zombies := zombies[1..];
    }
  }

  /** The slot `step` places after `cur`, going round. */
  function Around(cur: nat, step: nat, n: nat): nat
    requires cur < n && step <= n
  {
    if cur + step < n then cur + step else cur + step - n
  }

  lemma NextSlot(i: nat, n: nat)
    requires i < n
    ensures (i + 1) % n == if i + 1 == n then 0 else i + 1
  {}

  /** Changing which tasks run, in the table and so in the tree. */
  lemma StatesShown(tasks: seq<Task>, tasks': seq<Task>, init: nat, exits: map<nat, int>, collected: map<nat, int>,
                    snapshot: seq<nat>, zombies: seq<nat>)
    requires Unique(tasks) && |tasks'| == |tasks|
    requires Sound(ProcsOf(tasks), init, exits, collected) && Noted(ProcsOf(tasks), init, snapshot, zombies)
    requires forall i :: 0 <= i < |tasks| ==> tasks'[i] == tasks[i].(state := tasks'[i].state)
    requires forall i :: 0 <= i < |tasks| && tasks'[i].state != tasks[i].state ==>
      Awake(tasks'[i].state) && (Awake(tasks[i].state) || tasks[i].state == Blocked)
    ensures Unique(tasks') && SameButStates(ProcsOf(tasks), ProcsOf(tasks'))
    ensures (forall i :: 0 <= i < |tasks| && tasks'[i].state != tasks[i].state ==> Awake(tasks[i].state)) ==>
      SameButTurns(ProcsOf(tasks), ProcsOf(tasks'))
    ensures Sound(ProcsOf(tasks'), init, exits, collected) && Noted(ProcsOf(tasks'), init, snapshot, zombies)
  {
    hide ProcsOf, Linked, Mannered, NoLostWakeup, Recorded;
    var p, p' := ProcsOf(tasks), ProcsOf(tasks');
    ghost var turns := forall i :: 0 <= i < |tasks| && tasks'[i].state != tasks[i].state ==> Awake(tasks[i].state);
    forall q | q in p ensures q in p' && p'[q] == p[q].(state := p'[q].state)
      ensures p'[q].state == p[q].state || (Awake(p'[q].state) && (Awake(p[q].state) || p[q].state == Blocked))
      ensures turns && p'[q].state != p[q].state ==> Awake(p[q].state)
    {
      var i := Located(tasks, q);
      Lookup(tasks', i);
    }
    forall q | q in p' ensures q in p {
      var i := Located(tasks', q);
      Lookup(tasks, i);
    }
    StatesKeep(p, p', init, exits, collected);
  }

  lemma BootTree(boot: seq<Task>)
    requires boot == [NewTask(0, false, None).(state := Running), NewTask(1, false, None)]
    ensures Unique(boot) && Sound(ProcsOf(boot), 1, map[], map[]) && Noted(ProcsOf(boot), 1, [], [])
  {
    hide ProcsOf;
    var p: Procs := map[0 := boot[0], 1 := boot[1]];
    assert LiveAt(boot, 0, 0) && LiveAt(boot, 1, 1);
    ProcsAre(boot, p);
    assert Linked(p) && NoLostWakeup(p) && Recorded(p, map[], map[]) && Mannered(p, 1);
  }

  lemma NewId(tasks: seq<Task>, id: nat)
    requires Unique(tasks) && forall i :: 0 <= i < |tasks| ==> tasks[i].id < id
    ensures id !in ProcsOf(tasks)
  {
    if id in ProcsOf(tasks) { var i := Located(tasks, id); }
  }

  /** A task after the children in `children` have been handed to init. */
  function Adopted(t: Task, children: seq<nat>, init: nat): Task {
    var t := if t.id in children then t.(parent := Some(init)) else t;
    if t.id == init then t.(children := t.children + children) else t
  }

  lemma InitNoChild(p: Procs, q: nat, init: nat)
    requires Linked(p) && Mannered(p, init) && q in p
    ensures init !in p[q].children && q !in p[q].children
    ensures p[q].parent.Some? ==> p[q].parent.value != q && p[q].parent.value !in p[q].children
  {
    EachLinked(p, q, q, init);
    assert MannerOf(p[init], init);
    assert p[q].parent.Some? ==> ParentRight(p, p[q].parent.value);
  }

  /** What the steps of a termination, one after the other, make of slot `j`. */
  function Steps(tasks: seq<Task>, i: nat, status: int, init: nat, j: nat): Task
    requires i < |tasks| && j < |tasks|
  {
    var t := tasks[i];
    var u := if j == i then t.(exitStatus := status, state := Zombie, children := []) else tasks[j];
    var u := if t.children != [] then Adopted(u, t.children, init) else u;
    if t.parent == Some(u.id) then Woken(u) else u
  }

  lemma StepsShape(tasks: seq<Task>, tasks': seq<Task>, i: nat, status: int, init: nat)
    requires Unique(tasks) && i < |tasks| && |tasks'| == |tasks|
    requires forall j :: 0 <= j < |tasks| ==> tasks'[j] == Steps(tasks, i, status, init, j)
    ensures Unique(tasks') && tasks'[i].state == Zombie
    ensures forall j :: 0 <= j < |tasks| ==> tasks'[j].id == tasks[j].id && tasks'[j].user == tasks[j].user
    ensures forall j :: 0 <= j < |tasks| && j != i ==>
      tasks'[j].state == tasks[j].state || (tasks[j].state == Blocked && tasks'[j].state == Runnable)
  {}

  lemma Retired(tasks: seq<Task>, tasks': seq<Task>, i: nat, status: int, init: nat, exits: map<nat, int>,
                collected: map<nat, int>, snapshot: seq<nat>, zombies: seq<nat>)
    requires Unique(tasks) && |tasks'| == |tasks| && i < |tasks| && tasks[i].id != init && tasks[i].state != Dead
        && tasks[i].state != Zombie
    requires Sound(ProcsOf(tasks), init, exits, collected) && Noted(ProcsOf(tasks), init, snapshot, zombies)
    requires forall j :: 0 <= j < |tasks| ==> tasks'[j] == Steps(tasks, i, status, init, j)
    ensures var q := tasks[i].id;
            && q in ProcsOf(tasks) && Unique(tasks') && ProcsOf(tasks') == Exited(ProcsOf(tasks), q, status, init)
            && Sound(ProcsOf(tasks'), init, exits[q := status], collected)
               && Noted(ProcsOf(tasks'), init, snapshot, zombies)
            && tasks'[i].state == Zombie
    ensures forall j :: 0 <= j < |tasks| ==> tasks'[j].id == tasks[j].id && tasks'[j].user == tasks[j].user
    ensures forall j :: 0 <= j < |tasks| && j != i ==>
      tasks'[j].state == tasks[j].state || (tasks[j].state == Blocked && tasks'[j].state == Runnable)
  {
    hide Noted, ProcsOf, Exited, AfterRetire, Steps, Linked, Mannered, NoLostWakeup, Recorded;
    var p, q := ProcsOf(tasks), tasks[i].id;
    Lookup(tasks, i);
    forall j | 0 <= j < |tasks| ensures tasks'[j] == AfterRetire(p, q, status, init, tasks[j]) {
      RetiredSlot(tasks, p, i, status, init, j);
    }
    RetiredTree(tasks, tasks', p, i, status, init);
    ExitKeeps(p, q, status, init, exits, collected);
    ExitNoted(p, q, status, init, snapshot, zombies);
  }

  /** What the steps of a termination, taken together, make of one slot. */
  lemma RetiredSlot(tasks: seq<Task>, p: Procs, i: nat, status: int, init: nat, j: nat)
    requires Unique(tasks) && p == ProcsOf(tasks) && Linked(p) && Mannered(p, init)
    requires i < |tasks| && tasks[i].id != init && tasks[i].state != Dead && j < |tasks|
    ensures tasks[i].id in p && Steps(tasks, i, status, init, j) == AfterRetire(p, tasks[i].id, status, init, tasks[j])
  {
    hide ProcsOf;
    Lookup(tasks, i);
    Lookup(tasks, j);
    var q := tasks[i].id;
    InitNoChild(p, q, init);
    EachLinked(p, q, q, q);
  }

  lemma RetiredTree(tasks: seq<Task>, tasks': seq<Task>, p: Procs, i: nat, status: int, init: nat)
    requires Unique(tasks) && p == ProcsOf(tasks) && Linked(p) && Mannered(p, init) && |tasks'| == |tasks|
    requires i < |tasks| && tasks[i].id != init && tasks[i].state != Dead && tasks[i].id in p
    requires forall j :: 0 <= j < |tasks| ==> tasks'[j] == AfterRetire(p, tasks[i].id, status, init, tasks[j])
    ensures Unique(tasks') && ProcsOf(tasks') == Exited(p, tasks[i].id, status, init)
    ensures forall j :: 0 <= j < |tasks| ==> tasks'[j].id == tasks[j].id && tasks'[j].user == tasks[j].user
    ensures tasks'[i].state == Zombie
    ensures forall j :: 0 <= j < |tasks| && j != i ==>
      tasks'[j].state == tasks[j].state || (tasks[j].state == Blocked && tasks'[j].state == Runnable)
  {
    hide ProcsOf, Linked;
    var q := tasks[i].id;
    var p' := Exited(p, q, status, init);
    forall j | 0 <= j < |tasks|
      ensures tasks'[j].id == tasks[j].id && tasks'[j].user == tasks[j].user
      ensures tasks[j].state != Dead ==> tasks[j].id in p' && p'[tasks[j].id] == tasks'[j] && tasks'[j].state != Dead
      ensures tasks[j].state == Dead ==> tasks'[j] == tasks[j]
      ensures j == i ==> tasks'[j].state == Zombie
      ensures j != i ==> tasks'[j].state == tasks[j].state || (tasks[j].state == Blocked && tasks'[j].state == Runnable)
    {
      Lookup(tasks, j);
      if tasks[j].state != Dead { EachLinked(p, tasks[j].id, q, q); }
    }
    forall id | id in p' ensures exists j :: LiveAt(tasks', j, id) {
      var j := Located(tasks, id);
      assert LiveAt(tasks', j, id);
    }
    ProcsAre(tasks', p');
  }

  /** A task that has not terminated has no recorded status. */
  lemma NotYet(tasks: seq<Task>, i: nat, init: nat, exits: map<nat, int>, collected: map<nat, int>)
    requires Unique(tasks) && i < |tasks| && Sound(ProcsOf(tasks), init, exits, collected)
    requires tasks[i].state != Dead && tasks[i].state != Zombie
    ensures tasks[i].id !in exits
  {
    hide ProcsOf;
    Lookup(tasks, i);
    assert RecordOf(ProcsOf(tasks)[tasks[i].id], exits, collected);
  }

  lemma Absent(tasks: seq<Task>, id: nat)
    requires Unique(tasks) && forall j :: 0 <= j < |tasks| ==> tasks[j].id != id
    ensures id !in ProcsOf(tasks)
  {
    if id in ProcsOf(tasks) { var i := Located(tasks, id); }
  }

  /** Whoever a user task may kill is a user task, or dead already. */
  lemma VictimIsUser(tasks: seq<Task>, cur: nat, pid: nat, init: nat, exits: map<nat, int>, collected: map<nat, int>)
    requires Unique(tasks) && cur < |tasks| && Sound(ProcsOf(tasks), init, exits, collected)
    requires tasks[cur].user && Awake(tasks[cur].state)
    requires tasks[cur].id == pid || tasks[cur].id == init || pid in tasks[cur].children ||
             exists i :: 0 <= i < |tasks| && tasks[i].id == pid && tasks[i].parent == Some(tasks[cur].id)
    ensures tasks[cur].id != init && pid != init
    ensures forall i :: 0 <= i < |tasks| && tasks[i].id == pid && tasks[i].state != Dead ==>
              tasks[i].user && (pid == tasks[cur].id || pid in tasks[cur].children)
    ensures tasks[cur].id in ProcsOf(tasks) && ProcsOf(tasks)[tasks[cur].id] == tasks[cur]
    ensures pid in ProcsOf(tasks) ==> pid == tasks[cur].id || pid in tasks[cur].children
  {
    hide ProcsOf, Linked;
    var p, q := ProcsOf(tasks), tasks[cur].id;
    Lookup(tasks, cur);
    InitIsKernel(p, init, exits, collected);
    EachLinked(p, q, q, q);
    forall i | 0 <= i < |tasks| && tasks[i].id == pid && tasks[i].state != Dead
      ensures tasks[i].user && (pid == tasks[cur].id || pid in tasks[cur].children)
    {
      Lookup(tasks, i);
      EachLinked(p, pid, pid, pid);
      assert MannerOf(p[pid], init);
    }
    if pid in p { var i := Located(tasks, pid); }
    var slot := Located(tasks, init);
    assert tasks[slot].id == init && !tasks[slot].user;
  }

  lemma NotInit(p: Procs, q: nat, c: nat, init: nat)
    requires Linked(p) && Mannered(p, init) && q in p && p[q].user && c in p[q].children
    ensures q != init && c != init
  {
    EachLinked(p, q, q, init);
    assert MannerOf(p[init], init);
  }
}
