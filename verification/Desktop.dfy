/** The window registry that clients change, and the compositor that follows it through two queues. */
module Desktop {
  import opened Options

  const MAX_WINDOWS: nat := 16

  datatype Frame = Client(id: nat) | Terminal(term: nat) | Fixed

  predicate NoRepeats(s: seq<nat>) { forall i, j :: 0 <= i < j < |s| ==> s[i] != s[j] }

  /** No client window has two frames. */
  predicate FramedOnce(frames: seq<Frame>) {
    forall i, j :: 0 <= i < j < |frames| && frames[i].Client? ==> frames[i] != frames[j]
  }

  function DropFrame(frames: seq<Frame>, i: nat): (r: seq<Frame>)
    requires i < |frames|
    ensures |r| == |frames| - 1
    ensures FramedOnce(frames) ==> FramedOnce(r)
    ensures FramedOnce(frames) ==> forall id :: Client(id) in r <==> Client(id) in frames && frames[i] != Client(id)
  {
    RemovedFrame(frames, i);
    frames[..i] + frames[i + 1..]
  }

  lemma RemovedFrame(frames: seq<Frame>, i: nat)
    requires i < |frames|
    ensures var r := frames[..i] + frames[i + 1..];
            && (FramedOnce(frames) ==> FramedOnce(r))
            && (FramedOnce(frames) ==> forall id :: Client(id) in r <==>
               Client(id) in frames && frames[i] != Client(id))
  {
    var r := frames[..i] + frames[i + 1..];
    assert frames == frames[..i] + [frames[i]] + frames[i + 1..];
    assert forall k :: 0 <= k < |r| ==> r[k] == frames[if k < i then k else k + 1];
    if FramedOnce(frames) {
      forall id | Client(id) in r ensures frames[i] != Client(id) {
        var k :| 0 <= k < |r| && r[k] == Client(id);
        assert frames[if k < i then k else k + 1] == Client(id);
      }
    }
  }

  lemma DroppedIs(frames: seq<Frame>, i: nat)
    requires i < |frames|
    ensures DropFrame(frames, i) == frames[..i] + frames[i + 1..]
  {}

  lemma OneFrame(frames: seq<Frame>, i: nat)
    requires FramedOnce(frames) && i < |frames| && frames[i].Client?
    ensures forall j :: 0 <= j < |frames| && frames[j] == frames[i] ==> j == i
  {}

  /** The frames for those of the queued windows that are still registered, in the order of the queue. */
  function Fresh(ids: seq<nat>, windows: map<nat, nat>): seq<Frame> {
    if ids == [] then [] else (if ids[0] in windows then [Client(ids[0])] else []) + Fresh(ids[1..], windows)
  }

  /** The frames of registered windows, and all that are not of clients, in the order they had. */
  function Kept(frames: seq<Frame>, windows: map<nat, nat>): seq<Frame> {
    if frames == [] then []
    else
      var last := frames[|frames| - 1];
      Kept(frames[..|frames| - 1], windows) + if last.Client? && last.id !in windows then [] else [last]
  }

  lemma {:induction false} KeptJoin(a: seq<Frame>, b: seq<Frame>, windows: map<nat, nat>)
    ensures Kept(a + b, windows) == Kept(a, windows) + Kept(b, windows)
  {
    if b == [] {
      assert a + b == a;
    } else {
      assert (a + b)[..|a + b| - 1] == a + b[..|b| - 1];
      KeptJoin(a, b[..|b| - 1], windows);
    }
  }

  /** A frame whose window is gone is none that is kept. */
  lemma KeptDropped(frames: seq<Frame>, i: nat, windows: map<nat, nat>)
    requires i < |frames| && frames[i].Client? && frames[i].id !in windows
    ensures Kept(frames[..i] + frames[i + 1..], windows) == Kept(frames, windows)
  {
    var one := [frames[i]];
    assert frames == frames[..i] + one + frames[i + 1..];
    KeptJoin(frames[..i] + one, frames[i + 1..], windows);
    KeptJoin(frames[..i], one, windows);
    KeptJoin(frames[..i], frames[i + 1..], windows);
    assert one[..0] == [];
  }

  lemma {:induction false} AllKept(frames: seq<Frame>, windows: map<nat, nat>)
    requires forall id: nat :: Client(id) in frames ==> id in windows
    ensures Kept(frames, windows) == frames
  {
    if frames != [] {
      var n := |frames| - 1;
      assert frames == frames[..n] + [frames[n]];
      AllKept(frames[..n], windows);
    }
  }

  ghost predicate IdsBelow(windows: map<nat, nat>, pendingNew: seq<nat>, pendingDestroy: seq<nat>, nextId: nat) {
    (forall id :: id in windows ==> id < nextId)
      && (forall id :: id in pendingNew || id in pendingDestroy ==> id < nextId)
  }

  /** Ids that the compositor will frame if their windows still exist. */
  predicate Awaited(id: nat, pendingNew: seq<nat>, taken: Option<nat>, held: Option<nat>) {
    id in pendingNew || taken == Some(id) || held == Some(id)
  }

  /** Every window is framed or awaits a frame, not both; frames without a window are due to be removed. */
  ghost predicate Coherent(windows: map<nat, nat>, pendingNew: seq<nat>, pendingDestroy: seq<nat>, frames: seq<Frame>,
                           taken: Option<nat>, held: Option<nat>) {
    && NoRepeats(pendingNew) && FramedOnce(frames)
    && (taken.Some? ==> taken.value !in pendingNew && taken != held)
    && (held.Some? ==> held.value !in pendingNew)
    && (forall id: nat :: Awaited(id, pendingNew, taken, held) ==> Client(id) !in frames)
    && (forall id :: id in windows ==> Awaited(id, pendingNew, taken, held) || Client(id) in frames)
    && (forall id :: id in pendingDestroy ==> id !in windows)
    && (forall id: nat :: Client(id) in frames || held == Some(id) ==> id in windows || id in pendingDestroy)
  }

  /** A frame goes once its window is gone. */
  lemma FrameDropped(windows: map<nat, nat>, pendingNew: seq<nat>, pendingDestroy: seq<nat>, frames: seq<Frame>,
                     taken: Option<nat>, held: Option<nat>, i: nat)
    requires Coherent(windows, pendingNew, pendingDestroy, frames, taken, held) && i < |frames|
    requires frames[i].Client? ==> frames[i].id !in windows
    ensures Coherent(windows, pendingNew, pendingDestroy, DropFrame(frames, i), taken, held)
  {
    hide DropFrame;
  }

  lemma WindowMade(windows: map<nat, nat>, pendingNew: seq<nat>, pendingDestroy: seq<nat>, frames: seq<Frame>,
                   taken: Option<nat>, held: Option<nat>, id: nat, owner: nat)
    requires Coherent(windows, pendingNew, pendingDestroy, frames, taken, held)
    requires IdsBelow(windows, pendingNew, pendingDestroy, id) && taken != Some(id) && held != Some(id)
    ensures id !in windows && id !in pendingNew && id !in pendingDestroy && Client(id) !in frames
    ensures Coherent(windows[id := owner], pendingNew + [id], pendingDestroy, frames, taken, held)
    ensures IdsBelow(windows[id := owner], pendingNew + [id], pendingDestroy, id + 1)
  {
    var queue := pendingNew + [id];
    assert id !in windows && id !in pendingNew && id !in pendingDestroy;
    assert Client(id) !in frames;
    assert forall x :: x in queue <==> x in pendingNew || x == id;
    assert NoRepeats(queue);
  }

  lemma BelowTails(windows: map<nat, nat>, pendingNew: seq<nat>, pendingDestroy: seq<nat>, nextId: nat, a: seq<nat>,
                   b: seq<nat>)
    requires IdsBelow(windows, a + pendingNew, b + pendingDestroy, nextId)
    ensures IdsBelow(windows, pendingNew, pendingDestroy, nextId)
    ensures forall id :: id in a || id in b ==> id < nextId
  {
    assert forall id :: id in a || id in pendingNew ==> id in a + pendingNew;
    assert forall id :: id in b || id in pendingDestroy ==> id in b + pendingDestroy;
  }

  lemma WindowTaken(windows: map<nat, nat>, pendingNew: seq<nat>, pendingDestroy: seq<nat>, frames: seq<Frame>, id: nat)
    requires Coherent(windows, [id] + pendingNew, pendingDestroy, frames, None, None)
    ensures Coherent(windows, pendingNew, pendingDestroy, frames, Some(id), None)
  {
    var queue := [id] + pendingNew;
    assert forall x :: x in queue <==> x in pendingNew || x == id;
    forall i | 0 <= i < |pendingNew| ensures pendingNew[i] != id { assert queue[0] != queue[i + 1]; }
    forall i, j | 0 <= i < j < |pendingNew|
      ensures pendingNew[i] != pendingNew[j] { assert queue[i + 1] != queue[j + 1]; }
  }

  lemma WindowGone(windows: map<nat, nat>, pendingNew: seq<nat>, pendingDestroy: seq<nat>, frames: seq<Frame>,
                   taken: Option<nat>, held: Option<nat>, id: nat)
    requires Coherent(windows, pendingNew, pendingDestroy, frames, taken, held)
    ensures Coherent(windows - {id}, pendingNew, pendingDestroy + [id], frames, taken, held)
  {}

  lemma DestroyedIsGone(windows: map<nat, nat>, pendingNew: seq<nat>, pendingDestroy: seq<nat>, frames: seq<Frame>,
                        id: nat)
    requires Coherent(windows, pendingNew, pendingDestroy, frames, None, None) && id in pendingDestroy
    ensures id !in windows
  {}

  lemma CoherentFrames(windows: map<nat, nat>, pendingNew: seq<nat>, pendingDestroy: seq<nat>, frames: seq<Frame>,
                       taken: Option<nat>, held: Option<nat>)
    requires Coherent(windows, pendingNew, pendingDestroy, frames, taken, held)
    ensures FramedOnce(frames)
  {}

  /** A destruction can be forgotten once no frame is left of it. */
  lemma Forgotten(windows: map<nat, nat>, pendingNew: seq<nat>, pendingDestroy: seq<nat>, frames: seq<Frame>, id: nat)
    requires Coherent(windows, pendingNew, [id] + pendingDestroy, frames, None, None) && Client(id) !in frames
    ensures Coherent(windows, pendingNew, pendingDestroy, frames, None, None)
  {
    assert forall x :: x in [id] + pendingDestroy <==> x == id || x in pendingDestroy;
  }

  lemma NothingFramed(frames: seq<Frame>)
    requires forall k :: 0 <= k < |frames| ==> frames[k] == Fixed
    ensures Coherent(map[], [], [], frames, None, None)
  {}

  /** The windows of other owners, and those in `ids`. */
  function Except(windows: map<nat, nat>, owner: nat, ids: set<nat>): map<nat, nat> {
    map id | id in windows && (windows[id] != owner || id in ids) :: windows[id]
  }

  lemma AllStay(windows: map<nat, nat>, owner: nat, ids: set<nat>)
    requires forall id :: id in windows && windows[id] == owner ==> id in ids
    ensures Except(windows, owner, ids) == windows
  {}

  lemma OneGone(windows: map<nat, nat>, owner: nat, ids: set<nat>, id: nat)
    requires id in windows ==> windows[id] == owner
    ensures Except(windows, owner, ids) - {id} == Except(windows, owner, ids - {id})
  {}

  lemma OneFewer(windows: map<nat, nat>, owner: nat, ids: set<nat>, id: nat)
    requires id in ids && id in windows
    ensures |Except(windows, owner, ids) - {id}| == |Except(windows, owner, ids)| - 1
  {
    var m: map<nat, nat> := Except(windows, owner, ids);
    assert m == (m - {id})[id := m[id]];
  }

  function Pred(n: nat): nat { if n == 0 then 0 else n - 1 }

  class System {
    // the registry
    var windows: map<nat, nat>
    var pendingNew: seq<nat>
    var pendingDestroy: seq<nat>
    var nextId: nat
    // the compositor
    var frames: seq<Frame>
    var focus: nat
    /** Ids the compositor has taken from the queue but not looked up, and looked up but not framed. */
    var taken: Option<nat>
    var held: Option<nat>

    ghost predicate Valid()
      reads this
    {
      && Coherent(windows, pendingNew, pendingDestroy, frames, taken, held)
         && IdsBelow(windows, pendingNew, pendingDestroy, nextId)
      && (taken.Some? ==> taken.value < nextId) && (held.Some? ==> held.value < nextId)
      && |windows| <= MAX_WINDOWS && (frames == [] || focus < |frames|)
    }

    constructor (fixed: nat)
      ensures Valid()
    {
      windows, pendingNew, pendingDestroy, nextId := map[], [], [], 1;
      frames, focus, taken, held := seq(fixed, _ => Fixed), 0, None, None;
      new;
      assert forall k :: 0 <= k < |frames| ==> frames[k] == Fixed;
      NothingFramed(frames);
    }

    // -------------------------------------------------------------- clients

    method CreateWindow(owner: nat, w: nat, h: nat) returns (r: Option<nat>)
      requires Valid()
      modifies this`windows, this`pendingNew, this`nextId
      ensures Valid()
      ensures r.None? <==> w == 0 || h == 0 || |old(windows)| >= MAX_WINDOWS
      ensures r.Some? ==>
        && r.value == old(nextId) && r.value !in old(windows) && windows == old(windows)[r.value := owner]
        && pendingNew == old(pendingNew) + [r.value] && nextId == old(nextId) + 1
      ensures r.None? ==> windows == old(windows) && pendingNew == old(pendingNew) && nextId == old(nextId)
    {
      hide Coherent, IdsBelow;
      if w == 0 || h == 0 || |windows| >= MAX_WINDOWS {
        return None;
      }
      var id := nextId;
      WindowMade(windows, pendingNew, pendingDestroy, frames, taken, held, id, owner);
      nextId := nextId + 1;
      windows := windows[id := owner];
      pendingNew := pendingNew + [id];
      return Some(id);
    }

    method DestroyWindow(id: nat) returns (ok: bool)
      requires Valid()
      modifies this`windows, this`pendingDestroy
      ensures Valid() && windows == old(windows) - {id} && (ok <==> id in old(windows))
      ensures pendingDestroy == old(pendingDestroy) + if ok then [id] else []
    {
      hide Coherent;
      ok := id in windows;
      if ok {
        WindowGone(windows, pendingNew, pendingDestroy, frames, taken, held, id);
        windows := windows - {id};
        pendingDestroy := pendingDestroy + [id];
      }
    }

    /** A task's exit takes all of its windows along, each queued for the compositor once; `n` says how many. */
    method DestroyOwnedBy(owner: nat) returns (n: nat)
      requires Valid()
      modifies this`windows, this`pendingDestroy
      ensures Valid() && windows == Except(old(windows), owner, {})
      ensures n == |old(windows)| - |windows|
      ensures old(pendingDestroy) <= pendingDestroy && |pendingDestroy| == |old(pendingDestroy)| + n
      ensures forall id :: id in old(windows) && old(windows)[id] == owner ==>
          id in pendingDestroy[|old(pendingDestroy)|..]
    {
      hide Coherent, IdsBelow, Except;
      var ids := set id | id in windows && windows[id] == owner;
      n := |ids|;
      AllStay(windows, owner, ids);
      while ids != {}
        invariant Valid() && windows == Except(old(windows), owner, ids)
        invariant forall id :: id in ids ==> id in windows && id in old(windows) && old(windows)[id] == owner
        invariant |windows| - |ids| == |old(windows)| - n
        invariant old(pendingDestroy) <= pendingDestroy && |pendingDestroy| + |ids| == |old(pendingDestroy)| + n
        invariant forall id :: id in old(windows) && old(windows)[id] == owner && id !in ids ==>
          id in pendingDestroy[|old(pendingDestroy)|..]
        decreases |ids|
      {
        var id :| id in ids;
        ghost var was := pendingDestroy;
        var gone := DestroyWindow(id);
        OneGone(old(windows), owner, ids, id);
        OneFewer(old(windows), owner, ids, id);
        assert pendingDestroy[|old(pendingDestroy)|..] == was[|old(pendingDestroy)|..] + [id];
        ids := ids - {id};
      }
    }

    // -------------------------------------------------------------- the compositor's drain loops, lock by lock

    method TakePendingNew()
      requires Valid() && taken.None? && held.None?
      modifies this`pendingNew, this`taken
      ensures Valid()
      ensures old(pendingNew) != [] ==> taken == Some(old(pendingNew)[0]) && pendingNew == old(pendingNew)[1..]
      ensures old(pendingNew) == [] ==> taken == None && pendingNew == []
    {
      hide Coherent, IdsBelow;
      if pendingNew != [] {
        var id := pendingNew[0];
        assert pendingNew == [id] + pendingNew[1..];
        assert taken == None && held == None;
        assert [] + pendingDestroy == pendingDestroy;
        BelowTails(windows, pendingNew[1..], pendingDestroy, nextId, [id], []);
        WindowTaken(windows, pendingNew[1..], pendingDestroy, frames, id);
        taken, pendingNew := Some(id), pendingNew[1..];
      }
    }

    /** Ask the registry for the size of the window taken; it may be gone by now. */
    method LookUpTaken()
      requires Valid() && taken.Some? && held.None?
      modifies this`taken, this`held
      ensures Valid() && taken.None? && held == if old(taken).value in windows then old(taken) else None
    {
      if taken.value in windows {
        held := taken;
      }
      taken := None;
    }

    method FrameHeld()
      requires Valid() && held.Some? && taken.None?
      modifies this`frames, this`focus, this`held
      ensures Valid() && held.None? && frames == old(frames) + [Client(old(held).value)] && focus == |frames| - 1
    {
      frames := frames + [Client(held.value)];
      focus := |frames| - 1;
      held := None;
    }

    method FindFrame(id: nat) returns (found: bool, i: nat)
      ensures found ==> i < |frames| && frames[i] == Client(id)
      ensures !found ==> Client(id) !in frames
    {
      for k := 0 to |frames|
        invariant Client(id) !in frames[..k]
      {
        if frames[k] == Client(id) {
          return true, k;
        }
      }
      assert frames[..|frames|] == frames;
      return false, 0;
    }

    method TakePendingDestroy()
      requires Valid() && taken.None? && held.None?
      modifies this`pendingDestroy, this`frames, this`focus
      ensures Valid()
      ensures pendingDestroy == if old(pendingDestroy) == [] then [] else old(pendingDestroy)[1..]
      ensures old(pendingDestroy) != [] ==>
        forall id :: Client(id) in frames <==> Client(id) in old(frames) && id != old(pendingDestroy)[0]
      ensures old(pendingDestroy) != [] ==>
        forall i :: 0 <= i < |old(frames)| && old(frames)[i] == Client(old(pendingDestroy)[0]) ==>
          && frames == old(frames)[..i] + old(frames)[i + 1..]
          && focus == if frames == [] then 0 else |frames| - 1
      ensures old(pendingDestroy) == [] || Client(old(pendingDestroy)[0]) !in old(frames) ==>
        frames == old(frames) && focus == old(focus)
    {
      hide Coherent, DropFrame, IdsBelow;
      CoherentFrames(windows, pendingNew, pendingDestroy, frames, taken, held);
      if pendingDestroy != [] {
        var id := pendingDestroy[0];
        assert pendingDestroy == [id] + pendingDestroy[1..];
        var found, i := FindFrame(id);
        DestroyedIsGone(windows, pendingNew, pendingDestroy, frames, id);
        pendingDestroy := pendingDestroy[1..];
        if found {
          assert forall j :: 0 <= j < |frames| && frames[j] == Client(id) ==> j == i by {
            OneFrame(frames, i);
          }
          DroppedIs(frames, i);
          FrameDropped(windows, pendingNew, [id] + pendingDestroy, frames, taken, held, i);
          frames := DropFrame(frames, i);
          focus := Pred(|frames|);
        }
        Forgotten(windows, pendingNew, pendingDestroy, frames, id);
        assert taken == None && held == None;
        assert [] + pendingNew == pendingNew && [id] + pendingDestroy == old(pendingDestroy);
        BelowTails(windows, pendingNew, pendingDestroy, nextId, [], [id]);
      }
    }

    // -------------------------------------------------------------- the user at the compositor

    method CloseButton(i: nat)
      requires Valid() && taken.None? && held.None? && i < |frames|
      modifies this`windows, this`pendingDestroy, this`frames, this`focus
      ensures Valid() && frames == old(frames)[..i] + old(frames)[i + 1..]
      ensures old(frames)[i].Client? ==> windows == old(windows) - {old(frames)[i].id}
      ensures !old(frames)[i].Client? ==> windows == old(windows)
      ensures old(focus) != i && old(focus) < |old(frames)| ==>
          focus < |frames| && frames[focus] == old(frames)[old(focus)]
      ensures old(focus) == i ==> focus == if frames == [] then 0 else |frames| - 1
      ensures pendingDestroy == old(pendingDestroy) +
        if old(frames)[i].Client? && old(frames)[i].id in old(windows) then [old(frames)[i].id] else []
    {
      hide Coherent;
      if frames[i].Client? {
        var gone := DestroyWindow(frames[i].id);
      }
      var wasFocused := i == focus;
      if frames[i].Client? {
        assert frames[i].id !in windows;
      }
      FrameDropped(windows, pendingNew, pendingDestroy, frames, taken, held, i);
      frames := DropFrame(frames, i);
      if wasFocused {
        focus := Pred(|frames|);
      } else if focus >= i {
        focus := Pred(focus);
      }
    }

    method Raise(i: nat)
      requires Valid() && taken.None? && held.None? && i < |frames|
      modifies this`frames, this`focus
      ensures Valid() && frames == old(frames)[..i] + old(frames)[i + 1..] + [old(frames)[i]] && focus == |frames| - 1
    {
      var f := frames[i];
      frames := DropFrame(frames, i) + [f];
      focus := |frames| - 1;
    }

    method OpenTerminal(term: nat)
      requires Valid()
      modifies this`frames, this`focus
      ensures Valid() && frames == old(frames) + [Terminal(term)] && focus == |frames| - 1
    {
      frames := frames + [Terminal(term)];
      focus := |frames| - 1;
    }

    /** The loop over new windows: those still registered come on top, in the order of the queue. */
    method DrainNew()
      requires Valid() && taken.None? && held.None?
      modifies this`pendingNew, this`frames, this`focus, this`taken, this`held
      ensures Valid() && taken.None? && held.None? && pendingNew == []
      ensures frames == old(frames) + Fresh(old(pendingNew), windows)
      ensures focus == if Fresh(old(pendingNew), windows) == [] then old(focus) else |frames| - 1
    {
      hide Coherent, IdsBelow;
      ghost var all := frames + Fresh(pendingNew, windows);
      while pendingNew != []
        invariant Valid() && taken.None? && held.None?
        invariant frames + Fresh(pendingNew, windows) == all && |old(frames)| <= |frames|
        invariant focus == if |frames| == |old(frames)| then old(focus) else |frames| - 1
        decreases |pendingNew|
      {
        TakePendingNew();
        LookUpTaken();
        if held.Some? {
          FrameHeld();
        }
      }
    }

    /** The loop over destroyed windows: their frames go, and nothing else does. */
    method DrainDestroyed()
      requires Valid() && taken.None? && held.None?
      modifies this`pendingDestroy, this`frames, this`focus
      ensures Valid() && pendingDestroy == [] && |frames| <= |old(frames)|
      ensures Kept(frames, windows) == Kept(old(frames), windows)
      ensures if |frames| == |old(frames)| then frames == old(frames) && focus == old(focus)
        else focus == if frames == [] then 0 else |frames| - 1
    {
      hide Coherent, IdsBelow, Kept;
      while pendingDestroy != []
        invariant Valid()
        invariant Kept(frames, windows) == Kept(old(frames), windows) && |frames| <= |old(frames)|
        invariant if |frames| == |old(frames)| then frames == old(frames) && focus == old(focus)
          else focus == if frames == [] then 0 else |frames| - 1
        decreases |pendingDestroy|
      {
        ghost var before, id := frames, pendingDestroy[0];
        DestroyedIsGone(windows, pendingNew, pendingDestroy, frames, id);
        TakePendingDestroy();
        if i: nat :| i < |before| && before[i] == Client(id) {
          KeptDropped(before, i, windows);
        }
      }
    }

    /**
     * Both drain loops, run to the end with nobody interfering: new windows that are still registered come on top,
     * frames without a window go, and all others stay in their order, those of terminals among them.
     */
    method DrainAll()
      requires Valid() && taken.None? && held.None?
      modifies this`pendingNew, this`pendingDestroy, this`frames, this`focus, this`taken, this`held
      ensures Valid() && taken.None? && held.None? && pendingNew == [] && pendingDestroy == []
      ensures forall id: nat :: Client(id) in frames <==> id in windows
      ensures frames == Kept(old(frames) + Fresh(old(pendingNew), windows), windows)
      ensures if frames == old(frames) + Fresh(old(pendingNew), windows) && Fresh(old(pendingNew), windows) == []
        then focus == old(focus) else focus == if frames == [] then 0 else |frames| - 1
    {
      hide Kept;
      DrainNew();
      DrainDestroyed();
      AllKept(frames, windows);
    }
  }

  /** With both queues drained and nothing in hand, the frames are the registered windows, one each. */
  lemma SceneIsRegistry(s: System)
    requires s.Valid() && s.pendingNew == [] && s.pendingDestroy == [] && s.taken.None? && s.held.None?
    ensures FramedOnce(s.frames) && forall id: nat :: Client(id) in s.frames <==> id in s.windows
  {}
}
