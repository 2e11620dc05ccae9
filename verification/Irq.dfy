/** The handshake between an interrupt line and the driver task that waits on it. */
module Irq {
  import opened Options

  /** Where the driver is: outside `wait`, asleep in it, or woken but not yet back at the check. */
  datatype Driver = Away | Asleep | Woken

  datatype Step = Interrupt | WakeUp | Drive

  /** A line and its driver; `reported` is the number of interrupts that `wait` has returned so far. */
  datatype State = State(pending: nat, waiter: nat, count: nat, driver: Driver, reported: nat)

  /** No interrupt is lost or counted twice, and the driver never sleeps on one. */
  predicate Sound(s: State, me: nat) {
    && me != 0 && s.count == s.reported + s.pending
    && (s.driver == Asleep ==> s.pending == 0 && s.waiter == me)
    && (s.waiter == 0 || s.waiter == me) && (s.driver == Away ==> s.waiter == 0)
  }

  function Stepped(s: State, me: nat, step: Step): State {
    match step
    case Interrupt => s.(pending := s.pending + 1, count := s.count + 1,
                         driver := if s.waiter == me && s.driver == Asleep then Woken else s.driver)
    case WakeUp => s.(driver := if s.driver == Asleep then Woken else s.driver)
    case Drive =>
      match s.driver
      case Away =>
        if s.pending > 0 then s.(pending := 0, reported := s.reported + s.pending)
        else s.(waiter := me, driver := Asleep)
      case Woken => s.(waiter := 0, driver := Away)
      case Asleep => s
  }

  function Ran(s: State, me: nat, steps: seq<Step>): State {
    if steps == [] then s else Stepped(Ran(s, me, steps[..|steps| - 1]), me, steps[|steps| - 1])
  }

  function Interrupts(steps: seq<Step>): nat {
    if steps == [] then 0
    else Interrupts(steps[..|steps| - 1]) + if steps[|steps| - 1] == Interrupt then 1 else 0
  }

  /** Along any interleaving every interrupt is either reported or pending. */
  lemma {:induction false} RanConserves(s: State, me: nat, steps: seq<Step>)
    requires Sound(s, me)
    ensures Sound(Ran(s, me, steps), me)
    ensures Ran(s, me, steps).count == s.count + Interrupts(steps)
  {
    if steps != [] { RanConserves(s, me, steps[..|steps| - 1]); }
  }

  /** Whatever happened before: once the driver has had its turn twice, every interrupt has been reported. */
  lemma AllReported(s: State, me: nat, steps: seq<Step>)
    requires Sound(s, me)
    ensures var end := Ran(s, me, steps + [Drive, Drive]);
            end.pending == 0 && end.reported == s.count + Interrupts(steps)
  {
    var once, twice := steps + [Drive], steps + [Drive, Drive];
    assert twice[..|twice| - 1] == once && once[..|once| - 1] == steps;
    RanConserves(s, me, steps);
    RanConserves(s, me, twice);
  }

  class Line {
    var pending: nat
    var waiter: nat
    var count: nat
    /** The driver task; task 0 never drives a line. */
    const me: nat
    var driver: Driver
    /** Interrupts that `wait` has reported so far. */
    ghost var reported: nat

    ghost function Now(): State
      reads this
    {
      State(pending, waiter, count, driver, reported)
    }

    ghost predicate Valid()
      reads this
    {
      Sound(Now(), me)
    }

    constructor (me: nat)
      requires me != 0
      ensures Valid() && count == 0 && driver == Away
    {
      this.me := me;
      pending, waiter, count, driver, reported := 0, 0, 0, Away, 0;
    }

    /** The critical section of `wait`: report what is pending, or go to sleep as the line's waiter. */
    method CheckOrSleep() returns (r: Option<nat>)
      requires Valid() && driver == Away
      modifies this
      ensures Valid() && count == old(count)
      ensures r.Some? <==> old(pending) > 0
      ensures r.Some? ==>
        && r.value == old(pending) && pending == 0 && reported == old(reported) + r.value
        && driver == Away && waiter == old(waiter)
      ensures r.None? ==> driver == Asleep && waiter == me && reported == old(reported) && pending == 0
    {
      var p := pending;
      if p > 0 {
        pending := 0;
        reported := reported + p;
        return Some(p);
      }
      waiter := me;
      driver := Asleep;
      return None;
    }

    /** The interrupt handler; it may run between any two steps of the driver. */
    method NotifyFromIsr()
      requires Valid()
      modifies this`pending, this`count, this`driver
      ensures Valid() && count == old(count) + 1 && pending == old(pending) + 1
      ensures driver == if old(driver) == Asleep then Woken else old(driver)
    {
      pending := pending + 1;
      count := count + 1;
      if waiter != 0 {
        Unblock(waiter);
      }
    }

    /** Wake a task if it is asleep. Others may do this to the driver as well. */
    method Unblock(task: nat)
      modifies this`driver
      ensures driver == if old(driver) == Asleep && task == me then Woken else old(driver)
    {
      if task == me && driver == Asleep {
        driver := Woken;
      }
    }

    /** Back from the sleep: give up the waiter slot and return to the check. */
    method Resume()
      requires Valid() && driver == Woken
      modifies this`waiter, this`driver
      ensures Valid() && driver == Away && waiter == 0
    {
      waiter := 0;
      driver := Away;
    }

    /** Any interleaving of interrupts, spurious wake-ups and driver steps; returns what `wait` reported in all. */
    method Run(steps: seq<Step>) returns (total: nat)
      requires Valid()
      modifies this
      ensures Valid() && Now() == Ran(old(Now()), me, steps)
      ensures total + pending == old(pending) + Interrupts(steps) && count == old(count) + Interrupts(steps)
      ensures total == reported - old(reported)
    {
      total := 0;
      for i := 0 to |steps|
        invariant Valid() && Now() == Ran(old(Now()), me, steps[..i])
        invariant total == reported - old(reported)
      {
        assert steps[..i + 1][..i] == steps[..i];
        match steps[i]
        case Interrupt => NotifyFromIsr();
        case WakeUp => Unblock(me);
        case Drive =>
          if driver == Away {
            var r := CheckOrSleep();
            if r.Some? {
              total := total + r.value;
            }
          } else if driver == Woken {
            Resume();
          }
      }
      assert steps[..|steps|] == steps;
      RanConserves(old(Now()), me, steps);
    }
  }
}
