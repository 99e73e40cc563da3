/**
 The entries of cont.c on the fiber objects themselves.  Every VM_ASSERT of the
 original stands as an assertion, and each entry is proved to do to the objects
 what FiberSpec says.
 */
module FiberSwitch {
  import opened FiberSpec

  // rb_fiber_t
  class Fiber {
    const id: Id
    const blocking: bool
    var status: Status
    var prev: Fiber?
    var resumingFiber: Fiber?
    var yielding: bool

    // fiber_t_alloc
    constructor (id: Id, blocking: bool)
      ensures this.id == id && this.blocking == blocking && status == Created
      ensures prev == null && resumingFiber == null && !yielding
    {
      this.id, this.blocking := id, blocking;
      status, prev, resumingFiber, yielding := Created, null, null, false;
    }
  }

  // rb_thread_t, as far as fibers are concerned
  class Thread {
    var current: Fiber
    var root: Fiber
    var blocking: int
    ghost var fibers: map<Id, Fiber>

    // Links stay within the thread.
    ghost predicate Closed()
      reads this, fibers.Values
    {
      && current.id in fibers && fibers[current.id] == current
      && root.id in fibers && fibers[root.id] == root
      && (forall i {:trigger Tied(i)} :: i in fibers ==> Tied(i))
    }

    ghost predicate Tied(i: Id)
      reads this, fibers.Values
      requires i in fibers
    {
      var f := fibers[i];
      f.id == i && (f.prev != null ==> Has(f.prev)) && (f.resumingFiber != null ==> Has(f.resumingFiber))
    }

    static ghost function Ref(f: Fiber?): Option<Id>
    {
      if f == null then None else Some(f.id)
    }

    static ghost function View(f: Fiber): Fib
      reads f
    {
      Fib(f.status, Ref(f.prev), Ref(f.resumingFiber), f.yielding, f.blocking)
    }

    ghost function Snapshot(): State
      reads this, fibers.Values
    {
      State(map i | i in fibers :: View(fibers[i]), current.id, root.id, blocking)
    }

    ghost predicate Has(f: Fiber)
      reads this
    {
      f.id in fibers && fibers[f.id] == f
    }

    // rb_threadptr_root_fiber_setup
    constructor ()
      ensures Closed() && Snapshot() == Initial(0) && Inv(Snapshot())
      ensures fibers == map[0 := current] && fresh(fibers.Values)
    {
      var f := new Fiber(0, true);
      f.status := Resumed;
      current, root, blocking := f, f, 1;
      fibers := map[0 := f];
      new;
      InitialInv(0);
      assert Snapshot().fibers == Initial(0).fibers;
    }

    // Fiber.new
    method NewFiber(id: Id, isBlocking: bool) returns (f: Fiber)
      requires Closed() && Inv(Snapshot()) && id !in fibers
      modifies this`fibers
      ensures Closed() && Inv(Snapshot()) && fresh(f) && fibers == old(fibers)[id := f]
      ensures Snapshot() == New(old(Snapshot()), id, isBlocking)
    {
      hide Inv;
      f := new Fiber(id, isBlocking);
      fibers := fibers[id := f];
      forall i | i in fibers ensures Tied(i) {
        assert i != id ==> old(Tied(i));
      }
      NewInv(old(Snapshot()), id, isBlocking);
      assert Snapshot().fibers == New(old(Snapshot()), id, isBlocking).fibers;
    }

    // fiber_status_set
    method FiberStatusSet(f: Fiber, s: Status)
      requires f.status != Terminated && f.status != s
      modifies f`status
      ensures f.status == s
    {
      // VM_ASSERT(!FIBER_TERMINATED_P(fiber)); VM_ASSERT(fiber->status != s)
      assert f.status != Terminated && f.status != s;
      f.status := s;
    }

    // fiber_store
    method FiberStore(next: Fiber)
      requires current.status == Resumed || current.status == Terminated
      requires next.status == Created || next.status == Suspended
      modifies this`current, current`status, next`status
      ensures current == next && next.status == Resumed
      ensures next != old(current) ==>
                old(current).status == (if old(current.status) == Resumed then Suspended else old(current.status))
    {
      var fiber := current;
      // VM_ASSERT(FIBER_RESUMED_P(fiber) || FIBER_TERMINATED_P(fiber)); VM_ASSERT(FIBER_RUNNABLE_P(next_fiber))
      assert fiber.status == Resumed || fiber.status == Terminated;
      assert next.status == Created || next.status == Suspended;
      if fiber.status == Resumed {
        FiberStatusSet(fiber, Suspended);
      }
      FiberStatusSet(next, Resumed);
      current := next;
    }

    // fiber_switch.  The root fiber is never switched to in place of a dead destination: that branch is
    // unreachable for every caller below.
    method Switch(fiber: Fiber, resume: bool, leaving: bool) returns (ok: bool)
      requires Closed() && Has(fiber)
      requires current.status == Resumed || (current.status == Terminated && fiber.status != Terminated)
      requires fiber != current && fiber.status != Terminated ==>
                 && (fiber.status == Created || fiber.status == Suspended)
                 && current.resumingFiber == null && !current.yielding
      modifies this`current, this`blocking, current, fiber
      ensures Closed() && fibers == old(fibers)
      ensures ok <==> fiber == old(current) || old(fiber.status) != Terminated
      ensures !ok || fiber == old(current) ==> Snapshot() == old(Snapshot())
      ensures ok && fiber != old(current) ==>
                Snapshot() == FiberSpec.Switch(old(Snapshot()), fiber.id, resume, leaving)
    {
      if current == fiber {
        return true;
      }
      if fiber.status == Terminated {
        if current.status != Terminated {
          // "dead fiber called"
          return false;
        } else {
          assert false;
        }
      }
      // VM_ASSERT(FIBER_RUNNABLE_P(fiber)); VM_ASSERT(!current_fiber->resuming_fiber)
      assert fiber.status == Created || fiber.status == Suspended;
      assert current.resumingFiber == null;
      Enter(fiber, resume, leaving);
      ok := true;
    }

    // fiber_switch: the links, the yielding flag, and the current fiber's share of th->blocking
    method Mark(fiber: Fiber, resume: bool, leaving: bool)
      requires fiber != current && !current.yielding
      modifies this`blocking, current`resumingFiber, current`yielding, fiber`prev, fiber`yielding
      ensures current.resumingFiber == (if resume then fiber else old(current.resumingFiber))
      ensures fiber.prev == (if resume then current else old(fiber.prev))
      ensures fiber.yielding == (!resume && old(fiber.yielding)) && current.yielding == leaving
      ensures blocking == old(blocking) - (if current.blocking then 1 else 0)
    {
      if resume {
        current.resumingFiber := fiber;
        fiber.prev := current;
        fiber.yielding := false;
      }
      // VM_ASSERT(!current_fiber->yielding)
      assert !current.yielding;
      if leaving {
        current.yielding := true;
      }
      if current.blocking {
        blocking := blocking - 1;
      }
    }

    // fiber_switch, from the point where nothing can stop it
    method Enter(fiber: Fiber, resume: bool, leaving: bool)
      requires Closed() && Has(fiber) && fiber != current
      requires current.status == Resumed || current.status == Terminated
      requires fiber.status == Created || fiber.status == Suspended
      requires !current.yielding
      modifies this`current, this`blocking, current, fiber
      ensures Closed() && fibers == old(fibers)
      ensures Snapshot() == FiberSpec.Switch(old(Snapshot()), fiber.id, resume, leaving)
    {
      hide FiberSpec.Switch;
      ghost var s0, from, c, t := Snapshot(), current, View(current), View(fiber);
      MarkAndStore(fiber, resume, leaving);
      forall i | i in fibers
        ensures Tied(i) && (i != s0.current && i != fiber.id ==> View(fibers[i]) == s0.fibers[i])
      {
        assert old(Tied(i));
      }
      ghost var s1 := Snapshot();
      assert s0.fibers[from.id] == c && s0.fibers[fiber.id] == t;
      assert s1.fibers[from.id] == View(from) && s1.fibers[fiber.id] == View(fiber);
      Entered(s0, s1, fiber.id, resume, leaving);
    }

    // The changes to the two fibers, field by field
    method MarkAndStore(fiber: Fiber, resume: bool, leaving: bool)
      requires fiber != current && !current.yielding
      requires current.status == Resumed || current.status == Terminated
      requires fiber.status == Created || fiber.status == Suspended
      modifies this`current, this`blocking, current`resumingFiber, current`yielding, current`status
      modifies fiber`prev, fiber`yielding, fiber`status
      ensures current == fiber && fiber.status == Resumed
      ensures fiber.prev == (if resume then old(current) else old(fiber.prev)) && fiber.yielding == (!resume && old(fiber.yielding))
      ensures var from := old(current);
              && from.status == (if old(from.status) == Resumed then Suspended else old(from.status))
              && from.resumingFiber == (if resume then fiber else old(from.resumingFiber)) && from.yielding == leaving
              && blocking == old(blocking) - (if from.blocking then 1 else 0) + (if fiber.blocking then 1 else 0)
    {
      Mark(fiber, resume, leaving);
      FiberStore(fiber);
      if fiber.blocking {
        blocking := blocking + 1;
      }
    }

    // fiber_resume_kw
    method ResumeKw(fiber: Fiber, raising: bool) returns (error: Option<FiberError>)
      requires Closed() && Has(fiber) && Inv(Snapshot())
      modifies this`current, this`blocking, current, fiber
      ensures Closed() && fibers == old(fibers) && Inv(Snapshot())
      ensures Matches(old(Snapshot()), FiberSpec.Resume(old(Snapshot()), fiber.id, raising), error, Snapshot())
    {
      ghost var s0 := Snapshot();
      assert FibOk(s0, fiber.id) && FibOk(s0, current.id);
      hide Linked, Acyclic, AllOk, FibOk, Inv;
      if raising && fiber.status == Created {
        return Some(RaiseOnUnborn);
      } else if fiber.status == Terminated {
        return Some(ResumeTerminated);
      } else if fiber == current {
        return Some(ResumeCurrent);
      } else if fiber.prev != null {
        return Some(DoubleResume);
      } else if fiber.resumingFiber != null {
        return Some(ResumeResuming);
      } else if fiber.prev == null && !fiber.yielding && fiber.status != Created {
        return Some(ResumeTransferring);
      }
      CanSwitch(s0, fiber.id);
      ResumeInv(s0, fiber.id, raising);
      var ok := Switch(fiber, true, false);
      error := None;
    }

    // fiber_transfer_kw
    method TransferKw(fiber: Fiber) returns (error: Option<FiberError>)
      requires Closed() && Has(fiber) && Inv(Snapshot())
      modifies this`current, this`blocking, current, fiber
      ensures Closed() && fibers == old(fibers) && Inv(Snapshot())
      ensures Matches(old(Snapshot()), FiberSpec.Transfer(old(Snapshot()), fiber.id), error, Snapshot())
    {
      ghost var s0 := Snapshot();
      hide Linked, Acyclic, AllOk, FibOk, Inv;
      if fiber.resumingFiber != null {
        return Some(TransferResuming);
      }
      if fiber.yielding {
        return Some(TransferYielding);
      }
      CanSwitch(s0, fiber.id);
      if FiberSpec.Transfer(s0, fiber.id).Switched? {
        TransferInv(s0, fiber.id);
      }
      var ok := Switch(fiber, false, false);
      error := if ok then None else Some(DeadFiber);
    }

    // fiber_raise
    method RaiseIn(fiber: Fiber) returns (error: Option<FiberError>)
      requires Closed() && Has(fiber) && Inv(Snapshot())
      modifies this`current, this`blocking, current, fiber
      ensures Closed() && fibers == old(fibers) && Inv(Snapshot())
      ensures Matches(old(Snapshot()), FiberSpec.Raise(old(Snapshot()), fiber.id), error, Snapshot())
    {
      if fiber.resumingFiber != null {
        return Some(RaiseResuming);
      } else if fiber.status == Suspended && !fiber.yielding {
        error := TransferKw(fiber);
      } else {
        error := ResumeKw(fiber, true);
      }
    }

    // return_fiber
    method ReturnFiber(terminate: bool) returns (fiber: Fiber?)
      requires Closed() && (current.prev != null ==> current.prev != current)
      requires current.prev == null && terminate ==> Searching(Snapshot(), root.id, {root.id})
      modifies current, if current.prev == null then {} else {current.prev}
      ensures Closed() && fibers == old(fibers) && current == old(current)
      ensures fiber != null ==> Has(fiber)
      ensures old(current.prev) != null ==> fiber == old(current.prev) && Snapshot() == Unlink(old(Snapshot()))
      ensures old(current.prev) == null ==> Snapshot() == old(Snapshot())
      ensures old(current.prev) == null && !terminate ==> fiber == null
      ensures old(current.prev) == null && terminate ==>
                fiber != null && fiber.id == ChainEnd(old(Snapshot()), root.id, {root.id})
    {
      var prev := current.prev;
      if prev != null {
        ghost var s0 := Snapshot();
        assert Tied(current.id);
        current.prev := null;
        prev.resumingFiber := null;
        forall i | i in fibers ensures Tied(i) && View(fibers[i]) == Unlink(s0).fibers[i] {
          assert old(Tied(i));
        }
        assert Snapshot().fibers == Unlink(s0).fibers;
        return prev;
      } else {
        if !terminate {
          return null;
        }
        ghost var s := Snapshot();
        ghost var seen := {root.id};
        fiber := root;
        while fiber.resumingFiber != null
          invariant fiber != null && Has(fiber) && Closed() && Snapshot() == s && Searching(s, fiber.id, seen)
          invariant ChainEnd(s, fiber.id, seen) == ChainEnd(s, root.id, {root.id})
          decreases |s.fibers.Keys - seen|
        {
          assert Tied(fiber.id);
          Unseen(s, fiber.id, seen);
          fiber := fiber.resumingFiber;
          seen := seen + {fiber.id};
        }
      }
    }

    // rb_fiber_yield_kw
    method YieldKw() returns (error: Option<FiberError>)
      requires Closed() && Inv(Snapshot())
      modifies this`current, this`blocking, current, if current.prev == null then {} else {current.prev}
      ensures Closed() && fibers == old(fibers) && Inv(Snapshot())
      ensures Matches(old(Snapshot()), FiberSpec.Yield(old(Snapshot())), error, Snapshot())
    {
      ghost var s0 := Snapshot();
      Returns(s0);
      if current.prev != null {
        YieldInv(s0);
      }
      hide Linked, Acyclic, AllOk, FibOk, Inv;
      var fiber := ReturnFiber(false);
      if fiber == null {
        // "attempt to yield on a not resumed fiber"
        return Some(YieldNotResumed);
      }
      var ok := Switch(fiber, false, true);
      error := None;
    }

    // rb_fiber_close of the current fiber
    method Close()
      requires Closed() && current.status == Resumed
      modifies current`status
      ensures Closed() && Snapshot() == Dead(old(Snapshot()))
    {
      FiberStatusSet(current, Terminated);
      forall i | i in fibers ensures Tied(i) && View(fibers[i]) == Dead(old(Snapshot())).fibers[i] {
        assert old(Tied(i));
      }
      assert Snapshot().fibers == Dead(old(Snapshot())).fibers;
    }

    // rb_fiber_terminate
    method Terminate()
      requires Closed() && Inv(Snapshot()) && current != root
      modifies this`current, this`blocking, fibers.Values
      ensures Closed() && fibers == old(fibers) && Inv(Snapshot())
      ensures Snapshot() == FiberSpec.Terminate(old(Snapshot()))
      ensures Snapshot().current != old(Snapshot()).current
    {
      ghost var s0 := Snapshot();
      Returns(s0);
      TerminateInv(s0);
      TerminateLive(s0);
      hide Linked, Acyclic, AllOk, FibOk;
      // VM_ASSERT(FIBER_RESUMED_P(fiber))
      assert current.status == Resumed;
      Close();
      LeaveDead(s0);
    }

    // From the closed fiber to the one that return_fiber finds
    method LeaveDead(ghost s0: State)
      requires Closed() && Inv(s0) && s0.current != s0.root && Snapshot() == Dead(s0)
      modifies this`current, this`blocking, fibers.Values
      ensures Closed() && fibers == old(fibers) && Snapshot() == FiberSpec.Terminate(s0)
    {
      Returns(s0);
      TerminateLive(s0);
      assert Tied(current.id);
      if current.prev == null {
        TerminateSearch(s0, Dead(s0));
      }
      hide Linked, Acyclic, AllOk, FibOk, Inv, Searching, ChainEnd;
      var next := ReturnFiber(true);
      var ok := Switch(next, false, false);
    }

    // The actions on a fiber of the thread
    method PerformOn(a: Action, id: Id, fiber: Fiber) returns (error: Option<FiberError>)
      requires Closed() && Inv(Snapshot()) && id in fibers && fibers[id] == fiber
      requires a == ResumeFiber(id) || a == TransferTo(id) || a == Action.RaiseIn(id)
      modifies this`current, this`blocking, current, fiber
      ensures Closed() && fibers == old(fibers)
      ensures Snapshot() == Next(old(Snapshot()), a) && error == Report(old(Snapshot()), a)
    {
      assert Tied(id);
      assert id in Snapshot().fibers;
      hide Inv, FiberSpec.Resume, FiberSpec.Transfer, FiberSpec.Raise;
      match a
      case ResumeFiber(_) => error := ResumeKw(fiber, false);
      case TransferTo(_) => error := TransferKw(fiber);
      case RaiseIn(_) => error := RaiseIn(fiber);
    }

    // One action of a run; `names` finds the fibers.
    method Perform(a: Action, names: map<Id, Fiber>) returns (error: Option<FiberError>, names': map<Id, Fiber>)
      requires Closed() && Inv(Snapshot()) && names == fibers
      modifies this, fibers.Values
      ensures Closed() && names' == fibers && fresh(fibers.Values - old(fibers.Values))
      ensures Snapshot() == Next(old(Snapshot()), a) && error == Report(old(Snapshot()), a)
    {
      ghost var s0 := Snapshot();
      assert s0.fibers.Keys == fibers.Keys;
      error, names' := None, names;
      hide Inv, FiberSpec.Resume, FiberSpec.Transfer, FiberSpec.Raise, FiberSpec.Yield, FiberSpec.Terminate, New;
      match a
      case NewFiber(id, isBlocking) =>
        if id !in names {
          var f := NewFiber(id, isBlocking);
          names' := names[id := f];
        }
      case ResumeFiber(f) =>
        if f in names {
          error := PerformOn(a, f, names[f]);
        }
      case TransferTo(f) =>
        if f in names {
          error := PerformOn(a, f, names[f]);
        }
      case RaiseIn(f) =>
        if f in names {
          error := PerformOn(a, f, names[f]);
        }
      case YieldBack =>
        assert Tied(current.id);
        error := YieldKw();
      case Finish =>
        if current != root {
          Terminate();
        }
    }
  }

  // A whole run on the fiber objects is the run of the state machine.
  method RunActions(acts: seq<Action>) returns (t: Thread, errors: seq<Option<FiberError>>)
    ensures t.Closed() && t.Snapshot() == Exec(0, acts) && errors == Reports(0, acts)
  {
    t := new Thread();
    var names := map[0 := t.current];
    errors := [];
    for i := 0 to |acts|
      invariant t.Closed() && names == t.fibers && fresh(t) && fresh(t.fibers.Values)
      invariant t.Snapshot() == Exec(0, acts[..i]) && errors == Reports(0, acts[..i])
    {
      assert acts[..i + 1][..i] == acts[..i] && acts[..i + 1][i] == acts[i];
      var error;
      error, names := t.Perform(acts[i], names);
      errors := errors + [error];
    }
    assert acts[..|acts|] == acts;
  }

  // What a checked entry reports, and the state it leaves.
  ghost predicate Matches(before: State, o: Outcome, error: Option<FiberError>, after: State)
  {
    && (o.Switched? ==> error == None && after == o.state)
    && (o.Failed? ==> error == Some(o.error) && after == before)
  }

  // What fiber_switch does to the two fibers is what FiberSpec.Switch says.
  lemma Entered(s: State, s': State, f: Id, resume: bool, leaving: bool)
    requires s.current in s.fibers && f in s.fibers && f != s.current && s'.fibers.Keys == s.fibers.Keys
    requires forall i :: i in s.fibers && i != s.current && i != f ==> s'.fibers[i] == s.fibers[i]
    requires var c := s.fibers[s.current];
             s'.fibers[s.current] == Fib(if c.status == Resumed then Suspended else c.status, c.prev,
                                         if resume then Some(f) else c.resuming, c.yielding || leaving, c.blocking)
    requires var t := s.fibers[f];
             s'.fibers[f] == Fib(Resumed, if resume then Some(s.current) else t.prev, t.resuming,
                                 !resume && t.yielding, t.blocking)
    requires s'.current == f && s'.root == s.root
    requires s'.blocking == s.blocking - Blocks(s.fibers[s.current]) + Blocks(s.fibers[f])
    ensures s' == Switch(s, f, resume, leaving)
  {
    assert s'.fibers == Switch(s, f, resume, leaving).fibers;
  }

  // What fiber_switch asserts, for the current fiber and a live one.
  lemma CanSwitch(s: State, f: Id)
    requires Inv(s) && f in s.fibers
    ensures var c := s.fibers[s.current]; c.status == Resumed && c.resuming == None && !c.yielding
    ensures f != s.current && s.fibers[f].status != Terminated ==>
              s.fibers[f].status == Created || s.fibers[f].status == Suspended
  {
    assert FibOk(s, f) && FibOk(s, s.current);
  }

  // The same for the fiber that yields or terminates and the one that resumed it.
  lemma Returns(s: State)
    requires Inv(s)
    ensures var c := s.fibers[s.current]; c.status == Resumed && c.resuming == None && !c.yielding
    ensures var c := s.fibers[s.current];
            c.prev.Some? ==> c.prev.value in s.fibers && c.prev.value != s.current &&
                             s.fibers[c.prev.value].status == Suspended
  {
    CanSwitch(s, s.current);
    if s.fibers[s.current].prev.Some? {
      NotOwnPrev(s, s.current);
      CanSwitch(s, s.fibers[s.current].prev.value);
      assert FibOk(s, s.fibers[s.current].prev.value);
    }
  }
}
