/**
 Fiber switching in cont.c as a state machine: what each checked entry does to the
 fibers of one thread, the global invariant its assertions rely on, and the
 lifecycle rules promised by the documentation of Fiber#transfer.
 */
module FiberSpec {

  // A fiber's identity.
  type Id = nat

  datatype Status = Created | Resumed | Suspended | Terminated

  datatype Option<T> = None | Some(value: T)

  datatype Fib = Fib(status: Status, prev: Option<Id>, resuming: Option<Id>, yielding: bool, blocking: bool)

  // The fibers of a thread; `blocking` is th->blocking.
  datatype State = State(fibers: map<Id, Fib>, current: Id, root: Id, blocking: int)

  datatype FiberError =
    | RaiseOnUnborn | ResumeTerminated | ResumeCurrent | DoubleResume | ResumeResuming | ResumeTransferring
    | TransferResuming | TransferYielding | RaiseResuming | YieldNotResumed | DeadFiber

  // Control went to another fiber (or stayed, on a transfer to oneself), or FiberError was raised.
  datatype Outcome = Switched(state: State) | Failed(error: FiberError)

  // ---- the invariant ----

  // f.prev = g exactly when g.resuming_fiber = f.
  ghost predicate Linked(s: State)
  {
    && (forall f :: f in s.fibers && s.fibers[f].prev.Some? ==>
          s.fibers[f].prev.value in s.fibers && s.fibers[s.fibers[f].prev.value].resuming == Some(f))
    && (forall g :: g in s.fibers && s.fibers[g].resuming.Some? ==>
          s.fibers[g].resuming.value in s.fibers && s.fibers[s.fibers[g].resuming.value].prev == Some(g))
  }

  // Each link leads to a fiber of higher rank.
  ghost predicate Ranked(s: State, rank: map<Id, nat>)
  {
    forall f :: f in s.fibers && s.fibers[f].prev.Some? ==>
      f in rank && s.fibers[f].prev.value in rank && rank[s.fibers[f].prev.value] < rank[f]
  }

  ghost predicate Acyclic(s: State)
  {
    exists rank :: Ranked(s, rank)
  }

  ghost predicate FibOk(s: State, f: Id)
    requires f in s.fibers
  {
    var b := s.fibers[f];
    && (b.status == Resumed <==> f == s.current)
    && (b.prev.Some? || b.resuming.Some? || b.yielding ==> b.status == Resumed || b.status == Suspended)
    && (f == s.current ==> b.resuming == None && !b.yielding)
    && (b.yielding ==> b.prev == None && b.resuming == None)
    && (f == s.root ==> b.prev == None && !b.yielding && b.status != Created && b.status != Terminated)
  }

  ghost predicate AllOk(s: State)
  {
    forall f :: f in s.fibers ==> FibOk(s, f)
  }

  ghost predicate Inv(s: State)
  {
    && s.current in s.fibers && s.root in s.fibers
    && Linked(s) && Acyclic(s) && AllOk(s)
    && s.blocking == (if s.fibers[s.current].blocking then 1 else 0)
  }

  // A thread starts with its root fiber, which is blocking.
  function Initial(root: Id): State
  {
    State(map[root := Fib(Resumed, None, None, false, true)], root, root, 1)
  }

  // ---- the steps ----

  function Blocks(b: Fib): int
  {
    if b.blocking then 1 else 0
  }

  // fiber_switch to a runnable fiber other than the current one, with fiber_store inside it.
  function Switch(s: State, f: Id, resume: bool, yielding: bool): State
    requires s.current in s.fibers && f in s.fibers && f != s.current
  {
    var c := s.fibers[s.current];
    var c' := c.(resuming := if resume then Some(f) else c.resuming,
                 yielding := c.yielding || yielding,
                 status := if c.status == Resumed then Suspended else c.status);
    var t := s.fibers[f];
    var t' := t.(prev := if resume then Some(s.current) else t.prev,
                 yielding := if resume then false else t.yielding,
                 status := Resumed);
    State(s.fibers[s.current := c'][f := t'], f, s.root, s.blocking - Blocks(c) + Blocks(t))
  }

  // Fiber.new
  function New(s: State, f: Id, blocking: bool): State
  {
    s.(fibers := s.fibers[f := Fib(Created, None, None, false, blocking)])
  }

  // fiber_resume_kw; `raising` is argc == -1.
  function Resume(s: State, f: Id, raising: bool): Outcome
    requires s.current in s.fibers && f in s.fibers
  {
    var b := s.fibers[f];
    if raising && b.status == Created then Failed(RaiseOnUnborn)
    else if b.status == Terminated then Failed(ResumeTerminated)
    else if f == s.current then Failed(ResumeCurrent)
    else if b.prev.Some? then Failed(DoubleResume)
    else if b.resuming.Some? then Failed(ResumeResuming)
    else if !b.yielding && b.status != Created then Failed(ResumeTransferring)
    else Switched(Switch(s, f, true, false))
  }

  // fiber_transfer_kw
  function Transfer(s: State, f: Id): Outcome
    requires s.current in s.fibers && f in s.fibers
  {
    var b := s.fibers[f];
    if b.resuming.Some? then Failed(TransferResuming)
    else if b.yielding then Failed(TransferYielding)
    else if f == s.current then Switched(s)
    else if b.status == Terminated then Failed(DeadFiber)
    else Switched(Switch(s, f, false, false))
  }

  // fiber_raise
  function Raise(s: State, f: Id): Outcome
    requires s.current in s.fibers && f in s.fibers
  {
    var b := s.fibers[f];
    if b.resuming.Some? then Failed(RaiseResuming)
    else if b.status == Suspended && !b.yielding then Transfer(s, f)
    else Resume(s, f, true)
  }

  // return_fiber on a fiber that was resumed: both links are dropped.
  function Unlink(s: State): State
    requires s.current in s.fibers && s.fibers[s.current].prev.Some? && s.fibers[s.current].prev.value in s.fibers
  {
    var p := s.fibers[s.current].prev.value;
    var fs := s.fibers[s.current := s.fibers[s.current].(prev := None)];
    s.(fibers := fs[p := fs[p].(resuming := None)])
  }

  // rb_fiber_yield_kw
  function Yield(s: State): Outcome
    requires Inv(s)
  {
    if s.fibers[s.current].prev == None then Failed(YieldNotResumed)
    else
      NotOwnPrev(s, s.current);
      Switched(Switch(Unlink(s), s.fibers[s.current].prev.value, false, true))
  }

  lemma NotOwnPrev(s: State, f: Id)
    requires Acyclic(s) && f in s.fibers && s.fibers[f].prev.Some?
    ensures s.fibers[f].prev.value != f
  {
    var rank :| Ranked(s, rank);
  }

  // The search of return_fiber from `f` along resuming_fiber; `seen` are the fibers passed so far.
  ghost predicate Searching(s: State, f: Id, seen: set<Id>)
  {
    && Linked(s) && s.root in s.fibers && s.fibers[s.root].prev == None
    && f in seen && seen <= s.fibers.Keys
    && forall g :: g in seen && g != s.root ==> s.fibers[g].prev.Some? && s.fibers[g].prev.value in seen - {f}
  }

  function ChainEnd(s: State, f: Id, ghost seen: set<Id>): (e: Id)
    requires Searching(s, f, seen)
    ensures e in s.fibers && s.fibers[e].resuming == None
    ensures e == f || s.fibers[e].prev.Some?
    decreases |s.fibers.Keys - seen|
  {
    if s.fibers[f].resuming == None then f
    else
      var next := s.fibers[f].resuming.value;
      Unseen(s, f, seen);
      ChainEnd(s, next, seen + {next})
  }

  // The search never comes back to a fiber it has passed.
  lemma Unseen(s: State, f: Id, seen: set<Id>)
    requires Searching(s, f, seen) && s.fibers[f].resuming.Some?
    ensures s.fibers[f].resuming.value !in seen
    ensures Searching(s, s.fibers[f].resuming.value, seen + {s.fibers[f].resuming.value})
    ensures |s.fibers.Keys - (seen + {s.fibers[f].resuming.value})| < |s.fibers.Keys - seen|
  {
    var next := s.fibers[f].resuming.value;
    assert s.fibers[next].prev == Some(f);
    assert next !in seen;
    var rest := s.fibers.Keys - seen;
    assert s.fibers.Keys - (seen + {next}) == rest - {next};
  }

  // rb_fiber_terminate of the current fiber
  function Terminate(s: State): State
    requires Inv(s) && s.current != s.root
  {
    var dead := s.(fibers := s.fibers[s.current := s.fibers[s.current].(status := Terminated)]);
    if s.fibers[s.current].prev.Some? then
      NotOwnPrev(s, s.current);
      Switch(Unlink(dead), s.fibers[s.current].prev.value, false, false)
    else
      TerminateSearch(s, dead);
      Switch(dead, ChainEnd(dead, s.root, {s.root}), false, false)
  }

  lemma TerminateSearch(s: State, dead: State)
    requires Inv(s) && s.current != s.root && s.fibers[s.current].prev == None
    requires dead == s.(fibers := s.fibers[s.current := s.fibers[s.current].(status := Terminated)])
    ensures Searching(dead, s.root, {s.root})
    ensures ChainEnd(dead, s.root, {s.root}) != s.current
  {
    assert dead.fibers.Keys == s.fibers.Keys;
  }

  // ---- the invariant is kept ----

  lemma InitialInv(root: Id)
    ensures Inv(Initial(root))
  {
    assert Ranked(Initial(root), map[]);
  }

  lemma NewInv(s: State, f: Id, blocking: bool)
    requires Inv(s) && f !in s.fibers
    ensures Inv(New(s, f, blocking))
  {
    var rank :| Ranked(s, rank);
    var t := New(s, f, blocking);
    assert Linked(t) by { hide Acyclic, AllOk; }
    assert Ranked(t, rank) by { hide Linked, AllOk; }
    hide Linked, Ranked;
    forall i | i in t.fibers ensures FibOk(t, i) {
      assert i != f ==> FibOk(s, i);
    }
  }

  // A runnable fiber may be switched to without a link when it has none to offer.
  lemma SwitchInv(s: State, f: Id)
    requires Inv(s) && f in s.fibers && f != s.current
    requires s.fibers[f].status == Created || s.fibers[f].status == Suspended
    requires s.fibers[f].resuming == None && !s.fibers[f].yielding
    ensures Inv(Switch(s, f, false, false))
  {
    SwitchKeeps(s, f, false);
    hide Acyclic, Linked;
  }

  // Resuming adds the link from the current fiber to one that has no links.
  lemma LinkInv(s: State, f: Id)
    requires Inv(s) && f in s.fibers && f != s.current && f != s.root
    requires s.fibers[f].status == Created || s.fibers[f].status == Suspended
    requires s.fibers[f].prev == None && s.fibers[f].resuming == None
    ensures Inv(Switch(s, f, true, false))
  {
    LinkAcyclic(s, f);
    LinkLinked(s, f);
    hide Acyclic, Linked;
  }

  lemma LinkLinked(s: State, f: Id)
    requires s.current in s.fibers && f in s.fibers && f != s.current && Linked(s)
    requires s.fibers[f].prev == None && s.fibers[f].resuming == None && s.fibers[s.current].resuming == None
    ensures Linked(Switch(s, f, true, false))
  {
  }

  lemma LinkAcyclic(s: State, f: Id)
    requires s.current in s.fibers && f in s.fibers && f != s.current && Acyclic(s) && Linked(s)
    requires s.fibers[f].prev == None && s.fibers[f].resuming == None
    ensures Acyclic(Switch(s, f, true, false))
  {
    var rank :| Ranked(s, rank);
    var base := if s.current in rank then rank[s.current] else 0;
    assert Ranked(Switch(s, f, true, false), rank[s.current := base][f := base + 1]);
  }

  lemma ResumeInv(s: State, f: Id, raising: bool)
    requires Inv(s) && f in s.fibers && Resume(s, f, raising).Switched?
    ensures Inv(Resume(s, f, raising).state)
  {
    LinkInv(s, f);
  }

  lemma TransferInv(s: State, f: Id)
    requires Inv(s) && f in s.fibers && Transfer(s, f).Switched?
    ensures Inv(Transfer(s, f).state)
  {
    if f != s.current {
      SwitchInv(s, f);
    }
  }

  lemma RaiseInv(s: State, f: Id)
    requires Inv(s) && f in s.fibers && Raise(s, f).Switched?
    ensures Inv(Raise(s, f).state)
  {
    if s.fibers[f].status == Suspended && !s.fibers[f].yielding {
      TransferInv(s, f);
    } else {
      ResumeInv(s, f, true);
    }
  }

  lemma YieldInv(s: State)
    requires Inv(s) && Yield(s).Switched?
    ensures Inv(Yield(s).state)
  {
    var p := s.fibers[s.current].prev.value;
    NotOwnPrev(s, s.current);
    UnlinkKeeps(s);
    SwitchKeeps(Unlink(s), p, true);
    assert s.fibers[p].resuming == Some(s.current) && FibOk(s, p) && FibOk(s, s.current);
    hide Acyclic, Linked;
    UnlinkedOk(s, p, true);
  }

  function Dead(s: State): State
    requires s.current in s.fibers
  {
    s.(fibers := s.fibers[s.current := s.fibers[s.current].(status := Terminated)])
  }

  lemma TerminateInv(s: State)
    requires Inv(s) && s.current != s.root
    ensures Inv(Terminate(s))
  {
    TerminateLive(s);
    if s.fibers[s.current].prev.Some? {
      NotOwnPrev(s, s.current);
      DeadToPrev(s, s.fibers[s.current].prev.value);
    } else {
      TerminateSearch(s, Dead(s));
      var e := ChainEnd(Dead(s), s.root, {s.root});
      hide ChainEnd, Searching;
      DeadToOther(s, e);
    }
  }

  lemma DeadToPrev(s: State, p: Id)
    requires Inv(s) && s.current != s.root && s.fibers[s.current].prev == Some(p) && p != s.current
    ensures Inv(Switch(Unlink(Dead(s)), p, false, false))
  {
    DeadKeeps(s);
    UnlinkKeeps(Dead(s));
    SwitchKeeps(Unlink(Dead(s)), p, false);
    assert s.fibers[p].resuming == Some(s.current) && FibOk(s, p) && FibOk(s, s.current);
    hide Acyclic, Linked;
    DeadUnlinkedOk(s, p);
  }

  lemma DeadToOther(s: State, e: Id)
    requires Inv(s) && s.current != s.root && s.fibers[s.current].prev == None
    requires e in s.fibers && e != s.current && s.fibers[e].status == Suspended
    requires s.fibers[e].resuming == None && !s.fibers[e].yielding
    ensures Inv(Switch(Dead(s), e, false, false))
  {
    DeadKeeps(s);
    SwitchKeeps(Dead(s), e, false);
    assert FibOk(s, e) && FibOk(s, s.current);
    hide Acyclic, Linked;
    DeadOk(s, e);
  }

  // ---- what the parts of a step keep ----

  // The links are as they were.
  ghost predicate SameLinks(s: State, t: State)
  {
    && t.fibers.Keys == s.fibers.Keys
    && forall f :: f in s.fibers ==> t.fibers[f].prev == s.fibers[f].prev && t.fibers[f].resuming == s.fibers[f].resuming
  }

  lemma SameKeep(s: State, t: State)
    requires Linked(s) && Acyclic(s) && SameLinks(s, t)
    ensures Linked(t) && Acyclic(t)
  {
    assert Linked(t) by { hide Acyclic; }
    var rank :| Ranked(s, rank);
    assert Ranked(t, rank) by { hide Linked; }
  }

  lemma DeadKeeps(s: State)
    requires s.current in s.fibers && Linked(s) && Acyclic(s)
    ensures Linked(Dead(s)) && Acyclic(Dead(s))
  {
    hide Linked, Acyclic;
    SameKeep(s, Dead(s));
  }

  lemma SwitchKeeps(s: State, f: Id, yielding: bool)
    requires s.current in s.fibers && f in s.fibers && f != s.current && Linked(s) && Acyclic(s)
    ensures Linked(Switch(s, f, false, yielding)) && Acyclic(Switch(s, f, false, yielding))
  {
    hide Linked, Acyclic;
    SameKeep(s, Switch(s, f, false, yielding));
  }

  lemma UnlinkKeeps(s: State)
    requires s.current in s.fibers && s.fibers[s.current].prev.Some? && s.fibers[s.current].prev.value in s.fibers
    requires Linked(s) && Acyclic(s) && s.fibers[s.current].prev.value != s.current
    ensures Linked(Unlink(s)) && Acyclic(Unlink(s))
  {
    var rank :| Ranked(s, rank);
    hide Acyclic, Ranked;
    UnlinkLinked(s);
    UnlinkRanked(s, rank);
    RankedAcyclic(Unlink(s), rank);
  }

  lemma RankedAcyclic(s: State, rank: map<Id, nat>)
    requires Ranked(s, rank)
    ensures Acyclic(s)
  {
    hide Ranked;
  }

  lemma UnlinkRanked(s: State, rank: map<Id, nat>)
    requires s.current in s.fibers && s.fibers[s.current].prev.Some? && s.fibers[s.current].prev.value in s.fibers
    requires Ranked(s, rank) && s.fibers[s.current].prev.value != s.current
    ensures Ranked(Unlink(s), rank)
  {
  }

  lemma UnlinkLinked(s: State)
    requires s.current in s.fibers && s.fibers[s.current].prev.Some? && s.fibers[s.current].prev.value in s.fibers
    requires Linked(s) && s.fibers[s.current].prev.value != s.current
    ensures Linked(Unlink(s))
  {
    var p, t := s.fibers[s.current].prev.value, Unlink(s);
    assert s.fibers[p].resuming == Some(s.current);
    forall f | f in t.fibers && t.fibers[f].prev.Some?
      ensures t.fibers[f].prev.value in t.fibers && t.fibers[t.fibers[f].prev.value].resuming == Some(f)
    {
      assert s.fibers[f].prev.Some? && s.fibers[s.fibers[f].prev.value].resuming == Some(f);
    }
    forall g | g in t.fibers && t.fibers[g].resuming.Some?
      ensures t.fibers[g].resuming.value in t.fibers && t.fibers[t.fibers[g].resuming.value].prev == Some(g)
    {
      assert s.fibers[g].resuming.Some? && s.fibers[s.fibers[g].resuming.value].prev == Some(g);
    }
  }

  lemma UnlinkedOk(s: State, p: Id, yielding: bool)
    requires s.current in s.fibers && p in s.fibers && p != s.current && s.fibers[s.current].prev == Some(p) && AllOk(s)
    requires s.fibers[p].resuming == Some(s.current)
    ensures AllOk(Switch(Unlink(s), p, false, yielding))
  {
    forall f | f in s.fibers ensures FibOk(Switch(Unlink(s), p, false, yielding), f) {
      assert FibOk(s, f) && FibOk(s, p) && FibOk(s, s.current);
    }
  }

  lemma DeadUnlinkedOk(s: State, p: Id)
    requires s.current in s.fibers && p in s.fibers && p != s.current && s.fibers[s.current].prev == Some(p) && AllOk(s)
    requires s.fibers[p].resuming == Some(s.current) && s.current != s.root
    ensures AllOk(Switch(Unlink(Dead(s)), p, false, false))
  {
    forall f | f in s.fibers ensures FibOk(Switch(Unlink(Dead(s)), p, false, false), f) {
      assert FibOk(s, f) && FibOk(s, p) && FibOk(s, s.current);
    }
  }

  lemma DeadOk(s: State, e: Id)
    requires s.current in s.fibers && e in s.fibers && e != s.current && s.fibers[s.current].prev == None && AllOk(s)
    requires s.fibers[e].status == Suspended && s.fibers[e].resuming == None && !s.fibers[e].yielding
    requires s.current != s.root
    ensures AllOk(Switch(Dead(s), e, false, false))
  {
    forall f | f in s.fibers ensures FibOk(Switch(Dead(s), e, false, false), f) {
      assert FibOk(s, f) && FibOk(s, e) && FibOk(s, s.current);
    }
  }

  // Termination hands control to a fiber that is suspended and not waiting in a yield: the
  // "destination is dead too" branch of fiber_switch cannot be reached.
  lemma TerminateLive(s: State)
    requires Inv(s) && s.current != s.root
    ensures Terminate(s).current in s.fibers && Terminate(s).current != s.current
    ensures s.fibers[Terminate(s).current].status == Suspended && !s.fibers[Terminate(s).current].yielding
  {
    if s.fibers[s.current].prev.Some? {
      NotOwnPrev(s, s.current);
    } else {
      var dead := s.(fibers := s.fibers[s.current := s.fibers[s.current].(status := Terminated)]);
      TerminateSearch(s, dead);
      assert dead.fibers.Keys == s.fibers.Keys;
    }
  }

  // No fiber is reached from itself along prev links.
  ghost predicate PrevPath(s: State, path: seq<Id>)
  {
    forall i :: 0 <= i < |path| - 1 ==>
      path[i] in s.fibers && s.fibers[path[i]].prev == Some(path[i + 1])
  }

  lemma {:induction false} PathDescends(s: State, rank: map<Id, nat>, path: seq<Id>)
    requires Ranked(s, rank) && PrevPath(s, path) && 2 <= |path|
    ensures path[0] in rank && path[|path| - 1] in rank && rank[path[|path| - 1]] < rank[path[0]]
  {
    assert s.fibers[path[0]].prev == Some(path[1]);
    if 2 < |path| {
      PathDescends(s, rank, path[1..]);
    }
  }

  lemma NoCycle(s: State, path: seq<Id>)
    requires Inv(s) && PrevPath(s, path) && 2 <= |path|
    ensures path[0] != path[|path| - 1]
  {
    var rank :| Ranked(s, rank);
    PathDescends(s, rank, path);
  }

  // ---- when a step succeeds, and where it leads ----

  // A fiber can be resumed exactly when it is another one that is new or waits in a yield.
  lemma ResumeWhen(s: State, f: Id)
    requires Inv(s) && f in s.fibers
    ensures Resume(s, f, false).Switched? <==> f != s.current && (s.fibers[f].status == Created || s.fibers[f].yielding)
    ensures Resume(s, f, false) == Failed(ResumeTerminated) <==> s.fibers[f].status == Terminated
    ensures Resume(s, f, false) == Failed(ResumeCurrent) <==> f == s.current
    ensures Resume(s, f, false) == Failed(DoubleResume) <==> f != s.current && s.fibers[f].prev.Some?
    ensures Resume(s, f, false) == Failed(ResumeResuming)
       <==> f != s.current && s.fibers[f].prev == None && s.fibers[f].resuming.Some?
    ensures Resume(s, f, false) == Failed(ResumeTransferring)
       <==> s.fibers[f].status == Suspended && s.fibers[f].prev == None && s.fibers[f].resuming == None && !s.fibers[f].yielding
  {
    assert FibOk(s, f) && FibOk(s, s.current);
    hide Linked, Acyclic, AllOk;
  }

  // Resuming enters the fiber and links it to the one it came from.
  lemma ResumeEnters(s: State, f: Id)
    requires Inv(s) && f in s.fibers && f != s.current && (s.fibers[f].status == Created || s.fibers[f].yielding)
    ensures var s' := Next(s, ResumeFiber(f));
            && s'.current == f && f in s'.fibers && s.current in s'.fibers
            && s'.fibers[f] == Fib(Resumed, Some(s.current), None, false, s.fibers[f].blocking)
            && s'.fibers[s.current].status == Suspended && s'.fibers[s.current].resuming == Some(f)
            && !s'.fibers[s.current].yielding && s'.fibers[s.current].prev == s.fibers[s.current].prev
  {
    ResumeWhen(s, f);
    assert FibOk(s, f) && FibOk(s, s.current);
    hide Linked, Acyclic, AllOk;
  }

  // What is resumed and yields is back where it came from, with the fiber waiting in the yield.
  lemma ResumeAndYield(s: State, f: Id)
    requires Inv(s) && f in s.fibers && f != s.current && (s.fibers[f].status == Created || s.fibers[f].yielding)
    ensures var s' := Next(Next(s, ResumeFiber(f)), YieldBack);
            && s'.current == s.current && s'.fibers.Keys == s.fibers.Keys
            && s'.fibers == s.fibers[f := Fib(Suspended, None, None, true, s.fibers[f].blocking)]
            && Resume(s', f, false).Switched?
  {
    ResumeWhen(s, f);
    ResumeEnters(s, f);
    var t := Next(s, ResumeFiber(f));
    YieldWhen(t);
    var s' := Next(t, YieldBack);
    assert FibOk(s, f) && FibOk(s, s.current) && Inv(s');
    hide Linked, Acyclic, AllOk, Inv;
    assert s'.fibers == s.fibers[f := Fib(Suspended, None, None, true, s.fibers[f].blocking)];
    ResumeWhen(s', f);
  }

  // A fiber can yield exactly when it was resumed, and control goes back to the one that resumed it.
  lemma YieldWhen(s: State)
    requires Inv(s)
    ensures Yield(s).Switched? <==> s.fibers[s.current].prev.Some?
    ensures Yield(s).Failed? ==> Yield(s) == Failed(YieldNotResumed)
    ensures Yield(s).Switched? ==>
              var p, s' := s.fibers[s.current].prev.value, Next(s, YieldBack);
              && p in s.fibers && p != s.current && s'.current == p && s'.fibers.Keys == s.fibers.Keys
              && s'.fibers[s.current] == Fib(Suspended, None, None, true, s.fibers[s.current].blocking)
              && s'.fibers[p] == Fib(Resumed, s.fibers[p].prev, None, false, s.fibers[p].blocking)
  {
    if s.fibers[s.current].prev.Some? {
      var p := s.fibers[s.current].prev.value;
      NotOwnPrev(s, s.current);
      assert s.fibers[p].resuming == Some(s.current) && FibOk(s, p) && FibOk(s, s.current);
    }
    hide Linked, Acyclic, AllOk;
  }

  // A fiber can be transferred to exactly when it is current, or new, or suspended outside a yield and not
  // waiting for a fiber it resumed; no link is made.
  lemma TransferWhen(s: State, f: Id)
    requires Inv(s) && f in s.fibers
    ensures Transfer(s, f).Switched?
       <==> || f == s.current || s.fibers[f].status == Created
            || (s.fibers[f].status == Suspended && !s.fibers[f].yielding && s.fibers[f].resuming == None)
    ensures Transfer(s, f) == Failed(TransferResuming) <==> s.fibers[f].resuming.Some?
    ensures Transfer(s, f) == Failed(TransferYielding) <==> s.fibers[f].yielding
    ensures Transfer(s, f) == Failed(DeadFiber) <==> s.fibers[f].status == Terminated
    ensures Transfer(s, s.current) == Switched(s)
    ensures Transfer(s, f).Switched? && f != s.current ==>
              var s' := Next(s, TransferTo(f));
              && s'.current == f && s'.fibers.Keys == s.fibers.Keys
              && s'.fibers[f] == s.fibers[f].(status := Resumed)
              && s'.fibers[s.current] == s.fibers[s.current].(status := Suspended)
  {
    assert FibOk(s, f) && FibOk(s, s.current);
    hide Linked, Acyclic, AllOk;
  }

  // Raising enters a fiber exactly when it is suspended and not waiting for a fiber it resumed; one that had
  // yielded is linked to the fiber that raises, as if resumed.
  lemma RaiseWhen(s: State, f: Id)
    requires Inv(s) && f in s.fibers
    ensures Raise(s, f).Switched? <==> s.fibers[f].status == Suspended && s.fibers[f].resuming == None
    ensures Raise(s, f) == Failed(RaiseOnUnborn) <==> s.fibers[f].status == Created
    ensures Raise(s, f) == Failed(RaiseResuming) <==> s.fibers[f].resuming.Some?
    ensures Raise(s, f) == Failed(ResumeTerminated) <==> s.fibers[f].status == Terminated
    ensures Raise(s, f) == Failed(ResumeCurrent) <==> f == s.current
    ensures Raise(s, f).Switched? ==>
              var s' := Next(s, RaiseIn(f));
              && s'.current == f && s'.fibers.Keys == s.fibers.Keys
              && s'.fibers[f].status == Resumed && !s'.fibers[f].yielding && s'.fibers[s.current].status == Suspended
              && s'.fibers[f].prev == (if s.fibers[f].yielding then Some(s.current) else s.fibers[f].prev)
              && s'.fibers[s.current].resuming == (if s.fibers[f].yielding then Some(f) else None)
  {
    assert FibOk(s, f) && FibOk(s, s.current);
    hide Linked, Acyclic, AllOk;
  }

  // The fiber that resumed the dying one goes on, free to act.
  lemma FinishReturns(s: State)
    requires Inv(s) && s.current != s.root
    ensures var s' := Next(s, Finish);
            && s'.fibers.Keys == s.fibers.Keys && s'.fibers[s.current].status == Terminated
            && s'.fibers[s.current].prev == None && s'.current != s.current
            && (s.fibers[s.current].prev.Some? ==> s'.current == s.fibers[s.current].prev.value)
            && s'.fibers[s'.current].resuming == None
  {
    TerminateLive(s);
    if s.fibers[s.current].prev.Some? {
      NotOwnPrev(s, s.current);
    } else {
      TerminateSearch(s, Dead(s));
      hide ChainEnd, Searching;
    }
    hide Acyclic;
  }

  // Fibers from the first on, each of which has resumed the next
  ghost predicate ResumingPath(s: State, path: seq<Id>)
  {
    path != [] && forall i :: 0 <= i < |path| - 1 ==>
      path[i] in s.fibers && s.fibers[path[i]].resuming == Some(path[i + 1])
  }

  lemma {:induction false} ChainPath(s: State, f: Id, seen: set<Id>) returns (path: seq<Id>)
    requires Searching(s, f, seen)
    ensures ResumingPath(s, path) && path[0] == f && path[|path| - 1] == ChainEnd(s, f, seen)
    decreases |s.fibers.Keys - seen|
  {
    if s.fibers[f].resuming == None {
      path := [f];
    } else {
      var next := s.fibers[f].resuming.value;
      Unseen(s, f, seen);
      hide Searching;
      var rest := ChainPath(s, next, seen + {next});
      path := [f] + rest;
      assert forall i :: 0 < i < |path| ==> path[i] == rest[i - 1];
    }
  }

  // When a fiber dies that nobody resumed, control goes down from the root fiber along what was resumed.
  lemma FinishFallsBack(s: State) returns (path: seq<Id>)
    requires Inv(s) && s.current != s.root && s.fibers[s.current].prev == None
    ensures ResumingPath(s, path) && path[0] == s.root && path[|path| - 1] == Next(s, Finish).current
  {
    TerminateSearch(s, Dead(s));
    path := ChainPath(Dead(s), s.root, {s.root});
    hide Inv, ChainEnd, Searching;
  }

  // A new fiber is there, untouched by anyone, and nothing else has changed.
  lemma NewIs(s: State, f: Id, blocking: bool)
    requires Inv(s) && f !in s.fibers
    ensures var s' := Next(s, NewFiber(f, blocking));
            s'.current == s.current && s'.root == s.root
            && s'.fibers == s.fibers[f := Fib(Created, None, None, false, blocking)]
  {
  }

  // ---- whole runs ----

  datatype Action =
    | NewFiber(id: Id, blocking: bool)
    | ResumeFiber(f: Id)
    | TransferTo(f: Id)
    | RaiseIn(f: Id)
    | YieldBack
    | Finish

  function After(s: State, o: Outcome): State
  {
    if o.Switched? then o.state else s
  }

  // What an action does; one that does not apply, or raises FiberError, changes nothing.
  function Next(s: State, a: Action): (s': State)
    requires Inv(s)
    ensures Inv(s')
  {
    match a
    case NewFiber(f, b) =>
      if f in s.fibers then s else NewInv(s, f, b); New(s, f, b)
    case ResumeFiber(f) =>
      if f !in s.fibers || Resume(s, f, false).Failed? then s
      else ResumeInv(s, f, false); Resume(s, f, false).state
    case TransferTo(f) =>
      if f !in s.fibers || Transfer(s, f).Failed? then s
      else TransferInv(s, f); Transfer(s, f).state
    case RaiseIn(f) =>
      if f !in s.fibers || Raise(s, f).Failed? then s
      else RaiseInv(s, f); Raise(s, f).state
    case YieldBack =>
      if Yield(s).Failed? then s else YieldInv(s); Yield(s).state
    case Finish =>
      if s.current == s.root then s else TerminateInv(s); Terminate(s)
  }

  // The FiberError that it raises, if any
  function Report(s: State, a: Action): Option<FiberError>
    requires Inv(s)
  {
    var o := match a
      case ResumeFiber(f) => if f in s.fibers then Resume(s, f, false) else Switched(s)
      case TransferTo(f) => if f in s.fibers then Transfer(s, f) else Switched(s)
      case RaiseIn(f) => if f in s.fibers then Raise(s, f) else Switched(s)
      case YieldBack => Yield(s)
      case _ => Switched(s);
    if o.Failed? then Some(o.error) else None
  }

  // The state after any sequence of actions on a new thread.
  function Exec(root: Id, acts: seq<Action>): (s: State)
    ensures Inv(s)
  {
    if acts == [] then InitialInv(root); Initial(root)
    else Next(Exec(root, acts[..|acts| - 1]), acts[|acts| - 1])
  }

  // The errors raised on the way
  function Reports(root: Id, acts: seq<Action>): seq<Option<FiberError>>
  {
    if acts == [] then []
    else
      var before := acts[..|acts| - 1];
      Reports(root, before) + [Report(Exec(root, before), acts[|acts| - 1])]
  }

  lemma {:induction false} ExecSplit(root: Id, before: seq<Action>, a: Action, later: seq<Action>)
    ensures Exec(root, before + later + [a]) == Next(Exec(root, before + later), a)
  {
    var all := before + later + [a];
    assert all[..|all| - 1] == before + later;
  }

  // ---- the lifecycle rules ----

  // A step changes at most the fiber it leaves and the fiber it enters.
  lemma OnlyTwoChange(s: State, a: Action, f: Id)
    requires Inv(s) && f in s.fibers && f != s.current && f != Next(s, a).current
    ensures f in Next(s, a).fibers && Next(s, a).fibers[f] == s.fibers[f]
  {
    hide Acyclic, Linked, Searching, ChainEnd;
  }

  // It enters only a fiber that was created or suspended.
  lemma EntersRunnable(s: State, a: Action)
    requires Inv(s) && Next(s, a).current != s.current
    ensures Next(s, a).current in s.fibers
    ensures s.fibers[Next(s, a).current].status == Created || s.fibers[Next(s, a).current].status == Suspended
  {
    if a == Finish {
      TerminateLive(s);
    }
  }

  // A terminated fiber stays terminated.
  lemma DeadStaysDead(s: State, a: Action, f: Id)
    requires Inv(s) && f in s.fibers && s.fibers[f].status == Terminated
    ensures f in Next(s, a).fibers && Next(s, a).fibers[f].status == Terminated
  {
    assert FibOk(s, f);
    hide Next;
    if Next(s, a).current != s.current {
      EntersRunnable(s, a);
    }
    OnlyTwoChange(s, a, f);
  }

  // Started, not linked to a resumer and not inside a yield: what a fiber is that transfer started.
  ghost predicate TransferBorn(s: State, f: Id)
  {
    f in s.fibers && s.fibers[f].status != Created && s.fibers[f].prev == None && !s.fibers[f].yielding
  }

  lemma TransferStarts(s: State, f: Id)
    requires Inv(s) && f in s.fibers && s.fibers[f].status == Created
    ensures TransferBorn(Next(s, TransferTo(f)), f)
  {
  }

  lemma TransferBornKept(s: State, a: Action, f: Id)
    requires Inv(s) && TransferBorn(s, f)
    ensures TransferBorn(Next(s, a), f)
  {
    hide Acyclic, Linked, Searching, ChainEnd;
    match a
    case NewFiber(g, b) =>
    case ResumeFiber(g) =>
    case TransferTo(g) =>
    case RaiseIn(g) =>
    case YieldBack =>
      if s.fibers[s.current].prev.Some? { NotOwnPrev(s, s.current); }
    case Finish =>
      if s.current != s.root { TerminateLive(s); }
  }

  lemma {:induction false} TransferBornForever(root: Id, before: seq<Action>, f: Id, later: seq<Action>)
    requires f in Exec(root, before).fibers && Exec(root, before).fibers[f].status == Created
    ensures TransferBorn(Exec(root, before + [TransferTo(f)] + later), f)
    decreases |later|
  {
    hide *;
    var start := before + [TransferTo(f)];
    if later == [] {
      assert start + later == before + [] + [TransferTo(f)] && before + [] == before;
      ExecSplit(root, before, TransferTo(f), []);
      TransferStarts(Exec(root, before), f);
    } else {
      var k := |later| - 1;
      TransferBornForever(root, before, f, later[..k]);
      assert start + later == start + later[..k] + [later[k]];
      ExecSplit(root, start, later[k], later[..k]);
      TransferBornKept(Exec(root, start + later[..k]), later[k], f);
    }
  }

  // "If the Fiber's lifecycle had started with transfer, it will never be able to yield or be resumed."
  lemma StartedByTransfer(root: Id, before: seq<Action>, f: Id, later: seq<Action>)
    requires f in Exec(root, before).fibers && Exec(root, before).fibers[f].status == Created
    ensures var s := Exec(root, before + [TransferTo(f)] + later);
            && f in s.fibers
            && Resume(s, f, false).Failed? && Resume(s, f, true).Failed?
            && (s.current == f ==> Yield(s) == Failed(YieldNotResumed))
  {
    TransferBornForever(root, before, f, later);
  }

  // A fiber inside Fiber.yield cannot be transferred to, and leaves the yield only by being resumed.
  lemma YieldedStep(s: State, a: Action, f: Id)
    requires Inv(s) && InYield(s, f)
    ensures InYield(Next(s, a), f) <==> a != ResumeFiber(f) && a != RaiseIn(f)
    ensures a == ResumeFiber(f) || a == RaiseIn(f) ==> Next(s, a).current == f
  {
    hide Acyclic, Linked, Searching, ChainEnd;
    match a
    case NewFiber(g, b) =>
    case ResumeFiber(g) =>
    case TransferTo(g) =>
    case RaiseIn(g) =>
    case YieldBack =>
      if s.fibers[s.current].prev.Some? { NotOwnPrev(s, s.current); }
    case Finish =>
      if s.current != s.root { TerminateLive(s); }
  }

  ghost predicate InYield(s: State, f: Id)
  {
    f in s.fibers && s.fibers[f].yielding
  }

  lemma {:induction false} YieldingForever(root: Id, before: seq<Action>, f: Id, later: seq<Action>)
    requires Yield(Exec(root, before)).Switched? && Exec(root, before).current == f
    requires forall i :: 0 <= i < |later| ==> later[i] != ResumeFiber(f) && later[i] != RaiseIn(f)
    ensures InYield(Exec(root, before + [YieldBack] + later), f)
    decreases |later|
  {
    hide *;
    var start := before + [YieldBack];
    if later == [] {
      assert start + later == before + [] + [YieldBack] && before + [] == before;
      ExecSplit(root, before, YieldBack, []);
      YieldStarts(Exec(root, before));
    } else {
      var k := |later| - 1;
      YieldingForever(root, before, f, later[..k]);
      assert start + later == start + later[..k] + [later[k]];
      ExecSplit(root, start, later[k], later[..k]);
      YieldedStep(Exec(root, start + later[..k]), later[k], f);
    }
  }

  // "If it had yielded, it only can be resumed back."
  lemma YieldedUntilResumed(root: Id, before: seq<Action>, f: Id, later: seq<Action>)
    requires Yield(Exec(root, before)).Switched? && Exec(root, before).current == f
    requires forall i :: 0 <= i < |later| ==> later[i] != ResumeFiber(f) && later[i] != RaiseIn(f)
    ensures var s := Exec(root, before + [YieldBack] + later);
            && f in s.fibers && s.current != f
            && Transfer(s, f) == Failed(TransferYielding)
            && Resume(s, f, false).Switched? && Resume(s, f, false).state.current == f
  {
    YieldingForever(root, before, f, later);
    hide Exec;
    Yielded(Exec(root, before + [YieldBack] + later), f);
  }

  lemma Yielded(s: State, f: Id)
    requires Inv(s) && InYield(s, f)
    ensures f in s.fibers
    ensures s.current != f && Transfer(s, f) == Failed(TransferYielding)
    ensures Resume(s, f, false).Switched? && Resume(s, f, false).state.current == f
  {
  }

  lemma YieldStarts(s: State)
    requires Inv(s) && Yield(s).Switched?
    ensures InYield(Next(s, YieldBack), s.current)
  {
    NotOwnPrev(s, s.current);
  }

  // "If it had transferred, it only can be transferred back": a suspended fiber that is not inside a
  // yield cannot be resumed, and can be transferred to unless it is itself waiting for a fiber it resumed.
  lemma LeftByTransfer(s: State, f: Id)
    requires Inv(s) && f in s.fibers && s.fibers[f].status == Suspended && !s.fibers[f].yielding
    ensures Resume(s, f, false).Failed?
    ensures Transfer(s, f).Switched? <==> s.fibers[f].resuming == None
  {
  }
}
