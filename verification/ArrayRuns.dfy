/**
 Whole runs over a population of arrays that share storage: every sequence of
 operations does to them, and answers, what it would if each were a separate
 plain sequence.
 */
module ArrayRuns {
  import opened SharedHeap
  import opened CowArray

  // Arrays are named by the order in which they came into being.
  datatype Op =
    | New(vals: seq<Value>)
    | PushOp(i: nat, item: Value)
    | CatOp(i: nat, items: seq<Value>)
    | PopOp(i: nat)
    | PopNOp(i: nat, n: int)
    | ShiftOp(i: nat)
    | ShiftNOp(i: nat, n: int)
    | UnshiftOp(i: nat, items: seq<Value>)
    | StoreOp(i: nat, index: int, val: Value)
    | SliceOp(i: nat, beg: int, len: int)
    | ReplaceOp(i: nat, j: nat)
    | ClearOp(i: nat)
    | FreezeOp(i: nat)

  datatype Reply = Done | Item(value: Value) | Created | Missing | Failed(error: Error)

  datatype Answer = Answer(arrays: seq<Plain>, reply: Reply)

  // ---- the plain machine: no storage, no sharing ----

  function Set(p: seq<Plain>, i: nat, elts: seq<Value>): seq<Plain>
    requires i < |p|
  {
    p[i := Plain(elts, false)]
  }

  predicate Names(op: Op, n: nat)
  {
    (op.New? || op.i < n) && (op.ReplaceOp? ==> op.j < n)
  }

  function Step(p: seq<Plain>, op: Op): Answer
    requires Names(op, |p|)
  {
    if op.New? then Answer(p + [Plain(op.vals, false)], Created)
    else if op.FreezeOp? then Answer(p[op.i := Plain(p[op.i].elts, true)], Done)
    else if op.SliceOp? then Sliced(p, op.i, op.beg, op.len)
    else if op.StoreOp? && op.index + |p[op.i].elts| < 0 then Answer(p, Failed(IndexError))
    else if p[op.i].frozen then Answer(p, Failed(FrozenError))
    else Mutated(p, op)
  }

  function Sliced(p: seq<Plain>, i: nat, beg: int, len: int): Answer
    requires i < |p|
  {
    var e := p[i].elts;
    if beg < 0 || len < 0 || beg > |e| then Answer(p, Missing)
    else Answer(p + [Plain(e[beg..if beg + len <= |e| then beg + len else |e|], false)], Created)
  }

  function Mutated(p: seq<Plain>, op: Op): Answer
    requires Names(op, |p|) && !op.New? && !op.FreezeOp? && !op.SliceOp?
    requires op.StoreOp? ==> op.index + |p[op.i].elts| >= 0
  {
    var e := p[op.i].elts;
    match op
    case PushOp(i, item) => Answer(Set(p, i, e + [item]), Done)
    case CatOp(i, items) => Answer(Set(p, i, e + items), Done)
    case PopOp(i) => if e == [] then Answer(p, Item(Nil)) else Answer(Set(p, i, e[..|e| - 1]), Item(e[|e| - 1]))
    case ShiftOp(i) => if e == [] then Answer(p, Item(Nil)) else Answer(Set(p, i, e[1..]), Item(e[0]))
    case PopNOp(i, n) => Split(p, i, n, Last)
    case ShiftNOp(i, n) => Split(p, i, n, First)
    case UnshiftOp(i, items) => Answer(Set(p, i, items + e), Done)
    case StoreOp(i, index, val) => Answer(Set(p, i, Stored(e, if index < 0 then index + |e| else index, val)), Done)
    case ReplaceOp(i, j) => Answer(Set(p, i, p[j].elts), Done)
    case ClearOp(i) => Answer(Set(p, i, []), Done)
  }

  function Split(p: seq<Plain>, i: nat, n: int, end: End): Answer
    requires i < |p|
  {
    if n < 0 then Answer(p, Failed(ArgumentError))
    else Answer(Set(p, i, Left(p[i].elts, n, end)) + [Plain(Taken(p[i].elts, n, end), false)], Created)
  }

  // What the operations do, one by one
  lemma StepIs(p: seq<Plain>, i: nat, item: Value, items: seq<Value>, j: nat)
    requires i < |p| && j < |p| && !p[i].frozen
    ensures var e := p[i].elts;
            && Step(p, PushOp(i, item)) == Answer(p[i := Plain(e + [item], false)], Done)
            && Step(p, CatOp(i, items)) == Answer(p[i := Plain(e + items, false)], Done)
            && Step(p, UnshiftOp(i, items)) == Answer(p[i := Plain(items + e, false)], Done)
            && Step(p, ReplaceOp(i, j)) == Answer(p[i := Plain(p[j].elts, false)], Done)
            && Step(p, ClearOp(i)) == Answer(p[i := Plain([], false)], Done)
            && Step(p, FreezeOp(i)) == Answer(p[i := Plain(e, true)], Done)
            && Step(p, New(items)) == Answer(p + [Plain(items, false)], Created)
    ensures var e := p[i].elts;
            if e == [] then Step(p, PopOp(i)) == Answer(p, Item(Nil)) && Step(p, ShiftOp(i)) == Answer(p, Item(Nil))
            else
              && Step(p, PopOp(i)) == Answer(p[i := Plain(e[..|e| - 1], false)], Item(e[|e| - 1]))
              && Step(p, ShiftOp(i)) == Answer(p[i := Plain(e[1..], false)], Item(e[0]))
  {
  }

  // Splitting off: a negative count is an error, and a large one takes everything.
  lemma StepSplits(p: seq<Plain>, i: nat, n: int)
    requires i < |p| && !p[i].frozen
    ensures n < 0 ==> Step(p, PopNOp(i, n)) == Answer(p, Failed(ArgumentError))
    ensures n < 0 ==> Step(p, ShiftNOp(i, n)) == Answer(p, Failed(ArgumentError))
    ensures n >= 0 ==>
              var e := p[i].elts; var m := if n > |e| then |e| else n;
              && Step(p, PopNOp(i, n)) == Parted(p, i, e[..|e| - m], e[|e| - m..])
              && Step(p, ShiftNOp(i, n)) == Parted(p, i, e[m..], e[..m])
  {
    if n >= 0 {
      SplitParts(p, i, n);
    }
    hide Split, Parted;
  }

  lemma SplitParts(p: seq<Plain>, i: nat, n: nat)
    requires i < |p|
    ensures var e := p[i].elts; var m := if n > |e| then |e| else n;
            && Split(p, i, n, Last) == Parted(p, i, e[..|e| - m], e[|e| - m..])
            && Split(p, i, n, First) == Parted(p, i, e[m..], e[..m])
  {
  }

  // Array i keeps some elements, and a new array has the others.
  function Parted(p: seq<Plain>, i: nat, kept: seq<Value>, others: seq<Value>): Answer
    requires i < |p|
  {
    Answer(p[i := Plain(kept, false)] + [Plain(others, false)], Created)
  }

  // Indices from the end: one before the beginning is an error.
  lemma StepStores(p: seq<Plain>, i: nat, n: int, val: Value)
    requires i < |p| && !p[i].frozen
    ensures var e := p[i].elts; var k := if n < 0 then n + |e| else n;
            Step(p, StoreOp(i, n, val))
            == if k < 0 then Answer(p, Failed(IndexError)) else Answer(p[i := Plain(Stored(e, k, val), false)], Done)
  {
  }

  // Ranges: one that begins beyond the end is missing, and one that ends there is cut.
  lemma StepSlices(p: seq<Plain>, i: nat, n: int, len: int)
    requires i < |p|
    ensures var e := p[i].elts;
            if n < 0 || len < 0 || n > |e| then Step(p, SliceOp(i, n, len)) == Answer(p, Missing)
            else
              var to := if n + len <= |e| then n + len else |e|;
              Step(p, SliceOp(i, n, len)) == Answer(p + [Plain(e[n..to], false)], Created)
  {
  }

  // A frozen array refuses every change.
  lemma StepFrozen(p: seq<Plain>, op: Op)
    requires Names(op, |p|) && !op.New? && p[op.i].frozen
    ensures !op.StoreOp? && !op.FreezeOp? && !op.SliceOp? ==> Step(p, op) == Answer(p, Failed(FrozenError))
    ensures op.StoreOp? ==>
              Step(p, op) == Answer(p, Failed(if op.index + |p[op.i].elts| < 0 then IndexError else FrozenError))
    ensures op.FreezeOp? ==> Step(p, op) == Answer(p, Done)
  {
    assert p[op.i := p[op.i]] == p;
  }

  // ---- the shared arrays stand for the plain ones ----

  ghost predicate Stands(m: map<RArray, Plain>, names: seq<RArray>, p: seq<Plain>)
  {
    && |names| == |p|
    && (forall i :: 0 <= i < |names| ==> names[i] in m && m[names[i]] == p[i])
    && (forall i, j :: 0 <= i < j < |names| ==> names[i] != names[j])
  }

  lemma StandsSet(m: map<RArray, Plain>, names: seq<RArray>, p: seq<Plain>, i: nat, x: Plain)
    requires Stands(m, names, p) && i < |names|
    ensures Stands(m[names[i] := x], names, p[i := x])
  {
  }

  lemma StandsNew(m: map<RArray, Plain>, names: seq<RArray>, p: seq<Plain>, a: RArray, x: Plain)
    requires Stands(m, names, p) && a !in m
    ensures Stands(m[a := x], names + [a], p + [x])
  {
  }

  function ReplyOf(r: Result<()>): Reply
  {
    if r.Ok? then Done else Failed(r.error)
  }

  function ReplyItem(r: Result<Value>): Reply
  {
    if r.Ok? then Item(r.value) else Failed(r.error)
  }

  // One operation on the shared arrays.
  method Apply(s: ObjectSpace, names: seq<RArray>, op: Op, ghost p: seq<Plain>) returns (names': seq<RArray>, reply: Reply)
    requires s.Valid() && Stands(s.model, names, p) && Names(op, |names|)
    modifies s, s.repr
    ensures s.Valid() && fresh(s.repr - old(s.repr))
    ensures Stands(s.model, names', Step(p, op).arrays) && reply == Step(p, op).reply
  {
    names' := names;
    if op.New? {
      var a := NewFromValues(s, op.vals);
      StandsNew(old(s.model), names, p, a, Plain(op.vals, false));
      return names + [a], Created;
    }
    var a := names[op.i];
    ghost var i := op.i;
    match op
    case PushOp(_, item) =>
      var r := Push(s, a, item);
      reply := ReplyOf(r);
      StandsSet(old(s.model), names, p, i, Plain(p[i].elts + [item], false));
    case CatOp(_, items) =>
      var r := Cat(s, a, items);
      reply := ReplyOf(r);
      StandsSet(old(s.model), names, p, i, Plain(p[i].elts + items, false));
    case UnshiftOp(_, items) =>
      var r := Unshift(s, a, items);
      reply := ReplyOf(r);
      StandsSet(old(s.model), names, p, i, Plain(items + p[i].elts, false));
    case StoreOp(_, index, val) =>
      var r := Store(s, a, index, val);
      reply := ReplyOf(r);
      ghost var idx := if index < 0 then index + |p[i].elts| else index;
      if idx >= 0 {
        StandsSet(old(s.model), names, p, i, Plain(Stored(p[i].elts, idx, val), false));
      }
    case ReplaceOp(_, j) =>
      var r := Replace(s, a, names[j]);
      reply := ReplyOf(r);
      StandsSet(old(s.model), names, p, i, Plain(p[j].elts, false));
    case ClearOp(_) =>
      var r := Clear(s, a);
      reply := ReplyOf(r);
      StandsSet(old(s.model), names, p, i, Plain([], false));
    case FreezeOp(_) =>
      Freeze(s, a);
      reply := Done;
      StandsSet(old(s.model), names, p, i, Plain(p[i].elts, true));
    case PopOp(_) => reply := ApplyPop(s, names, i, a, p);
    case ShiftOp(_) => reply := ApplyShift(s, names, i, a, p);
    case PopNOp(_, n) => names', reply := ApplySplit(s, names, op, a, n, Last, p);
    case ShiftNOp(_, n) => names', reply := ApplySplit(s, names, op, a, n, First, p);
    case SliceOp(_, beg, len) => names', reply := ApplySlice(s, names, i, a, beg, len, p);
  }

  method ApplyPop(s: ObjectSpace, names: seq<RArray>, ghost i: nat, a: RArray, ghost p: seq<Plain>) returns (reply: Reply)
    requires s.Valid() && Stands(s.model, names, p) && i < |names| && a == names[i]
    modifies s, s.repr
    ensures s.Valid() && fresh(s.repr - old(s.repr))
    ensures Stands(s.model, names, Step(p, PopOp(i)).arrays) && reply == Step(p, PopOp(i)).reply
  {
    ghost var e := p[i].elts;
    var r := Pop(s, a);
    reply := ReplyItem(r);
    if e != [] {
      StandsSet(old(s.model), names, p, i, Plain(e[..|e| - 1], false));
    }
  }

  method ApplyShift(s: ObjectSpace, names: seq<RArray>, ghost i: nat, a: RArray, ghost p: seq<Plain>) returns (reply: Reply)
    requires s.Valid() && Stands(s.model, names, p) && i < |names| && a == names[i]
    modifies s, s.repr
    ensures s.Valid() && fresh(s.repr - old(s.repr))
    ensures Stands(s.model, names, Step(p, ShiftOp(i)).arrays) && reply == Step(p, ShiftOp(i)).reply
  {
    ghost var e := p[i].elts;
    var r := Shift(s, a);
    reply := ReplyItem(r);
    if e != [] {
      StandsSet(old(s.model), names, p, i, Plain(e[1..], false));
    }
  }

  method ApplySplit(s: ObjectSpace, names: seq<RArray>, op: Op, a: RArray, n: int, end: End, ghost p: seq<Plain>)
    returns (names': seq<RArray>, reply: Reply)
    requires s.Valid() && Stands(s.model, names, p)
    requires !op.New? && op.i < |names| && a == names[op.i]
    requires op == (if end == First then ShiftNOp(op.i, n) else PopNOp(op.i, n))
    modifies s, s.repr
    ensures s.Valid() && fresh(s.repr - old(s.repr))
    ensures Stands(s.model, names', Step(p, op).arrays) && reply == Step(p, op).reply
  {
    ghost var i := op.i;
    var r;
    if end == First {
      r := ShiftN(s, a, n);
    } else {
      r := PopN(s, a, n);
    }
    if r.Raised? {
      return names, Failed(r.error);
    }
    var b := r.value;
    ghost var taken, left := Plain(Taken(p[i].elts, n, end), false), Plain(Left(p[i].elts, n, end), false);
    StandsNew(old(s.model), names, p, b, taken);
    StandsSet(old(s.model)[b := taken], names + [b], p + [taken], i, left);
    assert (p + [taken])[i := left] == p[i := left] + [taken];
    return names + [b], Created;
  }

  method ApplySlice(s: ObjectSpace, names: seq<RArray>, ghost i: nat, a: RArray, beg: int, len: int, ghost p: seq<Plain>)
    returns (names': seq<RArray>, reply: Reply)
    requires s.Valid() && Stands(s.model, names, p) && i < |names| && a == names[i]
    modifies s, s.repr
    ensures s.Valid() && fresh(s.repr - old(s.repr))
    ensures Stands(s.model, names', Step(p, SliceOp(i, beg, len)).arrays)
    ensures reply == Step(p, SliceOp(i, beg, len)).reply
  {
    var b := Subseq(s, a, beg, len);
    if b == null {
      return names, Missing;
    }
    StandsNew(old(s.model), names, p, b, s.model[b]);
    return names + [b], Created;
  }

  // ---- whole runs ----

  // Operations on arrays that do not exist are passed over.
  function Run(ops: seq<Op>): (seq<Plain>, seq<Reply>)
  {
    if ops == [] then ([], [])
    else
      var (p, replies) := Run(ops[..|ops| - 1]);
      var op := ops[|ops| - 1];
      if Names(op, |p|) then (Step(p, op).arrays, replies + [Step(p, op).reply])
      else (p, replies + [Missing])
  }

  // A run does its operations one after the other; one that names no array is passed over.
  lemma RunIs(ops: seq<Op>, op: Op)
    ensures Run([]) == ([], [])
    ensures var (p, replies) := Run(ops);
            if (op.New? || op.i < |p|) && (op.ReplaceOp? ==> op.j < |p|)
            then Run(ops + [op]) == (Step(p, op).arrays, replies + [Step(p, op).reply])
            else Run(ops + [op]) == (p, replies + [Missing])
  {
    assert (ops + [op])[..|ops|] == ops;
  }

  // Non-interference: a run over shared storage is the plain run.
  method RunShared(ops: seq<Op>) returns (s: ObjectSpace, names: seq<RArray>, replies: seq<Reply>)
    ensures s.Valid() && Stands(s.model, names, Run(ops).0)
    ensures replies == Run(ops).1
  {
    s := new ObjectSpace();
    names, replies := [], [];
    ghost var p: seq<Plain> := [];
    var k := 0;
    while k < |ops|
      invariant k <= |ops| && s.Valid() && fresh(s) && fresh(s.repr)
      invariant (p, replies) == Run(ops[..k]) && Stands(s.model, names, p)
    {
      assert ops[..k + 1][..k] == ops[..k];
      if Names(ops[k], |names|) {
        var reply;
        ghost var next := Step(p, ops[k]).arrays;
        names, reply := Apply(s, names, ops[k], p);
        p := next;
        replies := replies + [reply];
      } else {
        replies := replies + [Missing];
      }
      k := k + 1;
    }
    assert ops[..k] == ops;
  }

  // An operation changes no array but its receiver, and adds at most one.
  lemma StepKeepsOthers(p: seq<Plain>, op: Op, j: nat)
    requires Names(op, |p|) && j < |p| && (op.New? || op.i != j)
    ensures |p| <= |Step(p, op).arrays| <= |p| + 1 && Step(p, op).arrays[j] == p[j]
  {
  }

  // A slice or copy is a snapshot: whatever happens to the others, an array that is never the receiver
  // keeps its elements to the end of the run.
  lemma {:induction false} RunKeepsSnapshot(before: seq<Op>, later: seq<Op>, j: nat)
    requires j < |Run(before).0|
    requires forall k :: 0 <= k < |later| ==> later[k].New? || later[k].i != j
    ensures j < |Run(before + later).0| && Run(before + later).0[j] == Run(before).0[j]
  {
    if later == [] {
      assert before + later == before;
    } else {
      var k := |later| - 1;
      RunKeepsSnapshot(before, later[..k], j);
      assert (before + later)[..|before + later| - 1] == before + later[..k];
      var p := Run(before + later[..k]).0;
      if Names(later[k], |p|) {
        StepKeepsOthers(p, later[k], j);
      }
    }
  }
}
