/**
 The generators of array.c behind permutation, combination, repeated_permutation and
 repeated_combination.  Each runs a search over arrays it updates in place, and is
 proved to yield the tuples of its family, all of them, in lexicographic order.
 */
module Enumerate {
  import opened Tuples

  // ---- permute0 ----

  // memchr for a zero byte: the first index from i on that is not used, or n
  method Unused(used: array<bool>, i: nat) returns (u: nat)
    requires i <= used.Length
    ensures i <= u <= used.Length && (u < used.Length ==> !used[u])
    ensures forall v :: i <= v < u ==> used[v]
  {
    u := i;
    while u < used.Length && used[u]
      invariant i <= u <= used.Length
      invariant forall v :: i <= v < u ==> used[v]
    {
      u := u + 1;
    }
  }

  // `used` marks the chosen indices, which are different.
  ghost predicate Marks(used: seq<bool>, chosen: Tuple)
  {
    && (forall v :: 0 <= v < |used| ==> (used[v] <==> v in chosen))
    && (forall j :: 0 <= j < |chosen| ==> chosen[j] < |used|)
    && (forall j, k :: 0 <= j < k < |chosen| ==> chosen[j] != chosen[k])
  }

  lemma MarkAdd(used: seq<bool>, chosen: Tuple, v: nat)
    requires Marks(used, chosen) && v < |used| && !used[v]
    ensures Marks(used[v := true], chosen + [v]) && v !in chosen
  {
  }

  lemma MarkedMayNot(f: Family, used: seq<bool>, chosen: Tuple, i: nat, j: nat)
    requires Marks(used, chosen) && i <= j <= |used| && f.kind == Permutation
    requires forall v :: i <= v < j ==> used[v]
    ensures forall v :: i <= v < j ==> !May(f, chosen, v)
  {
  }

  lemma MarkDrop(used: seq<bool>, chosen: Tuple)
    requires Marks(used, chosen) && chosen != []
    ensures Marks(used[chosen[|chosen| - 1] := false], chosen[..|chosen| - 1])
  {
    var last, rest := chosen[|chosen| - 1], chosen[..|chosen| - 1];
    forall v | 0 <= v < |used| ensures used[last := false][v] <==> v in rest {
      if v in chosen {
        var j :| 0 <= j < |chosen| && chosen[j] == v;
        assert v != last ==> rest[j] == v;
      }
    }
  }

  method NextUnused(ghost f: Family, used: array<bool>, i: nat, ghost prefix: Tuple) returns (u: nat)
    requires i <= used.Length == f.n && f.kind == Permutation && |prefix| < f.r && Marks(used[..], prefix)
    ensures i <= u <= used.Length && (u < used.Length ==> !used[u])
    ensures After(f, prefix, u) == After(f, prefix, i) && Steps(f, prefix, u) <= Steps(f, prefix, i)
  {
    hide From, Under, After, Steps, StepsFrom, Marks;
    u := Unused(used, i);
    MarkedMayNot(f, used[..], prefix, i, u);
    SkipTo(f, prefix, i, u);
    StepsSkip(f, prefix, i, u);
  }

  method Permute0(n: nat, r: nat, p: array<nat>, used: array<bool>) returns (out: seq<Tuple>)
    requires 2 <= r == p.Length && n == used.Length && forall v :: 0 <= v < n ==> !used[v]
    modifies p, used
    ensures out == All(Family(Permutation, n, r))
  {
    ghost var f := Family(Permutation, n, r);
    var i: nat, index: nat := 0, 0;
    out := [];
    ghost var prefix: Tuple := [];
    assert out + After(f, [], 0) == All(f);
    assert Marks(used[..], prefix);
    hide From, Under, After, All, Steps, StepsFrom, Marks;
    ghost var left := Steps(f, prefix, i);
    while true
      invariant index < r - 1 && i <= n && prefix == p[..index] && Marks(used[..], prefix)
      invariant out + After(f, prefix, i) == All(f) && left == Steps(f, prefix, i)
      decreases left
    {
      var unused := NextUnused(f, used, i, prefix);
      if unused == n {
        if index == 0 {
          assert prefix == [];
          Finished(f, out);
          break;
        }
        index, prefix := Resume(f, p, used, index, prefix);
        i := p[index];
        i := i + 1;
        left := Steps(f, prefix, i);
      } else {
        index, i, out, prefix := Choose(n, r, p, used, index, unused, out, prefix);
        left := Steps(f, prefix, i);
      }
    }
  }

  // i is put in its place; below it either the search goes on or the last indices are yielded.
  method Choose(n: nat, r: nat, p: array<nat>, used: array<bool>, index0: nat, i0: nat, out0: seq<Tuple>, ghost prefix: Tuple)
    returns (index: nat, i: nat, out: seq<Tuple>, ghost prefix': Tuple)
    requires index0 + 1 < r == p.Length && i0 < n == used.Length && !used[i0]
    requires prefix == p[..index0] && Marks(used[..], prefix)
    modifies p, used
    ensures index < r - 1 && i <= n && prefix' == p[..index] && Marks(used[..], prefix')
    ensures var f := Family(Permutation, n, r);
            && out + After(f, prefix', i) == out0 + After(f, prefix, i0)
            && Steps(f, prefix', i) < Steps(f, prefix, i0)
  {
    ghost var f := Family(Permutation, n, r);
    hide From, Under, After, Steps, StepsFrom;
    i, index, out := i0, index0, out0;
    ghost var longer := prefix + [i];
    MarkAdd(used[..], prefix, i);
    p[index] := i;
    used[i] := true;
    index := index + 1;
    assert p[..index] == longer;
    Descend(f, prefix, i);
    if index < r - 1 {
      StepsDescend(f, prefix, i);
      i := 0;
      p[index] := i;
      prefix' := longer;
    } else {
      out := YieldLast(n, r, p, used, out);
      Ascend(f, longer, n);
      StepsSkip(f, prefix, i, i + 1);
      assert longer[..|longer| - 1] == prefix && longer[|longer| - 1] == i;
      index := Back(p, used, index, longer);
      i := p[index] + 1;
      p[index] := i;
      prefix' := prefix;
    }
  }

  lemma Finished(f: Family, out: seq<Tuple>)
    requires 0 < f.r
    ensures out + After(f, [], f.n) == out
  {
    Ascend(f, [], f.n);
    assert out + [] == out;
  }

  // The search goes on after the last chosen index.
  method Resume(ghost f: Family, p: array<nat>, used: array<bool>, index0: nat, ghost prefix0: Tuple)
    returns (index: nat, ghost prefix: Tuple)
    requires 0 < index0 < p.Length == f.r && used.Length == f.n && prefix0 == p[..index0] && Marks(used[..], prefix0)
    modifies used
    ensures index == index0 - 1 && p[index] < used.Length && prefix == p[..index] && Marks(used[..], prefix)
    ensures After(f, prefix, p[index] + 1) == After(f, prefix0, f.n)
    ensures Steps(f, prefix, p[index] + 1) < Steps(f, prefix0, f.n)
  {
    hide From, Under, After, Steps, StepsFrom;
    Ascend(f, prefix0, f.n);
    StepsAscend(f, prefix0, f.n);
    index := Back(p, used, index0, prefix0);
    prefix := prefix0[..index];
  }

  // The last chosen index is taken back.
  method Back(p: array<nat>, used: array<bool>, index0: nat, ghost prefix: Tuple) returns (index: nat)
    requires 0 < index0 <= p.Length && prefix == p[..index0] && Marks(used[..], prefix)
    modifies used
    ensures index == index0 - 1 && Marks(used[..], prefix[..index]) && p[index] < used.Length
  {
    index := index0 - 1;
    MarkDrop(used[..], prefix);
    used[p[index]] := false;
  }

  // The loop over the last index of a permutation
  method YieldLast(n: nat, r: nat, p: array<nat>, used: array<bool>, out0: seq<Tuple>) returns (out: seq<Tuple>)
    requires 1 <= r == p.Length && n == used.Length && Marks(used[..], p[..r - 1])
    modifies p
    ensures p[..r - 1] == old(p[..r - 1])
    ensures var f := Family(Permutation, n, r);
            out + After(f, p[..r - 1], n) == out0 + After(f, p[..r - 1], 0)
  {
    ghost var f := Family(Permutation, n, r);
    ghost var prefix := p[..r - 1];
    out := out0;
    for i := 0 to n
      invariant p[..r - 1] == prefix
      invariant out + After(f, prefix, i) == out0 + After(f, prefix, 0)
    {
      if used[i] {
        SkipTo(f, prefix, i, i + 1);
        continue;
      }
      p[r - 1] := i;
      Emit(f, prefix, i);
      assert p[..] == prefix + [i];
      Assoc(out, [prefix + [i]], After(f, prefix, i + 1));
      out := out + [p[..]];
    }
  }

  // ---- combinate0 ----

  // stack[1..] starts with the prefix.
  ghost predicate Stacked(stack: seq<int>, prefix: Tuple)
  {
    |prefix| < |stack| && forall j :: 0 <= j < |prefix| ==> stack[j + 1] == prefix[j]
  }

  // Every index of the prefix was allowed when it was chosen.
  ghost predicate Chosen(f: Family, prefix: Tuple)
  {
    forall j :: 0 <= j < |prefix| ==> May(f, prefix[..j], prefix[j])
  }

  lemma ChosenMore(f: Family, prefix: Tuple, v: nat)
    requires Chosen(f, prefix) && May(f, prefix, v)
    ensures Chosen(f, prefix + [v])
  {
    forall j | 0 <= j < |prefix + [v]| ensures May(f, (prefix + [v])[..j], (prefix + [v])[j]) {
      assert (prefix + [v])[..j] == if j < |prefix| then prefix[..j] else prefix;
    }
  }

  lemma ChosenLess(f: Family, prefix: Tuple)
    requires Chosen(f, prefix) && prefix != []
    ensures Chosen(f, prefix[..|prefix| - 1]) && May(f, prefix[..|prefix| - 1], prefix[|prefix| - 1])
  {
    var rest := prefix[..|prefix| - 1];
    forall j | 0 <= j < |rest| ensures May(f, rest[..j], rest[j]) {
      assert rest[..j] == prefix[..j];
    }
  }

  // The search is at the prefix and about to try stack[lev + 1], which may come next.
  ghost predicate Trying(f: Family, stack: seq<int>, lev: nat, prefix: Tuple)
  {
    && lev == |prefix| < f.r && |stack| == f.r + 1 && Stacked(stack, prefix) && Chosen(f, prefix)
    && 0 <= stack[lev + 1] && May(f, prefix, stack[lev + 1])
  }

  method Combinate0(len: nat, n: nat, stack: array<int>) returns (out: seq<Tuple>)
    requires 1 <= n <= len && stack.Length == n + 1
    modifies stack
    ensures out == All(Family(Combination, len, n))
  {
    ghost var f := Family(Combination, len, n);
    var lev := 0;
    for k := 1 to n + 1
      invariant forall j :: 1 <= j < k ==> stack[j] == 0
    {
      stack[k] := 0;
    }
    stack[0] := -1;
    out := [];
    ghost var prefix: Tuple := [];
    assert out + After(f, [], 0) == All(f);
    hide From, Under, After, All, Steps, StepsFrom;
    ghost var left := Steps(f, prefix, 0);
    assert Trying(f, stack[..], lev, prefix);
    while true
      invariant Trying(f, stack[..], lev, prefix)
      invariant out + After(f, prefix, stack[lev + 1]) == All(f) && left == Steps(f, prefix, stack[lev + 1])
      decreases left
    {
      prefix := Fill(f, stack, lev, prefix);
      var last: nat := stack[n];
      var t := Yielded(stack, n, prefix);
      Emit(f, prefix, last);
      StepsSkip(f, prefix, last, last + 1);
      Assoc(out, [t], After(f, prefix, last + 1));
      out := out + [t];
      var done;
      done, lev, prefix := NextCombination(f, len, n, stack, prefix);
      if done {
        break;
      }
      left := Steps(f, prefix, stack[lev + 1]);
    }
  }

  method Yielded(stack: array<int>, n: nat, ghost prefix: Tuple) returns (t: Tuple)
    requires stack.Length == n + 1 && Stacked(stack[..], prefix) && |prefix| + 1 == n && 0 <= stack[n]
    ensures t == prefix + [stack[n]]
  {
    assert forall j :: 1 <= j < n ==> stack[j] == stack[..][(j - 1) + 1] == prefix[j - 1];
    t := stack[1..];
  }

  // The inner for loop: each index after lev is one more than the one before it.
  method Fill(ghost f: Family, stack: array<int>, lev0: nat, ghost prefix0: Tuple) returns (ghost prefix: Tuple)
    requires f.kind == Combination && stack.Length == f.r + 1 && Trying(f, stack[..], lev0, prefix0)
    modifies stack
    ensures Trying(f, stack[..], f.r - 1, prefix)
    ensures After(f, prefix, stack[f.r]) == After(f, prefix0, old(stack[lev0 + 1]))
    ensures Steps(f, prefix, stack[f.r]) <= Steps(f, prefix0, old(stack[lev0 + 1]))
  {
    hide From, Under, After, Steps, StepsFrom;
    prefix := prefix0;
    var lev := lev0 + 1;
    while lev < stack.Length - 1
      invariant 1 <= lev <= f.r && Trying(f, stack[..], lev - 1, prefix)
      invariant After(f, prefix, stack[lev]) == After(f, prefix0, old(stack[lev0 + 1]))
      invariant Steps(f, prefix, stack[lev]) <= Steps(f, prefix0, old(stack[lev0 + 1]))
    {
      ghost var c: nat := stack[lev];
      ghost var longer := prefix + [c];
      Descend(f, prefix, c);
      StepsDescend(f, prefix, c);
      SkipTo(f, longer, 0, c + 1);
      StepsSkip(f, longer, 0, c + 1);
      ChosenMore(f, prefix, c);
      stack[lev + 1] := stack[lev] + 1;
      prefix := longer;
      lev := lev + 1;
    }
  }

  // The do loop: the last index that can still be increased is increased.
  method NextCombination(ghost f: Family, len: nat, n: nat, stack: array<int>, ghost prefix0: Tuple)
    returns (done: bool, lev: nat, ghost prefix: Tuple)
    requires f == Family(Combination, len, n) && 1 <= n && stack.Length == n + 1 && Trying(f, stack[..], n - 1, prefix0)
    modifies stack
    ensures done ==> After(f, prefix0, old(stack[n]) + 1) == []
    ensures !done ==> Trying(f, stack[..], lev, prefix)
    ensures !done ==> After(f, prefix, stack[lev + 1]) == After(f, prefix0, old(stack[n]) + 1)
    ensures !done ==> Steps(f, prefix, stack[lev + 1]) <= Steps(f, prefix0, old(stack[n]) + 1)
  {
    hide From, Under, After, Steps, StepsFrom;
    prefix := prefix0;
    lev := n;
    while true
      invariant lev == 0 ==> After(f, prefix0, old(stack[n]) + 1) == []
      invariant lev > 0 ==>
                  && Trying(f, stack[..], lev - 1, prefix)
                  && After(f, prefix, stack[lev] + 1) == After(f, prefix0, old(stack[n]) + 1)
                  && Steps(f, prefix, stack[lev] + 1) <= Steps(f, prefix0, old(stack[n]) + 1)
      decreases lev
    {
      if lev == 0 {
        return true, 0, prefix;
      }
      stack[lev] := stack[lev] + 1;
      lev := lev - 1;
      if stack[lev + 1] + n != len + lev + 1 {
        return false, lev, prefix;
      }
      ghost var v: nat := stack[lev + 1];
      SkipTo(f, prefix, v, len);
      StepsSkip(f, prefix, v, len);
      Ascend(f, prefix, len);
      if lev > 0 {
        StepsAscend(f, prefix, len);
        ChosenLess(f, prefix);
        prefix := prefix[..lev - 1];
      }
    }
  }

  // ---- rpermute0 and rcombinate0 ----

  // p[..index] is the prefix and p[index], which may come next, is about to be tried.
  ghost predicate At(f: Family, p: seq<nat>, index: nat, prefix: Tuple)
  {
    && index < |p| == f.r && prefix == p[..index] && Chosen(f, prefix) && May(f, prefix, p[index])
  }

  predicate Repeated(kind: Kind)
  {
    kind == RepeatedPermutation || kind == RepeatedCombination
  }

  // Over no indices there are no tuples.
  lemma {:induction false} NoIndices(f: Family, prefix: Tuple, i: nat)
    requires f.n == 0 && |prefix| < f.r
    ensures After(f, prefix, i) == []
    decreases |prefix|
  {
    if prefix != [] {
      NoIndices(f, prefix[..|prefix| - 1], prefix[|prefix| - 1] + 1);
    }
  }

  // Below a chosen index the search starts from zero, or from that index.
  function Start(kind: Kind, c: nat): nat
  {
    if kind == RepeatedPermutation then 0 else c
  }

  lemma StepDown(f: Family, prefix: Tuple, c: nat)
    requires Repeated(f.kind) && |prefix| + 1 < f.r && Chosen(f, prefix) && May(f, prefix, c)
    ensures After(f, prefix, c) == After(f, prefix + [c], Start(f.kind, c))
    ensures Steps(f, prefix + [c], Start(f.kind, c)) < Steps(f, prefix, c)
    ensures Chosen(f, prefix + [c]) && May(f, prefix + [c], Start(f.kind, c))
  {
    Descend(f, prefix, c);
    StepsDescend(f, prefix, c);
    ChosenMore(f, prefix, c);
    SkipTo(f, prefix + [c], 0, Start(f.kind, c));
    StepsSkip(f, prefix + [c], 0, Start(f.kind, c));
  }

  // The loop over the last index
  method YieldFrom(ghost f: Family, p: array<nat>, n: nat, i0: nat, ghost prefix: Tuple, out0: seq<Tuple>)
    returns (out: seq<Tuple>)
    requires Repeated(f.kind) && f.n == n && 1 <= f.r == p.Length && prefix == p[..f.r - 1]
    requires i0 <= n && forall v :: i0 <= v < n ==> May(f, prefix, v)
    modifies p
    ensures p[..f.r - 1] == prefix && out + After(f, prefix, n) == out0 + After(f, prefix, i0)
  {
    out := out0;
    for i := i0 to n
      invariant p[..f.r - 1] == prefix && out + After(f, prefix, i) == out0 + After(f, prefix, i0)
    {
      p[p.Length - 1] := i;
      Emit(f, prefix, i);
      assert p[..] == prefix + [i];
      Assoc(out, [prefix + [i]], After(f, prefix, i + 1));
      out := out + [p[..]];
    }
  }

  // The do loop: back to the last index that can be increased, which is.
  method Increase(ghost f: Family, p: array<nat>, n: nat, ghost prefix0: Tuple)
    returns (done: bool, index: nat, ghost prefix: Tuple)
    requires Repeated(f.kind) && f.n == n && 2 <= f.r == p.Length && prefix0 == p[..f.r - 1]
    requires n > 0 ==> Chosen(f, prefix0)
    modifies p
    ensures n == 0 ==> done
    ensures n > 0 && done ==> After(f, prefix0, n) == []
    ensures !done ==> index < f.r - 1 && At(f, p[..], index, prefix)
    ensures !done ==> After(f, prefix, p[index]) == After(f, prefix0, n)
    ensures !done ==> Steps(f, prefix, p[index]) < Steps(f, prefix0, n)
  {
    hide From, Under, After, Steps, StepsFrom;
    index := p.Length - 1;
    prefix := prefix0;
    ghost var i := n;
    while true
      invariant index < f.r && prefix == p[..index] && i >= n
      invariant n > 0 ==>
                  && Chosen(f, prefix) && After(f, prefix, i) == After(f, prefix0, n)
                  && Steps(f, prefix, i) <= Steps(f, prefix0, n)
      decreases index
    {
      if n > 0 {
        Ascend(f, prefix, i);
      }
      if index <= 0 {
        return true, 0, prefix;
      }
      ghost var was := prefix;
      index := index - 1;
      prefix := prefix[..index];
      p[index] := p[index] + 1;
      assert prefix == p[..index] && p[index] == was[|was| - 1] + 1;
      if n > 0 {
        StepsAscend(f, was, i);
        ChosenLess(f, was);
      }
      i := p[index];
      if p[index] < n {
        return false, index, prefix;
      }
    }
  }

  method Rpermute0(n: nat, r: nat, p: array<nat>) returns (out: seq<Tuple>)
    requires 2 <= r == p.Length
    modifies p
    ensures out == All(Family(RepeatedPermutation, n, r))
  {
    ghost var f := Family(RepeatedPermutation, n, r);
    var i: nat, index: nat := 0, 0;
    p[index] := i;
    out := [];
    ghost var prefix: Tuple := [];
    assert out + After(f, [], 0) == All(f);
    hide From, Under, After, All, Steps, StepsFrom;
    if n == 0 {
      NoIndices(f, [], 0);
    }
    ghost var left := Steps(f, prefix, 0);
    while true
      invariant index < r - 1 && (n > 0 ==> At(f, p[..], index, prefix))
      invariant n > 0 ==> out + After(f, prefix, p[index]) == All(f) && left == Steps(f, prefix, p[index])
      invariant n == 0 ==> out == All(f) == []
      decreases if n == 0 then r - index else left
    {
      ghost var longer := p[..index + 1];
      if n > 0 {
        assert longer == prefix + [p[index]];
        StepDown(f, prefix, p[index]);
      }
      index := index + 1;
      if index < r - 1 {
        i := 0;
        p[index] := i;
        assert p[..index] == longer;
        prefix := longer;
        left := Steps(f, prefix, 0);
        continue;
      }
      out := YieldFrom(f, p, n, 0, longer, out);
      if n == 0 {
        NoIndices(f, longer, 0);
      }
      var done;
      done, index, prefix := Increase(f, p, n, longer);
      if done {
        break;
      }
      left := Steps(f, prefix, p[index]);
    }
  }

  method Rcombinate0(n: nat, r: nat, p: array<nat>) returns (out: seq<Tuple>)
    requires 2 <= r == p.Length && 1 <= n
    modifies p
    ensures out == All(Family(RepeatedCombination, n, r))
  {
    ghost var f := Family(RepeatedCombination, n, r);
    var i: nat, index: nat := 0, 0;
    p[index] := i;
    out := [];
    ghost var prefix: Tuple := [];
    assert out + After(f, [], 0) == All(f);
    hide From, Under, After, All, Steps, StepsFrom;
    ghost var left := Steps(f, prefix, 0);
    while true
      invariant index < r - 1 && At(f, p[..], index, prefix) && i == p[index]
      invariant out + After(f, prefix, i) == All(f) && left == Steps(f, prefix, i)
      decreases left
    {
      ghost var longer := p[..index + 1];
      assert longer == prefix + [i];
      StepDown(f, prefix, i);
      index := index + 1;
      if index < r - 1 {
        p[index] := i;
        assert p[..index] == longer;
        prefix := longer;
        left := Steps(f, prefix, i);
        continue;
      }
      out := YieldFrom(f, p, n, i, longer, out);
      var done;
      done, index, prefix := Increase(f, p, n, longer);
      if done {
        break;
      }
      i := p[index];
      left := Steps(f, prefix, i);
    }
  }
}
