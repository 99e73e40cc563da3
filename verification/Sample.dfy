/**
 ary_sample of array.c: the branches for few elements pick the still unused index that
 the draw counts out, and the branch with a memo table takes the same elements as the
 branch that swaps on a copy, for the same draws.
 */
module Sample {

  // The results of RAND_UPTO(len), RAND_UPTO(len - 1), ...
  ghost predicate Drawn(draws: seq<nat>, n: nat, len: nat)
  {
    n <= |draws| && n <= len && forall i :: 0 <= i < n ==> draws[i] < len - i
  }

  // ---- counting out unused indices ----

  function Below(used: set<nat>, v: nat): nat
  {
    |set u | u in used && u < v|
  }

  function Elements(s: seq<nat>): set<nat>
  {
    set u | u in s
  }

  // idx[i] is the draws[i]-th index not used before.
  ghost predicate Picks(idx: seq<nat>, draws: seq<nat>)
  {
    |idx| <= |draws| &&
    forall i :: 0 <= i < |idx| ==> idx[i] !in idx[..i] && idx[i] == draws[i] + Below(Elements(idx[..i]), idx[i])
  }

  lemma {:induction false} ElementsCount(s: seq<nat>)
    requires forall j, k :: 0 <= j < k < |s| ==> s[j] != s[k]
    ensures |Elements(s)| == |s|
  {
    if s != [] {
      var init, last := s[..|s| - 1], s[|s| - 1];
      ElementsCount(init);
      assert Elements(s) == Elements(init) + {last};
    }
  }

  // Picked indices are different and in range.
  lemma PicksInRange(idx: seq<nat>, draws: seq<nat>, len: nat, i: nat)
    requires Picks(idx, draws) && Drawn(draws, |idx|, len) && i < |idx|
    ensures idx[i] < len
  {
    PicksDistinct(idx, draws);
    ElementsCount(idx[..i]);
    BelowMost(Elements(idx[..i]), idx[i]);
  }

  lemma BelowMost(used: set<nat>, v: nat)
    ensures Below(used, v) <= |used|
  {
    var small := set u | u in used && u < v;
    assert small <= used && |used| == |small| + |used - small|;
  }

  lemma PicksDistinct(idx: seq<nat>, draws: seq<nat>)
    requires Picks(idx, draws)
    ensures forall j, k :: 0 <= j < k < |idx| ==> idx[j] != idx[k]
  {
    forall j, k | 0 <= j < k < |idx| ensures idx[j] != idx[k] {
      assert idx[..k][j] == idx[j];
    }
  }

  // The numbers below v that are not used
  ghost function Unused(s: seq<nat>, v: nat): set<nat>
  {
    set u: nat | u < v && u !in s
  }

  // Each index is the drawn one among those not used before: so many of them are smaller.
  lemma PickIsNth(idx: seq<nat>, draws: seq<nat>, i: nat)
    requires Picks(idx, draws) && i < |idx|
    ensures idx[i] !in idx[..i] && |Unused(idx[..i], idx[i])| == draws[i]
  {
    UsedOrNot(idx[..i], idx[i]);
  }

  lemma UsedOrNot(s: seq<nat>, v: nat)
    ensures |Unused(s, v)| + Below(Elements(s), v) == v
  {
    var used := set u | u in Elements(s) && u < v;
    assert Unused(s, v) == Indices(v) - used;
    assert used <= Indices(v);
    assert |Indices(v)| == |used| + |Indices(v) - used|;
  }

  // All numbers below v
  ghost function Indices(v: nat): (s: set<nat>)
    ensures |s| == v && forall u: nat :: u in s <==> u < v
  {
    if v == 0 then {} else Indices(v - 1) + {v - 1}
  }

  // The index counted out is the only one.
  lemma PickUnique(used: set<nat>, k: nat, v: nat, w: nat)
    requires v !in used && v == k + Below(used, v)
    requires w !in used && w == k + Below(used, w)
    ensures v == w
  {
    if v < w {
      GapBound(used, v, w);
    } else if w < v {
      GapBound(used, w, v);
    }
  }

  lemma {:induction false} GapBound(used: set<nat>, v: nat, w: nat)
    requires v !in used && v < w
    ensures Below(used, w) < Below(used, v) + (w - v)
    decreases w - v
  {
    var p := w - 1;
    var small, large := set u | u in used && u < p, set u | u in used && u < w;
    assert large == if p in used then small + {p} else small;
    if v < p {
      GapBound(used, v, p);
    }
  }

  // ---- the branches for one, two and three elements ----

  method Pick2(draws: seq<nat>) returns (i: nat, j: nat)
    requires 2 <= |draws|
    ensures Picks([i, j], draws)
  {
    i := draws[0];
    j := draws[1];
    if j >= i {
      j := j + 1;
    }
    FirstPick(i, draws);
    assert [i, j][..0] == [] && [i, j][..1] == [i];
    OneBelow(i, j);
  }

  lemma FirstPick(i: nat, draws: seq<nat>)
    ensures Below(Elements([]), i) == 0
  {
    assert (set u | u in Elements([]) && u < i) == {};
  }

  lemma OneBelow(i: nat, j: nat)
    ensures Below(Elements([i]), j) == if i < j then 1 else 0
  {
    assert (set u | u in Elements([i]) && u < j) == if i < j then {i} else {};
  }

  lemma TwoBelow(i: nat, j: nat, k: nat)
    requires i != j
    ensures Below(Elements([i, j]), k) == (if i < k then 1 else 0) + (if j < k then 1 else 0)
  {
    OneBelow(i, k);
    BelowMore(Elements([i]), j, k);
    assert Elements([i, j]) == Elements([i]) + {j};
  }

  lemma BelowMore(used: set<nat>, v: nat, k: nat)
    requires v !in used
    ensures Below(used + {v}, k) == Below(used, k) + (if v < k then 1 else 0)
  {
    var small, more := set u | u in used && u < k, set u | u in used + {v} && u < k;
    assert more == if v < k then small + {v} else small;
  }

  method Pick3(draws: seq<nat>) returns (i: nat, j: nat, k: nat)
    requires 3 <= |draws|
    ensures Picks([i, j, k], draws)
  {
    i := draws[0];
    j := draws[1];
    k := draws[2];
    {
      var l, g := j, i;
      if j >= i {
        l := i;
        j := j + 1;
        g := j;
      }
      if k >= l {
        k := k + 1;
        if k >= g {
          k := k + 1;
        }
      }
    }
    FirstPick(i, draws);
    OneBelow(i, j);
    TwoBelow(i, j, k);
    var t := [i, j, k];
    assert t[..0] == [] && t[..1] == [i] && t[..2] == [i, j];
  }

  // ---- sorted insertion ----

  ghost predicate Ascending(s: seq<nat>)
  {
    forall j, k :: 0 <= j < k < |s| ==> s[j] < s[k]
  }

  // k belongs between the first j of the ascending indices and the rest.
  ghost predicate Gap(s: seq<nat>, j: nat, k: nat)
  {
    Ascending(s) && j <= |s| && (forall m :: 0 <= m < j ==> s[m] < k) && (j < |s| ==> k < s[j])
  }

  // memmove of the tail of sorted[..i] by one, and k in the gap
  method InsertAt(sorted: array<nat>, i: nat, j: nat, k: nat)
    requires j <= i < sorted.Length && Gap(sorted[..i], j, k)
    modifies sorted
    ensures Ascending(sorted[..i + 1]) && Elements(sorted[..i + 1]) == old(Elements(sorted[..i])) + {k}
  {
    ghost var was := sorted[..i];
    forall m | j <= m < i {
      sorted[m + 1] := sorted[m];
    }
    sorted[j] := k;
    assert sorted[..i + 1] == was[..j] + [k] + was[j..];
    Inserted(was, j, k);
  }

  // Stepping over the used indices in order counts out the unused one.
  lemma CountedOut(sorted: seq<nat>, j: nat, k: nat)
    requires Gap(sorted, j, k)
    ensures k !in Elements(sorted) && Below(Elements(sorted), k) == j
  {
    ElementsCount(sorted[..j]);
    var small := set u | u in Elements(sorted) && u < k;
    forall u | u in small ensures u in Elements(sorted[..j]) {
      var m :| 0 <= m < |sorted| && sorted[m] == u;
      assert sorted[..j][m] == u;
    }
    forall u | u in Elements(sorted[..j]) ensures u in small {
    }
    assert small == Elements(sorted[..j]);
  }

  lemma Inserted(sorted: seq<nat>, j: nat, k: nat)
    requires Gap(sorted, j, k)
    ensures Ascending(sorted[..j] + [k] + sorted[j..])
    ensures Elements(sorted[..j] + [k] + sorted[j..]) == Elements(sorted) + {k}
  {
    var t := sorted[..j] + [k] + sorted[j..];
    assert sorted == sorted[..j] + sorted[j..];
    forall u ensures u in t <==> u in sorted || u == k {
    }
  }

  method SortedInsertion(draws: seq<nat>, n: nat) returns (idx: seq<nat>)
    requires 1 <= n <= |draws|
    ensures |idx| == n && Picks(idx, draws)
  {
    var sorted := new nat[n];
    sorted[0] := draws[0];
    idx := [draws[0]];
    FirstPick(draws[0], draws);
    assert idx[..0] == [] && sorted[..1] == idx;
    hide Picks, Elements, Below, Ascending;
    for i := 1 to n
      invariant |idx| == i && Picks(idx, draws)
      invariant Ascending(sorted[..i]) && Elements(sorted[..i]) == Elements(idx)
    {
      ghost var was := sorted[..i];
      var j, k := StepOver(sorted, i, draws[i]);
      InsertAt(sorted, i, j, k);
      PicksMore(idx, draws, k);
      idx := idx + [k];
    }
  }

  // The inner loop: past every used index that is not above k, k moves up by one.
  method StepOver(sorted: array<nat>, i: nat, draw: nat) returns (j: nat, k: nat)
    requires i <= sorted.Length && Ascending(sorted[..i])
    ensures j <= i && k == draw + j && Gap(sorted[..i], j, k)
    ensures k !in Elements(sorted[..i]) && k == draw + Below(Elements(sorted[..i]), k)
  {
    k := draw;
    j := 0;
    while j < i
      invariant j <= i && k == draw + j
      invariant forall m :: 0 <= m < j ==> sorted[..i][m] < k
    {
      if k < sorted[j] {
        break;
      }
      k := k + 1;
      j := j + 1;
    }
    CountedOut(sorted[..i], j, k);
  }

  lemma PicksMore(idx: seq<nat>, draws: seq<nat>, k: nat)
    requires Picks(idx, draws) && |idx| < |draws| && k !in Elements(idx)
    requires k == draws[|idx|] + Below(Elements(idx), k)
    ensures Picks(idx + [k], draws) && Elements(idx + [k]) == Elements(idx) + {k}
  {
    var t := idx + [k];
    forall i | 0 <= i < |t| ensures t[i] !in t[..i] && t[i] == draws[i] + Below(Elements(t[..i]), t[i]) {
      assert t[..i] == if i < |idx| then idx[..i] else idx;
    }
  }

  // ---- swapping on a copy ----

  // The copy after the first i swaps: place m and place m + draws[m] are exchanged.
  function Shuffled<T>(ary: seq<T>, draws: seq<nat>, i: nat): (s: seq<T>)
    requires i <= |ary| && i <= |draws| && forall m :: 0 <= m < i ==> draws[m] < |ary| - m
    ensures |s| == |ary|
  {
    if i == 0 then ary
    else
      var s := Shuffled(ary, draws, i - 1);
      s[i - 1 := s[i - 1 + draws[i - 1]]][i - 1 + draws[i - 1] := s[i - 1]]
  }

  // The elements stay the same, so no place of the array is taken twice.
  lemma {:induction false} ShuffledKeeps<T>(ary: seq<T>, draws: seq<nat>, i: nat)
    requires i <= |ary| && i <= |draws| && forall m :: 0 <= m < i ==> draws[m] < |ary| - m
    ensures multiset(Shuffled(ary, draws, i)) == multiset(ary)
  {
    if i != 0 {
      ShuffledKeeps(ary, draws, i - 1);
    }
  }

  // What has been placed stays in place.
  lemma {:induction false} ShuffledPrefix<T>(ary: seq<T>, draws: seq<nat>, i: nat, j: nat)
    requires i <= j <= |ary| && j <= |draws| && forall m :: 0 <= m < j ==> draws[m] < |ary| - m
    ensures Shuffled(ary, draws, j)[..i] == Shuffled(ary, draws, i)[..i]
    decreases j
  {
    if i < j {
      ShuffledPrefix(ary, draws, i, j - 1);
    }
  }

  // Each swap exchanges two places, and leaves the others alone.
  lemma ShuffledStep<T>(ary: seq<T>, draws: seq<nat>, i: nat)
    requires i < |ary| && i < |draws| && forall m :: 0 <= m <= i ==> draws[m] < |ary| - m
    ensures var s, t, j := Shuffled(ary, draws, i), Shuffled(ary, draws, i + 1), i + draws[i];
            t[i] == s[j] && t[j] == s[i] && forall k :: 0 <= k < |ary| && k != i && k != j ==> t[k] == s[k]
    ensures Shuffled(ary, draws, 0) == ary
  {
  }

  lemma {:induction false} ShuffledDistinct<T>(ary: seq<T>, draws: seq<nat>, i: nat)
    requires i <= |ary| && i <= |draws| && forall m :: 0 <= m < i ==> draws[m] < |ary| - m
    requires forall a, b :: 0 <= a < b < |ary| ==> ary[a] != ary[b]
    ensures forall a, b :: 0 <= a < b < |ary| ==> Shuffled(ary, draws, i)[a] != Shuffled(ary, draws, i)[b]
  {
    if i != 0 {
      ShuffledDistinct(ary, draws, i - 1);
    }
  }

  lemma SamePlace<T>(s: seq<T>, i: nat, j: nat)
    requires i < |s| && j < |s| && s[i] == s[j]
    requires forall a, b :: 0 <= a < b < |s| ==> s[a] != s[b]
    ensures i == j
  {
  }

  lemma SameDraw<T>(ary: seq<T>, d: seq<nat>, e: seq<nat>, n: nat)
    requires Drawn(d, n + 1, |ary|) && Drawn(e, n + 1, |ary|)
    requires forall a, b :: 0 <= a < b < |ary| ==> ary[a] != ary[b]
    requires Shuffled(ary, d, n) == Shuffled(ary, e, n)
    requires Shuffled(ary, d, n + 1)[n] == Shuffled(ary, e, n + 1)[n]
    ensures d[n] == e[n]
  {
    hide Shuffled;
    ShuffledStep(ary, d, n);
    ShuffledStep(ary, e, n);
    ShuffledDistinct(ary, d, n);
    SamePlace(Shuffled(ary, d, n), n + d[n], n + e[n]);
  }

  lemma OneMore<T>(s: seq<T>, t: seq<T>, n: nat)
    requires n < |s| && n < |t|
    ensures s[..n + 1] == t[..n + 1] <==> s[..n] == t[..n] && s[n] == t[n]
  {
    assert s[..n + 1] == s[..n] + [s[n]] && t[..n + 1] == t[..n] + [t[n]];
  }

  // Of different elements, different draws give different samples: every sample comes from one sequence of draws.
  lemma {:induction false} ShuffledOnce<T>(ary: seq<T>, d: seq<nat>, e: seq<nat>, n: nat)
    requires Drawn(d, n, |ary|) && Drawn(e, n, |ary|)
    requires forall a, b :: 0 <= a < b < |ary| ==> ary[a] != ary[b]
    requires Shuffled(ary, d, n)[..n] == Shuffled(ary, e, n)[..n]
    ensures d[..n] == e[..n] && Shuffled(ary, d, n) == Shuffled(ary, e, n)
  {
    if n != 0 {
      hide Shuffled;
      ShuffledPrefix(ary, d, n - 1, n);
      ShuffledPrefix(ary, e, n - 1, n);
      OneMore(Shuffled(ary, d, n), Shuffled(ary, e, n), n - 1);
      ShuffledOnce(ary, d, e, n - 1);
      SameDraw(ary, d, e, n - 1);
      OneMore(d, e, n - 1);
      SameSwaps(ary, d, e, n);
    }
  }

  lemma {:induction false} SameSwaps<T>(ary: seq<T>, d: seq<nat>, e: seq<nat>, n: nat)
    requires Drawn(d, n, |ary|) && Drawn(e, n, |ary|) && d[..n] == e[..n]
    ensures Shuffled(ary, d, n) == Shuffled(ary, e, n)
  {
    if n != 0 {
      assert d[..n - 1] == d[..n][..n - 1] && e[..n - 1] == e[..n][..n - 1];
      SameSwaps(ary, d, e, n - 1);
      assert d[n - 1] == d[..n][n - 1] && e[n - 1] == e[..n][n - 1];
    }
  }

  method SwapOnCopy<T>(ary: seq<T>, draws: seq<nat>, n: nat) returns (result: seq<T>)
    requires Drawn(draws, n, |ary|)
    ensures result == Shuffled(ary, draws, n)[..n]
  {
    if |ary| == 0 {
      return [];
    }
    var copy := new T[|ary|](k requires 0 <= k < |ary| => ary[k]);
    assert copy[..] == ary;
    for i := 0 to n
      invariant copy[..] == Shuffled(ary, draws, i)
    {
      var j := draws[i] + i;
      var nv := copy[j];
      copy[j] := copy[i];
      copy[i] := nv;
    }
    result := copy[..n];
  }

  // ---- the memo table ----

  // The memo says which element of the array stands at each place from i on.
  ghost predicate Remembers<T>(memo: map<nat, nat>, ary: seq<T>, s: seq<T>, i: nat)
  {
    |s| == |ary| && forall p :: i <= p < |s| ==> At(memo, p) < |ary| && s[p] == ary[At(memo, p)]
  }

  function At(memo: map<nat, nat>, p: nat): nat
  {
    if p in memo then memo[p] else p
  }

  method WithMemo<T>(ary: seq<T>, draws: seq<nat>, n: nat) returns (result: seq<T>)
    requires Drawn(draws, n, |ary|)
    ensures result == Shuffled(ary, draws, n)[..n]
  {
    var memo: map<nat, nat> := map[];
    var maxIdx := 0;
    var places: seq<nat> := [];
    for i := 0 to n
      invariant |places| == i && forall m :: 0 <= m < i ==> places[m] == draws[m] + m
      invariant n > 0 ==> maxIdx < |ary|
    {
      var r := draws[i] + i;
      places := places + [r];
      if r > maxIdx {
        maxIdx := r;
      }
    }
    result := [];
    for i := 0 to n
      invariant Remembers(memo, ary, Shuffled(ary, draws, i), i)
      invariant result == Shuffled(ary, draws, i)[..i]
    {
      var j := places[i];
      var j2, i2 := j, i;
      if i in memo {
        i2 := memo[i];
      }
      if j in memo {
        j2 := memo[j];
      }
      MemoStep(memo, ary, draws, i);
      memo := memo[j := i2];
      result := result + [ary[j2]];
    }
  }

  lemma MemoStep<T>(memo: map<nat, nat>, ary: seq<T>, draws: seq<nat>, i: nat)
    requires i < |ary| && i < |draws| && forall m :: 0 <= m <= i ==> draws[m] < |ary| - m
    requires Remembers(memo, ary, Shuffled(ary, draws, i), i)
    ensures var j := draws[i] + i;
            && At(memo, j) < |ary| && At(memo, i) < |ary|
            && Remembers(memo[j := At(memo, i)], ary, Shuffled(ary, draws, i + 1), i + 1)
            && Shuffled(ary, draws, i + 1)[..i + 1] == Shuffled(ary, draws, i)[..i] + [ary[At(memo, j)]]
  {
    var j, s := draws[i] + i, Shuffled(ary, draws, i);
    var t := s[i := s[j]][j := s[i]];
    assert Shuffled(ary, draws, i + 1) == t;
    hide Shuffled;
    assert s[j] == ary[At(memo, j)] && s[i] == ary[At(memo, i)];
    assert t[..i + 1] == t[..i] + [t[i]] && t[..i] == s[..i];
    var next := memo[j := At(memo, i)];
    forall p | i + 1 <= p < |t| ensures At(next, p) < |ary| && t[p] == ary[At(next, p)] {
      assert p != j ==> At(next, p) == At(memo, p);
    }
  }

  // ---- ary_sample ----

  const IDX_SIZE: nat := 10

  function MemoThreshold(len: nat): nat
  {
    if len < 2560 then len / 128
    else if len < 5120 then len / 64
    else if len < 10240 then len / 32
    else len / 16
  }

  function Taken<T>(ary: seq<T>, idx: seq<nat>): seq<T>
    requires forall i :: 0 <= i < |idx| ==> idx[i] < |ary|
  {
    seq(|idx|, i requires 0 <= i < |idx| => ary[idx[i]])
  }

  datatype Sampled<T> = Result(value: seq<T>) | NegativeNumber

  // Few elements are picked at unused places, many are the first ones of the shuffled array.
  method ArySample<T>(ary: seq<T>, nv: int, draws: seq<nat>) returns (r: Sampled<T>, ghost idx: seq<nat>)
    requires nv >= 0 ==> Drawn(draws, if nv > |ary| then |ary| else nv, |ary|)
    ensures nv < 0 <==> r.NegativeNumber?
    ensures nv >= 0 ==>
              var n := if nv > |ary| then |ary| else nv;
              if n <= 10
              then
                && |idx| == n == |r.value| && Picks(idx, draws)
                && forall i :: 0 <= i < n ==> idx[i] < |ary| && r.value[i] == ary[idx[i]]
              else r.value == Shuffled(ary, draws, n)[..n]
  {
    idx := [];
    if nv < 0 {
      return NegativeNumber, idx;
    }
    var len := |ary|;
    var n: nat := nv;
    if n > len {
      n := len;
    }
    if n == 0 {
      return Result([]), idx;
    } else if n == 1 {
      var i := draws[0];
      idx := [i];
      FirstPick(i, draws);
      assert idx[..0] == [];
      return Result([ary[i]]), idx;
    } else if n == 2 {
      var i, j := Pick2(draws);
      idx := [i, j];
      InRange(idx, draws, len);
      assert idx[0] < len && idx[1] < len;
      return Result([ary[i], ary[j]]), idx;
    } else if n == 3 {
      var i, j, k := Pick3(draws);
      idx := [i, j, k];
      InRange(idx, draws, len);
      assert idx[0] < len && idx[1] < len && idx[2] < len;
      return Result([ary[i], ary[j], ary[k]]), idx;
    }
    var memoThreshold := MemoThreshold(len);
    if n <= IDX_SIZE {
      var places := SortedInsertion(draws, n);
      idx := places;
      InRange(idx, draws, len);
      return Result(Taken(ary, places)), idx;
    } else if n <= memoThreshold / 2 {
      var result := WithMemo(ary, draws, n);
      return Result(result), idx;
    } else {
      var result := SwapOnCopy(ary, draws, n);
      return Result(result), idx;
    }
  }

  lemma InRange(idx: seq<nat>, draws: seq<nat>, len: nat)
    requires Picks(idx, draws) && Drawn(draws, |idx|, len)
    ensures forall i :: 0 <= i < |idx| ==> idx[i] < len
  {
    forall i | 0 <= i < |idx| ensures idx[i] < len {
      PicksInRange(idx, draws, len, i);
    }
  }
}
