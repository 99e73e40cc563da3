/**
 The index tuples of permutation, combination and their repeated forms: the list of all
 of them in lexicographic order, built by choosing one index after the other, and what
 is left of that list in the middle of a search.
 */
module Tuples {

  datatype Kind = Permutation | Combination | RepeatedPermutation | RepeatedCombination

  // Tuples of r indices below n
  datatype Family = Family(kind: Kind, n: nat, r: nat)

  type Tuple = seq<nat>

  // Whether v may follow the prefix.  A combination leaves room for the indices to come.
  predicate May(f: Family, prefix: Tuple, v: nat)
  {
    && v < f.n
    && match f.kind
       case Permutation => v !in prefix
       case Combination => (prefix == [] || prefix[|prefix| - 1] < v) && v + f.r <= f.n + |prefix|
       case RepeatedPermutation => true
       case RepeatedCombination => prefix == [] || prefix[|prefix| - 1] <= v
  }

  // The tuples with this prefix whose next index is at least i, in order
  function From(f: Family, prefix: Tuple, i: nat): seq<Tuple>
    requires |prefix| < f.r
    decreases f.r - |prefix|, if i < f.n then f.n - i else 0
  {
    if i >= f.n then [] else Under(f, prefix, i) + From(f, prefix, i + 1)
  }

  // Those whose next index is i
  function Under(f: Family, prefix: Tuple, i: nat): seq<Tuple>
    requires |prefix| < f.r && i < f.n
    decreases f.r - |prefix|, f.n - i, 0
  {
    if !May(f, prefix, i) then []
    else if |prefix| + 1 == f.r then [prefix + [i]]
    else From(f, prefix + [i], 0)
  }

  function All(f: Family): seq<Tuple>
  {
    if f.r == 0 then [[]] else From(f, [], 0)
  }

  // What a search still has to produce when it has chosen the prefix and is about to try i
  function After(f: Family, prefix: Tuple, i: nat): seq<Tuple>
    requires |prefix| < f.r
    decreases |prefix|
  {
    From(f, prefix, i) +
    if prefix == [] then [] else After(f, prefix[..|prefix| - 1], prefix[|prefix| - 1] + 1)
  }

  // ---- exactly the tuples of the family ----

  // Every index may follow the ones before it.
  ghost predicate Grown(f: Family, t: Tuple, k: nat)
  {
    |t| == f.r && forall j :: k <= j < f.r ==> May(f, t[..j], t[j])
  }

  ghost predicate Belongs(f: Family, prefix: Tuple, i: nat, t: Tuple)
    requires |prefix| < f.r
  {
    Grown(f, t, |prefix|) && t[..|prefix|] == prefix && i <= t[|prefix|]
  }

  lemma {:induction false} FromIs(f: Family, prefix: Tuple, i: nat, t: Tuple)
    requires |prefix| < f.r
    ensures t in From(f, prefix, i) <==> Belongs(f, prefix, i, t)
    decreases f.r - |prefix|, if i < f.n then f.n - i else 0
  {
    if i < f.n {
      UnderIs(f, prefix, i, t);
      FromIs(f, prefix, i + 1, t);
    } else {
      assert Belongs(f, prefix, i, t) ==> May(f, t[..|prefix|], t[|prefix|]);
    }
  }

  lemma {:induction false} UnderIs(f: Family, prefix: Tuple, i: nat, t: Tuple)
    requires |prefix| < f.r && i < f.n
    ensures t in Under(f, prefix, i) <==> Belongs(f, prefix, i, t) && t[|prefix|] == i
    decreases f.r - |prefix|, f.n - i, 0
  {
    var k := |prefix|;
    var longer := prefix + [i];
    if May(f, prefix, i) {
      if k + 1 == f.r {
        if Belongs(f, prefix, i, t) && t[k] == i {
          assert t == t[..k] + [t[k]];
        }
        assert longer[..k] == prefix;
      } else {
        FromIs(f, longer, 0, t);
        if |t| == f.r {
          assert t[..k + 1] == t[..k] + [t[k]];
          assert longer[..k] == prefix && longer[k] == i;
          if t[..k + 1] == longer {
            assert t[..k] == t[..k + 1][..k];
            assert May(f, t[..k], t[k]);
          }
        }
      }
    } else {
      assert Belongs(f, prefix, i, t) ==> May(f, t[..k], t[k]);
    }
  }

  // The tuples in each family, said directly
  ghost predicate IsTuple(f: Family, t: Tuple)
  {
    && |t| == f.r
    && (forall j :: 0 <= j < |t| ==> t[j] < f.n)
    && match f.kind
       case Permutation => forall j, k :: 0 <= j < k < |t| ==> t[j] != t[k]
       case Combination => forall j, k :: 0 <= j < k < |t| ==> t[j] < t[k]
       case RepeatedPermutation => true
       case RepeatedCombination => forall j, k :: 0 <= j < k < |t| ==> t[j] <= t[k]
  }

  // Every tuple of the family is produced, and no others.
  lemma AllIs(f: Family, t: Tuple)
    ensures t in All(f) <==> IsTuple(f, t)
  {
    if f.r == 0 {
    } else {
      FromIs(f, [], 0, t);
      GrownIs(f, t);
      assert |t| == f.r ==> t[..0] == [];
    }
  }

  // The same for each family in full
  lemma AllAre(n: nat, r: nat, t: Tuple)
    ensures t in All(Family(Permutation, n, r))
       <==> |t| == r && (forall j :: 0 <= j < r ==> t[j] < n) && forall j, k :: 0 <= j < k < r ==> t[j] != t[k]
    ensures t in All(Family(Combination, n, r))
       <==> |t| == r && (forall j :: 0 <= j < r ==> t[j] < n) && forall j, k :: 0 <= j < k < r ==> t[j] < t[k]
    ensures t in All(Family(RepeatedPermutation, n, r)) <==> |t| == r && forall j :: 0 <= j < r ==> t[j] < n
    ensures t in All(Family(RepeatedCombination, n, r))
       <==> |t| == r && (forall j :: 0 <= j < r ==> t[j] < n) && forall j, k :: 0 <= j < k < r ==> t[j] <= t[k]
  {
    hide All;
    AllIs(Family(Permutation, n, r), t);
    AllIs(Family(Combination, n, r), t);
    AllIs(Family(RepeatedPermutation, n, r), t);
    AllIs(Family(RepeatedCombination, n, r), t);
  }

  lemma GrownIs(f: Family, t: Tuple)
    ensures Grown(f, t, 0) <==> IsTuple(f, t)
  {
    if IsTuple(f, t) {
      forall j | 0 <= j < f.r ensures May(f, t[..j], t[j]) {
        if f.kind == Combination {
          Spread(t, j, f.r - 1);
        }
      }
    }
    if Grown(f, t, 0) {
      forall j | 0 <= j < |t| ensures t[j] < f.n {
        assert May(f, t[..j], t[j]);
      }
      forall j, k | 0 <= j < k < |t|
        ensures f.kind == Permutation ==> t[j] != t[k]
        ensures f.kind == Combination ==> t[j] < t[k]
        ensures f.kind == RepeatedCombination ==> t[j] <= t[k]
      {
        Ordered(f, t, j, k);
      }
    }
  }

  lemma {:induction false} Ordered(f: Family, t: Tuple, j: nat, k: nat)
    requires Grown(f, t, 0) && j < k < |t|
    ensures f.kind == Permutation ==> t[j] != t[k]
    ensures f.kind == Combination ==> t[j] < t[k]
    ensures f.kind == RepeatedCombination ==> t[j] <= t[k]
    decreases k
  {
    assert May(f, t[..k], t[k]);
    assert t[..k][j] == t[j];
    if j < k - 1 {
      Ordered(f, t, j, k - 1);
    }
  }

  // Strictly increasing indices are spread out.
  lemma {:induction false} Spread(t: Tuple, j: nat, k: nat)
    requires j <= k < |t| && forall a, b :: 0 <= a < b < |t| ==> t[a] < t[b]
    ensures t[j] + (k - j) <= t[k]
    decreases k
  {
    if j < k {
      Spread(t, j, k - 1);
    }
  }

  // ---- in order, and so without repetition ----

  ghost predicate Less(s: Tuple, t: Tuple)
  {
    exists k :: 0 <= k < |s| && k < |t| && s[..k] == t[..k] && s[k] < t[k]
  }

  ghost predicate Ascending(list: seq<Tuple>)
  {
    forall a, b :: 0 <= a < b < |list| ==> Less(list[a], list[b])
  }

  lemma {:induction false} FromAscending(f: Family, prefix: Tuple, i: nat)
    requires |prefix| < f.r
    ensures Ascending(From(f, prefix, i))
    decreases f.r - |prefix|, if i < f.n then f.n - i else 0
  {
    if i < f.n {
      var first, rest := Under(f, prefix, i), From(f, prefix, i + 1);
      if May(f, prefix, i) && |prefix| + 1 != f.r {
        FromAscending(f, prefix + [i], 0);
      }
      FromAscending(f, prefix, i + 1);
      forall a, b | 0 <= a < b < |first + rest|
        ensures Less((first + rest)[a], (first + rest)[b])
      {
        if a < |first| <= b {
          var s, t := first[a], rest[b - |first|];
          UnderIs(f, prefix, i, s);
          FromIs(f, prefix, i + 1, t);
          assert s[..|prefix|] == t[..|prefix|] && s[|prefix|] < t[|prefix|];
        }
      }
    }
  }

  // The list is in lexicographic order, so that no tuple occurs twice.
  lemma AllAscending(f: Family)
    ensures Ascending(All(f))
  {
    if f.r != 0 {
      FromAscending(f, [], 0);
    }
  }

  // Of two tuples in the list the earlier one has the smaller index where they first differ.
  lemma AllOrdered(f: Family, a: nat, b: nat) returns (k: nat)
    requires a < b < |All(f)|
    ensures k < f.r == |All(f)[a]| == |All(f)[b]|
    ensures All(f)[a][..k] == All(f)[b][..k] && All(f)[a][k] < All(f)[b][k]
  {
    AllAscending(f);
    AllIs(f, All(f)[a]);
    AllIs(f, All(f)[b]);
    hide All;
    var s, t := All(f)[a], All(f)[b];
    assert Less(s, t);
    k :| 0 <= k < |s| && k < |t| && s[..k] == t[..k] && s[k] < t[k];
  }

  lemma AllDistinct(f: Family, a: nat, b: nat)
    requires a < b < |All(f)|
    ensures All(f)[a] != All(f)[b]
  {
    AllAscending(f);
    assert Less(All(f)[a], All(f)[b]);
  }

  // ---- moving through a search ----

  // Indices that may not come next are passed over.
  lemma {:induction false} SkipTo(f: Family, prefix: Tuple, i: nat, j: nat)
    requires |prefix| < f.r && i <= j <= f.n
    requires forall v :: i <= v < j ==> !May(f, prefix, v)
    ensures From(f, prefix, i) == From(f, prefix, j)
    ensures After(f, prefix, i) == After(f, prefix, j)
    decreases j - i
  {
    if i < j {
      SkipTo(f, prefix, i + 1, j);
      assert Under(f, prefix, i) == [];
    }
  }

  lemma Assoc<T>(a: seq<T>, b: seq<T>, c: seq<T>)
    ensures (a + b) + c == a + (b + c)
  {
  }

  // What is left after i splits into what starts with i and the rest.
  lemma AfterSplit(f: Family, prefix: Tuple, i: nat)
    requires |prefix| < f.r && i < f.n
    ensures After(f, prefix, i) == Under(f, prefix, i) + After(f, prefix, i + 1)
  {
    var later := if prefix == [] then [] else After(f, prefix[..|prefix| - 1], prefix[|prefix| - 1] + 1);
    Assoc(Under(f, prefix, i), From(f, prefix, i + 1), later);
  }

  // Choosing i, when it is not the last index of the tuple
  lemma Descend(f: Family, prefix: Tuple, i: nat)
    requires |prefix| + 1 < f.r && May(f, prefix, i)
    ensures After(f, prefix, i) == After(f, prefix + [i], 0)
  {
    AfterSplit(f, prefix, i);
    Pushed(f, prefix, i);
  }

  lemma AfterIs(f: Family, prefix: Tuple, i: nat)
    requires 0 < |prefix| < f.r
    ensures After(f, prefix, i) == From(f, prefix, i) + After(f, prefix[..|prefix| - 1], prefix[|prefix| - 1] + 1)
  {
  }

  lemma {:induction false} Pushed(f: Family, prefix: Tuple, i: nat)
    requires |prefix| + 1 < f.r
    ensures After(f, prefix + [i], 0) == From(f, prefix + [i], 0) + After(f, prefix, i + 1)
  {
    var longer := prefix + [i];
    AfterIs(f, longer, 0);
    hide From, After;
    assert longer != [] && longer[..|longer| - 1] == prefix && longer[|longer| - 1] == i;
  }

  // Going back to the index before
  lemma Ascend(f: Family, prefix: Tuple, i: nat)
    requires |prefix| < f.r && i >= f.n
    ensures After(f, prefix, i)
         == if prefix == [] then [] else After(f, prefix[..|prefix| - 1], prefix[|prefix| - 1] + 1)
  {
    var later := if prefix == [] then [] else After(f, prefix[..|prefix| - 1], prefix[|prefix| - 1] + 1);
    assert [] + later == later;
  }

  // A last index is one tuple.
  lemma Emit(f: Family, prefix: Tuple, i: nat)
    requires |prefix| + 1 == f.r && May(f, prefix, i)
    ensures After(f, prefix, i) == [prefix + [i]] + After(f, prefix, i + 1)
  {
    AfterSplit(f, prefix, i);
  }

  // ---- how far a search has to go ----

  function StepsFrom(f: Family, prefix: Tuple, i: nat): nat
    requires |prefix| < f.r
    decreases f.r - |prefix|, if i < f.n then f.n - i else 0
  {
    if i >= f.n then 1
    else 1 + (if May(f, prefix, i) && |prefix| + 1 < f.r then StepsFrom(f, prefix + [i], 0) else 0)
           + StepsFrom(f, prefix, i + 1)
  }

  function Steps(f: Family, prefix: Tuple, i: nat): nat
    requires |prefix| < f.r
    decreases |prefix|
  {
    StepsFrom(f, prefix, i) + if prefix == [] then 0 else Steps(f, prefix[..|prefix| - 1], prefix[|prefix| - 1] + 1)
  }

  lemma {:induction false} StepsSkip(f: Family, prefix: Tuple, i: nat, j: nat)
    requires |prefix| < f.r && i <= j <= f.n
    ensures Steps(f, prefix, j) <= Steps(f, prefix, i)
    ensures i < j ==> Steps(f, prefix, j) < Steps(f, prefix, i)
    decreases j - i
  {
    if i < j {
      StepsSkip(f, prefix, i + 1, j);
    }
  }

  lemma {:induction false} StepsDescend(f: Family, prefix: Tuple, i: nat)
    requires |prefix| + 1 < f.r && May(f, prefix, i)
    ensures Steps(f, prefix + [i], 0) < Steps(f, prefix, i)
  {
    var longer := prefix + [i];
    assert longer[..|longer| - 1] == prefix && longer[|longer| - 1] == i;
  }

  lemma {:induction false} StepsAscend(f: Family, prefix: Tuple, i: nat)
    requires 0 < |prefix| < f.r && i >= f.n
    ensures Steps(f, prefix[..|prefix| - 1], prefix[|prefix| - 1] + 1) < Steps(f, prefix, i)
  {
  }
}
