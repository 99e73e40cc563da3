/**
 How many tuples there are: the sizes that the enumerators of array.c announce are the
 numbers of tuples they yield, and the running division in the binomial coefficient
 never leaves a remainder.
 */
module Counting {
  import opened Tuples
  import opened Enumerate
  import Kernel

  // Binomial coefficients, by Pascal's rule
  function Choose(n: nat, k: nat): nat
  {
    if k == 0 then 1 else if n == 0 then 0 else Choose(n - 1, k - 1) + Choose(n - 1, k)
  }

  // n * (n - 1) * ... of k factors
  function Falling(n: nat, k: nat): nat
  {
    if k == 0 then 1 else if n == 0 then 0 else n * Falling(n - 1, k - 1)
  }

  function Power(n: nat, k: nat): nat
  {
    if k == 0 then 1 else n * Power(n, k - 1)
  }

  // Multisets of k out of n
  function Multichoose(n: nat, k: nat): nat
  {
    if k == 0 then 1 else Choose(n + k - 1, k)
  }

  function Size(f: Family): nat
  {
    match f.kind
    case Permutation => Falling(f.n, f.r)
    case Combination => Choose(f.n, f.r)
    case RepeatedPermutation => Power(f.n, f.r)
    case RepeatedCombination => Multichoose(f.n, f.r)
  }

  // The number of tuples in each family
  lemma AllSize(f: Family)
    ensures |All(f)| == Size(f)
  {
    if f.r != 0 {
      match f.kind
      case Permutation => AllPermutations(f);
      case Combination => CombinationsFrom(f, [], 0);
      case RepeatedPermutation => RepeatedPermutationsFrom(f, [], 0);
      case RepeatedCombination => RepeatedCombinationsFrom(f, [], 0);
    }
  }

  lemma {:induction false} RepeatedPermutationsFrom(f: Family, prefix: Tuple, i: nat)
    requires f.kind == RepeatedPermutation && |prefix| < f.r && i <= f.n
    ensures |From(f, prefix, i)| == (f.n - i) * Power(f.n, f.r - |prefix| - 1)
    decreases f.r - |prefix|, f.n - i
  {
    if i < f.n {
      var p := Power(f.n, f.r - |prefix| - 1);
      RepeatedPermutationsFrom(f, prefix, i + 1);
      if |prefix| + 1 < f.r {
        RepeatedPermutationsFrom(f, prefix + [i], 0);
        assert (f.n - 0) * Power(f.n, f.r - |prefix| - 2) == p;
      }
      assert p + (f.n - i - 1) * p == (f.n - i) * p;
    }
  }

  lemma {:induction false} ChooseMany(n: nat, k: nat)
    requires n < k
    ensures Choose(n, k) == 0
  {
    if n != 0 {
      ChooseMany(n - 1, k - 1);
      ChooseMany(n - 1, k);
    }
  }

  // The tuples that continue with i, and those that continue with a later index
  lemma {:induction false} FromSize(f: Family, prefix: Tuple, i: nat)
    requires |prefix| < f.r && i <= f.n
    ensures i == f.n ==> |From(f, prefix, i)| == 0
    ensures i < f.n ==>
              |From(f, prefix, i)|
              == |From(f, prefix, i + 1)|
                 + if !May(f, prefix, i) then 0 else if |prefix| + 1 < f.r then |From(f, prefix + [i], 0)| else 1
  {
  }

  lemma {:induction false} CombinationsFrom(f: Family, prefix: Tuple, i: nat)
    requires f.kind == Combination && |prefix| < f.r && i <= f.n
    requires prefix == [] || prefix[|prefix| - 1] < i
    ensures |From(f, prefix, i)| == Choose(f.n - i, f.r - |prefix|)
    decreases f.r - |prefix|, f.n - i
  {
    var k := f.r - |prefix|;
    FromSize(f, prefix, i);
    if i < f.n {
      assert Choose(f.n - i, k) == Choose(f.n - i - 1, k - 1) + Choose(f.n - i - 1, k) && Choose(f.n - i - 1, 0) == 1;
      hide Choose, From, Under;
      CombinationsFrom(f, prefix, i + 1);
      if !May(f, prefix, i) {
        ChooseMany(f.n - i - 1, k - 1);
      } else if |prefix| + 1 < f.r {
        SkipTo(f, prefix + [i], 0, i + 1);
        CombinationsFrom(f, prefix + [i], i + 1);
      }
    }
  }

  lemma {:induction false} MultiPascal(n: nat, k: nat)
    requires 0 < n && 0 < k
    ensures Multichoose(n, k) == Multichoose(n, k - 1) + Multichoose(n - 1, k) && Multichoose(n, 0) == 1
  {
    assert Choose(n + k - 1, k) == Choose(n + k - 2, k - 1) + Choose(n + k - 2, k);
  }

  lemma {:induction false} RepeatedCombinationsFrom(f: Family, prefix: Tuple, i: nat)
    requires f.kind == RepeatedCombination && |prefix| < f.r && i <= f.n
    requires prefix == [] || prefix[|prefix| - 1] <= i
    ensures |From(f, prefix, i)| == Multichoose(f.n - i, f.r - |prefix|)
    decreases f.r - |prefix|, f.n - i
  {
    var k := f.r - |prefix|;
    if i < f.n {
      MultiPascal(f.n - i, k);
      RepeatedCombinationsFrom(f, prefix, i + 1);
      if |prefix| + 1 < f.r {
        SkipTo(f, prefix + [i], 0, i);
        RepeatedCombinationsFrom(f, prefix + [i], i);
      }
      hide Multichoose, Choose;
    } else {
      ChooseMany(k - 1, k);
    }
  }

  // How many indices from i on are not in the prefix
  function Free(f: Family, prefix: Tuple, i: nat): nat
    decreases if i < f.n then f.n - i else 0
  {
    if i >= f.n then 0 else (if i in prefix then 0 else 1) + Free(f, prefix, i + 1)
  }

  lemma {:induction false} FreeLess(f: Family, prefix: Tuple, v: nat, i: nat)
    requires v !in prefix && v < f.n
    ensures Free(f, prefix, i) == Free(f, prefix + [v], i) + (if i <= v then 1 else 0)
    decreases if i < f.n then f.n - i else 0
  {
    if i < f.n {
      FreeLess(f, prefix, v, i + 1);
      assert i in prefix + [v] <==> i in prefix || i == v;
    }
  }

  lemma {:induction false} FreeAll(f: Family, i: nat)
    requires i <= f.n
    ensures Free(f, [], i) == f.n - i
    decreases f.n - i
  {
    if i < f.n {
      FreeAll(f, i + 1);
    }
  }

  ghost predicate Distinct(f: Family, prefix: Tuple)
  {
    && (forall j :: 0 <= j < |prefix| ==> prefix[j] < f.n)
    && (forall j, k :: 0 <= j < k < |prefix| ==> prefix[j] != prefix[k])
  }

  lemma {:induction false} FreeCount(f: Family, prefix: Tuple)
    requires Distinct(f, prefix)
    ensures Free(f, prefix, 0) + |prefix| == f.n
    decreases |prefix|
  {
    if prefix == [] {
      FreeAll(f, 0);
    } else {
      var rest, v := prefix[..|prefix| - 1], prefix[|prefix| - 1];
      assert prefix == rest + [v];
      FreeCount(f, rest);
      FreeLess(f, rest, v, 0);
    }
  }

  lemma {:induction false} FreeMono(f: Family, prefix: Tuple, i: nat)
    requires i <= f.n
    ensures Free(f, prefix, i) <= Free(f, prefix, 0)
  {
    if i != 0 {
      FreeMono(f, prefix, i - 1);
    }
  }

  // What follows each choice of the next index
  function PerChoice(f: Family, k: nat): nat
    requires k < f.r
  {
    if k < f.n then Falling(f.n - k - 1, f.r - k - 1) else 0
  }

  lemma {:induction false} PermutationsFrom(f: Family, prefix: Tuple, i: nat)
    requires f.kind == Permutation && |prefix| < f.r && i <= f.n && Distinct(f, prefix)
    ensures |From(f, prefix, i)| == Free(f, prefix, i) * PerChoice(f, |prefix|)
    decreases f.r - |prefix|, f.n - i
  {
    if i < f.n {
      PermutationsFrom(f, prefix, i + 1);
      FreeCount(f, prefix);
      FreeMono(f, prefix, i);
      if May(f, prefix, i) {
        if |prefix| + 1 < f.r {
          PermutationsFrom(f, prefix + [i], 0);
          FreeCount(f, prefix + [i]);
          PerChoiceStep(f, |prefix|);
        }
        OneMore(Free(f, prefix, i + 1), PerChoice(f, |prefix|));
      }
    }
  }

  lemma PerChoiceStep(f: Family, k: nat)
    requires k + 1 < f.r && k < f.n
    ensures (f.n - (k + 1)) * PerChoice(f, k + 1) == PerChoice(f, k)
  {
  }

  lemma OneMore(a: nat, p: nat)
    ensures p + a * p == (1 + a) * p
  {
  }

  lemma AllPermutations(f: Family)
    requires f.kind == Permutation && 0 < f.r
    ensures |From(f, [], 0)| == Falling(f.n, f.r)
  {
    PermutationsFrom(f, [], 0);
    FreeCount(f, []);
  }

  // ---- descending_factorial ----

  // The product of how_many factors counting down, whatever their sign
  function Product(from: int, howMany: nat): int
    decreases howMany
  {
    if howMany == 0 then 1 else from * Product(from - 1, howMany - 1)
  }

  lemma {:induction false} ProductSnoc(from: int, k: nat)
    ensures Product(from, k + 1) == Product(from, k) * (from - k)
    decreases k
  {
    if k == 0 {
      assert Product(from - 1, 0) == 1;
    } else {
      ProductSnoc(from - 1, k - 1);
      assert from * (Product(from - 1, k - 1) * (from - k)) == (from * Product(from - 1, k - 1)) * (from - k);
    }
  }

  // Once a factor is zero the product stays zero.
  lemma {:induction false} ProductFalling(n: nat, k: nat)
    ensures Product(n, k) == Falling(n, k)
  {
    if k != 0 && n != 0 {
      ProductFalling(n - 1, k - 1);
    }
  }

  method DescendingFactorial(from0: nat, howMany0: int) returns (cnt: int)
    ensures cnt == if howMany0 < 0 then 0 else Falling(from0, howMany0)
  {
    var from: int, howMany := from0, howMany0;
    if howMany > 0 {
      cnt := from;
      ghost var k := 1;
      assert Product(from0, 1) == from0 * Product(from0 - 1, 0);
      howMany := howMany - 1;
      while howMany > 0
        invariant 1 <= k <= howMany0 && howMany == howMany0 - k && from == from0 - (k - 1)
        invariant cnt == Product(from0, k)
      {
        ProductSnoc(from0, k);
        from := from - 1;
        var v := from;
        cnt := cnt * v;
        k := k + 1;
        howMany := howMany - 1;
      }
      ProductFalling(from0, howMany0);
    } else {
      cnt := if howMany == 0 then 1 else 0;
    }
  }

  // ---- binomial_coefficient ----

  // C(n, k + 1) * (k + 1) == C(n, k) * (n - k)
  lemma {:induction false} ChooseStep(n: nat, k: nat)
    requires k <= n
    ensures Choose(n, k + 1) * (k + 1) == Choose(n, k) * (n - k)
  {
    if n == 0 {
    } else if k == 0 {
      ChooseOne(n);
    } else if k == n {
      ChooseMany(n, k + 1);
    } else {
      ChooseStep(n - 1, k);
      ChooseStep(n - 1, k - 1);
      StepArith(Choose(n - 1, k - 1), Choose(n - 1, k), Choose(n - 1, k + 1), n, k);
    }
  }

  lemma StepArith(a: int, b: int, c: int, n: int, k: int)
    requires c * (k + 1) == b * (n - 1 - k) && b * k == a * (n - k)
    ensures (b + c) * (k + 1) == (a + b) * (n - k)
  {
  }

  lemma {:induction false} ChooseOne(n: nat)
    ensures Choose(n, 1) == n
  {
    if n != 0 {
      ChooseOne(n - 1);
    }
  }

  lemma {:induction false} ChooseAll(n: nat)
    ensures Choose(n, n) == 1
  {
    if n != 0 {
      ChooseAll(n - 1);
      ChooseMany(n - 1, n);
    }
  }

  lemma {:induction false} ChooseSymmetric(n: nat, k: nat)
    requires k <= n
    ensures Choose(n, k) == Choose(n, n - k)
    decreases n
  {
    if k == 0 || k == n {
      ChooseAll(n);
    } else {
      ChooseSymmetric(n - 1, k - 1);
      ChooseSymmetric(n - 1, k);
    }
  }

  // The running division leaves no remainder.
  lemma DivisionExact(n: nat, k: nat)
    requires k <= n
    ensures (Choose(n, k) * (n - k)) % (k + 1) == 0
    ensures (Choose(n, k) * (n - k)) / (k + 1) == Choose(n, k + 1)
  {
    ChooseStep(n, k);
    Kernel.DivUnique(Choose(n, k) * (n - k), k + 1, Choose(n, k + 1), 0);
  }

  method BinomialCoefficient(comb0: int, size: int) returns (r: int)
    ensures r == if 0 <= comb0 <= size then Choose(size, comb0) else 0
  {
    var comb := comb0;
    if comb > size - comb {
      comb := size - comb;
    }
    if comb < 0 {
      return 0;
    } else if comb == 0 {
      assert 0 <= comb0 <= size ==> Choose(size, comb0) == 1 by { if size >= 0 { ChooseAll(size); } }
      return 1;
    }
    r := size;
    ChooseOne(size);
    ChooseSymmetric(size, comb);
    for i := 1 to comb
      invariant r == Choose(size, i)
    {
      DivisionExact(size, i);
      r := r * (size - i);
      assert r % (i + 1) == 0;
      r := r / (i + 1);
    }
  }

  // ---- the methods of Array, and the sizes of their enumerators ----

  method Singles(n: nat, ghost kind: Kind) returns (out: seq<Tuple>)
    ensures out == All(Family(kind, n, 1))
  {
    ghost var f := Family(kind, n, 1);
    out := [];
    for i := 0 to n
      invariant out + From(f, [], i) == All(f)
    {
      assert Under(f, [], i) == [[i]] by { assert [] + [i] == [i]; }
      Assoc(out, [[i]], From(f, [], i + 1));
      out := out + [[i]];
    }
  }

  // rb_ary_permutation with an argument; without one it is `n`.
  method ArrayPermutation(n: nat, r: int) returns (out: seq<Tuple>)
    ensures out == if r < 0 then [] else All(Family(Permutation, n, r))
  {
    if r < 0 || n < r {
      if r >= 0 {
        AllSize(Family(Permutation, n, r));
        FallingMany(n, r);
      }
      return [];
    } else if r == 0 {
      return [[]];
    } else if r == 1 {
      out := Singles(n, Permutation);
    } else {
      var p := new nat[r];
      var used := new bool[n](_ => false);
      out := Permute0(n, r, p, used);
    }
  }

  lemma {:induction false} FallingMany(n: nat, k: nat)
    requires n < k
    ensures Falling(n, k) == 0
  {
    if n != 0 {
      FallingMany(n - 1, k - 1);
    }
  }

  // rb_ary_combination
  method ArrayCombination(len: nat, n: int) returns (out: seq<Tuple>)
    ensures out == if n < 0 then [] else All(Family(Combination, len, n))
  {
    if n < 0 || len < n {
      if n >= 0 {
        AllSize(Family(Combination, len, n));
        ChooseMany(len, n);
      }
      return [];
    } else if n == 0 {
      return [[]];
    } else if n == 1 {
      out := Singles(len, Combination);
    } else {
      var stack := new int[n + 1];
      out := Combinate0(len, n, stack);
    }
  }

  // rb_ary_repeated_permutation
  method ArrayRepeatedPermutation(n: nat, r: int) returns (out: seq<Tuple>)
    ensures out == if r < 0 then [] else All(Family(RepeatedPermutation, n, r))
  {
    if r < 0 {
      return [];
    } else if r == 0 {
      return [[]];
    } else if r == 1 {
      out := Singles(n, RepeatedPermutation);
    } else {
      var p := new nat[r];
      out := Rpermute0(n, r, p);
    }
  }

  // rb_ary_repeated_combination
  method ArrayRepeatedCombination(len: nat, n: int) returns (out: seq<Tuple>)
    ensures out == if n < 0 then [] else All(Family(RepeatedCombination, len, n))
  {
    if n < 0 {
      return [];
    } else if n == 0 {
      return [[]];
    } else if n == 1 {
      out := Singles(len, RepeatedCombination);
    } else if len == 0 {
      return [];
    } else {
      var p := new nat[n];
      out := Rcombinate0(len, n, p);
    }
  }

  // The size methods announce as many tuples as are yielded.
  method ArraySize(kind: Kind, n: nat, k: int) returns (size: int)
    ensures size == if k < 0 then 0 else |All(Family(kind, n, k))|
  {
    if k >= 0 {
      AllSize(Family(kind, n, k));
    }
    match kind
    case Permutation =>
      size := DescendingFactorial(n, k);
    case Combination =>
      size := BinomialCoefficient(k, n);
      if k > n { ChooseMany(n, k); }
    case RepeatedPermutation =>
      if k < 0 {
        return 0;
      }
      if n <= 0 {
        return if k == 0 then 1 else 0;
      }
      return Power(n, k);
    case RepeatedCombination =>
      if k == 0 {
        return 1;
      }
      size := BinomialCoefficient(k, n + k - 1);
      if k > n + k - 1 && k > 0 { ChooseMany(n + k - 1, k); }
  }
}
