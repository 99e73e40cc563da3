/**
 Which of the products of merging stop, by their place in the number, and strings of any
 length on which none does.
 */
module MergeCases {
  import opened Digits
  import opened Kernel
  import opened Lengths
  import opened MulCommon
  import opened Workspace
  import opened Shortage
  import opened MergeShortage
  import opened Radix
  import opened PowerCache
  import opened Print
  import opened Parse
  import opened MergeFailure

  // ---- one pass ----

  // The high number of pair j, in the n digits that hold v in groups of `unit` to the base b: the whole pairs are
  // of two groups, and the last one may be cut.
  ghost predicate PairStopsAt(v: nat, b: nat, n: nat, unit: nat, j: nat)
    requires 0 < b
  {
    var i := (2 * unit) * j;
    ModLess(v, Exp(b, 2 * j + 1));
    var h := v / Exp(b, 2 * j + 1);
    ModLess(h, b);
    if 2 * unit <= n - i then Stops(Toom3Start, b, h % b, 2 * unit, 0)
    else unit <= n - i && Stops(Toom3Start, b, h, n - i, 0)
  }

  lemma PairAtZero(v: nat, b: nat, n: nat, unit: nat)
    requires 0 < b && 0 < unit
    ensures PairStopsAt(v, b, n, unit, 0)
       <==> unit <= n && Stops(Toom3Start, b, HighOfPair(v, b, n, unit), Min(2 * unit, n), 0)
  {
    assert Exp(b, 1) == b * Exp(b, 0) && Exp(b, 0) == 1 && (2 * unit) * 0 == 0;
    hide Stops, Exp;
  }

  lemma PairAtNext(v: nat, b: nat, n: nat, unit: nat, j: nat)
    requires 0 < b && 0 < unit && 2 * unit <= n
    ensures PairStopsAt(v, b, n, unit, j + 1) <==> PairStopsAt(BeyondPair(v, b), b, n - 2 * unit, unit, j)
  {
    ProductPositive(b, b);
    assert Exp(b, 2) == b * Exp(b, 1) && Exp(b, 1) == b * Exp(b, 0);
    ExpAdd(b, 2, 2 * j + 1);
    QuotientTwice(v, b * b, Exp(b, 2 * j + 1));
    assert (2 * unit) * (j + 1) == (2 * unit) * j + 2 * unit;
    hide Stops, Exp;
  }

  lemma {:induction false} PassStopsAt(v: nat, b: nat, n: nat, unit: nat, j: nat)
    requires 0 < b && 0 < unit && PairStopsAt(v, b, n, unit, j)
    ensures PassStops(v, b, n, unit)
    decreases j
  {
    if j == 0 {
      PairAtZero(v, b, n, unit);
    } else if 2 * unit <= n {
      PairAtNext(v, b, n, unit, j - 1);
      hide Stops, PairStopsAt;
      PassStopsAt(BeyondPair(v, b), b, n - 2 * unit, unit, j - 1);
    } else {
      LeMul(2 * unit, 1, j);
    }
  }

  lemma {:induction false} FindPair(v: nat, b: nat, n: nat, unit: nat) returns (j: nat)
    requires 0 < b && 0 < unit && PassStops(v, b, n, unit)
    ensures PairStopsAt(v, b, n, unit, j)
    decreases n
  {
    hide Stops, PairStopsAt;
    PairAtZero(v, b, n, unit);
    if PairStopsAt(v, b, n, unit, 0) {
      j := 0;
    } else {
      j := FindPair(BeyondPair(v, b), b, n - 2 * unit, unit);
      PairAtNext(v, b, n, unit, j);
      j := j + 1;
    }
  }

  // ---- all passes ----

  lemma {:induction false} FindPass(v: nat, b: nat, n: nat, unit: nat) returns (k: nat)
    requires 0 < b && 0 < unit && MergeStops(v, b, n, unit)
    ensures 0 < unit * Pow2(k) < n && 0 < Exp(b, Pow2(k)) && PassStops(v, Exp(b, Pow2(k)), n, unit * Pow2(k))
    decreases n - unit
  {
    hide PassStops;
    ProductPositive(b, b);
    if PassStops(v, b, n, unit) {
      k := 0;
      assert Pow2(0) == 1 && Exp(b, 1) == b * Exp(b, 0);
    } else {
      k := FindPass(v, b * b, n, 2 * unit);
      ExpTimes(b, b, Pow2(k));
      ExpAdd(b, Pow2(k), Pow2(k));
      assert Pow2(k + 1) == 2 * Pow2(k);
      UnitDoubled(unit, Pow2(k));
      k := k + 1;
    }
  }

  // The number read, with the groups of the first pass as its digits to the base b: pair j of pass k has its low
  // number at digit 2^k * (2 * j) and its high number at digit 2^k * (2 * j + 1), of 2^k digits or, in a pair
  // that is cut, of all that is left.
  ghost function High(v: nat, b: nat, n: nat, k: nat, j: nat): (h: nat)
    requires 0 < b
  {
    var p := Pow2(k);
    LeMul(p, 0, 2 * j + 1);
    ModLess(v, Exp(b, p * (2 * j + 1)));
    var h := v / Exp(b, p * (2 * j + 1));
    ModLess(h, Exp(b, p));
    if 4 * p <= n - (4 * p) * j then h % Exp(b, p) else h
  }

  // There is a pass k, and in it a pair j with a high number.
  predicate HasHigh(n: nat, k: nat, j: nat)
  {
    2 * Pow2(k) < n && 2 * Pow2(k) <= n - (4 * Pow2(k)) * j
  }

  // The product of the high number with b^(2^k), into the digits of the pair, stops.
  ghost predicate HighStopsAt(v: nat, b: nat, n: nat, k: nat, j: nat)
    requires 0 < b
  {
    var p := Pow2(k);
    HasHigh(n, k, j) && Stops(Toom3Start, Exp(b, p), High(v, b, n, k, j), Min(4 * p, n - (4 * p) * j), 0)
  }

  lemma HighIsPair(v: nat, b: nat, n: nat, k: nat, j: nat)
    requires 0 < b && 2 * Pow2(k) < n
    ensures HighStopsAt(v, b, n, k, j) <==> PairStopsAt(v, Exp(b, Pow2(k)), n, 2 * Pow2(k), j)
  {
    ExpExp(b, Pow2(k), 2 * j + 1);
    hide Stops, Exp, Pow2;
  }

  // Merging stops exactly when the product of one of these high numbers does.
  lemma MergeCondition(v: nat, b: nat, n: nat)
    requires 0 < b
    ensures MergeStops(v, b, n, 2) <==> exists k: nat, j: nat :: HighStopsAt(v, b, n, k, j)
  {
    hide MergeStops, PassStops, PairStopsAt, HighStopsAt, Stops, Exp, Pow2;
    if MergeStops(v, b, n, 2) {
      var k := FindPass(v, b, n, 2);
      var j := FindPair(v, Exp(b, Pow2(k)), n, 2 * Pow2(k));
      HighIsPair(v, b, n, k, j);
    }
    if k: nat, j: nat :| HighStopsAt(v, b, n, k, j) {
      HighInRange(v, b, n, k, j);
      HighIsPair(v, b, n, k, j);
      PassStopsAt(v, Exp(b, Pow2(k)), n, 2 * Pow2(k), j);
      LaterPass(v, b, n, 2, k);
    }
  }

  lemma HighInRange(v: nat, b: nat, n: nat, k: nat, j: nat)
    requires 0 < b && HighStopsAt(v, b, n, k, j)
    ensures 2 * Pow2(k) < n
  {
  }

  // ---- strings that are read ----

  // Merging never stops when each high number has fewer than 70 digits between the zeros at its ends.
  lemma ShortHighsMerge(v: nat, b: nat, n: nat)
    requires 0 < b
    requires forall k: nat, j: nat :: HasHigh(n, k, j) ==> Len(Trim(High(v, b, n, k, j))) < 70
    ensures !MergeStops(v, b, n, 2)
  {
    MergeCondition(v, b, n);
    forall k: nat, j: nat ensures !HighStopsAt(v, b, n, k, j) {
      ShortHigh(v, b, n, k, j);
    }
  }

  lemma ShortHigh(v: nat, b: nat, n: nat, k: nat, j: nat)
    requires 0 < b
    requires HasHigh(n, k, j) ==> Len(Trim(High(v, b, n, k, j))) < 70
    ensures !HighStopsAt(v, b, n, k, j)
  {
    hide Stops, Exp, Pow2, Len, Trim;
    if HighStopsAt(v, b, n, k, j) {
      ShortNever(Toom3Start, Exp(b, Pow2(k)), High(v, b, n, k, j), Min(4 * Pow2(k), n - (4 * Pow2(k)) * j), 0);
    }
  }

  // Nor when they are balanced with the power of their pass.
  lemma BalancedHighsMerge(v: nat, b: nat, n: nat)
    requires 0 < b
    requires forall k: nat, j: nat :: HasHigh(n, k, j) ==> Balanced(Exp(b, Pow2(k)), High(v, b, n, k, j))
    ensures !MergeStops(v, b, n, 2)
  {
    MergeCondition(v, b, n);
    forall k: nat, j: nat ensures !HighStopsAt(v, b, n, k, j) {
      BalancedHigh(v, b, n, k, j);
    }
  }

  lemma BalancedHigh(v: nat, b: nat, n: nat, k: nat, j: nat)
    requires 0 < b
    requires HasHigh(n, k, j) ==> Balanced(Exp(b, Pow2(k)), High(v, b, n, k, j))
    ensures !HighStopsAt(v, b, n, k, j)
  {
    hide Stops, Exp, Pow2, Balanced;
    if HighStopsAt(v, b, n, k, j) {
      BalancedNever(Exp(b, Pow2(k)), High(v, b, n, k, j), Min(4 * Pow2(k), n - (4 * Pow2(k)) * j));
    }
  }

  // 1 and a number of zeros to the base b: its high numbers are zeros and ones.
  lemma OneAndZeros(b: nat, e: nat, n: nat)
    requires 2 <= b && 2 * Pow2(e) < n
    ensures !MergeStops(Exp(b, Pow2(e)), b, n, 2)
  {
    hide MergeStops, Stops, Exp, Pow2;
    forall k: nat, j: nat ensures HasHigh(n, k, j) ==> Len(Trim(High(Exp(b, Pow2(e)), b, n, k, j))) < 70 {
      if HasHigh(n, k, j) {
        HighOfOne(b, e, n, k, j);
        OneIsShort();
      }
    }
    hide High, HasHigh, Trim, Len;
    ShortHighsMerge(Exp(b, Pow2(e)), b, n);
  }

  lemma OneIsShort()
    ensures Len(Trim(0)) == 0 && Len(Trim(1)) == 1
  {
    BLarge();
    DivUnique(1, B, 0, 1);
    assert Len(1) == 1 + Len(0);
  }

  lemma HighOfOne(b: nat, e: nat, n: nat, k: nat, j: nat)
    requires 2 <= b && 2 * Pow2(e) < n && HasHigh(n, k, j)
    ensures High(Exp(b, Pow2(e)), b, n, k, j) <= 1
  {
    var p, t := Pow2(k), Pow2(e);
    var s := p * (2 * j + 1);
    LeMul(p, 1, 2 * j + 1);
    hide Exp, Pow2;
    if t < s {
      ExpLess(b, t, s);
      DivUnique(Exp(b, t), Exp(b, s), 0, Exp(b, t));
      ZeroModulo(Exp(b, p));
    } else if t == s {
      DivUnique(Exp(b, t), Exp(b, s), 1, 0);
      OneModulo(Exp(b, p));
    } else {
      Pow2Multiple(k, e);
      var c := Pow2(e - k) - (2 * j + 1);
      BeyondOne(p, Pow2(e - k), j, n, t);
      ExpAdd(b, s, p * c);
      DivUnique(Exp(b, t), Exp(b, s), Exp(b, p * c), 0);
      ExpAdd(b, p, p * c - p);
      DivUnique(Exp(b, p * c), Exp(b, p), Exp(b, p * c - p), 0);
    }
  }

  lemma ZeroModulo(p: nat)
    requires 0 < p
    ensures 0 % p == 0
  {
    DivUnique(0, p, 0, 0);
  }

  lemma OneModulo(p: nat)
    requires 0 < p
    ensures 1 % p <= 1
  {
    if p == 1 {
      DivUnique(1, 1, 1, 0);
    } else {
      DivUnique(1, p, 0, 1);
    }
  }

  lemma {:induction false} Pow2Multiple(k: nat, e: nat)
    requires Pow2(k) <= Pow2(e)
    ensures k <= e && Pow2(e) == Pow2(k) * Pow2(e - k)
  {
    if e < k {
      Pow2Less(e, k);
      assert false;
    } else if k != 0 {
      assert Pow2(k) == 2 * Pow2(k - 1) && Pow2(e) == 2 * Pow2(e - 1);
      Pow2Multiple(k - 1, e - 1);
    }
  }

  lemma {:induction false} Pow2Less(e: nat, k: nat)
    requires e < k
    ensures Pow2(e) < Pow2(k)
  {
    assert Pow2(k) == 2 * Pow2(k - 1);
    if e < k - 1 {
      Pow2Less(e, k - 1);
    }
  }

  // One digit is not in a pair that is cut, and lies above the high number by a multiple of its length.
  lemma BeyondOne(p: nat, q: nat, j: nat, n: nat, t: nat)
    requires 0 < p && t == p * q && p * (2 * j + 1) < t && 2 * t < n
    ensures 1 <= q - (2 * j + 1) && p <= p * (q - (2 * j + 1)) && t == p * (2 * j + 1) + p * (q - (2 * j + 1))
    ensures 4 * p <= n - (4 * p) * j
  {
    if q < 2 * j + 2 {
      LeMul(p, q, 2 * j + 1);
    }
    LeMul(p, 2 * j + 2, q);
    LeMul(p, 1, q - (2 * j + 1));
    assert p * (2 * j + 2) == 2 * (p * j) + 2 * p && (4 * p) * j == 4 * (p * j);
  }

  // Digit strings of any length are read by merging: those of a power of the base that fills 2^e groups.
  lemma LongStringsMerge(digits: string, cache: Cache, e: nat)
    requires cache.Based() && Conforms(digits, cache.base) && Value(digits, cache.base) == Exp(cache.hbase2, Pow2(e))
    ensures !MergeStops(Value(digits, cache.base), cache.hbase2, BdigitsFor(Count(digits), cache.hbase2Numdigits), 2)
  {
    var d, c, g := cache.hbase2Numdigits, Count(digits), Pow2(e);
    ValueBound(digits, cache.base);
    ExpExp(cache.base, d, g);
    BLarge();
    hide Exp, MergeStops;
    if c <= d * g {
      ExpMono(cache.base, c, d * g);
    }
    DivMod(c + d - 1, d);
    if (c + d - 1) / d <= g {
      LeMul(d, (c + d - 1) / d, g);
    }
    OneAndZeros(cache.hbase2, e, BdigitsFor(c, d));
  }
}
