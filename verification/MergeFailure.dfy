/**
 Digit strings that merging reads and digit strings on which it stops: up to 256 digits
 of room it never stops, and for every odd base there is a numeral on which it does.
 */
module MergeFailure {
  import opened Digits
  import opened Kernel
  import opened Lengths
  import opened MulCommon
  import opened Workspace
  import opened Shortage
  import opened MergeShortage
  import opened Radix
  import opened PowerCache
  import opened Print
  import opened Parse

  // ---- powers ----

  lemma {:induction false} ExpMonoBase(a: nat, b: nat, n: nat)
    requires a <= b
    ensures Exp(a, n) <= Exp(b, n)
  {
    if n != 0 {
      ExpMonoBase(a, b, n - 1);
      LeMul(a, Exp(a, n - 1), Exp(b, n - 1));
      MulLe(a, b, Exp(b, n - 1));
    }
  }

  lemma {:induction false} ExpTimes(a: nat, b: nat, n: nat)
    ensures Exp(a * b, n) == Exp(a, n) * Exp(b, n)
  {
    if n != 0 {
      ExpTimes(a, b, n - 1);
      FourFactors(a, b, Exp(a, n - 1), Exp(b, n - 1));
    }
  }

  lemma FourFactors(a: nat, b: nat, p: nat, q: nat)
    ensures (a * b) * (p * q) == (a * p) * (b * q)
  {
    assert (a * b) * (p * q) == a * (b * (p * q));
    assert b * (p * q) == p * (b * q);
    assert a * (p * (b * q)) == (a * p) * (b * q);
  }

  lemma {:induction false} ExpExp(a: nat, m: nat, n: nat)
    ensures 0 <= m * n && Exp(Exp(a, m), n) == Exp(a, m * n)
  {
    LeMul(m, 0, n);
    if n != 0 {
      ExpExp(a, m, n - 1);
      assert m * n == m + m * (n - 1);
      ExpAdd(a, m, m * (n - 1));
    } else {
      assert m * n == 0;
    }
  }

  lemma {:induction false} ExpOfPow(k: nat, n: nat)
    ensures 0 <= k * n && Exp(Pow(k), n) == Pow(k * n)
  {
    LeMul(k, 0, n);
    if n != 0 {
      ExpOfPow(k, n - 1);
      assert k * n == k + k * (n - 1);
      PowAdd(k, k * (n - 1));
    } else {
      assert k * n == 0;
    }
  }

  lemma {:induction false} OddExp(a: nat, n: nat)
    requires a % 2 == 1
    ensures Exp(a, n) % 2 == 1
  {
    if n != 0 {
      OddExp(a, n - 1);
      OddTimesOdd(a, Exp(a, n - 1));
    }
  }

  lemma OddTimesOdd(a: nat, b: nat)
    requires a % 2 == 1 && b % 2 == 1
    ensures a * b % 2 == 1
  {
    DivMod(a, 2);
    DivMod(b, 2);
    var i, j := a / 2, b / 2;
    assert a * b == (2 * i + 1) * b;
    assert (2 * i + 1) * (2 * j + 1) == 2 * (2 * (i * j) + i + j) + 1;
    DivUnique(a * b, 2, 2 * (i * j) + i + j, 1);
  }

  lemma OddLowDigit(x: nat)
    requires x % 2 == 1
    ensures x % B != 0
  {
    assert B == 2 * Pow2(W - 1);
    DivMod(x, B);
    OddRemainder(x, Pow2(W - 1), x / B, x % B);
  }

  lemma OddRemainder(x: int, h: int, q: int, r: int)
    requires x == (2 * h) * q + r && x % 2 == 1
    ensures r != 0
  {
    assert (2 * h) * q == 2 * (h * q);
  }

  // ---- a pair that stops ----

  // The length of a number that leaves almost nothing over when it cuts one of p digits into slices
  function Awkward(p: nat): nat
    requires 2 <= p
  {
    if p % 2 == 1 then p / 2 else p / 2 - 1
  }

  lemma AwkwardShort(p: nat)
    requires 412 <= p <= 512
    ensures var c := Awkward(p);
            TOOM3_MUL_DIGITS <= c < p && !Toom3Balanced(c, p) && BalanceShort(c, p, 1024, 0)
  {
    var c := Awkward(p);
    SliceRemainder(p, c, if p % 2 == 1 then 1 else 2);
  }

  lemma SliceRemainder(p: nat, c: nat, r: nat)
    requires p == 2 * c + r && 0 < r < c
    ensures LastSlice(c, p) == r
  {
    DivUnique(p, c, 2, r);
  }

  lemma PairStops(b: nat) returns (high: nat)
    requires 412 <= Len(b) <= 512 && b % B != 0
    ensures 0 < high < b && Stops(Toom3Start, b, high, 1024, 0)
  {
    var c := Awkward(Len(b));
    AwkwardShort(Len(b));
    OnesAtEnds(c - 1);
    high := Pow(c - 1) + 1;
    hide Len, Pow, Awkward;
    Shorter(high, b);
    HighStops(high, b, c, Len(b));
  }

  lemma HighStops(high: nat, b: nat, c: nat, p: nat)
    requires c == Len(high) && p == Len(b) && high % B == 1 && b % B != 0
    requires TOOM3_MUL_DIGITS <= c < p && !Toom3Balanced(c, p) && BalanceShort(c, p, 1024, 0)
    ensures Stops(Toom3Start, b, high, 1024, 0)
  {
    hide Len, Stops, BalanceStops, BalanceShort, ProductStops;
    BalanceCondition(Toom3Start, high, b, 1024, 0);
    UnbalancedStops(high, b, 1024, 0);
  }

  // A number with fewer digits is smaller.
  lemma {:induction false} Shorter(x: nat, y: nat)
    requires Len(x) < Len(y)
    ensures x < y
    decreases y
  {
    if x != 0 {
      QuotientLess(x);
      QuotientLess(y);
      Shorter(x / B, y / B);
      DivMod(x, B);
      DivMod(y, B);
      LeMul(B, x / B + 1, y / B);
    }
  }

  lemma PassOverStops(b: nat, high: nat, n: nat)
    requires 0 < high < b && Stops(Toom3Start, b, high, 1024, 0) && 1024 <= n
    ensures PassStops(b * b + high * b, b, n, 512)
  {
    hide Stops;
    DivUnique(b * b + high * b, b, b + high, 0);
    DivUnique(b + high, b, 1, high);
  }

  // A later pass stops.
  lemma {:induction false} LaterPass(v: nat, b: nat, n: nat, unit: nat, k: nat)
    requires 0 < b && 0 < unit && 0 < unit * Pow2(k) < n && 0 < Exp(b, Pow2(k))
    requires PassStops(v, Exp(b, Pow2(k)), n, unit * Pow2(k))
    ensures MergeStops(v, b, n, unit)
    decreases k
  {
    hide PassStops;
    ProductPositive(b, b);
    if k == 0 {
      assert Pow2(0) == 1 && Exp(b, 1) == b * Exp(b, 0);
    } else {
      var p := Pow2(k - 1);
      assert Pow2(k) == 2 * p;
      ExpTimes(b, b, p);
      ExpAdd(b, p, p);
      hide Pow2, Exp;
      UnitDoubled(unit, p);
      LaterPass(v, b * b, n, 2 * unit, k - 1);
    }
  }

  lemma UnitDoubled(unit: nat, p: nat)
    requires 0 < unit && 0 < p
    ensures unit * (2 * p) == (2 * unit) * p && unit <= unit * (2 * p) && unit < unit * (2 * p)
  {
    LeMul(unit, 2, 2 * p);
  }

  // ---- up to 256 digits ----

  // A number of g groups fits into n digits, `unit` for each group but the last.
  ghost predicate InGroups(v: nat, b: nat, n: nat, unit: nat, g: nat)
  {
    v < Exp(b, g) && (g == 0 || (g - 1) * unit < n)
  }

  lemma {:induction false} PassNever(v: nat, b: nat, n: nat, unit: nat, g: nat)
    requires 0 < b && 0 < unit && Len(b) <= SHORT_DIGITS && InGroups(v, b, n, unit, g)
    ensures !PassStops(v, b, n, unit)
    decreases n
  {
    hide Stops, Len;
    if unit <= n {
      var high := HighOfPair(v, b, n, unit);
      HighBelow(v, b, n, unit, g);
      LenMono(high, b);
      ShortBalanced(b, high);
      BalancedNever(b, high, Min(2 * unit, n));
      if 2 * unit <= n {
        BeyondInGroups(v, b, n, unit, g);
        PassNever(BeyondPair(v, b), b, n - 2 * unit, unit, if g < 2 then 0 else g - 2);
      }
    }
  }

  lemma LenMono(x: nat, y: nat)
    requires x < y
    ensures Len(x) <= Len(y)
  {
    if Len(y) < Len(x) {
      Shorter(y, x);
    }
  }

  lemma HighBelow(v: nat, b: nat, n: nat, unit: nat, g: nat)
    requires 0 < b && 0 < unit <= n && InGroups(v, b, n, unit, g)
    ensures HighOfPair(v, b, n, unit) < b
  {
    if n < 2 * unit {
      if 3 <= g {
        LeMul(unit, 2, g - 1);
      }
      ExpMono(b, g, 2);
      assert Exp(b, 2) == b * Exp(b, 1) && Exp(b, 1) == b * Exp(b, 0);
      QuotientBelow(v, b, b);
    }
  }

  lemma BeyondInGroups(v: nat, b: nat, n: nat, unit: nat, g: nat)
    requires 0 < b && 0 < unit && 2 * unit <= n && InGroups(v, b, n, unit, g)
    ensures InGroups(BeyondPair(v, b), b, n - 2 * unit, unit, if g < 2 then 0 else g - 2)
  {
    ProductPositive(b, b);
    assert Exp(b, 2) == b * Exp(b, 1) && Exp(b, 1) == b * Exp(b, 0);
    if g < 2 {
      ExpMono(b, g, 2);
      QuotientBelow(v, b * b, 1);
    } else {
      ExpAdd(b, 2, g - 2);
      QuotientBelow(v, b * b, Exp(b, g - 2));
      assert (g - 1) * unit == (g - 3) * unit + 2 * unit;
    }
  }

  // What the size of a group can be, starting with two digits
  predicate GroupSize(unit: nat)
  {
    unit in {2, 4, 8, 16, 32, 64, 128} || 256 <= unit
  }

  lemma {:induction false} MergeNever(v: nat, b: nat, n: nat, unit: nat, g: nat)
    requires 0 < b && GroupSize(unit) && Len(b) <= unit && n <= 256 && InGroups(v, b, n, unit, g)
    ensures !MergeStops(v, b, n, unit)
    decreases n - unit
  {
    hide PassStops, Len, InGroups;
    ProductPositive(b, b);
    if unit < n {
      PassNever(v, b, n, unit, g);
      SquareFits(b, unit);
      TwiceTheGroups(v, b, n, unit, g);
      MergeNever(v, b * b, n, 2 * unit, (g + 1) / 2);
    }
  }

  lemma SquareFits(b: nat, unit: nat)
    requires Len(b) <= unit
    ensures Len(b * b) <= 2 * unit
  {
    BelowPow(b);
    PowMono(Len(b), unit);
    PowAdd(unit, unit);
    ProductBelow(b, Pow(unit));
    LenAtMost(b * b, 2 * unit);
  }

  lemma ProductBelow(b: nat, p: nat)
    requires b < p
    ensures b * b < p * p
  {
    LeMul(b, b, p);
    MulLt(b, p, p);
  }

  lemma TwiceTheGroups(v: nat, b: nat, n: nat, unit: nat, g: nat)
    requires 0 < b && InGroups(v, b, n, unit, g)
    ensures InGroups(v, b * b, n, 2 * unit, (g + 1) / 2)
  {
    var h := (g + 1) / 2;
    ExpMono(b, g, 2 * h);
    ExpAdd(b, h, h);
    ExpTimes(b, b, h);
    if h != 0 {
      assert (h - 1) * (2 * unit) == (2 * (h - 1)) * unit;
      LeMul(unit, 2 * (h - 1), g - 1);
    }
  }

  // Merging succeeds whenever 256 digits are room enough.
  lemma ShortDigits(digits: string, cache: Cache)
    requires cache.Based() && Conforms(digits, cache.base)
    requires BdigitsFor(Count(digits), cache.hbase2Numdigits) <= 256
    ensures !MergeStops(Value(digits, cache.base), cache.hbase2, BdigitsFor(Count(digits), cache.hbase2Numdigits), 2)
  {
    var e, d := cache.hbase2Numdigits, Count(digits);
    var g := (d + e - 1) / e;
    ValueBound(digits, cache.base);
    DivMod(d + e - 1, e);
    ExpMono(cache.base, d, e * g);
    ExpExp(cache.base, e, g);
    Pow1();
    LenAtMost(cache.hbase2, 2);
    MergeNever(Value(digits, cache.base), cache.hbase2, g * 2, 2, g);
  }

  // ---- the numeral ----

  // The power for groups of 512 digits has 412 to 512 digits.
  lemma PowerLength(cache: Cache)
    requires cache.Based()
    ensures 412 <= Len(Exp(cache.hbase2, 256)) <= 512
  {
    var h, b := cache.hbase2, Exp(cache.hbase2, 256);
    Pow1();
    ExpMonoBase(h, B * B, 256);
    ExpMonoBase(B * B, h * cache.base, 256);
    ExpTimes(h, cache.base, 256);
    ExpOfPow(2, 256);
    SmallBase(cache.base);
    PowAdd(416, 96);
    if Pow(512) <= b {
      NotSoLarge(h, 256);
    }
    LenAtMost(b, 512);
    if b < Pow(416) {
      MulLt(b, Pow(416), Pow(96));
      LeMul(b, Exp(cache.base, 256), Pow(96));
    }
    LenAtLeast(b, 417);
  }

  lemma {:induction false} NotSoLarge(h: nat, n: nat)
    requires 0 < h < B * B && 0 < n
    ensures Exp(h, n) < Exp(B * B, n)
  {
    ExpMonoBase(h, B * B, n - 1);
    ExpPositive(B * B, n - 1);
    LeMul(h, Exp(h, n - 1), Exp(B * B, n - 1));
    MulLt(h, B * B, Exp(B * B, n - 1));
  }

  lemma {:induction false} ExpPositive(b: nat, n: nat)
    requires 0 < b
    ensures 0 < Exp(b, n)
  {
    if n != 0 {
      ExpPositive(b, n - 1);
      ProductPositive(b, Exp(b, n - 1));
    }
  }

  lemma {:induction false} LenAtLeast(x: nat, n: nat)
    requires 0 < n && Pow(n - 1) <= x
    ensures n <= Len(x)
  {
    var k := Len(x);
    if k < n {
      BelowPow(x);
      PowMono(k, n - 1);
    }
  }

  lemma {:induction false} BelowPow(x: nat)
    ensures x < Pow(Len(x))
    decreases x
  {
    if x != 0 {
      QuotientLess(x);
      BelowPow(x / B);
      DivMod(x, B);
      LeMul(B, x / B + 1, Pow(Len(x / B)));
    }
  }

  // base <= 64, and 64^8 == 65536^3
  lemma SmallBase(base: Base)
    ensures Exp(base, 256) <= Pow(96)
  {
    ExpMonoBase(base, 64, 8);
    assert Exp(64, 2) == 4096;
    assert Exp(64, 4) == 4096 * 4096 by { ExpAdd(64, 2, 2); }
    assert Exp(64, 8) == (4096 * 4096) * (4096 * 4096) by { ExpAdd(64, 4, 4); }
    assert (4096 * 4096) * (4096 * 4096) == 65536 * (65536 * 65536);
    BLarge();
    LeMul(65536, 65536, B);
    MulLe(65536, B, B);
    LeMul(65536, 65536 * 65536, B * B);
    MulLe(65536, B, B * B);
    Pow1();
    assert Pow(3) == B * Pow(2);
    ExpExp(base, 8, 32);
    ExpMonoBase(Exp(base, 8), Pow(3), 32);
    ExpOfPow(3, 32);
  }

  // For every odd base there is a numeral on which str2big_karatsuba stops.
  lemma MergingStops(cache: Cache) returns (digits: string)
    requires cache.Based() && cache.base % 2 == 1
    ensures Conforms(digits, cache.base)
    ensures MergeStops(Value(digits, cache.base), cache.hbase2, BdigitsFor(Count(digits), cache.hbase2Numdigits), 2)
  {
    var v := NumberStops(cache);
    digits := Numeral(v, cache.base);
    CountNumeral(v, cache.base);
    ValueOfNumeral(v, cache.base);
    hide Numeral, Conv, DigitChar, Value, Count;
  }

  lemma NumberStops(cache: Cache) returns (v: nat)
    requires cache.Based() && cache.base % 2 == 1
    ensures MergeStops(v, cache.hbase2, BdigitsFor(|Numeral(v, cache.base)|, cache.hbase2Numdigits), 2)
  {
    hide Numeral, Conv, DigitChar, MergeStops, PassStops, Stops;
    var e, b := cache.hbase2Numdigits, Exp(cache.hbase2, 256);
    PowerLength(cache);
    ExpExp(cache.base, e, 256);
    OddExp(cache.base, e * 256);
    OddLowDigit(b);
    var high := PairStops(b);
    v := b * b + high * b;
    ProductPositive(b, b);
    ProductPositive(high, b);
    var n := BdigitsFor(|Numeral(v, cache.base)|, e);
    RoomForNumeral(v, e, cache.base, b);
    hide Exp, Len, BdigitsFor;
    PassOverStops(b, high, n);
    assert Pow2(4) == 16 && Pow2(8) == 256;
    LaterPass(v, cache.hbase2, n, 2, 8);
  }

  lemma RoomForNumeral(v: nat, e: nat, base: Base, b: nat)
    requires 0 < e && 0 <= e * 256 && b == Exp(base, e * 256) && b * b <= v && 0 < v
    ensures 1024 <= BdigitsFor(|Numeral(v, base)|, e)
  {
    var k := |Numeral(v, base)|;
    NumeralLength(v, base);
    ExpAdd(base, e * 256, e * 256);
    if k <= e * 512 {
      ExpMono(base, k, e * 512);
    }
    var g := (k + e - 1) / e;
    hide Exp, Numeral;
    DivMod(k + e - 1, e);
    if g < 512 {
      LeMul(e, g + 1, 512);
    }
  }
}
