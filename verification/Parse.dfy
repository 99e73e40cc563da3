/**
 Reading digit strings into digit buffers: digit by digit, and by merging groups of
 digits pairwise over the squared powers of the base.  Both give the number that the
 string stands for, and reading undoes printing.
 */
module Parse {
  import opened Digits
  import opened Kernel
  import opened MulKernel
  import opened Division
  import opened MulCommon
  import opened Lengths
  import opened Workspace
  import opened Multiply
  import opened MergeShortage
  import opened Radix
  import opened PowerCache
  import opened Print

  // ---- room for the number ----

  // roomof(num_digits, digits_per_bdigits_dbl) * 2
  function BdigitsFor(numDigits: nat, perTwo: nat): nat
    requires 0 < perTwo
  {
    (numDigits + perTwo - 1) / perTwo * 2
  }

  // The digits of two words per group hold every number of that many digits.
  lemma RoomSuffices(numDigits: nat, cache: Cache)
    requires cache.Based()
    ensures Exp(cache.base, numDigits) <= Pow(BdigitsFor(numDigits, cache.hbase2Numdigits))
  {
    var n, d := cache.hbase2Numdigits, numDigits;
    var g := (d + n - 1) / n;
    DivMod(d + n - 1, n);
    assert d <= n * g;
    ExpMono(cache.base, d, n * g);
    GroupsFit(cache, g);
  }

  lemma {:induction false} GroupsFit(cache: Cache, g: nat)
    requires cache.Based()
    ensures Exp(cache.base, cache.hbase2Numdigits * g) <= Pow(g * 2)
  {
    var n := cache.hbase2Numdigits;
    if g == 0 {
      assert n * g == 0;
    } else {
      GroupsFit(cache, g - 1);
      assert n * g == n + n * (g - 1);
      ExpAdd(cache.base, n, n * (g - 1));
      PowAdd(2, (g - 1) * 2);
      Pow1();
      LeMul(cache.hbase2, Exp(cache.base, n * (g - 1)), Pow((g - 1) * 2));
      MulLe(cache.hbase2, Pow(2), Pow((g - 1) * 2));
    }
  }

  lemma {:induction false} CountPrefix(s: string, k: nat)
    requires k <= |s|
    ensures Count(s[..k]) <= Count(s)
  {
    if k < |s| {
      CountPrefix(s[..|s| - 1], k);
      assert s[..|s| - 1][..k] == s[..k];
    } else {
      assert s[..k] == s;
    }
  }

  // ---- str2big_normal ----

  method Str2bigNormal(m: Memory, digits: string, numBdigits: nat, base: Base) returns (zo: nat)
    requires Conforms(digits, base) && Exp(base, Count(digits)) <= Pow(numBdigits)
    modifies m
    ensures old(m.cells) <= m.cells && zo + numBdigits <= |m.cells|
    ensures V(m.cells, zo, numBdigits) == Value(digits, base)
  {
    ghost var s0 := m.cells;
    var blen := 1;
    zo := m.Alloc(numBdigits);
    ghost var s1 := m.cells;
    Zero(m, zo, numBdigits);
    var p := 0;
    while p < |digits|
      invariant p <= |digits| && 1 <= blen && (blen == 1 || blen <= numBdigits)
      invariant Keeps(s1, m.cells, zo, numBdigits)
      invariant V(m.cells, zo, numBdigits) == Value(digits[..p], base)
      invariant forall i :: zo + blen <= i < zo + numBdigits ==> m.cells[i] == 0
    {
      var c := Conv(digits[p]);
      assert digits[..p + 1][..p] == digits[..p];
      if c >= 0 {
        DigitFits(digits, p, numBdigits, base);
        hide Value, Count, Exp, V, Pow;
        ghost var s2 := m.cells;
        blen := PushDigit(m, zo, numBdigits, blen, base, c);
        KeepsThen(s1, s2, m.cells, zo, numBdigits, zo, numBdigits);
      }
      p := p + 1;
    }
    assert digits[..p] == digits;
    KeepsPrefix(s0, s1, m.cells, zo, numBdigits);
  }

  // One more digit, and the number still fits.
  lemma DigitFits(digits: string, p: nat, n: nat, base: Base)
    requires p < |digits| && Conforms(digits, base) && Conv(digits[p]) >= 0
    requires Exp(base, Count(digits)) <= Pow(n)
    ensures Value(digits[..p + 1], base) == Value(digits[..p], base) * base + Conv(digits[p]) < Pow(n)
    ensures 0 < n
  {
    assert digits[..p + 1][..p] == digits[..p];
    CountPrefix(digits, p + 1);
    ExpMono(base, Count(digits[..p + 1]), Count(digits));
    ValueBound(digits[..p + 1], base);
    FirstDigitRoom(base, Count(digits[..p + 1]), Count(digits), n);
  }

  lemma FirstDigitRoom(base: Base, k: nat, total: nat, n: nat)
    requires 0 < k <= total && Exp(base, total) <= Pow(n)
    ensures 0 < n
  {
    ExpLess(base, 0, total);
  }

  // z * base + c, over the digits in use; one more comes into use when a carry is left.
  method PushDigit(m: Memory, zo: nat, n: nat, blen0: nat, base: Base, c: nat) returns (blen: nat)
    requires zo + n <= |m.cells| && 1 <= blen0 <= n && c < base
    requires forall i :: zo + blen0 <= i < zo + n ==> m.cells[i] == 0
    requires V(m.cells, zo, n) * base + c < Pow(n)
    modifies m
    ensures blen0 <= blen <= n && Keeps(old(m.cells), m.cells, zo, n)
    ensures V(m.cells, zo, n) == V(old(m.cells), zo, n) * base + c
    ensures forall i :: zo + blen <= i < zo + n ==> m.cells[i] == 0
  {
    ghost var s0 := m.cells;
    blen := blen0;
    var num: nat, i: nat := c, 0;
    assert V(s0, zo, 0) == 0 && Pow(0) == 1;
    while true
      invariant i <= blen <= n && blen0 <= blen && num < base && KeepsCells(s0, m.cells, zo, i)
      invariant V(m.cells, zo, i) + num * Pow(i) == V(s0, zo, i) * base + c
      decreases n - blen
    {
      num := PushThrough(m, s0, zo, i, blen, base, c, num);
      i := blen;
      if num != 0 {
        StillRoom(s0, zo, n, blen, V(m.cells, zo, blen), num, base, c);
        blen := blen + 1;
        continue;
      }
      break;
    }
    Pushed(s0, m.cells, zo, n, blen);
    KeepsIntro(s0, m.cells, zo, n);
  }

  // The loop over the digits from i to blen
  method PushThrough(m: Memory, ghost s0: seq<Digit>, zo: nat, i0: nat, blen: nat, base: Base, ghost c: nat, num0: nat)
    returns (num: nat)
    requires i0 <= blen && zo + blen <= |s0| && num0 < base && KeepsCells(s0, m.cells, zo, i0)
    requires V(m.cells, zo, i0) + num0 * Pow(i0) == V(s0, zo, i0) * base + c
    modifies m
    ensures num < base && KeepsCells(s0, m.cells, zo, blen)
    ensures V(m.cells, zo, blen) + num * Pow(blen) == V(s0, zo, blen) * base + c
  {
    num := num0;
    var i := i0;
    while i < blen
      invariant i <= blen && num < base && KeepsCells(s0, m.cells, zo, i)
      invariant V(m.cells, zo, i) + num * Pow(i) == V(s0, zo, i) * base + c
    {
      num := PushOne(m, s0, zo, i, base, c, num);
      i := i + 1;
    }
  }

  method PushOne(m: Memory, ghost s0: seq<Digit>, zo: nat, i: nat, base: Base, ghost c: nat, num0: nat) returns (num: nat)
    requires zo + i < |s0| && num0 < base && KeepsCells(s0, m.cells, zo, i)
    requires V(m.cells, zo, i) + num0 * Pow(i) == V(s0, zo, i) * base + c
    modifies m
    ensures num < base && KeepsCells(s0, m.cells, zo, i + 1)
    ensures V(m.cells, zo, i + 1) + num * Pow(i + 1) == V(s0, zo, i + 1) * base + c
  {
    ghost var s, z := m.cells, m.cells[zo + i];
    var t := num0 + m.cells[zo + i] * base;
    PushBound(num0, z, base);
    PushArith(V(s, zo, i), V(s0, zo, i), z, num0, base, c, Pow(i));
    VPut(s, zo, i, BigLo(t));
    m.cells := m.cells[zo + i := BigLo(t)];
    num := BigDn(t);
    assert V(s0, zo, i + 1) == V(s0, zo, i) + z * Pow(i) && Pow(i + 1) == B * Pow(i);
  }

  lemma PushBound(num: nat, z: nat, base: Base)
    requires num < base && z < B
    ensures 0 <= num + z * base && 0 <= BigDn(num + z * base) < base
  {
    LeMul(base, 0, z);
    LeMul(base, z + 1, B);
    BigDnBound(num + z * base, 0, base);
  }

  lemma PushArith(v: nat, v0: nat, z: nat, num: nat, base: nat, c: nat, p: nat)
    requires v + num * p == v0 * base + c
    ensures var t := num + z * base;
            v + BigLo(t) * p + BigDn(t) * (B * p) == (v0 + z * p) * base + c
  {
    var t := num + z * base;
    CarrySplit(t, p);
    assert t * p == num * p + z * base * p;
    assert (v0 + z * p) * base == v0 * base + z * base * p;
  }

  // A carry at the end means that the number needs another digit, and there is one.
  lemma StillRoom(s: seq<Digit>, zo: nat, n: nat, blen: nat, v: nat, num: nat, base: nat, c: nat)
    requires zo + n <= |s| && blen <= n && 0 < num && v + num * Pow(blen) == V(s, zo, blen) * base + c
    requires forall i :: zo + blen <= i < zo + n ==> s[i] == 0
    requires V(s, zo, n) * base + c < Pow(n)
    ensures blen < n
  {
    VSplit(s, zo, blen, n - blen);
    VZero(s, zo + blen, n - blen);
    LeMul(Pow(blen), 1, num);
  }

  lemma ZerosAbove(s: seq<Digit>, zo: nat, n: nat, blen: nat)
    requires zo + n <= |s| && blen <= n && forall i :: zo + blen <= i < zo + n ==> s[i] == 0
    ensures V(s, zo, n) == V(s, zo, blen)
  {
    hide V, Pow;
    VSplit(s, zo, blen, n - blen);
    VZero(s, zo + blen, n - blen);
  }

  lemma {:induction false} Pushed(s0: seq<Digit>, s: seq<Digit>, zo: nat, n: nat, blen: nat)
    requires zo + n <= |s0| && blen <= n && KeepsCells(s0, s, zo, blen)
    requires forall i :: zo + blen <= i < zo + n ==> s0[i] == 0
    ensures V(s, zo, n) == V(s, zo, blen) && V(s0, zo, n) == V(s0, zo, blen)
    ensures forall i :: zo + blen <= i < zo + n ==> s[i] == 0
  {
    assert forall i :: zo + blen <= i < zo + n ==> s[i] == s0[i];
    ZerosAbove(s, zo, n, blen);
    ZerosAbove(s0, zo, n, blen);
  }

  // ---- numbers as groups of `unit` digits, each group a digit to the base b ----

  ghost function Groups(s: seq<Digit>, o: nat, n: nat, unit: nat, b: nat): nat
    requires o + n <= |s| && 0 < unit
    decreases n
  {
    if n <= unit then V(s, o, n) else V(s, o, unit) + b * Groups(s, o + unit, n - unit, unit, b)
  }

  // Every whole group is a proper digit.
  ghost predicate Proper(s: seq<Digit>, o: nat, n: nat, unit: nat, b: nat)
    requires o + n <= |s| && 0 < unit
    decreases n
  {
    n < unit || (V(s, o, unit) < b && Proper(s, o + unit, n - unit, unit, b))
  }

  // `t` at v holds the groups of `s` at u merged in pairs.
  ghost predicate Merged(s: seq<Digit>, u: nat, t: seq<Digit>, v: nat, n: nat, unit: nat, b: nat)
    requires u + n <= |s| && v + n <= |t| && 0 < unit
    decreases n
  {
    if n <= unit then V(t, v, n) == V(s, u, n)
    else if n < 2 * unit then V(t, v, n) == V(s, u, unit) + b * V(s, u + unit, n - unit)
    else
      && V(t, v, 2 * unit) == V(s, u, unit) + b * V(s, u + unit, unit)
      && Merged(s, u + 2 * unit, t, v + 2 * unit, n - 2 * unit, unit, b)
  }

  lemma {:induction false} MergedGroups(s: seq<Digit>, u: nat, t: seq<Digit>, v: nat, n: nat, unit: nat, b: nat)
    requires u + n <= |s| && v + n <= |t| && 0 < unit && Merged(s, u, t, v, n, unit, b) && Proper(s, u, n, unit, b)
    ensures Groups(t, v, n, 2 * unit, b * b) == Groups(s, u, n, unit, b)
    ensures Proper(t, v, n, 2 * unit, b * b)
    decreases n
  {
    if n <= unit {
    } else if n < 2 * unit {
    } else {
      MergedGroups(s, u + 2 * unit, t, v + 2 * unit, n - 2 * unit, unit, b);
      PairProper(V(s, u, unit), V(s, u + unit, unit), b);
      MergedArith(b, V(s, u + unit, unit), Groups(s, u + 2 * unit, n - 2 * unit, unit, b));
      GroupsTwice(s, u, n, unit, b);
      assert n == 2 * unit ==> V(t, v + 2 * unit, 0) == 0 && V(s, u + 2 * unit, 0) == 0;
    }
  }

  lemma GroupsTwice(s: seq<Digit>, u: nat, n: nat, unit: nat, b: nat)
    requires u + n <= |s| && 0 < unit && 2 * unit <= n
    ensures Groups(s, u, n, unit, b)
         == V(s, u, unit) + b * (V(s, u + unit, unit) + b * Groups(s, u + 2 * unit, n - 2 * unit, unit, b))
  {
    assert V(s, u + 2 * unit, 0) == 0;
    assert Groups(s, u, n, unit, b) == V(s, u, unit) + b * Groups(s, u + unit, n - unit, unit, b);
  }

  lemma PairProper(y: nat, x: nat, b: nat)
    requires y < b && x < b
    ensures y + b * x < b * b
  {
    LeMul(b, x + 1, b);
  }

  lemma MergedArith(b: int, x: int, g: int)
    ensures b * (x + b * g) == b * x + (b * b) * g
  {
  }

  // ---- one pass of merging ----

  // The pairs before i have been merged; i is at the start of a pair.
  ghost predicate MergedUpTo(s: seq<Digit>, u: nat, t: seq<Digit>, v: nat, i: nat, unit: nat, b: nat)
    requires u + i <= |s| && v + i <= |t| && 0 < unit
    decreases i
  {
    i == 0 ||
    (2 * unit <= i && MergedUpTo(s, u, t, v, i - 2 * unit, unit, b) &&
     V(t, v + i - 2 * unit, 2 * unit) == V(s, u + i - 2 * unit, unit) + b * V(s, u + i - unit, unit))
  }

  lemma {:induction false} JoinMerged(s: seq<Digit>, u: nat, t: seq<Digit>, v: nat, i: nat, n: nat, unit: nat, b: nat)
    requires i <= n && u + n <= |s| && v + n <= |t| && 0 < unit
    requires MergedUpTo(s, u, t, v, i, unit, b) && Merged(s, u + i, t, v + i, n - i, unit, b)
    ensures Merged(s, u, t, v, n, unit, b)
    decreases i
  {
    if i != 0 {
      var k := i - 2 * unit;
      assert n - k >= 2 * unit && u + k + unit == u + i - unit;
      assert Merged(s, u + k, t, v + k, n - k, unit, b);
      JoinMerged(s, u, t, v, k, n, unit, b);
    }
  }

  lemma {:induction false} UpToKeeps(s: seq<Digit>, u: nat, t: seq<Digit>, t': seq<Digit>, v: nat, i: nat, unit: nat, b: nat, zn: nat)
    requires u + i <= |s| && v + i <= |t| && 0 < unit && MergedUpTo(s, u, t, v, i, unit, b)
    requires exists zo: nat :: v + i <= zo && Keeps(t, t', zo, zn)
    ensures MergedUpTo(s, u, t', v, i, unit, b)
    decreases i
  {
    if i != 0 {
      var zo: nat :| v + i <= zo && Keeps(t, t', zo, zn);
      assert V(t', v + i - 2 * unit, 2 * unit) == V(t, v + i - 2 * unit, 2 * unit);
      UpToKeeps(s, u, t, t', v, i - 2 * unit, unit, b, zn);
    }
  }

  ghost function PairValue(s: seq<Digit>, uo: nat, unit: nat, xn: nat, power: Power): nat
    requires uo + unit + xn <= |s| && power.o + power.n <= |s|
  {
    V(s, uo, unit) + V(s, power.o, power.n) * V(s, uo + unit, xn)
  }

  // High part times the power plus low part, into zn = unit + xn digits
  method MergePair(m: Memory, power: Power, uo: nat, vo: nat, unit: nat, xn: nat) returns (ok: bool)
    requires vo + unit + xn <= |m.cells| && uo + unit + xn <= |m.cells| && power.o + power.n <= |m.cells|
    requires Apart(uo, unit + xn, vo, unit + xn) && Apart(power.o, power.n, vo, unit + xn) && power.n <= unit
    requires V(m.cells, uo, unit) < V(m.cells, power.o, power.n)
    modifies m
    ensures ok <==>
      !Stops(Toom3Start, V(old(m.cells), power.o, power.n), V(old(m.cells), uo + unit, xn), unit + xn, 0)
    ensures ok ==> Keeps(old(m.cells), m.cells, vo, unit + xn)
    ensures ok ==> V(m.cells, vo, unit + xn) == PairValue(old(m.cells), uo, unit, xn, power)
  {
    ghost var s0 := m.cells;
    ghost var y, p, x := V(s0, uo, unit), V(s0, power.o, power.n), V(s0, uo + unit, xn);
    VBound(s0, power.o, power.n);
    PowMono(power.n, unit);
    VBound(s0, uo + unit, xn);
    PowAdd(unit, xn);
    PairFits(y, p, x, Pow(unit), Pow(xn));
    hide V, Pow, Stops;
    ok := BaryMul(m, vo, unit + xn, power.o, power.n, uo + unit, xn);
    if !ok {
      return;
    }
    ghost var s1 := m.cells;
    var c := AddC(m, vo, unit + xn, vo, unit + xn, uo, unit, 0);
    NoCarryOut(V(m.cells, vo, unit + xn), c, Pow(unit + xn), y + p * x);
    KeepsThen(s0, s1, m.cells, vo, unit + xn, vo, unit + xn);
  }

  lemma PairFits(y: nat, p: nat, x: nat, pu: nat, px: nat)
    requires y < p < pu && x < px
    ensures y + p * x < pu * px
  {
    LeMul(p, x + 1, px);
    MulLe(p, pu, px);
  }

  lemma NoCarryOut(v: nat, c: nat, p: nat, t: nat)
    requires v + c * p == t < p
    ensures v == t
  {
    if 0 < c {
      MulLe(1, c, p);
    }
  }

  // The inner loop of str2big_karatsuba
  method MergePass(m: Memory, power: Power, uo: nat, vo: nat, n: nat, unit: nat) returns (ok: bool)
    requires vo + n <= |m.cells| && uo + n <= |m.cells| && power.o + power.n <= |m.cells|
    requires Apart(uo, n, vo, n) && Apart(power.o, power.n, vo, n) && 0 < power.n <= unit
    requires 0 < V(m.cells, power.o, power.n) && Proper(m.cells, uo, n, unit, V(m.cells, power.o, power.n))
    modifies m
    ensures var b := V(old(m.cells), power.o, power.n); ok <==> !PassStops(Groups(old(m.cells), uo, n, unit, b), b, n, unit)
    ensures ok ==> Keeps(old(m.cells), m.cells, vo, n)
    ensures ok ==> var b := V(old(m.cells), power.o, power.n);
                   Groups(m.cells, vo, n, 2 * unit, b * b) == Groups(old(m.cells), uo, n, unit, b)
    ensures ok ==> var b := V(old(m.cells), power.o, power.n); Proper(m.cells, vo, n, 2 * unit, b * b)
  {
    ghost var s0 := m.cells;
    ghost var b := V(s0, power.o, power.n);
    var i := 0;
    ok := true;
    KeepsIntro(s0, s0, vo, n);
    assert MergedUpTo(s0, uo, s0, vo, 0, unit, b);
    assert Passing(s0, uo, s0, vo, 0, n, unit, b) by { hide Groups, PassStops, MergedUpTo, Proper; }
    hide V, Merged, MergedUpTo, Groups, Proper, Keeps, PassStops, Passing;
    while i < n
      invariant |m.cells| == |s0| && Keeps(s0, m.cells, vo, n) && Passing(s0, uo, m.cells, vo, i, n, unit, b)
      decreases n + 2 * unit - i
    {
      ok := MergeNext(m, s0, power, uo, vo, i, n, unit);
      if !ok {
        return;
      }
      i := i + unit * 2;
    }
    AllMerged(s0, uo, m.cells, vo, i, n, unit, b);
    MergedGroups(s0, uo, m.cells, vo, n, unit, b);
  }

  // The groups up to i are merged, and the pass stops if the rest of it does.
  ghost predicate Passing(s: seq<Digit>, u: nat, t: seq<Digit>, v: nat, i: nat, n: nat, unit: nat, b: nat)
    requires u + n <= |s| && v + n <= |t| && 0 < unit && 0 < b
  {
    if i <= n then
      && MergedUpTo(s, u, t, v, i, unit, b) && Proper(s, u + i, n - i, unit, b)
      && (PassStops(Groups(s, u, n, unit, b), b, n, unit)
          <==> PassStops(Groups(s, u + i, n - i, unit, b), b, n - i, unit))
    else Merged(s, u, t, v, n, unit, b) && !PassStops(Groups(s, u, n, unit, b), b, n, unit)
  }

  lemma AllMerged(s: seq<Digit>, u: nat, t: seq<Digit>, v: nat, i: nat, n: nat, unit: nat, b: nat)
    requires u + n <= |s| && v + n <= |t| && 0 < unit && 0 < b && n <= i && Passing(s, u, t, v, i, n, unit, b)
    ensures Merged(s, u, t, v, n, unit, b) && !PassStops(Groups(s, u, n, unit, b), b, n, unit)
  {
    if i == n {
      PassNone(Groups(s, u + n, 0, unit, b), b, unit);
      assert V(t, v + n, 0) == V(s, u + n, 0);
      hide V, PassStops, Groups, Proper;
      JoinMerged(s, u, t, v, n, n, unit, b);
    }
  }

  // Two groups, or what is left of them, at i
  method MergeNext(m: Memory, ghost s0: seq<Digit>, power: Power, uo: nat, vo: nat, i: nat, n: nat, unit: nat) returns (ok: bool)
    requires i < n && vo + n <= |m.cells| && uo + n <= |m.cells| && power.o + power.n <= |m.cells|
    requires Apart(uo, n, vo, n) && Apart(power.o, power.n, vo, n) && 0 < power.n <= unit
    requires Keeps(s0, m.cells, vo, n) && 0 < V(s0, power.o, power.n)
    requires Passing(s0, uo, m.cells, vo, i, n, unit, V(s0, power.o, power.n))
    modifies m
    ensures !ok ==> var b := V(s0, power.o, power.n); PassStops(Groups(s0, uo, n, unit, b), b, n, unit)
    ensures ok ==> |m.cells| == |s0| && Keeps(s0, m.cells, vo, n)
    ensures ok ==> Passing(s0, uo, m.cells, vo, i + unit * 2, n, unit, V(s0, power.o, power.n))
  {
    ghost var s1, b := m.cells, V(s0, power.o, power.n);
    hide V, Merged, MergedUpTo, Groups, Proper, PassStops, Stops;
    PassFrom(s0, uo + i, n - i, unit, b);
    ghost var k;
    ok, k := MergeAt(m, s0, power, uo, vo, i, n, unit);
    if ok {
      PassStep(s0, uo, s1, m.cells, vo, i, n, unit, b, k);
    }
  }

  // What is left of the pass at o: one pair, and the rest.
  lemma PassFrom(s: seq<Digit>, o: nat, n: nat, unit: nat, b: nat)
    requires o + n <= |s| && 0 < unit && 0 < b && Proper(s, o, n, unit, b)
    ensures var k := Min(2 * unit, n);
            PassStops(Groups(s, o, n, unit, b), b, n, unit)
            <==> || (unit <= n && Stops(Toom3Start, b, V(s, o + unit, k - unit), k, 0))
                 || (2 * unit <= n && PassStops(Groups(s, o + 2 * unit, n - 2 * unit, unit, b), b, n - 2 * unit, unit))
  {
    if unit <= n {
      PairGroups(s, o, n, unit, b);
    }
    hide Stops, V, Groups, Proper;
  }

  lemma {:induction false} PairGroups(s: seq<Digit>, o: nat, n: nat, unit: nat, b: nat)
    requires o + n <= |s| && 0 < unit <= n && 0 < b && Proper(s, o, n, unit, b)
    ensures var g := Groups(s, o, n, unit, b);
            && HighOfPair(g, b, n, unit) == V(s, o + unit, Min(2 * unit, n) - unit)
            && (2 * unit <= n ==> BeyondPair(g, b) == Groups(s, o + 2 * unit, n - 2 * unit, unit, b))
  {
    var g, g0 := Groups(s, o, n, unit, b), V(s, o, unit);
    assert V(s, o + unit, 0) == 0;
    if n < 2 * unit {
      assert unit < n ==> Groups(s, o + unit, n - unit, unit, b) == V(s, o + unit, n - unit);
      assert g == g0 + b * V(s, o + unit, n - unit);
      hide V, Groups, Proper;
      DivUnique(g, b, V(s, o + unit, n - unit), g0);
    } else {
      var g1, rest := V(s, o + unit, unit), Groups(s, o + 2 * unit, n - 2 * unit, unit, b);
      assert V(s, o + 2 * unit, 0) == 0;
      assert Groups(s, o + unit, n - unit, unit, b) == g1 + b * rest;
      assert g == g0 + b * (g1 + b * rest);
      hide V, Groups, Proper;
      PairDigits(g, b, g0, g1, rest);
    }
  }

  lemma PairDigits(g: nat, b: nat, g0: nat, g1: nat, rest: nat)
    requires g == g0 + b * (g1 + b * rest) && g0 < b && g1 < b
    ensures g / b % b == g1 && g / (b * b) == rest
  {
    DivUnique(g, b, g1 + b * rest, g0);
    DivUnique(g1 + b * rest, b, rest, g1);
    LeMul(b, g1 + 1, b);
    assert g == (b * b) * rest + (g0 + b * g1);
    DivUnique(g, b * b, rest, g0 + b * g1);
  }

  // Two groups of s0
  method MergeTwo(m: Memory, ghost s0: seq<Digit>, power: Power, uo: nat, vo: nat, ghost n: nat, i: nat, unit: nat, xn: nat)
    returns (ok: bool)
    requires i + unit + xn <= n && vo + n <= |m.cells| && uo + unit + xn <= |m.cells| && power.o + power.n <= |m.cells|
    requires Apart(uo, unit + xn, vo, n) && Apart(power.o, power.n, vo, n) && power.n <= unit
    requires Keeps(s0, m.cells, vo, n) && V(s0, uo, unit) < V(s0, power.o, power.n)
    modifies m
    ensures ok <==> !Stops(Toom3Start, V(s0, power.o, power.n), V(s0, uo + unit, xn), unit + xn, 0)
    ensures ok ==> Keeps(old(m.cells), m.cells, vo + i, unit + xn)
    ensures ok ==> V(m.cells, vo + i, unit + xn) == PairValue(s0, uo, unit, xn, power)
  {
    hide Stops, V;
    ok := MergePair(m, power, uo, vo + i, unit, xn);
  }

  method MergeAt(m: Memory, ghost s0: seq<Digit>, power: Power, uo: nat, vo: nat, i: nat, n: nat, unit: nat)
    returns (ok: bool, ghost k: nat)
    requires i < n && vo + n <= |m.cells| && uo + n <= |m.cells| && power.o + power.n <= |m.cells|
    requires Apart(uo, n, vo, n) && Apart(power.o, power.n, vo, n) && 0 < power.n <= unit
    requires Keeps(s0, m.cells, vo, n) && Proper(s0, uo + i, n - i, unit, V(s0, power.o, power.n))
    modifies m
    ensures k == if 2 * unit <= n - i then 2 * unit else n - i
    ensures ok <==> !(unit <= n - i
                       && Stops(Toom3Start, V(s0, power.o, power.n), V(s0, uo + i + unit, k - unit), k, 0))
    ensures ok ==> Keeps(old(m.cells), m.cells, vo + i, k) && |m.cells| == |old(m.cells)|
    ensures ok && unit <= n - i ==> V(m.cells, vo + i, k) == PairValue(s0, uo + i, unit, k - unit, power)
    ensures ok && unit > n - i ==> V(m.cells, vo + i, k) == V(s0, uo + i, n - i)
  {
    k := if 2 * unit <= n - i then 2 * unit else n - i;
    ok := true;
    hide Stops, V;
    if 2 * unit <= n - i {
      ok := MergeTwo(m, s0, power, uo + i, vo, n, i, unit, unit);
    } else if unit <= n - i {
      ok := MergeTwo(m, s0, power, uo + i, vo, n, i, unit, n - i - unit);
    } else {
      Move(m, vo + i, uo + i, n - i);
    }
  }

  lemma PassStep(s0: seq<Digit>, u: nat, s1: seq<Digit>, s2: seq<Digit>, v: nat, i: nat, n: nat, unit: nat, b: nat, k: nat)
    requires i < n && u + n <= |s0| && v + n <= |s0| && 0 < unit && Keeps(s0, s1, v, n) && Keeps(s1, s2, v + i, k)
    requires MergedUpTo(s0, u, s1, v, i, unit, b) && Proper(s0, u + i, n - i, unit, b)
    requires k == if 2 * unit <= n - i then 2 * unit else n - i
    requires V(s2, v + i, k)
          == if unit <= n - i then V(s0, u + i, unit) + b * V(s0, u + i + unit, k - unit) else V(s0, u + i, n - i)
    ensures Keeps(s0, s2, v, n)
    ensures i + unit * 2 <= n ==>
              MergedUpTo(s0, u, s2, v, i + unit * 2, unit, b) && Proper(s0, u + (i + unit * 2), n - (i + unit * 2), unit, b)
    ensures i + unit * 2 > n ==> Merged(s0, u, s2, v, n, unit, b)
  {
    KeepsThen(s0, s1, s2, v, n, v + i, k);
    assert n - i == unit ==> V(s0, u + i + unit, 0) == 0;
    hide V, Merged, Keeps;
    UpToKeeps(s0, u, s1, s2, v, i, unit, b, k);
    if i + unit * 2 > n {
      hide Proper, MergedUpTo;
      JoinMerged(s0, u, s2, v, i, n, unit, b);
    } else {
      assert u + i + unit == u + (i + unit);
    }
  }

  // ---- the groups of a digit string, read from its end ----

  lemma {:induction false} Prepend(c: char, t: string, base: Base)
    ensures Count([c] + t) == (if Conv(c) < 0 then 0 else 1) + Count(t)
    ensures Value([c] + t, base) == (if Conv(c) < 0 then 0 else Conv(c)) * Exp(base, Count(t)) + Value(t, base)
  {
    var s := [c] + t;
    if t == [] {
      assert s == [c] && s[..0] == [];
    } else {
      var init := t[..|t| - 1];
      var d := Conv(t[|t| - 1]);
      assert s[..|s| - 1] == [c] + init && s[|s| - 1] == t[|t| - 1];
      Prepend(c, init, base);
      if d >= 0 {
        PrependArith(if Conv(c) < 0 then 0 else Conv(c), Exp(base, Count(init)), Value(init, base), base, d);
      }
    }
  }

  lemma PrependArith(c: int, p: int, v: int, base: int, d: int)
    ensures (c * p + v) * base + d == c * (base * p) + (v * base + d)
  {
  }

  lemma {:induction false} CountParts(s: string, k: nat)
    requires k <= |s|
    ensures Count(s) == Count(s[..k]) + Count(s[k..])
  {
    if k < |s| {
      var init := s[..|s| - 1];
      CountParts(init, k);
      assert init[..k] == s[..k] && init[k..] == s[k..][..|s| - 1 - k];
    } else {
      assert s[..k] == s && s[k..] == [];
    }
  }

  // One more whole group at the end
  lemma {:induction false} GroupsSnoc(s: seq<Digit>, o: nat, g: nat, b: nat)
    requires o + 2 * g + 2 <= |s|
    ensures Groups(s, o, 2 * g + 2, 2, b) == Groups(s, o, 2 * g, 2, b) + V(s, o + 2 * g, 2) * Exp(b, g)
    ensures Proper(s, o, 2 * g, 2, b) && V(s, o + 2 * g, 2) < b ==> Proper(s, o, 2 * g + 2, 2, b)
    decreases g
  {
    assert V(s, o, 0) == 0 && V(s, o + 2 * g + 2, 0) == 0;
    if g == 0 {
      assert V(s, o, 2) * Exp(b, 0) == V(s, o, 2);
    } else {
      assert o + 2 + 2 * (g - 1) == o + 2 * g && 2 * (g - 1) + 2 == 2 * g;
      GroupsSnoc(s, o + 2, g - 1, b);
      SnocArith(b, V(s, o + 2 * g, 2), Exp(b, g - 1), Groups(s, o + 2, 2 * (g - 1), 2, b));
      if g == 1 {
        assert Groups(s, o + 2, 0, 2, b) == 0;
        assert Groups(s, o, 2, 2, b) == V(s, o, 2);
      }
    }
  }

  lemma SnocArith(b: int, v: int, p: int, g: int)
    ensures b * (g + v * p) == b * g + v * (b * p)
  {
  }

  lemma {:induction false} GroupsKeep(s: seq<Digit>, t: seq<Digit>, o: nat, n: nat, unit: nat, b: nat, zo: nat, zn: nat)
    requires o + n <= |s| && 0 < unit && Keeps(s, t, zo, zn) && Apart(o, n, zo, zn)
    ensures Groups(t, o, n, unit, b) == Groups(s, o, n, unit, b)
    ensures Proper(t, o, n, unit, b) == Proper(s, o, n, unit, b)
    decreases n
  {
    if unit <= n {
      GroupsKeep(s, t, o + unit, n - unit, unit, b, zo, zn);
      assert V(t, o, unit) == V(s, o, unit);
    }
    assert V(t, o, n) == V(s, o, n);
  }

  // What the grouping loop has gathered when the digits of t have been read: g whole groups stored, and a
  // group of k digits begun, of which `left` are still to come; the last group may be a short one.
  ghost predicate Gathered(s: seq<Digit>, uo: nat, g: nat, dd: nat, k: nat, left: nat, t: string, total: nat, cache: Cache)
    requires cache.Based()
  {
    var n, b, base := cache.hbase2Numdigits, cache.hbase2, cache.base;
    && uo + 2 * g <= |s| && Count(t) <= total && Proper(s, uo, 2 * g, 2, b) && dd < Exp(base, k)
    && Value(t, base) == Groups(s, uo, 2 * g, 2, b) + dd * Exp(b, g)
    && if Count(t) < total || k > 0
       then Count(t) == n * g + k && k + left == Min(n, total - n * g) && 0 < left
       else left == 0 && k == 0 && 2 * g == BdigitsFor(total, n)
  }

  // A character that is not a digit
  lemma GatherNone(s: seq<Digit>, uo: nat, g: nat, dd: nat, k: nat, left: nat, c: char, t: string, total: nat, cache: Cache)
    requires cache.Based() && Gathered(s, uo, g, dd, k, left, t, total, cache) && Conv(c) < 0
    ensures Gathered(s, uo, g, dd, k, left, [c] + t, total, cache) && Count([c] + t) == Count(t)
  {
    Prepend(c, t, cache.base);
  }

  // At the end every group is stored.
  lemma GatherAll(s: seq<Digit>, uo: nat, g: nat, dd: nat, k: nat, left: nat, t: string, total: nat, cache: Cache)
    requires cache.Based() && Gathered(s, uo, g, dd, k, left, t, total, cache) && Count(t) == total
    ensures 2 * g == BdigitsFor(total, cache.hbase2Numdigits)
    ensures Groups(s, uo, 2 * g, 2, cache.hbase2) == Value(t, cache.base) && Proper(s, uo, 2 * g, 2, cache.hbase2)
  {
    assert Exp(cache.base, 0) == 1;
  }

  // The same while a group of k digits is open, with `left` to come, perhaps none
  ghost predicate Open(s: seq<Digit>, uo: nat, g: nat, dd: nat, k: nat, left: nat, t: string, total: nat, cache: Cache)
    requires cache.Based()
  {
    var n, b, base := cache.hbase2Numdigits, cache.hbase2, cache.base;
    && uo + 2 * g <= |s| && Count(t) <= total && Proper(s, uo, 2 * g, 2, b) && dd < Exp(base, k)
    && Value(t, base) == Groups(s, uo, 2 * g, 2, b) + dd * Exp(b, g)
    && 0 < k && Count(t) == n * g + k && k + left == Min(n, total - n * g)
  }

  // Another digit
  lemma GatherDigit(s: seq<Digit>, uo: nat, g: nat, dd: nat, k: nat, left: nat, c: char, t: string, total: nat,
                    cache: Cache, dd': nat)
    requires cache.Based() && Gathered(s, uo, g, dd, k, left, t, total, cache)
    requires 0 <= Conv(c) < cache.base && Count([c] + t) <= total && dd' == dd + Conv(c) * Exp(cache.base, k)
    ensures 0 < left && Count([c] + t) == Count(t) + 1
    ensures Open(s, uo, g, dd', k + 1, left - 1, [c] + t, total, cache)
  {
    var n, b, base := cache.hbase2Numdigits, cache.hbase2, cache.base;
    Prepend(c, t, base);
    assert Count(t) < total;
    ExpAdd(base, n * g, k);
    ExpPower(base, n, g);
    GatherArith(dd, Conv(c), Exp(base, k), Exp(b, g), Groups(s, uo, 2 * g, 2, b), base);
  }

  lemma StillOpen(s: seq<Digit>, uo: nat, g: nat, dd: nat, k: nat, left: nat, t: string, total: nat, cache: Cache)
    requires cache.Based() && Open(s, uo, g, dd, k, left, t, total, cache) && 0 < left
    ensures Gathered(s, uo, g, dd, k, left, t, total, cache)
  {
  }

  lemma GatherArith(dd: int, c: int, p: int, q: int, v: int, base: int)
    requires 0 <= dd < p && 0 <= c < base
    ensures c * (q * p) + (v + dd * q) == v + (dd + c * p) * q
    ensures dd + c * p < base * p
  {
    LeMul(p, c + 1, base);
  }

  lemma {:induction false} ExpPower(base: nat, n: nat, g: nat)
    ensures Exp(base, n * g) == Exp(Exp(base, n), g)
  {
    if g == 0 {
      assert n * g == 0;
    } else {
      ExpPower(base, n, g - 1);
      assert n * g == n + n * (g - 1);
      ExpAdd(base, n, n * (g - 1));
    }
  }

  // The group is complete and stored.
  lemma GatherGroup(s: seq<Digit>, s': seq<Digit>, uo: nat, g: nat, dd: nat, k: nat, left': nat, t: string, total: nat,
                    cache: Cache)
    requires cache.Based() && uo + 2 * g + 2 <= |s| && Keeps(s, s', uo + 2 * g, 2) && V(s', uo + 2 * g, 2) == dd
    requires Open(s, uo, g, dd, k, 0, t, total, cache) && left' == Min(cache.hbase2Numdigits, total - Count(t))
    ensures Gathered(s', uo, g + 1, 0, 0, left', t, total, cache)
  {
    var n, b, base := cache.hbase2Numdigits, cache.hbase2, cache.base;
    GroupsKeep(s, s', uo, 2 * g, 2, b, uo + 2 * g, 2);
    ExpMono(base, k, n);
    GroupsSnoc(s', uo, g, b);
    assert 2 * (g + 1) == 2 * g + 2 && n * (g + 1) == n * g + n;
    if Count(t) == total {
      Rounded(total, n, g, k);
    }
  }

  lemma Rounded(total: nat, n: nat, g: nat, k: nat)
    requires 0 < k <= n && total == n * g + k
    ensures BdigitsFor(total, n) == 2 * (g + 1)
  {
    assert n * (g + 1) == n * g + n;
    DivUnique(total + n - 1, n, g + 1, k - 1);
  }

  // The first loop of str2big_karatsuba
  method GroupDigits(m: Memory, digits: string, cache: Cache, uo: nat, numBdigits: nat)
    requires cache.Based() && Conforms(digits, cache.base) && uo + numBdigits <= |m.cells|
    requires numBdigits == BdigitsFor(Count(digits), cache.hbase2Numdigits)
    modifies m
    ensures Keeps(old(m.cells), m.cells, uo, numBdigits)
    ensures Groups(m.cells, uo, numBdigits, 2, cache.hbase2) == Value(digits, cache.base)
    ensures Proper(m.cells, uo, numBdigits, 2, cache.hbase2)
  {
    ghost var s0 := m.cells;
    ghost var total := Count(digits);
    var base, perTwo := cache.base, cache.hbase2Numdigits;
    var i: nat, dd: nat, currentBase: nat := 0, 0, 1;
    var left: nat, numDigits: nat := perTwo, Count(digits);
    if numDigits < left {
      left := numDigits;
    }
    ghost var k, g := 0, 0;
    var p := |digits|;
    assert digits[p..] == [];
    KeepsIntro(s0, s0, uo, numBdigits);
    assert Gathered(s0, uo, 0, 0, 0, left, [], total, cache);
    assert Exp(base, 0) == 1 && Count(digits[p..]) == 0;
    hide Gathered, Open, Value, Count, Exp, Groups, Proper, V, Pow, Keeps, KeepsCells, BdigitsFor;
    while 0 < p
      invariant |m.cells| == |s0|
      invariant p <= |digits| && i == 2 * g <= numBdigits && currentBase == Exp(base, k)
      invariant numDigits == total - Count(digits[p..]) && Keeps(s0, m.cells, uo, numBdigits)
      invariant Gathered(m.cells, uo, g, dd, k, left, digits[p..], total, cache)
      decreases p
    {
      p := p - 1;
      ghost var t := digits[p + 1..];
      SuffixStep(digits, p);
      var c := Conv(digits[p]);
      if c < 0 {
        GatherNone(m.cells, uo, g, dd, k, left, digits[p], t, total, cache);
      } else {
        dd, currentBase := Accumulate(dd, currentBase, c, base, k);
        GatherDigit(m.cells, uo, g, dd - c * Exp(base, k), k, left, digits[p], t, total, cache, dd);
        numDigits := numDigits - 1;
        k := k + 1;
        ghost var s1 := m.cells;
        i, g, dd, currentBase, k, left :=
          NextGroup(m, cache, uo, i, g, dd, currentBase, k, left - 1, digits[p..], total, numDigits, numBdigits);
        KeepsThen(s0, s1, m.cells, uo, numBdigits, uo, numBdigits);
      }
    }
    assert digits[0..] == digits;
    GatherAll(m.cells, uo, g, dd, k, left, digits, total, cache);
    // assert(i == num_bdigits)
    assert i == numBdigits;
  }

  // When the group is full it is stored and the next one begins.
  method NextGroup(m: Memory, cache: Cache, uo: nat, i0: nat, ghost g0: nat, dd0: nat, currentBase0: nat, ghost k0: nat,
                   left0: nat, ghost t: string, ghost total: nat, numDigits: nat, ghost numBdigits: nat)
    returns (i: nat, ghost g: nat, dd: nat, currentBase: nat, ghost k: nat, left: nat)
    requires cache.Based() && i0 == 2 * g0 && Open(m.cells, uo, g0, dd0, k0, left0, t, total, cache)
    requires currentBase0 == Exp(cache.base, k0) && numDigits == total - Count(t) && i0 <= numBdigits
    requires numBdigits == BdigitsFor(total, cache.hbase2Numdigits) && uo + numBdigits <= |m.cells|
    modifies m
    ensures i == 2 * g <= numBdigits && currentBase == Exp(cache.base, k) && Keeps(old(m.cells), m.cells, uo, numBdigits)
    ensures Gathered(m.cells, uo, g, dd, k, left, t, total, cache)
  {
    hide Gathered, Open, Count, Groups, Proper, V, Pow, KeepsCells, BdigitsFor;
    ghost var s0 := m.cells;
    i, g, dd, currentBase, k, left := i0, g0, dd0, currentBase0, k0, left0;
    KeepsIntro(s0, s0, uo, numBdigits) by { KeepsSame(s0, uo, numBdigits); }
    if left == 0 {
      left := CloseGroup(m, cache, uo, i, g, dd, k, t, total, numDigits);
      KeepsThen(s0, s0, m.cells, uo, numBdigits, uo + i, 2);
      i := i + 2;
      g := g + 1;
      dd := 0;
      currentBase := 1;
      k := 0;
      ExpNext(cache.base, 0);
    } else {
      StillOpen(m.cells, uo, g, dd, k, left, t, total, cache);
    }
  }

  lemma KeepsSame(s: seq<Digit>, o: nat, n: nat)
    ensures KeepsCells(s, s, o, n)
  {
  }

  method Accumulate(dd0: nat, currentBase0: nat, c: nat, base: Base, ghost k: nat) returns (dd: nat, currentBase: nat)
    requires currentBase0 == Exp(base, k)
    ensures dd == dd0 + c * Exp(base, k) && currentBase == Exp(base, k + 1)
  {
    dd := dd0 + c * currentBase0;
    currentBase := currentBase0 * base;
  }

  lemma {:induction false} SuffixStep(s: string, p: nat)
    requires p < |s|
    ensures s[p..] == [s[p]] + s[p + 1..] && Count(s[p..]) <= Count(s)
  {
    CountParts(s, p);
    hide Count;
  }

  lemma ExpNext(b: nat, n: nat)
    ensures Exp(b, n + 1) == Exp(b, n) * b && Exp(b, 0) == 1
  {
  }

  lemma GroupRoom(total: nat, n: nat, g: nat)
    requires 0 < n && n * g < total
    ensures 2 * g + 2 <= BdigitsFor(total, n)
  {
    DivMod(total + n - 1, n);
    var q := (total + n - 1) / n;
    if q < g + 1 {
      LeMul(n, q, g);
    }
  }

  // The two digits of a group, and the length of the next
  method CloseGroup(m: Memory, cache: Cache, uo: nat, i: nat, ghost g: nat, dd: nat, ghost k: nat, ghost t: string,
                    ghost total: nat, numDigits: nat)
    returns (left: nat)
    requires cache.Based() && i == 2 * g && Open(m.cells, uo, g, dd, k, 0, t, total, cache)
    requires numDigits == total - Count(t) && uo + BdigitsFor(total, cache.hbase2Numdigits) <= |m.cells|
    modifies m
    ensures i + 2 <= BdigitsFor(total, cache.hbase2Numdigits) && Keeps(old(m.cells), m.cells, uo + i, 2)
    ensures Gathered(m.cells, uo, g + 1, 0, 0, left, t, total, cache)
  {
    ghost var s0 := m.cells;
    GroupRoom(total, cache.hbase2Numdigits, g);
    ExpMono(cache.base, k, cache.hbase2Numdigits);
    BigDnBound(dd, 0, B);
    m.cells := m.cells[uo + i := BigLo(dd)][uo + i + 1 := BigDn(dd)];
    VTwo(m.cells, uo + i);
    KeepsIntro(s0, m.cells, uo + i, 2);
    left := cache.hbase2Numdigits;
    if numDigits < left {
      left := numDigits;
    }
    GatherGroup(s0, m.cells, uo, g, dd, k, left, t, total, cache);
  }

  // ---- str2big_karatsuba ----

  method Str2bigKaratsuba(m: Memory, cache: Cache, digits: string, numBdigits: nat) returns (ok: bool, zo: nat, zn: nat)
    requires cache.Valid(m.cells) && Conforms(digits, cache.base)
    requires numBdigits == BdigitsFor(Count(digits), cache.hbase2Numdigits)
    modifies m, cache`powers
    ensures cache.hbase2 > 0 && (ok <==> !MergeStops(Value(digits, cache.base), cache.hbase2, numBdigits, 2))
    ensures ok ==> old(m.cells) <= m.cells && cache.Valid(m.cells) && zo + zn <= |m.cells|
    ensures ok ==> V(m.cells, zo, zn) == Value(digits, cache.base)
  {
    ghost var s0 := m.cells;
    zo, zn := 0, 0;
    var uo := m.Alloc(2 * numBdigits);
    var vo := uo + numBdigits;
    cache.ValidGrows(s0, m.cells);
    var powerLevel := 0;
    var power := cache.GetPower(m, powerLevel);
    assert cache.Avoids(uo, 2 * numBdigits);
    assert Pow2(0) == 1;
    ghost var s1 := m.cells;
    GroupDigits(m, digits, cache, uo, numBdigits);
    cache.ValidKeeps(s1, m.cells, uo, numBdigits);
    assert s0 <= m.cells;
    ok, uo := MergeAll(m, cache, digits, uo, vo, numBdigits, power);
    if ok {
      zo, zn := CopyOut(m, cache, uo, numBdigits);
    }
  }

  // BARY_TRUNC, and a new number with what is left
  method CopyOut(m: Memory, ghost cache: Cache, uo: nat, n: nat) returns (zo: nat, zn: nat)
    requires cache.Valid(m.cells) && uo + n <= |m.cells|
    modifies m
    ensures old(m.cells) <= m.cells && cache.Valid(m.cells) && zo + zn <= |m.cells|
    ensures V(m.cells, zo, zn) == V(old(m.cells), uo, n)
  {
    zn := Trunc(m, uo, n);
    ghost var s2 := m.cells;
    zo := m.Alloc(zn);
    VPrefix(s2, m.cells, uo, zn);
    ghost var s3 := m.cells;
    Move(m, zo, uo, zn);
    KeepsPrefix(s2, s3, m.cells, zo, zn);
    cache.ValidGrows(s2, m.cells);
  }

  // The passes over ever larger groups, from one of the two buffers to the other
  method MergeAll(m: Memory, cache: Cache, ghost digits: string, uo0: nat, vo0: nat, n: nat, power0: Power)
    returns (ok: bool, uo: nat)
    requires cache.Valid(m.cells) && 0 in cache.powers && power0 == cache.powers[0]
    requires vo0 == uo0 + n && uo0 + 2 * n <= |m.cells| && cache.Avoids(uo0, 2 * n)
    requires Groups(m.cells, uo0, n, 2, V(m.cells, power0.o, power0.n)) == Value(digits, cache.base)
    requires Proper(m.cells, uo0, n, 2, V(m.cells, power0.o, power0.n))
    modifies m, cache`powers
    ensures var b := V(old(m.cells), power0.o, power0.n);
            b > 0 && (ok <==> !MergeStops(Value(digits, cache.base), b, n, 2))
    ensures ok ==> old(m.cells)[..uo0] <= m.cells && cache.Valid(m.cells) && uo + n <= |m.cells|
    ensures ok ==> V(m.cells, uo, n) == Value(digits, cache.base)
  {
    uo := uo0;
    var vo, unit, powerLevel, power := vo0, 2, 0, power0;
    ok := true;
    assert Pow2(0) == 1;
    ghost var x, b0 := Value(digits, cache.base), V(m.cells, power.o, power.n);
    VPositive(m.cells, power.o, power.n, power.n - 1);
    hide PassStops, V, Groups, Proper;
    while unit < n
      invariant cache.Valid(m.cells) && powerLevel in cache.powers && power == cache.powers[powerLevel]
      invariant unit == 2 * Pow2(powerLevel) && cache.Avoids(uo0, 2 * n) && uo0 + 2 * n <= |m.cells|
      invariant (uo == uo0 && vo == vo0) || (uo == vo0 && vo == uo0)
      invariant Groups(m.cells, uo, n, unit, V(m.cells, power.o, power.n)) == Value(digits, cache.base)
      invariant Proper(m.cells, uo, n, unit, V(m.cells, power.o, power.n))
      invariant old(m.cells)[..uo0] <= m.cells
      invariant 0 < V(m.cells, power.o, power.n)
      invariant MergeStops(x, b0, n, 2) <==> MergeStops(x, V(m.cells, power.o, power.n), n, unit)
      decreases n - unit
    {
      ghost var b := V(m.cells, power.o, power.n);
      ProductPositive(b, b);
      ok, power := NextPass(m, cache, uo0, uo, vo, n, unit, powerLevel, power);
      if !ok {
        return;
      }
      assert Pow2(powerLevel + 1) == 2 * Pow2(powerLevel);
      powerLevel := powerLevel + 1;
      uo, vo := vo, uo;
      unit := unit * 2;
    }
  }

  // The same number in groups of twice the size
  ghost predicate Regrouped(s: seq<Digit>, uo: nat, power: Power, t: seq<Digit>, vo: nat, next: Power, n: nat, unit: nat)
    requires uo + n <= |s| && vo + n <= |t| && 0 < unit
    requires power.o + power.n <= |s| && next.o + next.n <= |t|
  {
    Groups(t, vo, n, unit * 2, V(t, next.o, next.n)) == Groups(s, uo, n, unit, V(s, power.o, power.n))
  }

  // One pass, and the power for the next
  method NextPass(m: Memory, cache: Cache, ghost from: nat, uo: nat, vo: nat, n: nat, unit: nat, level: nat, power: Power)
    returns (ok: bool, next: Power)
    requires cache.Valid(m.cells) && level in cache.powers && power == cache.powers[level] && unit == 2 * Pow2(level)
    requires cache.Avoids(from, 2 * n) && from + 2 * n <= |m.cells|
    requires (uo == from && vo == from + n) || (uo == from + n && vo == from)
    requires Proper(m.cells, uo, n, unit, V(m.cells, power.o, power.n))
    modifies m, cache`powers
    ensures var b := V(old(m.cells), power.o, power.n);
            b > 0 && (ok <==> !PassStops(Groups(old(m.cells), uo, n, unit, b), b, n, unit))
    ensures ok ==> cache.Valid(m.cells) && level + 1 in cache.powers && next == cache.powers[level + 1]
    ensures ok ==> cache.Avoids(from, 2 * n) && from + 2 * n <= |m.cells| && old(m.cells)[..from] <= m.cells
    ensures ok ==> V(m.cells, next.o, next.n) == V(old(m.cells), power.o, power.n) * V(old(m.cells), power.o, power.n)
    ensures ok ==> Regrouped(old(m.cells), uo, power, m.cells, vo, next, n, unit)
    ensures ok ==> Proper(m.cells, vo, n, unit * 2, V(m.cells, next.o, next.n))
  {
    ghost var s0 := m.cells;
    ghost var b := V(s0, power.o, power.n);
    next := power;
    VPositive(s0, power.o, power.n, power.n - 1);
    hide PassStops;
    ok := MergePass(m, power, uo, vo, n, unit);
    if ok {
      ghost var s1 := m.cells;
      cache.ValidKeeps(s0, s1, vo, n);
      assert V(s1, power.o, power.n) == b;
      hide V, Pow2, Exp, Groups, Proper, Keeps;
      next := SquaredPower(m, cache, level, power, from, 2 * n);
      GroupsPrefix(s1, m.cells, vo, n, 2 * unit, b * b);
    }
  }

  // The next power, which lies apart from the buffers as the others do
  method SquaredPower(m: Memory, cache: Cache, level: nat, power: Power, ghost from: nat, ghost n: nat) returns (next: Power)
    requires cache.Valid(m.cells) && level in cache.powers && power == cache.powers[level]
    requires cache.Avoids(from, n) && from + n <= |m.cells|
    modifies m, cache`powers
    ensures old(m.cells) <= m.cells && cache.Valid(m.cells) && cache.Avoids(from, n)
    ensures level + 1 in cache.powers && next == cache.powers[level + 1]
    ensures V(m.cells, next.o, next.n) == V(old(m.cells), power.o, power.n) * V(old(m.cells), power.o, power.n)
  {
    ghost var s0 := m.cells;
    hide V, Pow2, Exp;
    next := cache.GetPower(m, level + 1);
    NextIsSquare(cache, s0, m.cells, power, next, level);
  }

  lemma NextIsSquare(cache: Cache, s: seq<Digit>, t: seq<Digit>, power: Power, next: Power, level: nat)
    requires cache.Holds(s, power, level) && cache.Holds(t, next, level + 1)
    ensures V(t, next.o, next.n) == V(s, power.o, power.n) * V(s, power.o, power.n)
    ensures Pow2(level + 1) == 2 * Pow2(level)
  {
    ExpAdd(cache.base, power.numdigits, power.numdigits);
    assert cache.hbase2Numdigits * Pow2(level + 1) == power.numdigits + power.numdigits;
  }

  lemma {:induction false} GroupsPrefix(s: seq<Digit>, t: seq<Digit>, o: nat, n: nat, unit: nat, b: nat)
    requires s <= t && o + n <= |s| && 0 < unit
    ensures Groups(t, o, n, unit, b) == Groups(s, o, n, unit, b)
    ensures Proper(t, o, n, unit, b) == Proper(s, o, n, unit, b)
    decreases n
  {
    VPrefix(s, t, o, n);
    if unit <= n {
      GroupsPrefix(s, t, o + unit, n - unit, unit, b);
      VPrefix(s, t, o, unit);
    }
  }

  // ---- reading undoes printing ----

  lemma PrintedConforms(x: nat, base: Base)
    ensures Conforms(Printed(false, x, base), base) && Value(Printed(false, x, base), base) == x
  {
    CountNumeral(x, base);
    ValueOfNumeral(x, base);
  }

  // A number printed and read back digit by digit is the number.
  method PrintAndRead(m: Memory, cache: Cache, xo: nat, xn: nat) returns (zo: nat, zn: nat)
    requires cache.Valid(m.cells) && xo + xn <= |m.cells|
    modifies m, cache`powers
    ensures zo + zn <= |m.cells| && V(m.cells, zo, zn) == V(old(m.cells), xo, xn)
  {
    ghost var x := V(m.cells, xo, xn);
    var s := Big2strGeneric(m, cache, xo, xn, false);
    PrintedConforms(x, cache.base);
    zn := BdigitsFor(Count(s), cache.hbase2Numdigits);
    RoomSuffices(Count(s), cache);
    zo := Str2bigNormal(m, s, zn, cache.base);
  }

  // And so it is when it is read by merging, unless that stops.
  method PrintAndMerge(m: Memory, cache: Cache, xo: nat, xn: nat) returns (ok: bool, zo: nat, zn: nat)
    requires cache.Valid(m.cells) && xo + xn <= |m.cells|
    modifies m, cache`powers
    ensures var x := V(old(m.cells), xo, xn);
            && cache.hbase2 > 0
            && (ok <==> !MergeStops(x, cache.hbase2, BdigitsFor(|Numeral(x, cache.base)|, cache.hbase2Numdigits), 2))
            && (ok ==> zo + zn <= |m.cells| && V(m.cells, zo, zn) == x)
  {
    ghost var x := V(m.cells, xo, xn);
    var s := Big2strGeneric(m, cache, xo, xn, false);
    PrintedConforms(x, cache.base);
    CountNumeral(x, cache.base);
    hide MergeStops;
    ok, zo, zn := Str2bigKaratsuba(m, cache, s, BdigitsFor(Count(s), cache.hbase2Numdigits));
  }
}
