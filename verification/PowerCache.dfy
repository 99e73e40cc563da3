/**
 The table of squares of bignum.c: for one base, maxpow_in_bdigit_dbl(base)^(2^level)
 for as many levels as have been asked for, filled on demand.
 */
module PowerCache {
  import opened Digits
  import opened Kernel
  import opened MulKernel
  import opened Division
  import opened MulCommon
  import opened Workspace
  import opened Multiply
  import opened Radix

  // maxpow_in_bdigit_dbl: the largest power of the base that two digits hold
  method MaxpowInBdigitDbl(base: Base) returns (maxpow: nat, exponent: nat)
    ensures 0 < exponent && maxpow == Exp(base, exponent)
    ensures maxpow < B * B <= maxpow * base && B <= maxpow
  {
    BLarge();
    var max := B * B - 1;
    LeMul(B, 36, B);
    maxpow, exponent := base, 1;
    assert Exp(base, 1) == base * Exp(base, 0);
    while maxpow <= max / base
      invariant 0 < exponent && 0 < maxpow == Exp(base, exponent) && maxpow <= max
      decreases max - maxpow
    {
      FitsTimes(maxpow, base, max);
      maxpow := maxpow * base;
      exponent := exponent + 1;
    }
    NotFitsTimes(maxpow, base, max);
    LargestIsLarge(maxpow, base);
  }

  lemma FitsTimes(p: nat, base: Base, max: nat)
    requires 0 < p <= max / base
    ensures p < p * base <= max
  {
    DivMod(max, base);
    LeMul(base, p, max / base);
    LeMul(p, 2, base);
  }

  lemma NotFitsTimes(p: nat, base: Base, max: nat)
    requires max / base < p
    ensures max < p * base
  {
    DivMod(max, base);
    LeMul(base, max / base + 1, p);
  }

  lemma LargestIsLarge(p: nat, base: Base)
    requires B * B <= p * base && 36 <= B
    ensures B <= p
  {
    if p < B {
      LeMul(base, p + 1, B);
      LeMul(B, base, B);
    }
  }

  // A power: where its digits are, how many there are, and its exponent over the base.
  datatype Power = Power(o: nat, n: nat, numdigits: nat)

  // base36_power_cache and base36_numdigits_cache, the rows of one base
  class Cache {
    const base: Base
    const hbase2: nat
    const hbase2Numdigits: nat
    var powers: map<nat, Power>

    // hbase2 is the largest power that two digits hold.
    ghost predicate Based()
    {
      && 0 < hbase2Numdigits && hbase2 == Exp(base, hbase2Numdigits) && B <= hbase2 < B * B <= hbase2 * base
    }

    ghost predicate Valid(s: seq<Digit>)
      reads this
    {
      && Based()
      && (forall level {:trigger powers[level]} :: level in powers ==> Holds(s, powers[level], level))
      && (forall level: nat :: level + 1 in powers ==> level in powers)
    }

    ghost predicate Holds(s: seq<Digit>, p: Power, level: nat)
    {
      && level + 2 <= p.n <= 2 * Pow2(level) && p.o + p.n <= |s| && s[p.o + p.n - 1] != 0
      && p.numdigits == hbase2Numdigits * Pow2(level) && V(s, p.o, p.n) == Exp(base, p.numdigits)
    }

    // None of the powers found so far lies in [zo, zo+zn).
    ghost predicate Avoids(zo: nat, zn: nat)
      reads this
    {
      forall level :: level in powers ==> Apart(powers[level].o, powers[level].n, zo, zn)
    }

    constructor (base: Base)
      ensures this.base == base && powers == map[] && Valid([])
    {
      var p, e := MaxpowInBdigitDbl(base);
      this.base, hbase2, hbase2Numdigits := base, p, e;
      powers := map[];
    }

    lemma ValidGrows(s: seq<Digit>, t: seq<Digit>)
      requires Valid(s) && s <= t
      ensures Valid(t)
    {
      forall level | level in powers ensures Holds(t, powers[level], level) {
        VPrefix(s, t, powers[level].o, powers[level].n);
      }
    }

    lemma ValidKeeps(s: seq<Digit>, t: seq<Digit>, zo: nat, zn: nat)
      requires Valid(s) && Keeps(s, t, zo, zn) && Avoids(zo, zn)
      ensures Valid(t)
    {
      forall level | level in powers ensures Holds(t, powers[level], level) {
        var p := powers[level];
        assert t[p.o + p.n - 1] == s[p.o + p.n - 1];
      }
    }

    // The square of a power, and its length.
    lemma {:induction false} SquareHolds(s0: seq<Digit>, s: seq<Digit>, p: Power, z: Power, level: nat)
      requires Based() && Holds(s0, p, level) && z.o + z.n <= |s|
      requires V(s, z.o, z.n) == V(s0, p.o, p.n) * V(s0, p.o, p.n) && z.numdigits == p.numdigits * 2
      requires 0 < z.n <= 2 * p.n && s[z.o + z.n - 1] != 0
      ensures Holds(s, z, level + 1)
    {
      ExpAdd(base, p.numdigits, p.numdigits);
      assert Pow2(level + 1) == 2 * Pow2(level);
      hide Exp, Pow2, V;
      assert hbase2Numdigits * (2 * Pow2(level)) == hbase2Numdigits * Pow2(level) * 2;
      SquareLength(s0, p.o, p.n, s, z.o, z.n);
    }

    // The square of a number of n digits has at least 2n - 1.
    static lemma SquareLength(s0: seq<Digit>, xo: nat, xn: nat, s: seq<Digit>, zo: nat, zn: nat)
      requires xo + xn <= |s0| && zo + zn <= |s| && 0 < xn && s0[xo + xn - 1] != 0
      requires V(s, zo, zn) == V(s0, xo, xn) * V(s0, xo, xn)
      ensures 2 * xn - 1 <= zn
    {
      var x, p := V(s0, xo, xn), Pow(xn - 1);
      VPositive(s0, xo, xn, xn - 1);
      LeMul(x, p, x);
      LeMul(p, p, x);
      PowAdd(xn - 1, xn - 1);
      VBound(s, zo, zn);
      if zn < 2 * xn - 1 {
        PowMono(zn, 2 * xn - 2);
      }
    }

    // Higher powers are longer.
    lemma LongerPowers(s: seq<Digit>, i: nat, j: nat)
      requires Valid(s) && i in powers && j in powers && i <= j
      ensures powers[i].n <= powers[j].n
    {
      var p, q := powers[i], powers[j];
      Pow2Mono(i, j);
      LeMul(hbase2Numdigits, Pow2(i), Pow2(j));
      ExpMono(base, p.numdigits, q.numdigits);
      if q.n < p.n {
        Longer(s, q.o, q.n, p.o, p.n);
      }
    }

    // power_cache_get_power
    method GetPower(m: Memory, level: nat) returns (power: Power)
      requires Valid(m.cells)
      modifies this`powers, m
      ensures old(m.cells) <= m.cells && Valid(m.cells) && level in powers && power == powers[level]
      ensures forall i :: i in old(powers) ==> i in powers && powers[i] == old(powers[i])
      ensures forall i :: i in powers && i !in old(powers) ==> |old(m.cells)| <= powers[i].o
      ensures old(level in powers) ==> powers == old(powers) && m.cells == old(m.cells)
      decreases level
    {
      if level in powers {
        return powers[level];
      }
      hide Valid, Holds;
      if level == 0 {
        power := FirstPower(m);
      } else {
        var x := GetPower(m, level - 1);
        power := NextPower(m, x, level - 1);
      }
      Record(level, power, m.cells);
    }

    method Record(level: nat, power: Power, ghost s: seq<Digit>)
      requires Valid(s) && Holds(s, power, level) && (level == 0 || level - 1 in powers)
      modifies this`powers
      ensures Valid(s) && powers == old(powers)[level := power]
    {
      hide Holds;
      powers := powers[level := power];
    }

    // bdigitdbl2bary of the largest power that two digits hold
    method FirstPower(m: Memory) returns (power: Power)
      requires Valid(m.cells)
      modifies m
      ensures old(m.cells) <= m.cells && |old(m.cells)| <= power.o && Valid(m.cells) && Holds(m.cells, power, 0)
    {
      ghost var s0 := m.cells;
      var o := m.Alloc(2);
      BigDnBound(hbase2, 0, B);
      m.cells := m.cells[o := BigLo(hbase2)][o + 1 := BigDn(hbase2)];
      TwoDigits(m.cells, o, hbase2);
      power := Power(o, 2, hbase2Numdigits);
      assert Pow2(0) == 1;
      ValidGrows(s0, m.cells);
    }

    method NextPower(m: Memory, x: Power, ghost level: nat) returns (power: Power)
      requires Valid(m.cells) && Holds(m.cells, x, level)
      modifies m
      ensures old(m.cells) <= m.cells && |old(m.cells)| <= power.o && Valid(m.cells) && Holds(m.cells, power, level + 1)
    {
      ghost var s0 := m.cells;
      VPositive(s0, x.o, x.n, x.n - 1);
      power := Square(m, x);
      ValidGrows(s0, m.cells);
      SquareHolds(s0, m.cells, x, power, level);
    }

    // bigtrunc(bigsq(x)): squaring never runs out of workspace.
    method Square(m: Memory, x: Power) returns (z: Power)
      requires x.o + x.n <= |m.cells| && 0 < x.n && 0 < V(m.cells, x.o, x.n)
      modifies m
      ensures old(m.cells) <= m.cells && |old(m.cells)| <= z.o && z.o + z.n <= |m.cells|
      ensures V(m.cells, z.o, z.n) == V(old(m.cells), x.o, x.n) * V(old(m.cells), x.o, x.n)
      ensures z.numdigits == x.numdigits * 2 && 0 < z.n <= 2 * x.n && m.cells[z.o + z.n - 1] != 0
    {
      ghost var s0 := m.cells;
      hide V, Pow, Stops;
      var zn := 2 * x.n;
      var zo := m.Alloc(zn);
      ghost var s1 := m.cells;
      VPrefix(s0, s1, x.o, x.n);
      if x.n < KARATSUBA_MUL_DIGITS {
        SqFast(m, zo, zn, x.o, x.n);
      } else {
        SquareNever(Toom3Start, V(s1, x.o, x.n), zn, 0);
        var ok := BaryMul(m, zo, zn, x.o, x.n, x.o, x.n);
        assert ok;
      }
      KeepsPrefix(s0, s1, m.cells, zo, zn);
      LeMul(V(s0, x.o, x.n), 1, V(s0, x.o, x.n));
      var n := BigTrunc(m, zo, zn);
      z := Power(zo, n, x.numdigits * 2);
    }
  }

  lemma KeepsPrefix(s0: seq<Digit>, s1: seq<Digit>, t: seq<Digit>, zo: nat, zn: nat)
    requires s0 <= s1 && |s0| <= zo && Keeps(s1, t, zo, zn)
    ensures s0 <= t
  {
  }

  // bigtrunc of a number that is not zero
  method BigTrunc(m: Memory, o: nat, n: nat) returns (k: nat)
    requires o + n <= |m.cells| && 0 < V(m.cells, o, n)
    ensures 0 < k <= n && V(m.cells, o, k) == V(m.cells, o, n) && m.cells[o + k - 1] != 0
  {
    var len := n - 1;
    while 0 < len && m.cells[o + len] == 0
      invariant 0 <= len < n && V(m.cells, o, len + 1) == V(m.cells, o, n)
    {
      len := len - 1;
    }
    VOne(m.cells, o);
    k := len + 1;
  }

  lemma TwoDigits(s: seq<Digit>, o: nat, d: nat)
    requires o + 2 <= |s| && B <= d < B * B && s[o] == BigLo(d) && s[o + 1] == BigDn(d)
    ensures V(s, o, 2) == d && s[o + 1] != 0
  {
    VTwo(s, o);
  }
}
