/**
 The Newton iteration of rb_big_isqrt.  The floating-point starting value of
 estimate_initial_sqrt is a parameter: any x not below the root will do.
 */
module Sqrt {
  import opened Digits
  import opened Kernel
  import opened MulKernel
  import opened Division
  import opened MulCommon

  // x is the integer square root of n.
  predicate IsRoot(n: nat, x: nat)
  {
    x * x <= n < (x + 1) * (x + 1)
  }

  lemma RootUnique(n: nat, x: nat, y: nat)
    requires IsRoot(n, x) && IsRoot(n, y)
    ensures x == y
  {
    if x < y {
      MulBound(x + 1, x + 1, y, y);
    } else if y < x {
      MulBound(y + 1, y + 1, x, x);
    }
  }

  // A value is at or above the root exactly when its successor's square exceeds n.
  predicate AtLeastRoot(n: nat, x: nat)
  {
    n < (x + 1) * (x + 1)
  }

  // One Newton step never falls below the root.
  lemma NewtonStep(n: nat, x: nat)
    requires 0 < x && AtLeastRoot(n, x) && n / x < x
    ensures AtLeastRoot(n, (x + n / x) / 2) && (x + n / x) / 2 < x
  {
    var t := n / x;
    DivMod(n, x);
    NewtonArith(n, x, t, n % x, (x + t) / 2);
  }

  // With y the halved sum, x + t <= 2y + 1, so x*(2y+1-x) + x exceeds n; its maximum over x is (y+1)^2 at most.
  lemma NewtonArith(n: nat, x: nat, t: int, rem: int, y: int)
    requires n == x * t + rem && 0 <= rem < x && 0 <= y && x + t <= 2 * y + 1
    ensures n < (y + 1) * (y + 1)
  {
    var u := y + 1;
    LeMul(x, t + 1, 2 * u - x);
    assert x * (2 * u - x) == u * u - (u - x) * (u - x);
    assert 0 <= (u - x) * (u - x);
    assert x * (t + 1) == x * t + x;
  }

  lemma NewtonExit(n: nat, x: nat)
    requires 0 < x && AtLeastRoot(n, x) && x <= n / x
    ensures IsRoot(n, x)
  {
    DivMod(n, x);
    LeMul(x, x, n / x);
  }

  // A number of len digits with a non-zero top digit has a root of exactly (len+1)/2 digits.
  lemma RootLength(s: seq<Digit>, o: nat, len: nat, x: nat)
    requires o + len <= |s| && 0 < len && s[o + len - 1] != 0
    requires AtLeastRoot(V(s, o, len), x)
    ensures Pow((len + 1) / 2 - 1) <= x
  {
    var k := (len + 1) / 2 - 1;
    VPositive(s, o, len, len - 1);
    PowAdd(k, k);
    PowMono(k + k, len - 1);
    if x < Pow(k) {
      MulBound(x + 1, x + 1, Pow(k), Pow(k));
    }
  }

  method Isqrt(m: Memory, no: nat, len: nat, xo: nat, xn: nat, to: nat)
    requires 3 <= len && xn == (len + 1) / 2
    requires no + len <= |m.cells| && xo + xn <= |m.cells| && to + xn + 1 <= |m.cells|
    requires Apart(no, len, xo, xn) && Apart(no, len, to, xn + 1) && Apart(xo, xn, to, xn + 1)
    requires m.cells[no + len - 1] != 0
    requires AtLeastRoot(V(m.cells, no, len), V(m.cells, xo, xn))
    modifies m
    ensures Keeps2(old(m.cells), m.cells, xo, xn, to, xn + 1)
    ensures IsRoot(V(old(m.cells), no, len), V(m.cells, xo, xn))
    ensures var n, x := V(old(m.cells), no, len), V(m.cells, xo, xn); x * x <= n < (x + 1) * (x + 1)
  {
    ghost var s0 := m.cells;
    ghost var n := V(s0, no, len);
    var tn := xn + 1;
    RootLength(s0, no, len, V(m.cells, xo, xn));
    var c := Quotient(m, no, len, xo, xn, to, tn);
    while c < 0
      invariant Keeps2(s0, m.cells, xo, xn, to, tn)
      invariant AtLeastRoot(n, V(m.cells, xo, xn)) && Pow(xn - 1) <= V(m.cells, xo, xn)
      invariant V(m.cells, to, tn) == n / V(m.cells, xo, xn)
      invariant c < 0 <==> V(m.cells, to, tn) < V(m.cells, xo, xn)
      decreases V(m.cells, xo, xn)
    {
      NewtonStep(n, V(m.cells, xo, xn));
      Average(m, xo, xn, to, tn);
      RootLength(s0, no, len, V(m.cells, xo, xn));
      Keeps2Intro(s0, m.cells, xo, xn, to, tn);
      c := Quotient(m, no, len, xo, xn, to, tn);
      Keeps2Intro(s0, m.cells, xo, xn, to, tn);
    }
    NewtonExit(n, V(m.cells, xo, xn));
  }

  // t <- n / x, compared with x
  method Quotient(m: Memory, no: nat, len: nat, xo: nat, xn: nat, to: nat, tn: nat) returns (c: int)
    requires 3 <= len && xn == (len + 1) / 2 && tn == xn + 1
    requires no + len <= |m.cells| && xo + xn <= |m.cells| && to + tn <= |m.cells|
    requires Apart(no, len, xo, xn) && Apart(no, len, to, tn) && Apart(xo, xn, to, tn)
    requires Pow(xn - 1) <= V(m.cells, xo, xn)
    modifies m
    ensures Keeps(old(m.cells), m.cells, to, tn)
    ensures 0 < V(m.cells, xo, xn) && V(m.cells, to, tn) == V(m.cells, no, len) / V(m.cells, xo, xn)
    ensures c < 0 <==> V(m.cells, to, tn) < V(m.cells, xo, xn)
  {
    ghost var s0 := m.cells;
    TopNonZero(s0, xo, xn);
    DivmodNormal(m, Dest(to, tn), Null, no, len, xo, xn);
    KeepsIntro(s0, m.cells, to, tn);
    c := Cmp(m, to, tn, xo, xn);
  }

  lemma TopNonZero(s: seq<Digit>, o: nat, n: nat)
    requires o + n <= |s| && 0 < n && Pow(n - 1) <= V(s, o, n)
    ensures s[o + n - 1] != 0
  {
    VBound(s, o, n - 1);
  }

  // x <- (x + t) / 2, through the carry of the sum
  method Average(m: Memory, xo: nat, xn: nat, to: nat, tn: nat)
    requires xo + xn <= |m.cells| && to + tn <= |m.cells| && Apart(xo, xn, to, tn) && 0 < xn
    requires V(m.cells, to, tn) < V(m.cells, xo, xn)
    modifies m
    ensures Keeps(old(m.cells), m.cells, xo, xn)
    ensures V(m.cells, xo, xn) == (V(old(m.cells), xo, xn) + V(old(m.cells), to, tn)) / 2
  {
    ghost var s0 := m.cells;
    var k := Trunc(m, to, tn);
    if k != 0 {
      VBound(m.cells, xo, xn);
      VPositive(m.cells, to, k, k - 1);
      if xn < k {
        PowMono(xn, k - 1);
      }
    }
    BLarge();
    hide V, Pow;
    var carry := AddC(m, xo, xn, xo, xn, to, k, 0);
    assert Pow2(1) == 2;
    ghost var low: nat := m.cells[xo];
    SmallRshift(m, xo, xo, xn, 1, carry);
    ModSmall(carry, 2);
    Halved(V(m.cells, xo, xn), low, V(s0, xo, xn) + V(s0, to, tn));
    KeepsIntro(s0, m.cells, xo, xn);
  }

  lemma Halved(v: nat, low: nat, sum: nat)
    requires v * 2 + low % 2 == sum
    ensures v == sum / 2
  {
  }
}
