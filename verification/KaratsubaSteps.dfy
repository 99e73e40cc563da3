/**
 The linear parts of bary_mul_karatsuba: everything it does between its three
 recursive products, on the overlapping buffers z0, z1, z2, z3 and w.
 */
module KaratsubaSteps {
  import opened Digits
  import opened Kernel
  import opened MulKernel
  import opened Division
  import opened MulCommon

  // z0,z1 hold x0*y0; w and z2 hold the halves of the middle product.  Adds x0*y0 to the middle
  // product, adds its low half to z1 and leaves its high half in w.
  method AddLowProduct(m: Memory, zo: nat, n: nat, wo: nat) returns (carry1: nat, carry2: nat)
    requires zo + 3 * n <= |m.cells| && wo + n <= |m.cells| && Apart(wo, n, zo, 3 * n)
    modifies m
    ensures Keeps2(old(m.cells), m.cells, zo, 3 * n, wo, n)
    ensures carry1 <= 1 && carry2 <= 1
    ensures V(m.cells, zo, 2 * n) + Pow(2 * n) * (carry2 + V(m.cells, wo, n) + Pow(n) * carry1)
         == V(old(m.cells), zo, 2 * n)
            + Pow(n) * (V(old(m.cells), wo, n) + Pow(n) * V(old(m.cells), zo + 2 * n, n) + V(old(m.cells), zo, 2 * n))
  {
    ghost var s0 := m.cells;
    ghost var c, w';
    carry1, carry2, c, w' := LowCarries(m, zo, n, wo);
    LowTotals(s0, m.cells, zo, n, wo, carry1, carry2, c, w');
  }

  method LowCarries(m: Memory, zo: nat, n: nat, wo: nat)
    returns (carry1: nat, carry2: nat, ghost c: nat, ghost w': nat)
    requires zo + 3 * n <= |m.cells| && wo + n <= |m.cells| && Apart(wo, n, zo, 3 * n)
    modifies m
    ensures Keeps2(old(m.cells), m.cells, zo, 3 * n, wo, n) && V(m.cells, zo, n) == V(old(m.cells), zo, n)
    ensures carry1 <= 1 && carry2 <= 1
    ensures w' + c * Pow(n) == V(old(m.cells), wo, n) + V(old(m.cells), zo, n)
    ensures V(m.cells, wo, n) + carry1 * Pow(n) == V(old(m.cells), zo + 2 * n, n) + V(old(m.cells), zo + n, n) + c
    ensures V(m.cells, zo + n, n) + carry2 * Pow(n) == V(old(m.cells), zo + n, n) + w'
  {
    ghost var s0 := m.cells;
    hide V, Pow;
    carry1, c := HighCarries(m, zo, n, wo);
    ghost var s1 := m.cells;
    w' := V(s1, wo, n);
    carry2 := AddC(m, zo + n, n, zo + n, n, wo, n, 0);
    Move(m, wo, zo + 2 * n, n);
    Keeps2Intro(s0, m.cells, zo, 3 * n, wo, n);
  }

  // w += lo(x0*y0), and z2 += hi(x0*y0) with the carry
  method HighCarries(m: Memory, zo: nat, n: nat, wo: nat) returns (carry1: nat, ghost c: nat)
    requires zo + 3 * n <= |m.cells| && wo + n <= |m.cells| && Apart(wo, n, zo, 3 * n)
    modifies m
    ensures Keeps2(old(m.cells), m.cells, zo + 2 * n, n, wo, n)
    ensures carry1 <= 1
    ensures V(m.cells, wo, n) + c * Pow(n) == V(old(m.cells), wo, n) + V(old(m.cells), zo, n)
    ensures V(m.cells, zo + 2 * n, n) + carry1 * Pow(n)
         == V(old(m.cells), zo + 2 * n, n) + V(old(m.cells), zo + n, n) + c
  {
    ghost var s0 := m.cells;
    hide V, Pow;
    carry1 := AddC(m, wo, n, wo, n, zo, n, 0);
    c := carry1;
    carry1 := AddC(m, zo + 2 * n, n, zo + 2 * n, n, zo + n, n, carry1);
    Keeps2Intro(s0, m.cells, zo + 2 * n, n, wo, n);
  }

  lemma LowTotals(s0: seq<Digit>, s: seq<Digit>, zo: nat, n: nat, wo: nat, carry1: nat, carry2: nat, c: nat, w': nat)
    requires zo + 3 * n <= |s0| == |s| && wo + n <= |s0|
    requires V(s, zo, n) == V(s0, zo, n)
    requires w' + c * Pow(n) == V(s0, wo, n) + V(s0, zo, n)
    requires V(s, wo, n) + carry1 * Pow(n) == V(s0, zo + 2 * n, n) + V(s0, zo + n, n) + c
    requires V(s, zo + n, n) + carry2 * Pow(n) == V(s0, zo + n, n) + w'
    ensures V(s, zo, 2 * n) + Pow(2 * n) * (carry2 + V(s, wo, n) + Pow(n) * carry1)
         == V(s0, zo, 2 * n) + Pow(n) * (V(s0, wo, n) + Pow(n) * V(s0, zo + 2 * n, n) + V(s0, zo, 2 * n))
  {
    VSplit(s0, zo, n, n);
    VSplit(s, zo, n, n);
    PowAdd(n, n);
    hide V, Pow;
    LowArith(Pow(n), V(s0, zo, n), V(s0, zo + n, n), V(s0, wo, n), V(s0, zo + 2 * n, n), w', V(s, wo, n),
             V(s, zo + n, n), c, carry1, carry2);
  }

  lemma LowArith(p: int, z0: int, z1: int, wl: int, wh: int, w': int, h: int, z1': int, c: int, c1: int, c2: int)
    requires w' + c * p == wl + z0
    requires h + c1 * p == wh + z1 + c
    requires z1' + c2 * p == z1 + w'
    ensures (z0 + p * z1') + (p * p) * (c2 + h + p * c1) == (z0 + p * z1) + p * (wl + p * wh + (z0 + p * z1))
  {
    assert p * z1' == p * (z1 + w' - c2 * p);
    assert p * (p * c1) == p * (wh + z1 + c - h);
    assert p * (w' + c * p) == p * (wl + z0);
    Quad(p, z1, w', c2, wh, c, h, wl, z0, c1, z1');
  }

  lemma Quad(p: int, z1: int, w': int, c2: int, wh: int, c: int, h: int, wl: int, z0: int, c1: int, z1': int)
    requires p * z1' == p * (z1 + w' - c2 * p)
    requires p * (p * c1) == p * (wh + z1 + c - h)
    requires p * (w' + c * p) == p * (wl + z0)
    ensures (z0 + p * z1') + (p * p) * (c2 + h + p * c1) == (z0 + p * z1) + p * (wl + p * wh + (z0 + p * z1))
  {
    assert p * z1' == p * z1 + p * w' - c2 * (p * p);
    assert (p * p) * (p * c1) == p * (p * (p * c1));
    assert p * (p * (wh + z1 + c - h)) == (p * p) * wh + (p * p) * z1 + c * (p * p) - (p * p) * h;
    assert (p * p) * (c2 + h + p * c1) == c2 * (p * p) + (p * p) * h + (p * p) * (p * c1);
    assert p * (w' + c * p) == p * w' + c * (p * p);
    assert p * (wl + p * wh + (z0 + p * z1)) == p * wl + (p * p) * wh + p * z0 + (p * p) * z1;
    assert p * (wl + z0) == p * wl + p * z0;
  }

  // z2,z3 hold x1*y1.  Adds it once to z1,z2.
  method AddHighProduct(m: Memory, zo: nat, zn: nat, n: nat) returns (carry3: nat)
    requires zo + zn <= |m.cells| && 3 * n < zn
    requires V(m.cells, zo + 2 * n, zn - 2 * n) < Pow(2 * n)
    modifies m
    ensures Keeps(old(m.cells), m.cells, zo, zn)
    ensures carry3 <= 1
    ensures V(m.cells, zo, zn) + Pow(3 * n) * carry3
         == V(old(m.cells), zo, zn) + Pow(n) * V(old(m.cells), zo + 2 * n, zn - 2 * n)
  {
    ghost var s0 := m.cells;
    HighParts(s0, zo, zn, n);
    hide V, Pow;
    carry3 := AddC(m, zo + n, n, zo + n, n, zo + 2 * n, n, 0);
    ghost var c := carry3;
    carry3 := AddC(m, zo + 2 * n, n, zo + 2 * n, n, zo + 3 * n, if 4 * n < zn then n else zn - 3 * n, carry3);
    KeepsIntro(s0, m.cells, zo, zn);
    HighTotals(s0, m.cells, zo, zn, n, c, carry3);
  }

  lemma HighTotals(s0: seq<Digit>, s: seq<Digit>, zo: nat, zn: nat, n: nat, c: nat, c3: nat)
    requires zo + zn <= |s0| == |s| && 3 * n < zn
    requires V(s, zo, n) == V(s0, zo, n) && V(s, zo + 3 * n, zn - 3 * n) == V(s0, zo + 3 * n, zn - 3 * n)
    requires V(s, zo + n, n) + c * Pow(n) == V(s0, zo + n, n) + V(s0, zo + 2 * n, n)
    requires V(s, zo + 2 * n, n) + c3 * Pow(n) == V(s0, zo + 2 * n, n) + V(s0, zo + 3 * n, zn - 3 * n) + c
    ensures V(s, zo, zn) + Pow(3 * n) * c3 == V(s0, zo, zn) + Pow(n) * V(s0, zo + 2 * n, zn - 2 * n)
  {
    PowAdd(n, n);
    PowAdd(2 * n, n);
    FourParts(s0, zo, zn, n);
    FourParts(s, zo, zn, n);
    hide V, Pow;
    HighArith(Pow(n), V(s0, zo, n), V(s0, zo + n, n), V(s0, zo + 2 * n, n), V(s0, zo + 3 * n, zn - 3 * n),
              V(s, zo + n, n), V(s, zo + 2 * n, n), c, c3);
  }

  // A number below B^(2n) in more than n digits: its part from digit n on fits n digits.
  lemma HighParts(s: seq<Digit>, zo: nat, zn: nat, n: nat)
    requires zo + zn <= |s| && 3 * n < zn
    requires V(s, zo + 2 * n, zn - 2 * n) < Pow(2 * n)
    ensures V(s, zo + 3 * n, if 4 * n < zn then n else zn - 3 * n) == V(s, zo + 3 * n, zn - 3 * n)
  {
    var c, h := V(s, zo + 2 * n, zn - 2 * n), V(s, zo + 3 * n, zn - 3 * n);
    VSplit(s, zo + 2 * n, n, zn - 3 * n);
    PowAdd(n, n);
    if Pow(n) <= h {
      LeMul(Pow(n), Pow(n), h);
    }
    if 4 * n < zn {
      VSplit(s, zo + 3 * n, n, zn - 4 * n);
      if V(s, zo + 4 * n, zn - 4 * n) != 0 {
        LeMul(Pow(n), 1, V(s, zo + 4 * n, zn - 4 * n));
      }
    }
  }

  lemma FourParts(s: seq<Digit>, zo: nat, zn: nat, n: nat)
    requires zo + zn <= |s| && 3 * n < zn
    ensures V(s, zo, zn) == V(s, zo, n) + Pow(n) * V(s, zo + n, n) + Pow(2 * n) * V(s, zo + 2 * n, zn - 2 * n)
    ensures V(s, zo + 2 * n, zn - 2 * n) == V(s, zo + 2 * n, n) + Pow(n) * V(s, zo + 3 * n, zn - 3 * n)
  {
    VSplit(s, zo, 2 * n, zn - 2 * n);
    VSplit(s, zo, n, n);
    VSplit(s, zo + 2 * n, n, zn - 3 * n);
  }

  lemma HighArith(p: int, z0: int, z1: int, cl: int, ch: int, z1': int, z2': int, c: int, c3: int)
    requires z1' + c * p == z1 + cl
    requires z2' + c3 * p == cl + ch + c
    ensures z0 + p * z1' + (p * p) * (z2' + p * ch) + ((p * p) * p) * c3
         == z0 + p * z1 + (p * p) * (cl + p * ch) + p * (cl + p * ch)
  {
    assert p * z1' == p * (z1 + cl - c * p);
    assert p * (z1 + cl - c * p) == p * z1 + p * cl - c * (p * p);
    assert (p * p) * (z2' + c3 * p) == (p * p) * (cl + ch + c);
    assert (p * p) * (z2' + c3 * p) == (p * p) * z2' + ((p * p) * p) * c3;
    assert (p * p) * (cl + ch + c) == (p * p) * cl + (p * p) * ch + c * (p * p);
    assert (p * p) * (z2' + p * ch) == (p * p) * z2' + (p * p) * (p * ch);
    assert (p * p) * (cl + p * ch) == (p * p) * cl + (p * p) * (p * ch);
    assert p * (cl + p * ch) == p * cl + (p * p) * ch;
  }

  // Adds the high half of the middle product and the pending carries; the total is exact modulo B^zn.
  method AddCarries(m: Memory, zo: nat, zn: nat, n: nat, wo: nat, carry1: nat, carry2: nat, carry3: nat, borrow: nat)
    returns (ghost k: int)
    requires zo + zn <= |m.cells| && 3 * n < zn && wo + n <= |m.cells| && Apart(wo, n, zo, zn)
    requires carry1 <= 1 && carry2 <= 1 && carry3 <= 1 && borrow <= 1
    modifies m
    ensures Keeps(old(m.cells), m.cells, zo, zn)
    ensures V(m.cells, zo, zn) + k * Pow(zn)
         == V(old(m.cells), zo, zn) + Pow(2 * n) * (V(old(m.cells), wo, n) + carry2)
            + Pow(3 * n) * (carry1 + carry3 - borrow)
  {
    ghost var s0 := m.cells;
    hide V, Pow;
    var a := AddC(m, zo + 2 * n, zn - 2 * n, zo + 2 * n, zn - 2 * n, wo, n, 0);
    ghost var s1 := m.cells;
    VLift(s0, s1, zo, zn, 2 * n, V(s0, wo, n), a);
    assert V(s1, wo, n) == V(s0, wo, n);
    var b := 0;
    if carry2 != 0 {
      b := AddOne(m, zo + 2 * n, zn - 2 * n);
    } else {
      KeepsIntro(s1, s1, zo + 2 * n, zn - 2 * n);
    }
    ghost var s2 := m.cells;
    VLift(s1, s2, zo, zn, 2 * n, carry2, b);
    var c := TopCarry(m, zo + 3 * n, zn - 3 * n, carry1 + carry3 - borrow);
    VLift(s2, m.cells, zo, zn, 3 * n, carry1 + carry3 - borrow, c);
    k := a + b + c;
    KeepsIntro(s0, m.cells, zo, zn);
    CarriesArith(Pow(2 * n), V(s0, wo, n), carry2, a, b, c, Pow(zn));
  }

  lemma CarriesArith(p: int, w: int, c2: int, a: int, b: int, c: int, q: int)
    ensures p * (w + c2) == p * w + p * c2
    ensures (a + b + c) * q == a * q + b * q + c * q
  {
  }

  // carry1 + carry3 - borrow into z3
  method TopCarry(m: Memory, zo: nat, zn: nat, d: int) returns (ghost k: int)
    requires zo + zn <= |m.cells| && 0 < zn && -1 <= d <= 2
    modifies m
    ensures Keeps(old(m.cells), m.cells, zo, zn)
    ensures V(m.cells, zo, zn) + k * Pow(zn) == V(old(m.cells), zo, zn) + d
  {
    k := 0;
    if d < 0 {
      var b := SubB(m, zo, zn, zo, zn, 0, 0, 1);
      k := -(b as int);
    } else if d > 0 {
      BLarge();
      k := AddDigit(m, zo, zn, d);
    } else {
      KeepsIntro(m.cells, m.cells, zo, zn);
    }
  }

  // The three products put together: a = x0*y0, c = x1*y1, and z12 minus its borrow is
  // -(x1-x0)*(y1-y0).
  lemma KaratsubaTotal(x0: int, x1: int, y0: int, y1: int, p: int, z12: int, borrow: int, low: int, w: int,
                       c1: int, c2: int, total: int)
    requires z12 - borrow * (p * p) == -((x1 - x0) * (y1 - y0))
    requires low + (p * p) * (c2 + w + p * c1) == x0 * y0 + p * (z12 + x0 * y0)
    requires total == low + (p * p) * (x1 * y1) + p * (x1 * y1) + (p * p) * (w + c2) + ((p * p) * p) * (c1 - borrow)
    ensures total == (x0 + p * x1) * (y0 + p * y1)
  {
    var q, a, c := p * p, x0 * y0, x1 * y1;
    assert q * (c2 + w + p * c1) == q * (w + c2) + (q * p) * c1 by { TotalSplit(q, c2, w, p, c1); }
    assert (q * p) * (c1 - borrow) == (q * p) * c1 - (q * p) * borrow;
    assert total == a + p * (z12 + a) + q * c + p * c - (q * p) * borrow;
    TotalMiddle(p, z12, a, c, borrow, x0 * y1 + x1 * y0) by { CrossTerms(x0, x1, y0, y1); }
    TotalProduct(x0, x1, y0, y1, p);
  }

  lemma TotalSplit(q: int, c2: int, w: int, p: int, c1: int)
    ensures q * (c2 + w + p * c1) == q * (w + c2) + (q * p) * c1
  {
    assert q * (p * c1) == (q * p) * c1;
  }

  lemma CrossTerms(x0: int, x1: int, y0: int, y1: int)
    ensures (x1 - x0) * (y1 - y0) == x1 * y1 + x0 * y0 - (x0 * y1 + x1 * y0)
  {
  }

  lemma TotalMiddle(p: int, z12: int, a: int, c: int, borrow: int, cross: int)
    requires z12 - borrow * (p * p) == cross - c - a
    ensures a + p * (z12 + a) + (p * p) * c + p * c - ((p * p) * p) * borrow == a + p * cross + (p * p) * c
  {
    assert p * (z12 + a) + p * c == p * (z12 + a + c);
    assert z12 + a + c == cross + borrow * (p * p);
    assert p * (cross + borrow * (p * p)) == p * cross + ((p * p) * p) * borrow;
  }

  lemma TotalProduct(x0: int, x1: int, y0: int, y1: int, p: int)
    ensures (x0 + p * x1) * (y0 + p * y1) == x0 * y0 + p * (x0 * y1 + x1 * y0) + (p * p) * (x1 * y1)
  {
    assert (x0 + p * x1) * (y0 + p * y1) == x0 * y0 + x0 * (p * y1) + (p * x1) * y0 + (p * x1) * (p * y1);
    assert x0 * (p * y1) == p * (x0 * y1);
    assert (p * x1) * y0 == p * (x1 * y0);
    assert (p * x1) * (p * y1) == (p * p) * (x1 * y1);
  }
}
