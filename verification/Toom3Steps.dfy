/**
 The linear parts of bary_mul_toom3: evaluating an operand at 1, -1 and -2,
 interpolating the product from its five values, and substituting the base.
 A buffer with a flag p holds a signed number; p means "non-negative".
 */
module Toom3Steps {
  import opened Digits
  import opened Kernel
  import opened MulKernel
  import opened Division
  import opened MulCommon

  function Signed(p: bool, v: nat): int
  {
    if p then v else -(v as int)
  }

  lemma Magnitude(p: bool, v: nat, b: int)
    requires -b < Signed(p, v) < b
    ensures v < b
  {
  }

  // z <- x - y on signed numbers.
  method SignedSub(m: Memory, zo: nat, zn: nat, xo: nat, xn: nat, xp: bool, yo: nat, yn: nat, yp: bool) returns (zp: bool)
    requires zo + zn <= |m.cells| && xo + xn <= |m.cells| && yo + yn <= |m.cells|
    requires xn <= zn && yn <= zn && Readable(zo, xo, xn) && Readable(zo, yo, yn)
    requires V(m.cells, xo, xn) + V(m.cells, yo, yn) < Pow(zn)
    modifies m
    ensures Keeps(old(m.cells), m.cells, zo, zn)
    ensures Signed(zp, V(m.cells, zo, zn))
         == Signed(xp, V(old(m.cells), xo, xn)) - Signed(yp, V(old(m.cells), yo, yn))
  {
    hide V, Pow;
    zp := xp;
    if xp == yp {
      var neg := AbsDiff(m, zo, zn, xo, xn, yo, yn);
      if neg {
        zp := !zp;
      }
    } else {
      Add(m, zo, zn, xo, xn, yo, yn);
    }
  }

  // bary_add where the sum fits
  method Add(m: Memory, zo: nat, zn: nat, xo: nat, xn: nat, yo: nat, yn: nat)
    requires zo + zn <= |m.cells| && xo + xn <= |m.cells| && yo + yn <= |m.cells|
    requires xn <= zn && yn <= zn && Readable(zo, xo, xn) && Readable(zo, yo, yn)
    requires V(m.cells, xo, xn) + V(m.cells, yo, yn) < Pow(zn)
    modifies m
    ensures Keeps(old(m.cells), m.cells, zo, zn)
    ensures V(m.cells, zo, zn) == V(old(m.cells), xo, xn) + V(old(m.cells), yo, yn)
  {
    hide V, Pow;
    var c := AddC(m, zo, zn, xo, xn, yo, yn, 0);
    NoCarry(V(m.cells, zo, zn), c, Pow(zn));
  }

  // bary_small_lshift by one bit where the result fits
  method Double(m: Memory, zo: nat, zn: nat)
    requires zo + zn <= |m.cells| && 2 * V(m.cells, zo, zn) < Pow(zn)
    modifies m
    ensures Keeps(old(m.cells), m.cells, zo, zn)
    ensures V(m.cells, zo, zn) == 2 * V(old(m.cells), zo, zn)
  {
    hide V, Pow;
    assert Pow2(1) == 2;
    var out := SmallLshift(m, zo, zo, zn, 1);
    NoCarry(V(m.cells, zo, zn), out, Pow(zn));
  }

  lemma NoCarry(v: nat, c: nat, p: nat)
    requires v + c * p < p
    ensures c == 0 && c * p == 0
  {
    if c != 0 {
      MulLe(1, c, p);
    }
  }

  // ---- step 1: the values at 1, -1 and -2 ----

  method Evaluate(m: Memory, uo: nat, n: nat, xo: nat, x2n: nat) returns (u2p: bool, u3p: bool)
    requires uo + 3 * (n + 1) <= |m.cells| && xo + 2 * n + x2n <= |m.cells| && x2n <= n
    requires Apart(xo, 2 * n + x2n, uo, 3 * (n + 1))
    modifies m
    ensures Keeps(old(m.cells), m.cells, uo, 3 * (n + 1))
    ensures V(m.cells, uo, n + 1)
         == V(old(m.cells), xo, n) + V(old(m.cells), xo + n, n) + V(old(m.cells), xo + 2 * n, x2n)
    ensures Signed(u2p, V(m.cells, uo + (n + 1), n + 1))
         == V(old(m.cells), xo, n) - V(old(m.cells), xo + n, n) + V(old(m.cells), xo + 2 * n, x2n)
    ensures Signed(u3p, V(m.cells, uo + 2 * (n + 1), n + 1))
         == V(old(m.cells), xo, n) - 2 * V(old(m.cells), xo + n, n) + 4 * V(old(m.cells), xo + 2 * n, x2n)
  {
    ghost var s0 := m.cells;
    PieceBounds(s0, xo, n, x2n);
    hide V, Pow;
    u2p := EvaluateOnes(m, uo, uo + (n + 1), n, xo, xo + n, xo + 2 * n, x2n);
    ghost var s1 := m.cells;
    Magnitude(u2p, V(s1, uo + (n + 1), n + 1), 3 * Pow(n));
    hide Signed;
    u3p := EvaluateMinus2(m, uo + 2 * (n + 1), uo + (n + 1), u2p, n, xo, xo + 2 * n, x2n);
    KeepsIntro(s0, m.cells, uo, 3 * (n + 1));
  }

  // u1 <- x0 + x2; u2 <- u1 - x1; u1 <- u1 + x1
  method EvaluateOnes(m: Memory, u1: nat, u2: nat, n: nat, x0: nat, x1: nat, x2: nat, x2n: nat) returns (u2p: bool)
    requires u1 + n + 1 <= u2 && u2 + n + 1 <= |m.cells|
    requires x0 + n <= |m.cells| && x1 + n <= |m.cells| && x2 + x2n <= |m.cells| && x2n <= n
    requires Apart(x0, n, u1, u2 - u1 + n + 1) && Apart(x1, n, u1, u2 - u1 + n + 1) && Apart(x2, x2n, u1, u2 - u1 + n + 1)
    requires V(m.cells, x0, n) < Pow(n) && V(m.cells, x1, n) < Pow(n) && V(m.cells, x2, x2n) < Pow(n)
    requires 65536 * Pow(n) <= Pow(n + 1)
    modifies m
    ensures Keeps2(old(m.cells), m.cells, u1, n + 1, u2, n + 1)
    ensures V(m.cells, u1, n + 1) == V(old(m.cells), x0, n) + V(old(m.cells), x1, n) + V(old(m.cells), x2, x2n)
    ensures Signed(u2p, V(m.cells, u2, n + 1))
         == V(old(m.cells), x0, n) - V(old(m.cells), x1, n) + V(old(m.cells), x2, x2n)
  {
    ghost var s0 := m.cells;
    hide V, Pow;
    Add(m, u1, n + 1, x0, n, x2, x2n);
    var neg := AbsDiff(m, u2, n + 1, u1, n + 1, x1, n);
    u2p := !neg;
    Add(m, u1, n + 1, u1, n + 1, x1, n);
    Keeps2Intro(s0, m.cells, u1, n + 1, u2, n + 1);
  }

  lemma PieceBounds(s: seq<Digit>, xo: nat, n: nat, x2n: nat)
    requires xo + 2 * n + x2n <= |s| && x2n <= n
    ensures V(s, xo, n) < Pow(n) && V(s, xo + n, n) < Pow(n) && V(s, xo + 2 * n, x2n) < Pow(n)
    ensures 65536 * Pow(n) <= Pow(n + 1)
  {
    VBound(s, xo, n);
    VBound(s, xo + n, n);
    VBound(s, xo + 2 * n, x2n);
    PowMono(x2n, n);
    BLarge();
    MulLe(65536, B, Pow(n));
  }

  // u3 <- 2 * (u2 + x2) - x0
  method EvaluateMinus2(m: Memory, u3: nat, u2: nat, u2p: bool, n: nat, x0: nat, x2: nat, x2n: nat) returns (u3p: bool)
    requires u3 + n + 1 <= |m.cells| && u2 + n + 1 <= |m.cells| && x0 + n <= |m.cells| && x2 + x2n <= |m.cells|
    requires x2n <= n && Apart(u2, n + 1, u3, n + 1) && Apart(x0, n, u3, n + 1) && Apart(x2, x2n, u3, n + 1)
    requires V(m.cells, u2, n + 1) < 3 * Pow(n) && V(m.cells, x2, x2n) < Pow(n) && V(m.cells, x0, n) < Pow(n)
    requires 65536 * Pow(n) <= Pow(n + 1)
    modifies m
    ensures Keeps(old(m.cells), m.cells, u3, n + 1)
    ensures Signed(u3p, V(m.cells, u3, n + 1))
         == 2 * (Signed(u2p, V(old(m.cells), u2, n + 1)) + V(old(m.cells), x2, x2n)) - V(old(m.cells), x0, n)
  {
    ghost var s0 := m.cells;
    hide V, Pow;
    u3p := SignedSub(m, u3, n + 1, x2, x2n, true, u2, n + 1, !u2p);
    Double(m, u3, n + 1);
    u3p := SignedSub(m, u3, n + 1, u3, n + 1, u3p, x0, n, true);
    KeepsIntro(s0, m.cells, u3, n + 1);
  }

  // ---- step 2: interpolation ----

  // The coefficients of a product of two polynomials of degree 2.
  datatype Poly = Poly(c0: nat, c1: nat, c2: nat, c3: nat, c4: nat)

  ghost function At(z: Poly, b: int): int
  {
    z.c0 + b * (z.c1 + b * (z.c2 + b * (z.c3 + b * z.c4)))
  }

  // Where the five values and the three interpolated coefficients are.
  datatype Layout = Layout(t0: nat, t1: nat, t2: nat, t3: nat, t4: nat, z1: nat, z2: nat, z3: nat, n: nat)

  ghost predicate LayoutOk(l: Layout, s: seq<Digit>)
  {
    && l.t1 == l.t0 + 2 * l.n && l.t2 == l.t1 + 2 * l.n + 2 && l.t3 == l.t2 + 2 * l.n + 2
    && l.t4 == l.t3 + 2 * l.n + 2 && l.z1 == l.t4 + 2 * l.n && l.z2 == l.z1 + 2 * l.n + 1
    && l.z3 == l.z2 + 2 * l.n + 1 && l.z3 + 2 * l.n + 1 <= |s| && 0 < l.n
  }

  // The values at 0, 1, -1, -2 and infinity.
  ghost predicate Points(l: Layout, s: seq<Digit>, t2p: bool, t3p: bool, z: Poly)
    requires LayoutOk(l, s)
  {
    && V(s, l.t0, 2 * l.n) == z.c0
    && V(s, l.t1, 2 * l.n + 1) == z.c0 + z.c1 + z.c2 + z.c3 + z.c4
    && Signed(t2p, V(s, l.t2, 2 * l.n + 1)) == z.c0 - z.c1 + z.c2 - z.c3 + z.c4
    && Signed(t3p, V(s, l.t3, 2 * l.n + 1)) == z.c0 - 2 * z.c1 + 4 * z.c2 - 8 * z.c3 + 16 * z.c4
    && V(s, l.t4, 2 * l.n) == z.c4
  }

  // The buffers one call of bary_mul_toom3 cuts out of its workspace, after u1,u2,u3,v1,v2,v3.
  function LayoutAt(wo: nat, n: nat): Layout
  {
    var t0 := wo + 6 * (n + 1);
    Layout(t0, t0 + 2 * n, t0 + 4 * n + 2, t0 + 6 * n + 4, t0 + 8 * n + 6, t0 + 10 * n + 6, t0 + 12 * n + 7,
           t0 + 14 * n + 8, n)
  }

  // The signed numbers now in z1, z2, z3.
  ghost predicate Middle(l: Layout, s: seq<Digit>, z1p: bool, z2p: bool, z3p: bool, a1: int, a2: int, a3: int)
    requires LayoutOk(l, s)
  {
    && Signed(z1p, V(s, l.z1, 2 * l.n + 1)) == a1
    && Signed(z2p, V(s, l.z2, 2 * l.n + 1)) == a2
    && Signed(z3p, V(s, l.z3, 2 * l.n + 1)) == a3
  }

  ghost predicate Small(z: Poly, k: nat)
  {
    z.c0 < k && z.c1 < 2 * k && z.c2 < 3 * k && z.c3 < 2 * k && z.c4 < k
  }

  // Divides an exact multiple of 3 by 3.
  method ExactThird(m: Memory, zo: nat, zn: nat, ghost e: nat)
    requires zo + zn <= |m.cells| && 0 < zn && V(m.cells, zo, zn) == 3 * e
    modifies m
    ensures Keeps(old(m.cells), m.cells, zo, zn)
    ensures V(m.cells, zo, zn) == e
  {
    BLarge();
    var r := DivSingle1(m, zo, zo, zn, 0, 3);
  }

  // Halves an even number.
  method ExactHalf(m: Memory, zo: nat, zn: nat, ghost e: nat)
    requires zo + zn <= |m.cells| && 0 < zn && V(m.cells, zo, zn) == 2 * e
    modifies m
    ensures Keeps(old(m.cells), m.cells, zo, zn)
    ensures V(m.cells, zo, zn) == e
  {
    assert Pow2(1) == 2;
    ghost var low: nat := m.cells[zo];
    SmallRshift(m, zo, zo, zn, 1, 0);
    assert 0 <= low % 2 < 2;
    ModSmall(0, 2);
  }

  // z <- (x - y) / 3 where the difference is 3*e
  method SubThird(m: Memory, zo: nat, zn: nat, xo: nat, xp: bool, yo: nat, ghost e: int) returns (zp: bool)
    requires zo + zn <= |m.cells| && xo + zn <= |m.cells| && yo + zn <= |m.cells| && 0 < zn
    requires Readable(zo, xo, zn) && Readable(zo, yo, zn)
    requires V(m.cells, xo, zn) + V(m.cells, yo, zn) < Pow(zn)
    requires Signed(xp, V(m.cells, xo, zn)) - V(m.cells, yo, zn) == 3 * e
    modifies m
    ensures Keeps(old(m.cells), m.cells, zo, zn)
    ensures Signed(zp, V(m.cells, zo, zn)) == e
  {
    ghost var s0 := m.cells;
    hide V, Pow;
    zp := SignedSub(m, zo, zn, xo, zn, xp, yo, zn, true);
    ExactThird(m, zo, zn, Abs(e));
    KeepsIntro(s0, m.cells, zo, zn);
  }

  // z <- (x - y) / 2 where the difference is 2*e
  method SubHalf(m: Memory, zo: nat, zn: nat, xo: nat, xp: bool, yo: nat, yp: bool, ghost e: int) returns (zp: bool)
    requires zo + zn <= |m.cells| && xo + zn <= |m.cells| && yo + zn <= |m.cells| && 0 < zn
    requires Readable(zo, xo, zn) && Readable(zo, yo, zn)
    requires V(m.cells, xo, zn) + V(m.cells, yo, zn) < Pow(zn)
    requires Signed(xp, V(m.cells, xo, zn)) - Signed(yp, V(m.cells, yo, zn)) == 2 * e
    modifies m
    ensures Keeps(old(m.cells), m.cells, zo, zn)
    ensures Signed(zp, V(m.cells, zo, zn)) == e
  {
    ghost var s0 := m.cells;
    hide V, Pow;
    zp := SignedSub(m, zo, zn, xo, zn, xp, yo, zn, yp);
    ExactHalf(m, zo, zn, Abs(e));
    KeepsIntro(s0, m.cells, zo, zn);
  }

  // z <- z + x - t
  method AddSub(m: Memory, zo: nat, zn: nat, zp0: bool, xo: nat, xp: bool, to: nat, tn: nat) returns (zp: bool)
    requires zo + zn <= |m.cells| && xo + zn <= |m.cells| && tn <= zn && to + tn <= |m.cells|
    requires Apart(xo, zn, zo, zn) && Apart(to, tn, zo, zn)
    requires V(m.cells, zo, zn) + V(m.cells, xo, zn) + V(m.cells, to, tn) < Pow(zn)
    modifies m
    ensures Keeps(old(m.cells), m.cells, zo, zn)
    ensures Signed(zp, V(m.cells, zo, zn))
         == Signed(zp0, V(old(m.cells), zo, zn)) + Signed(xp, V(old(m.cells), xo, zn)) - V(old(m.cells), to, tn)
  {
    ghost var s0 := m.cells;
    hide V, Pow;
    zp := SignedSub(m, zo, zn, zo, zn, zp0, xo, zn, !xp);
    zp := SignedSub(m, zo, zn, zo, zn, zp, to, tn, true);
    KeepsIntro(s0, m.cells, zo, zn);
  }

  // z3 <- (t3 - t1) / 3; z1 <- (t1 - t2) / 2; z2 <- t2 - t0
  method Differences(m: Memory, l: Layout, t2p: bool, t3p: bool, ghost z: Poly, ghost k: nat)
    returns (z1p: bool, z2p: bool, z3p: bool)
    requires LayoutOk(l, m.cells) && Points(l, m.cells, t2p, t3p, z)
    requires Small(z, k) && 65536 * k <= Pow(2 * l.n + 1)
    modifies m
    ensures Keeps(old(m.cells), m.cells, l.z1, 6 * l.n + 3)
    ensures LayoutOk(l, m.cells)
    ensures Middle(l, m.cells, z1p, z2p, z3p, z.c1 + z.c3, z.c4 + z.c2 - z.c3 - z.c1,
                   z.c2 - z.c1 - 3 * z.c3 + 5 * z.c4)
  {
    ghost var s0 := m.cells;
    hide V, Pow;
    PointFacts(l, s0, t2p, t3p, z, k);
    hide Signed, Points, Small;
    z1p, z3p := Differences13(m, l.t1, l.t2, l.t3, l.z1, l.z3, 2 * l.n + 1, t2p, t3p,
                              z.c1 + z.c3, z.c2 - z.c1 - 3 * z.c3 + 5 * z.c4);
    z2p := SignedSub(m, l.z2, 2 * l.n + 1, l.t2, 2 * l.n + 1, t2p, l.t0, 2 * l.n, true);
    Positive(V(s0, l.t0, 2 * l.n));
    KeepsIntro(s0, m.cells, l.z1, 6 * l.n + 3);
  }

  lemma PointFacts(l: Layout, s: seq<Digit>, t2p: bool, t3p: bool, z: Poly, k: nat)
    requires LayoutOk(l, s) && Points(l, s, t2p, t3p, z)
    requires Small(z, k) && 65536 * k <= Pow(2 * l.n + 1)
    ensures V(s, l.t1, 2 * l.n + 1) + V(s, l.t2, 2 * l.n + 1) < Pow(2 * l.n + 1)
    ensures V(s, l.t1, 2 * l.n + 1) + V(s, l.t3, 2 * l.n + 1) < Pow(2 * l.n + 1)
    ensures V(s, l.t2, 2 * l.n + 1) + V(s, l.t0, 2 * l.n) < Pow(2 * l.n + 1)
    ensures V(s, l.t1, 2 * l.n + 1) - Signed(t2p, V(s, l.t2, 2 * l.n + 1)) == 2 * (z.c1 + z.c3)
    ensures Signed(t3p, V(s, l.t3, 2 * l.n + 1)) - V(s, l.t1, 2 * l.n + 1) == 3 * (z.c2 - z.c1 - 3 * z.c3 + 5 * z.c4)
    ensures Signed(t2p, V(s, l.t2, 2 * l.n + 1)) - V(s, l.t0, 2 * l.n) == z.c4 + z.c2 - z.c3 - z.c1
  {
    hide V, Pow;
  }

  method Differences13(m: Memory, t1: nat, t2: nat, t3: nat, z1: nat, z3: nat, c: nat, t2p: bool, t3p: bool,
                       ghost e1: int, ghost e3: int)
    returns (z1p: bool, z3p: bool)
    requires 0 < c && t1 + c <= t2 && t2 + c <= t3 && t3 + c <= z1 && z1 + c <= z3 && z3 + c <= |m.cells|
    requires V(m.cells, t1, c) + V(m.cells, t2, c) < Pow(c) && V(m.cells, t1, c) + V(m.cells, t3, c) < Pow(c)
    requires V(m.cells, t1, c) - Signed(t2p, V(m.cells, t2, c)) == 2 * e1
    requires Signed(t3p, V(m.cells, t3, c)) - V(m.cells, t1, c) == 3 * e3
    modifies m
    ensures Keeps2(old(m.cells), m.cells, z1, c, z3, c)
    ensures Signed(z1p, V(m.cells, z1, c)) == e1 && Signed(z3p, V(m.cells, z3, c)) == e3
  {
    ghost var s0 := m.cells;
    hide V, Pow, Signed;
    z3p := SubThird(m, z3, c, t3, t3p, t1, e3);
    assert Signed(true, V(s0, t1, c)) == V(s0, t1, c) by { Positive(V(s0, t1, c)); }
    z1p := SubHalf(m, z1, c, t1, true, t2, t2p, e1);
    Keeps2Intro(s0, m.cells, z1, c, z3, c);
  }

  lemma Positive(v: nat)
    ensures Signed(true, v) == v
  {
  }

  // z3 <- (z2 - z3) / 2 + 2 * t4; z2 <- z2 + z1 - t4; z1 <- z1 - z3
  method Combine(m: Memory, l: Layout, p1: bool, p2: bool, p3: bool, ghost z: Poly, ghost k: nat)
    returns (z1p: bool, z2p: bool, z3p: bool)
    requires LayoutOk(l, m.cells)
    requires Small(z, k) && 65536 * k <= Pow(2 * l.n + 1)
    requires Middle(l, m.cells, p1, p2, p3, z.c1 + z.c3, z.c4 + z.c2 - z.c3 - z.c1, z.c2 - z.c1 - 3 * z.c3 + 5 * z.c4)
    requires V(m.cells, l.t4, 2 * l.n) == z.c4
    modifies m
    ensures Keeps(old(m.cells), m.cells, l.z1, 6 * l.n + 3)
    ensures LayoutOk(l, m.cells)
    ensures Middle(l, m.cells, z1p, z2p, z3p, z.c1, z.c2, z.c3)
  {
    ghost var s0 := m.cells;
    hide V, Pow, Signed;
    MiddleSmall(l, s0, p1, p2, p3, z, k);
    hide Small;
    z2p, z3p := Combine32(m, l.z1, l.z2, l.z3, l.t4, l.n, p1, p2, p3, z.c3);
    Magnitude(z3p, V(m.cells, l.z3, 2 * l.n + 1), 2 * k);
    assert V(m.cells, l.z1, 2 * l.n + 1) == V(s0, l.z1, 2 * l.n + 1);
    z1p := SignedSub(m, l.z1, 2 * l.n + 1, l.z1, 2 * l.n + 1, p1, l.z3, 2 * l.n + 1, z3p);
    KeepsIntro(s0, m.cells, l.z1, 6 * l.n + 3);
  }

  lemma MiddleSmall(l: Layout, s: seq<Digit>, p1: bool, p2: bool, p3: bool, z: Poly, k: nat)
    requires LayoutOk(l, s) && Small(z, k)
    requires Middle(l, s, p1, p2, p3, z.c1 + z.c3, z.c4 + z.c2 - z.c3 - z.c1, z.c2 - z.c1 - 3 * z.c3 + 5 * z.c4)
    ensures V(s, l.z1, 2 * l.n + 1) < 10 * k && V(s, l.z2, 2 * l.n + 1) < 10 * k && V(s, l.z3, 2 * l.n + 1) < 20 * k
    ensures z.c3 < 2 * k && z.c4 < k
  {
    hide V;
  }

  method Combine32(m: Memory, z1: nat, z2: nat, z3: nat, t4: nat, n: nat, p1: bool, p2: bool, p3: bool, ghost e3: int)
    returns (z2p: bool, z3p: bool)
    requires 0 < n && t4 + 2 * n <= z1 && z1 + 2 * n + 1 <= z2 && z2 + 2 * n + 1 <= z3 && z3 + 2 * n + 1 <= |m.cells|
    requires V(m.cells, z1, 2 * n + 1) + V(m.cells, z2, 2 * n + 1) + V(m.cells, z3, 2 * n + 1)
             + 2 * V(m.cells, t4, 2 * n) < Pow(2 * n + 1)
    requires Signed(p2, V(m.cells, z2, 2 * n + 1)) - Signed(p3, V(m.cells, z3, 2 * n + 1))
          == 2 * (e3 - 2 * V(m.cells, t4, 2 * n))
    modifies m
    ensures Keeps2(old(m.cells), m.cells, z2, 2 * n + 1, z3, 2 * n + 1)
    ensures Signed(z3p, V(m.cells, z3, 2 * n + 1)) == e3
    ensures Signed(z2p, V(m.cells, z2, 2 * n + 1))
         == Signed(p2, V(old(m.cells), z2, 2 * n + 1)) + Signed(p1, V(old(m.cells), z1, 2 * n + 1))
            - V(old(m.cells), t4, 2 * n)
  {
    ghost var s0 := m.cells;
    hide V, Pow, Signed;
    z3p := HalfPlusTwice(m, z3, z2, p2, p3, t4, n, e3);
    z2p := AddSub(m, z2, 2 * n + 1, p2, z1, p1, t4, 2 * n);
    Keeps2Intro(s0, m.cells, z2, 2 * n + 1, z3, 2 * n + 1);
  }

  // z <- (x - z) / 2 + 2 * t, whose value is e
  method HalfPlusTwice(m: Memory, zo: nat, xo: nat, xp: bool, zp0: bool, to: nat, n: nat, ghost e: int) returns (zp: bool)
    requires zo + 2 * n + 1 <= |m.cells| && xo + 2 * n + 1 <= |m.cells| && to + 2 * n <= |m.cells| && 0 < n
    requires Apart(xo, 2 * n + 1, zo, 2 * n + 1) && Apart(to, 2 * n, zo, 2 * n + 1)
    requires V(m.cells, zo, 2 * n + 1) + V(m.cells, xo, 2 * n + 1) + 2 * V(m.cells, to, 2 * n) < Pow(2 * n + 1)
    requires Signed(xp, V(m.cells, xo, 2 * n + 1)) - Signed(zp0, V(m.cells, zo, 2 * n + 1))
          == 2 * (e - 2 * V(m.cells, to, 2 * n))
    modifies m
    ensures Keeps(old(m.cells), m.cells, zo, 2 * n + 1)
    ensures Signed(zp, V(m.cells, zo, 2 * n + 1)) == e
  {
    ghost var s0 := m.cells;
    hide V, Pow;
    zp := SubHalf(m, zo, 2 * n + 1, xo, xp, zo, zp0, e - 2 * V(s0, to, 2 * n));
    zp := AddTwice(m, zo, zp, to, n);
    KeepsIntro(s0, m.cells, zo, 2 * n + 1);
  }

  // z <- z + 2 * t4 by bary_muladd_1xN or, on opposite signs, bary_mulsub_1xN
  method AddTwice(m: Memory, zo: nat, zp0: bool, to: nat, n: nat) returns (zp: bool)
    requires zo + 2 * n + 1 <= |m.cells| && to + 2 * n <= |m.cells| && Apart(to, 2 * n, zo, 2 * n + 1) && 0 < n
    requires V(m.cells, zo, 2 * n + 1) + 2 * V(m.cells, to, 2 * n) < Pow(2 * n + 1)
    modifies m
    ensures Keeps(old(m.cells), m.cells, zo, 2 * n + 1)
    ensures Signed(zp, V(m.cells, zo, 2 * n + 1))
         == Signed(zp0, V(old(m.cells), zo, 2 * n + 1)) + 2 * V(old(m.cells), to, 2 * n)
  {
    ghost var s0 := m.cells;
    BLarge();
    hide V, Pow;
    zp := zp0;
    if zp == true {
      var c := MulAdd1xN(m, zo, 2 * n + 1, 2, to, 2 * n);
      NoCarry(V(m.cells, zo, 2 * n + 1), c, Pow(2 * n + 1));
    } else {
      var c := MulSub1xN(m, zo, 2 * n + 1, 2, to, 2 * n);
      if c != 0 {
        var none := TwoComp(m, zo, 2 * n + 1);
        zp := !zp;
      }
    }
    KeepsIntro(s0, m.cells, zo, 2 * n + 1);
  }

  // ---- step 3: substituting the base ----

  // The five coefficients summed at distances n, modulo B^(6n+1).
  method Substitute(m: Memory, zz: nat, l: Layout, z1p: bool, z2p: bool, z3p: bool, ghost z: Poly)
    requires LayoutOk(l, m.cells) && zz + 6 * l.n + 1 <= l.t0
    requires V(m.cells, l.t0, 2 * l.n) == z.c0 && V(m.cells, l.t4, 2 * l.n) == z.c4
    requires Middle(l, m.cells, z1p, z2p, z3p, z.c1, z.c2, z.c3)
    requires At(z, Pow(l.n)) < Pow(6 * l.n + 1)
    modifies m
    ensures Keeps(old(m.cells), m.cells, zz, 6 * l.n + 1)
    ensures V(m.cells, zz, 6 * l.n + 1) == At(z, Pow(l.n))
  {
    ghost var s0 := m.cells;
    var n, zzn := l.n, 6 * l.n + 1;
    hide V, Pow;
    Ends(m, zz, l);
    ghost var s1 := m.cells;
    ghost var k1 := AddSigned(m, zz, zzn, n, l.z1, 2 * n + 1, z1p);
    ghost var k2 := AddSigned(m, zz, zzn, 2 * n, l.z2, 2 * n + 1, z2p);
    ghost var k3 := AddSigned(m, zz, zzn, 3 * n, l.z3, 2 * n + 1, z3p);
    KeepsIntro(s0, m.cells, zz, zzn);
    SubstituteTotal(s1, m.cells, zz, n, z, k1, k2, k3);
  }

  // z0 and z4 do not overlap in the result
  method Ends(m: Memory, zz: nat, l: Layout)
    requires LayoutOk(l, m.cells) && zz + 6 * l.n + 1 <= l.t0
    modifies m
    ensures Keeps(old(m.cells), m.cells, zz, 6 * l.n + 1)
    ensures V(m.cells, zz, 6 * l.n + 1)
         == V(old(m.cells), l.t0, 2 * l.n) + Pow(4 * l.n) * V(old(m.cells), l.t4, 2 * l.n)
  {
    ghost var s0 := m.cells;
    var n := l.n;
    hide V, Pow;
    Move(m, zz, l.t0, 2 * n);
    PadZeros(m, zz, 2 * n, 4 * n);
    Move(m, zz + 4 * n, l.t4, 2 * n);
    PadZeros(m, zz + 4 * n, 2 * n, 2 * n + 1);
    VJoin(m.cells, zz, 4 * n, zz + 4 * n, 2 * n + 1, 6 * n + 1);
    KeepsIntro(s0, m.cells, zz, 6 * n + 1);
  }

  method AddSigned(m: Memory, zz: nat, zzn: nat, off: nat, zo: nat, zn: nat, zp: bool) returns (ghost k: int)
    requires zz + zzn <= |m.cells| && zo + zn <= |m.cells| && off + zn <= zzn && Apart(zo, zn, zz, zzn)
    modifies m
    ensures Keeps(old(m.cells), m.cells, zz, zzn)
    ensures V(m.cells, zz, zzn) + k * Pow(zzn)
         == V(old(m.cells), zz, zzn) + Pow(off) * Signed(zp, V(old(m.cells), zo, zn))
  {
    ghost var s0 := m.cells;
    hide V, Pow;
    if zp {
      var c := AddC(m, zz + off, zzn - off, zz + off, zzn - off, zo, zn, 0);
      k := c;
    } else {
      var c := SubB(m, zz + off, zzn - off, zz + off, zzn - off, zo, zn, 0);
      k := -(c as int);
    }
    VLift(s0, m.cells, zz, zzn, off, Signed(zp, V(s0, zo, zn)), k);
    KeepsIntro(s0, m.cells, zz, zzn);
  }

  lemma SubstituteTotal(s1: seq<Digit>, s: seq<Digit>, zz: nat, n: nat, z: Poly, k1: int, k2: int, k3: int)
    requires zz + 6 * n + 1 <= |s1| == |s|
    requires V(s1, zz, 6 * n + 1) == z.c0 + Pow(4 * n) * z.c4
    requires V(s, zz, 6 * n + 1) + k1 * Pow(6 * n + 1) + k2 * Pow(6 * n + 1) + k3 * Pow(6 * n + 1)
          == V(s1, zz, 6 * n + 1) + Pow(n) * z.c1 + Pow(2 * n) * z.c2 + Pow(3 * n) * z.c3
    requires At(z, Pow(n)) < Pow(6 * n + 1)
    ensures V(s, zz, 6 * n + 1) == At(z, Pow(n))
  {
    hide V, Pow, At;
    PowAdd(n, n);
    PowAdd(2 * n, n);
    PowAdd(2 * n, 2 * n);
    VBound(s, zz, 6 * n + 1);
    AtPowers(z, Pow(n));
    SumTimes(k1, k2, k3, Pow(6 * n + 1));
    SameResidue(V(s, zz, 6 * n + 1), At(z, Pow(n)), k1 + k2 + k3, Pow(6 * n + 1));
  }

  lemma SumTimes(a: int, b: int, c: int, q: int)
    ensures (a + b + c) * q == a * q + b * q + c * q
  {
  }

  lemma AtPowers(z: Poly, p: nat)
    ensures At(z, p) == z.c0 + p * z.c1 + (p * p) * z.c2 + ((p * p) * p) * z.c3 + ((p * p) * (p * p)) * z.c4
    ensures 0 <= At(z, p)
  {
    var a4 := z.c3 + p * z.c4;
    var a3 := z.c2 + p * a4;
    var a2 := z.c1 + p * a3;
    assert p * a4 == p * z.c3 + (p * p) * z.c4;
    assert p * a3 == p * z.c2 + (p * p) * z.c3 + ((p * p) * p) * z.c4 by {
      assert p * (p * a4) == (p * p) * z.c3 + ((p * p) * p) * z.c4 by { AtStep(p, z.c3, z.c4); }
    }
    AtLast(p, z.c1, z.c2, z.c3, z.c4, a3);
  }

  lemma AtStep(p: int, a: int, b: int)
    ensures p * (p * (a + p * b)) == (p * p) * a + ((p * p) * p) * b
  {
    assert p * (a + p * b) == p * a + (p * p) * b;
    assert p * ((p * p) * b) == ((p * p) * p) * b;
    assert p * (p * a) == (p * p) * a;
  }

  lemma AtLast(p: int, c1: int, c2: int, c3: int, c4: int, a3: int)
    requires p * a3 == p * c2 + (p * p) * c3 + ((p * p) * p) * c4
    ensures p * (c1 + p * a3) == p * c1 + (p * p) * c2 + ((p * p) * p) * c3 + ((p * p) * (p * p)) * c4
  {
    assert p * (c1 + p * a3) == p * c1 + p * (p * a3);
    assert p * (p * c2) == (p * p) * c2;
    assert p * ((p * p) * c3) == ((p * p) * p) * c3;
    assert p * (((p * p) * p) * c4) == ((p * p) * (p * p)) * c4;
  }

  // ---- the algebra of the three-way split ----

  ghost function Product(x0: nat, x1: nat, x2: nat, y0: nat, y1: nat, y2: nat): Poly
  {
    Poly(x0 * y0, x0 * y1 + x1 * y0, x0 * y2 + x1 * y1 + x2 * y0, x1 * y2 + x2 * y1, x2 * y2)
  }

  lemma ProductPoints(x0: nat, x1: nat, x2: nat, y0: nat, y1: nat, y2: nat, z: Poly)
    requires z == Product(x0, x1, x2, y0, y1, y2)
    ensures (x0 + x1 + x2) * (y0 + y1 + y2) == z.c0 + z.c1 + z.c2 + z.c3 + z.c4
    ensures (x0 - x1 + x2) * (y0 - y1 + y2) == z.c0 - z.c1 + z.c2 - z.c3 + z.c4
    ensures (x0 - 2 * x1 + 4 * x2) * (y0 - 2 * y1 + 4 * y2) == z.c0 - 2 * z.c1 + 4 * z.c2 - 8 * z.c3 + 16 * z.c4
  {
  }

  lemma ProductAt(x0: nat, x1: nat, x2: nat, y0: nat, y1: nat, y2: nat, p: nat)
    ensures (x0 + p * x1 + (p * p) * x2) * (y0 + p * y1 + (p * p) * y2) == At(Product(x0, x1, x2, y0, y1, y2), p)
  {
    AtPowers(Product(x0, x1, x2, y0, y1, y2), p);
    hide At;
    Row(x0, y0, y1, y2, p, p * p);
    Row(x1, y0, y1, y2, p, p * p);
    Row(x2, y0, y1, y2, p, p * p);
    Expand(x0, x1, x2, p, p * p, y0 + p * y1 + (p * p) * y2);
    ProductRows(x0 * y0, x0 * y1, x0 * y2, x1 * y0, x1 * y1, x1 * y2, x2 * y0, x2 * y1, x2 * y2, p, p * p);
  }

  lemma Expand(x0: int, x1: int, x2: int, p: int, q: int, y: int)
    ensures (x0 + p * x1 + q * x2) * y == x0 * y + p * (x1 * y) + q * (x2 * y)
  {
    assert (p * x1) * y == p * (x1 * y);
    assert (q * x2) * y == q * (x2 * y);
  }

  lemma Row(x: int, y0: int, y1: int, y2: int, p: int, q: int)
    ensures x * (y0 + p * y1 + q * y2) == x * y0 + p * (x * y1) + q * (x * y2)
  {
    assert x * (p * y1) == p * (x * y1);
    assert x * (q * y2) == q * (x * y2);
  }

  lemma ProductRows(a00: int, a01: int, a02: int, a10: int, a11: int, a12: int, a20: int, a21: int, a22: int, p: int, q: int)
    requires q == p * p
    ensures (a00 + p * a01 + q * a02) + p * (a10 + p * a11 + q * a12) + q * (a20 + p * a21 + q * a22)
         == a00 + p * (a01 + a10) + q * (a02 + a11 + a20) + (q * p) * (a12 + a21) + (q * q) * a22
  {
    assert p * (p * a11) == q * a11;
    assert p * (q * a12) == (q * p) * a12;
    assert q * (p * a21) == (q * p) * a21;
    assert q * (q * a22) == (q * q) * a22;
  }

  lemma ProductSmall(x0: nat, x1: nat, x2: nat, y0: nat, y1: nat, y2: nat, p: nat)
    requires x0 < p && x1 < p && x2 < p && y0 < p && y1 < p && y2 < p
    ensures Small(Product(x0, x1, x2, y0, y1, y2), p * p)
  {
    ProductLt(x0, y0, p, p);
    TwoProducts(x0, y1, x1, y0, p);
    ThreeProducts(x0, y2, x1, y1, x2, y0, p);
    TwoProducts(x1, y2, x2, y1, p);
    ProductLt(x2, y2, p, p);
  }

  lemma TwoProducts(a: nat, b: nat, c: nat, d: nat, p: nat)
    requires a < p && b < p && c < p && d < p
    ensures a * b + c * d < 2 * (p * p)
  {
    ProductLt(a, b, p, p);
    ProductLt(c, d, p, p);
  }

  lemma ThreeProducts(a: nat, b: nat, c: nat, d: nat, e: nat, f: nat, p: nat)
    requires a < p && b < p && c < p && d < p && e < p && f < p
    ensures a * b + c * d + e * f < 3 * (p * p)
  {
    TwoProducts(a, b, c, d, p);
    ProductLt(e, f, p, p);
  }

  lemma SignedTimes(p: bool, a: nat, q: bool, b: nat)
    ensures Signed(p == q, a * b) == Signed(p, a) * Signed(q, b)
  {
  }

  // A product that fits without its top digit: that digit is zero.
  lemma DropTop(s: seq<Digit>, o: nat, k: nat)
    requires o + k + 1 <= |s| && V(s, o, k + 1) < Pow(k)
    ensures s[o + k] == 0 && V(s, o, k) == V(s, o, k + 1)
  {
    if s[o + k] != 0 {
      MulLe(1, s[o + k], Pow(k));
    }
  }

  // The products at 1, -1 and -2 have a zero digit on top (the assertions before t1n--, t2n--, t3n--).
  lemma ProductsFit(s: seq<Digit>, l: Layout, u1: nat, u2: nat, u3: nat, v1: nat, v2: nat, v3: nat, p: nat)
    requires LayoutOk(l, s) && p == Pow(l.n)
    requires u1 < 3 * p && u2 < 3 * p && u3 < 7 * p && v1 < 3 * p && v2 < 3 * p && v3 < 7 * p
    requires V(s, l.t1, 2 * l.n + 2) == u1 * v1
    requires V(s, l.t2, 2 * l.n + 2) == u2 * v2
    requires V(s, l.t3, 2 * l.n + 2) == u3 * v3
    ensures V(s, l.t1, 2 * l.n + 1) == u1 * v1 && s[l.t1 + 2 * l.n + 1] == 0
    ensures V(s, l.t2, 2 * l.n + 1) == u2 * v2 && s[l.t2 + 2 * l.n + 1] == 0
    ensures V(s, l.t3, 2 * l.n + 1) == u3 * v3 && s[l.t3 + 2 * l.n + 1] == 0
  {
    BLarge();
    PowAdd(l.n, l.n);
    MulLe(65536, B, p * p);
    assert Pow(2 * l.n + 1) == B * (p * p);
    hide V, Pow;
    SquareBound(u1, v1, 3, p);
    SquareBound(u2, v2, 3, p);
    SquareBound(u3, v3, 7, p);
    DropTop(s, l.t1, 2 * l.n + 1);
    DropTop(s, l.t2, 2 * l.n + 1);
    DropTop(s, l.t3, 2 * l.n + 1);
  }

  lemma SquareBound(u: nat, v: nat, c: nat, p: nat)
    requires u < c * p && v < c * p
    ensures u * v < (c * c) * (p * p)
  {
    ProductLt(u, v, c * p, c * p);
    assert (c * p) * (c * p) == (c * c) * (p * p);
  }

  // The five products are the values of the product polynomial.
  lemma PointsOfProduct(s: seq<Digit>, l: Layout, x0: nat, x1: nat, x2: nat, y0: nat, y1: nat, y2: nat,
                        u2p: bool, u2: nat, u3p: bool, u3: nat, v2p: bool, v2: nat, v3p: bool, v3: nat)
    requires LayoutOk(l, s)
    requires x0 < Pow(l.n) && x1 < Pow(l.n) && x2 < Pow(l.n) && y0 < Pow(l.n) && y1 < Pow(l.n) && y2 < Pow(l.n)
    requires Signed(u2p, u2) == x0 - x1 + x2 && Signed(u3p, u3) == x0 - 2 * x1 + 4 * x2
    requires Signed(v2p, v2) == y0 - y1 + y2 && Signed(v3p, v3) == y0 - 2 * y1 + 4 * y2
    requires V(s, l.t0, 2 * l.n) == x0 * y0 && V(s, l.t4, 2 * l.n) == x2 * y2
    requires V(s, l.t1, 2 * l.n + 2) == (x0 + x1 + x2) * (y0 + y1 + y2)
    requires V(s, l.t2, 2 * l.n + 2) == u2 * v2
    requires V(s, l.t3, 2 * l.n + 2) == u3 * v3
    ensures Points(l, s, u2p == v2p, u3p == v3p, Product(x0, x1, x2, y0, y1, y2))
  {
    hide V, Pow;
    var p := Pow(l.n);
    Magnitude(u2p, u2, 3 * p);
    Magnitude(v2p, v2, 3 * p);
    Magnitude(u3p, u3, 7 * p);
    Magnitude(v3p, v3, 7 * p);
    ProductsFit(s, l, x0 + x1 + x2, u2, u3, y0 + y1 + y2, v2, v3, p);
    SignedTimes(u2p, u2, v2p, v2);
    SignedTimes(u3p, u3, v3p, v3);
    hide Signed;
    ProductPoints(x0, x1, x2, y0, y1, y2, Product(x0, x1, x2, y0, y1, y2));
  }
}
