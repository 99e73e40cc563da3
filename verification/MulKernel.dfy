/**
 The quadratic layer of bignum.c: one digit times a buffer (added or
 subtracted), schoolbook multiplication, fast squaring and division by one digit.
 */
module MulKernel {
  import opened Digits
  import opened Kernel

  // ---- bary_muladd_1xN ----

  // z += x*y; returns the carry out of digit zn.
  method MulAdd1xN(m: Memory, zo: nat, zn: nat, x: Digit, yo: nat, yn: nat) returns (c: nat)
    requires zo + zn <= |m.cells| && yo + yn <= |m.cells|
    requires yn < zn && Apart(yo, yn, zo, zn)
    modifies m
    ensures Keeps(old(m.cells), m.cells, zo, zn)
    ensures c <= 1
    ensures V(m.cells, zo, zn) + c * Pow(zn) == V(old(m.cells), zo, zn) + x * V(old(m.cells), yo, yn)
  {
    ghost var s0 := m.cells;
    if x == 0 {
      KeepsIntro(s0, m.cells, zo, zn);
      return 0;
    }
    var n: nat, j := 0, 0;
    while j < yn
      invariant j <= yn && n < B && KeepsCells(s0, m.cells, zo, zn)
      invariant V(m.cells, zo, zn) + n * Pow(j) == V(s0, zo, zn) + x * V(s0, yo, j)
    {
      var y := m.cells[yo + j];
      ghost var z := m.cells[zo + j];
      var ee: nat := n + x * y;
      ghost var t: int := z + ee;
      MulAddBound(z, n, x, y);
      VSet(m.cells, zo, zn, j, BigLo(t));
      MulAddStep(Pow(j), t, z, n, x, y, BigLo(t), BigDn(t), V(s0, yo, j));
      if ee != 0 {
        n := m.cells[zo + j] + ee;
        m.cells := m.cells[zo + j := BigLo(n)];
        n := BigDn(n);
      } else {
        DivUnique(z, B, 0, z);
        assert m.cells[zo + j := BigLo(t)] == m.cells;
        n := 0;
      }
      j := j + 1;
    }
    c := Ripple(m, zo, zn, yn, n);
    KeepsIntro(s0, m.cells, zo, zn);
  }

  // Adds the pending digit n at position start; returns the carry out of digit zn.
  method Ripple(m: Memory, zo: nat, zn: nat, start: nat, pending: nat) returns (c: nat)
    requires zo + zn <= |m.cells| && start < zn && pending < B
    modifies m
    ensures KeepsCells(old(m.cells), m.cells, zo, zn)
    ensures c <= 1
    ensures V(m.cells, zo, zn) + c * Pow(zn) == V(old(m.cells), zo, zn) + pending * Pow(start)
  {
    ghost var s0 := m.cells;
    var n: nat, j := pending, start;
    while j < zn && n != 0
      invariant start <= j <= zn && n < B && (j == start || n <= 1) && KeepsCells(s0, m.cells, zo, zn)
      invariant V(m.cells, zo, zn) + n * Pow(j) == V(s0, zo, zn) + pending * Pow(start)
    {
      ghost var z := m.cells[zo + j];
      var t: int := n + m.cells[zo + j];
      VSet(m.cells, zo, zn, j, BigLo(t));
      MulAddStep(Pow(j), t, z, n, 0, 0, BigLo(t), BigDn(t), 0);
      BigDnBound(t, 0, 2);
      m.cells := m.cells[zo + j := BigLo(t)];
      n := BigDn(t);
      j := j + 1;
    }
    c := if n != 0 then 1 else 0;
  }

  lemma MulAddBound(z: Digit, n: nat, x: Digit, y: Digit)
    requires n < B
    ensures 0 <= BigDn(z + n + x * y) < B
  {
    MulBound(x, y, B - 1, B - 1);
    assert (B - 1) * (B - 1) == B * B - 2 * B + 1;
    BigDnBound(z + n + x * y, 0, B);
  }

  lemma MulBound(x: nat, y: nat, a: nat, b: nat)
    requires x <= a && y <= b
    ensures 0 <= x * y <= a * b
  {
    MulLe(x, a, y);
    MulLe(y, b, a);
  }

  lemma MulAddStep(p: int, t: int, z: int, n: int, x: int, y: int, lo: int, hi: int, vy: int)
    requires t == z + n + x * y && t == B * hi + lo
    ensures (lo - z) * p + hi * (B * p) + x * vy == n * p + x * (vy + y * p)
  {
    assert t * p == hi * (B * p) + lo * p;
    assert t * p == z * p + n * p + x * (y * p);
  }

  // ---- bigdivrem_mulsub, bary_mulsub_1xN ----

  // z -= x*y on the low yn digits; returns what is left for the digits above, digit yn of z included.
  method MulSub(m: Memory, zo: nat, zn: nat, x: Digit, yo: nat, yn: nat) returns (r: int)
    requires zo + zn <= |m.cells| && yo + yn <= |m.cells|
    requires zn == yn + 1 && 0 < yn && Apart(yo, yn, zo, zn)
    modifies m
    ensures Keeps(old(m.cells), m.cells, zo, yn)
    ensures V(m.cells, zo, yn) + r * Pow(yn) == V(old(m.cells), zo, zn) - x * V(old(m.cells), yo, yn)
  {
    ghost var s0 := m.cells;
    var num: int, t2: nat, i := 0, 0, 0;
    assert V(s0, yo, 0) == 0;
    while i < yn
      invariant i <= yn && t2 < B && (num == 0 || num == -1) && KeepsCells(s0, m.cells, zo, yn)
      invariant V(m.cells, zo, yn) + num * Pow(i) - t2 * Pow(i) == V(s0, zo, yn) - x * V(s0, yo, i)
    {
      ghost var z, y, n0, c0 := m.cells[zo + i], m.cells[yo + i], num, t2;
      assert y == s0[yo + i];
      assert V(s0, yo, i + 1) == V(s0, yo, i) + y * Pow(i) && Pow(i + 1) == B * Pow(i);
      hide V, Pow;
      MulAddBound(0, t2, x, y);
      t2 := t2 + m.cells[yo + i] * x;
      var ee := num - BigLo(t2);
      num := m.cells[zo + i] + ee;
      VSet(m.cells, zo, yn, i, BigLo(num));
      MulSubStep(Pow(i), z, y, x, n0, c0, t2, num, V(s0, yo, i));
      BigDnBound(num, -1, 1);
      if ee != 0 {
        m.cells := m.cells[zo + i := BigLo(num)];
      } else {
        DivUnique(z, B, 0, z);
        assert m.cells[zo + i := BigLo(num)] == m.cells;
      }
      num := BigDn(num);
      t2 := BigDn(t2);
      i := i + 1;
    }
    MulSubEnd(num, t2, s0[zo + yn], Pow(yn));
    num := num - t2;
    r := num + m.cells[zo + yn];
    assert V(s0, zo, zn) == V(s0, zo, yn) + s0[zo + yn] * Pow(yn);
    hide V, Pow;
    KeepsIntro(s0, m.cells, zo, yn);
  }

  lemma MulSubEnd(num: int, t: int, top: int, p: int)
    ensures (num - t + top) * p == num * p - t * p + top * p
  {
  }

  lemma MulSubStep(p: int, z: int, y: int, x: int, n0: int, c0: int, t: int, u: int, vy: int)
    requires t == c0 + y * x && u == z + n0 - BigLo(t)
    ensures (BigLo(u) - z) * p + BigDn(u) * (B * p) - BigDn(t) * (B * p) - x * vy
         == n0 * p - c0 * p - x * (vy + y * p)
  {
    CarrySplit(u, p);
    CarrySplit(t, p);
    assert u * p == z * p + n0 * p - BigLo(t) * p;
    assert t * p == c0 * p + x * (y * p);
  }

  // Returns 1 when the difference is negative; z then holds it plus B^zn.
  method MulSub1xN(m: Memory, zo: nat, zn: nat, x: Digit, yo: nat, yn: nat) returns (c: nat)
    requires zo + zn <= |m.cells| && yo + yn <= |m.cells|
    requires zn == yn + 1 && 0 < yn && Apart(yo, yn, zo, zn)
    modifies m
    ensures Keeps(old(m.cells), m.cells, zo, zn)
    ensures c == if V(old(m.cells), zo, zn) < x * V(old(m.cells), yo, yn) then 1 else 0
    ensures V(m.cells, zo, zn) == V(old(m.cells), zo, zn) - x * V(old(m.cells), yo, yn) + c * Pow(zn)
  {
    ghost var s0 := m.cells;
    var num := MulSub(m, zo, zn, x, yo, yn);
    ghost var s1 := m.cells;
    ghost var total := V(s0, zo, zn) - x * V(s0, yo, yn);
    VBound(s1, zo, yn);
    VBound(s0, zo, zn);
    VBound(s0, yo, yn);
    MulSubRange(x, V(s0, yo, yn), V(s0, zo, zn), V(s1, zo, yn), num, Pow(yn));
    VPut(s1, zo, yn, BigLo(num));
    CarrySplit(num, Pow(yn));
    m.cells := m.cells[zo + yn := BigLo(num)];
    KeepsIntro(s0, m.cells, zo, zn);
    c := if BigDn(num) != 0 then 1 else 0;
  }

  lemma MulSubRange(x: nat, y: nat, z: nat, v: nat, num: int, p: nat)
    requires x < B && y < p && v < p && z < B * p
    requires v + num * p == z - x * y
    ensures BigDn(num) == if z < x * y then -1 else 0
  {
    MulBound(x, y, B - 1, p);
    assert (B - 1) * p == B * p - p;
    if num + B < 0 {
      NegBound(num, p);
    } else if B <= num {
      MulLeInt(B, num, p);
    } else if num < 0 {
      MulLeInt(num, -1, p);
      BigDnBound(num, -1, 0);
    } else {
      MulLeInt(0, num, p);
      BigDnBound(num, 0, 1);
    }
  }

  lemma NegBound(num: int, p: int)
    requires num + B < 0 && 0 <= p
    ensures num * p <= -(B * p) - p
  {
    MulLeInt(num + B, -1, p);
    assert (num + B) * p == num * p + B * p;
  }

  lemma MulLeInt(a: int, b: int, c: int)
    requires a <= b && 0 <= c
    ensures a * c <= b * c
  {
  }

  // ---- bary_mul_single, bary_mul_normal, bary_short_mul ----

  method MulSingle(m: Memory, zo: nat, zn: nat, x: Digit, y: Digit)
    requires zo + zn <= |m.cells| && 2 <= zn
    modifies m
    ensures Keeps(old(m.cells), m.cells, zo, zn)
    ensures V(m.cells, zo, zn) == x * y
  {
    ghost var s0 := m.cells;
    var n: nat := x * y;
    MulAddBound(0, 0, x, y);
    m.cells := m.cells[zo := BigLo(n)][zo + 1 := BigDn(n)];
    ghost var s1 := m.cells;
    Zero(m, zo + 2, zn - 2);
    KeepsIntro(s0, m.cells, zo, zn);
    VSplit(m.cells, zo, 2, zn - 2);
    VTwo(m.cells, zo);
  }

  lemma VTwo(s: seq<Digit>, o: nat)
    requires o + 2 <= |s|
    ensures V(s, o, 1) == s[o] && V(s, o, 2) == s[o] + B * s[o + 1]
  {
    Pow1();
    assert V(s, o, 1) == V(s, o, 0) + s[o] * Pow(0);
    assert V(s, o, 2) == V(s, o, 1) + s[o + 1] * Pow(1);
  }

  method MulNormal(m: Memory, zo: nat, zn: nat, xo: nat, xn: nat, yo: nat, yn: nat)
    requires zo + zn <= |m.cells| && xo + xn <= |m.cells| && yo + yn <= |m.cells|
    requires xn + yn <= zn && Apart(xo, xn, zo, zn) && Apart(yo, yn, zo, zn)
    modifies m
    ensures Keeps(old(m.cells), m.cells, zo, zn)
    ensures V(m.cells, zo, zn) == V(old(m.cells), xo, xn) * V(old(m.cells), yo, yn)
  {
    ghost var s0 := m.cells;
    Zero(m, zo, zn);
    var i := 0;
    while i < xn
      invariant i <= xn && Keeps(s0, m.cells, zo, zn)
      invariant V(m.cells, zo, zn) == V(s0, xo, i) * V(s0, yo, yn)
    {
      ghost var s1 := m.cells;
      var c := MulAdd1xN(m, zo + i, zn - i, m.cells[xo + i], yo, yn);
      VSplit(s1, zo, i, zn - i);
      VSplit(m.cells, zo, i, zn - i);
      PowAdd(i, zn - i);
      VBound(s0, xo, i + 1);
      VBound(s0, yo, yn);
      PowAdd(i + 1, yn);
      PowMono(i + 1 + yn, zn);
      MulNormalStep(V(s1, zo, i), V(s1, zo + i, zn - i), V(m.cells, zo + i, zn - i), c, s0[xo + i],
                    V(s0, xo, i), V(s0, yo, yn), Pow(i), Pow(zn - i), Pow(i + 1), Pow(yn));
      KeepsIntro(s0, m.cells, zo, zn);
      i := i + 1;
    }
  }

  lemma MulNormalStep(low: nat, old': nat, new': nat, c: nat, x: nat, vx: nat, y: nat, p: nat, q: nat, p1: nat, py: nat)
    requires low + p * old' == vx * y
    requires new' + c * q == old' + x * y
    requires vx + x * p < p1 && y < py && p1 * py <= p * q && c <= 1
    ensures c == 0 && low + p * new' == (vx + x * p) * y
  {
    assert p * (new' + c * q) == p * new' + c * (p * q);
    assert p * (old' + x * y) == p * old' + (x * p) * y;
    assert low + p * new' + c * (p * q) == (vx + x * p) * y;
    ProductLt(vx + x * p, y, p1, py);
    if c == 1 {
      assert false;
    }
  }

  lemma ProductLt(x: nat, y: nat, a: nat, b: nat)
    requires x < a && y < b
    ensures x * y < a * b
  {
    MulLe(x, a, y);
    MulLt(y, b, a);
  }

  method ShortMul(m: Memory, zo: nat, zn: nat, xo: nat, xn: nat, yo: nat, yn: nat)
    requires zo + zn <= |m.cells| && xo + xn <= |m.cells| && yo + yn <= |m.cells|
    requires xn + yn <= zn && Apart(xo, xn, zo, zn) && Apart(yo, yn, zo, zn)
    modifies m
    ensures Keeps(old(m.cells), m.cells, zo, zn)
    ensures V(m.cells, zo, zn) == V(old(m.cells), xo, xn) * V(old(m.cells), yo, yn)
  {
    if xn == 1 && yn == 1 {
      VOne(m.cells, xo);
      VOne(m.cells, yo);
      MulSingle(m, zo, zn, m.cells[xo], m.cells[yo]);
    } else {
      MulNormal(m, zo, zn, xo, xn, yo, yn);
    }
  }

  lemma VOne(s: seq<Digit>, o: nat)
    requires o < |s|
    ensures V(s, o, 1) == s[o]
  {
    assert V(s, o, 1) == V(s, o, 0) + s[o] * Pow(0);
  }

  // ---- bary_sq_fast ----

  method SqFast(m: Memory, zo: nat, zn: nat, xo: nat, xn: nat)
    requires zo + zn <= |m.cells| && xo + xn <= |m.cells|
    requires xn * 2 <= zn && Apart(xo, xn, zo, zn)
    modifies m
    ensures Keeps(old(m.cells), m.cells, zo, zn)
    ensures V(m.cells, zo, zn) == V(old(m.cells), xo, xn) * V(old(m.cells), xo, xn)
  {
    ghost var s0 := m.cells;
    Zero(m, zo, zn);
    if xn == 0 {
      return;
    }
    ghost var X := V(s0, xo, xn);
    var i := 0;
    while i < xn - 1
      invariant i <= xn - 1 && Keeps(s0, m.cells, zo, zn)
      invariant V(m.cells, zo, zn) == V(s0, xo, i) * (2 * X - V(s0, xo, i))
    {
      SqBelow(s0, xo, xn, i);
      SqGrow(X, V(s0, xo, i), s0[xo + i], Pow(i));
      PowAdd(i, i);
      if m.cells[xo + i] != 0 {
        SqRow(m, s0, zo, zn, xo, xn, i);
      }
      i := i + 1;
    }
    PowAdd(i, i);
    SqEnd(X, V(s0, xo, i), s0[xo + i], Pow(i));
    if m.cells[xo + i] != 0 {
      SqLast(m, s0, zo, zn, xo, xn);
    }
  }

  // What the first i rows have summed up to: everything but the square of the rest.
  lemma SqGrow(X: nat, xi: nat, v: nat, p: nat)
    ensures (xi + v * p) * (2 * X - (xi + v * p))
         == xi * (2 * X - xi) + v * v * (p * p) + 2 * v * p * (X - (xi + v * p))
    ensures v == 0 ==> (xi + v * p) * (2 * X - (xi + v * p)) == xi * (2 * X - xi)
  {
    var e := v * p;
    assert v * v * (p * p) == e * e;
    assert (xi + e) * (2 * X - (xi + e)) == 2 * X * xi - xi * xi + 2 * e * X - 2 * (xi * e) - e * e;
    assert 2 * v * p * (X - (xi + e)) == 2 * e * X - 2 * (xi * e) - 2 * (e * e) by {
      assert 2 * v * p == 2 * e;
    }
    assert xi * (2 * X - xi) == 2 * X * xi - xi * xi;
  }

  lemma SqEnd(X: nat, xi: nat, v: nat, p: nat)
    requires X == xi + v * p
    ensures xi * (2 * X - xi) + v * v * (p * p) == X * X
    ensures v == 0 ==> xi * (2 * X - xi) == X * X
  {
    SqGrow(X, xi, v, p);
  }

  lemma SqBelow(s: seq<Digit>, xo: nat, xn: nat, i: nat)
    requires xo + xn <= |s| && i < xn
    ensures V(s, xo, i) * (2 * V(s, xo, xn) - V(s, xo, i)) < 2 * Pow(i + xn)
  {
    VBound(s, xo, i);
    VBound(s, xo, xn);
    PowAdd(i, xn);
    SqBelowArith(V(s, xo, i), V(s, xo, xn), Pow(i), Pow(xn));
  }

  lemma SqBelowArith(a: nat, x: nat, p: nat, q: nat)
    requires a < p && x < q
    ensures a * (2 * x - a) < 2 * (p * q)
  {
    ProductLt(a, x, p, q);
    assert a * (2 * x - a) == 2 * (a * x) - a * a;
  }

  lemma {:induction false} VDigit(s: seq<Digit>, o: nat, n: nat, k: nat)
    requires o + n <= |s| && k < n
    ensures s[o + k] * Pow(k) <= V(s, o, n)
  {
    LeMul(Pow(n - 1), 0, s[o + n - 1]);
    assert V(s, o, n) == V(s, o, n - 1) + s[o + n - 1] * Pow(n - 1);
    if k < n - 1 {
      hide V, Pow;
      VDigit(s, o, n - 1, k);
    }
  }

  // A number below c*B^j has a digit below c at j and zeros above.
  lemma TopDigits(s: seq<Digit>, o: nat, n: nat, j: nat, c: nat)
    requires o + n <= |s| && j < n && V(s, o, n) < c * Pow(j) && c <= B
    ensures s[o + j] < c
    ensures j + 1 < n ==> s[o + j + 1] == 0
  {
    VDigit(s, o, n, j);
    if c <= s[o + j] {
      MulLe(c, s[o + j], Pow(j));
    }
    if j + 1 < n {
      VDigit(s, o, n, j + 1);
      if s[o + j + 1] != 0 {
        MulLe(1, s[o + j + 1], Pow(j + 1));
        MulLe(c, B, Pow(j));
      }
    }
  }

  lemma DoubledDigit(v: Digit)
    ensures BigDn(2 * v) == 0 || BigDn(2 * v) == 1
    ensures BigLo(2 * v) <= B - 2
  {
    BigDnBound(2 * v, 0, 2);
    assert B == 2 * Pow2(W - 1);
  }

  // c <= 2B-2 on entry keeps the accumulator within two digits and c within the bound.
  lemma SqCarry(c: nat, z: Digit, vl: nat, w: Digit)
    requires c <= 2 * B - 2 && vl <= B - 2
    ensures 0 <= c + z + vl * w < B * B
    ensures 0 <= BigDn(c + z + vl * w) < B
  {
    MulBound(vl, w, B - 2, B - 1);
    assert (B - 2) * (B - 1) == B * B - 3 * B + 2;
    BigDnBound(c + z + vl * w, 0, B);
  }

  // Row i of the triangle: v*v on the diagonal and 2*v*x[j] to its left.
  method SqRow(m: Memory, ghost s0: seq<Digit>, zo: nat, zn: nat, xo: nat, xn: nat, i: nat)
    requires zo + zn <= |m.cells| && xo + xn <= |m.cells| == |s0|
    requires i + 1 < xn && xn * 2 <= zn && Apart(xo, xn, zo, zn)
    requires Keeps(s0, m.cells, zo, zn) && V(m.cells, zo, zn) < 2 * Pow(i + xn)
    modifies m
    ensures Keeps(s0, m.cells, zo, zn)
    ensures V(m.cells, zo, zn) == V(old(m.cells), zo, zn) + s0[xo + i] * s0[xo + i] * Pow(i + i)
                                + 2 * s0[xo + i] * Pow(i) * (V(s0, xo, xn) - V(s0, xo, i + 1))
  {
    BLarge();
    TopDigits(m.cells, zo, zn, i + xn, 2);
    ghost var s1 := m.cells;
    var v: nat := m.cells[xo + i];
    var c: nat := m.cells[zo + (i + i)] + v * v;
    MulAddBound(m.cells[zo + (i + i)], 0, m.cells[xo + i], m.cells[xo + i]);
    VSet(s1, zo, zn, i + i, BigLo(c));
    SqDiagonal(c, s1[zo + (i + i)], v, Pow(i + i));
    m.cells := m.cells[zo + (i + i) := BigLo(c)];
    c := BigDn(c);
    c := SqInner(m, s0, zo, zn, xo, xn, i, c);
    if c != 0 {
      SqSpill(m, zo, zn, i + xn, c);
    }
    KeepsIntro(s0, m.cells, zo, zn);
  }

  // 2*v*x[j] for j in (i, xn); c is the carry from the diagonal, then out of the row.
  method SqInner(m: Memory, ghost s0: seq<Digit>, zo: nat, zn: nat, xo: nat, xn: nat, i: nat, carry: nat)
    returns (c: nat)
    requires zo + zn <= |m.cells| && xo + xn <= |m.cells| == |s0|
    requires i + 1 < xn && xn * 2 <= zn && Apart(xo, xn, zo, zn)
    requires KeepsCells(s0, m.cells, zo, zn) && carry < B
    modifies m
    ensures KeepsCells(old(m.cells), m.cells, zo, i + xn)
    ensures c <= 2 * B - 2
    ensures V(m.cells, zo, zn) + c * Pow(i + xn) == V(old(m.cells), zo, zn) + carry * Pow(i + i + 1)
                                + 2 * s0[xo + i] * Pow(i) * (V(s0, xo, xn) - V(s0, xo, i + 1))
  {
    ghost var s1 := m.cells;
    var v: nat := m.cells[xo + i];
    DoubledDigit(m.cells[xo + i]);
    var vl, vh := BigLo(2 * v), BigDn(2 * v);
    c := carry;
    var j := i + 1;
    while j < xn
      invariant i < j <= xn && c <= 2 * B - 2 && KeepsCells(s1, m.cells, zo, i + xn)
      invariant V(m.cells, zo, zn) + c * Pow(i + j) == V(s1, zo, zn) + carry * Pow(i + i + 1)
                                + 2 * v * Pow(i) * (V(s0, xo, j) - V(s0, xo, i + 1))
    {
      c := SqDigit(m, zo, zn, xo, i, j, v, vl, vh, c, V(s0, xo, j) - V(s0, xo, i + 1));
      j := j + 1;
    }
  }

  // One digit of the inner loop; `sum` is what the digits of x before it amount to.
  method SqDigit(m: Memory, zo: nat, zn: nat, xo: nat, i: nat, j: nat, v: nat, vl: nat, vh: nat, c0: nat, ghost sum: int)
    returns (c: nat)
    requires zo + zn <= |m.cells| && xo + j < |m.cells| && i + j < zn && c0 <= 2 * B - 2 && vl <= B - 2 && vh <= 1
    requires 2 * v == B * vh + vl
    modifies m
    ensures KeepsCells(old(m.cells), m.cells, zo + (i + j), 1)
    ensures c <= 2 * B - 2
    ensures V(m.cells, zo, zn) + c * Pow(i + (j + 1)) + 2 * v * Pow(i) * sum
         == V(old(m.cells), zo, zn) + c0 * Pow(i + j) + 2 * v * Pow(i) * (sum + old(m.cells)[xo + j] * Pow(j))
  {
    ghost var s := m.cells;
    var w: nat := m.cells[xo + j];
    SqCarry(c0, m.cells[zo + (i + j)], vl, m.cells[xo + j]);
    c := c0 + m.cells[zo + (i + j)] + vl * w;
    VSet(s, zo, zn, i + j, BigLo(c));
    PowAdd(i, j);
    assert Pow(i + (j + 1)) == B * Pow(i + j);
    SqStep(c, c0, s[zo + (i + j)], v, vl, vh, w, Pow(i), Pow(j), sum);
    m.cells := m.cells[zo + (i + j) := BigLo(c)];
    c := BigDn(c);
    if vh != 0 {
      c := c + w;
    }
  }

  lemma SqDiagonal(t: int, z: int, v: int, p: int)
    requires t == z + v * v
    ensures (BigLo(t) - z) * p + BigDn(t) * (B * p) == v * v * p
  {
    CarrySplit(t, p);
    assert t * p == z * p + v * v * p;
  }

  lemma SqStep(t: int, c: int, z: int, v: int, vl: int, vh: int, w: int, p: int, q: int, dv: int)
    requires t == c + z + vl * w && 2 * v == B * vh + vl
    ensures (BigLo(t) - z) * (p * q) + (BigDn(t) + vh * w) * (B * (p * q)) + 2 * v * p * dv
         == c * (p * q) + 2 * v * p * (dv + w * q)
  {
    var r := p * q;
    CarrySplit(t, r);
    assert t * r == c * r + z * r + (vl * w) * r;
    assert 2 * v * p * (w * q) == (2 * v) * w * r;
    assert (B * vh + vl) * w * r == (vh * w) * (B * r) + (vl * w) * r;
    assert 2 * v * p * (dv + w * q) == 2 * v * p * dv + 2 * v * p * (w * q);
  }

  // The carry left after row i reaches at most two more digits.
  method SqSpill(m: Memory, zo: nat, zn: nat, k: nat, carry: nat)
    requires zo + zn <= |m.cells| && k + 1 < zn && carry <= 2 * B - 2
    requires m.cells[zo + k] < 2 && m.cells[zo + k + 1] == 0
    modifies m
    ensures KeepsCells(old(m.cells), m.cells, zo, zn)
    ensures V(m.cells, zo, zn) == V(old(m.cells), zo, zn) + carry * Pow(k)
  {
    ghost var s0 := m.cells;
    var c := carry + m.cells[zo + k];
    BigDnBound(c, 0, 2);
    VSet(s0, zo, zn, k, BigLo(c));
    CarrySplit(c, Pow(k));
    SqSpillArith(c, carry, s0[zo + k], Pow(k));
    m.cells := m.cells[zo + k := BigLo(c)];
    c := BigDn(c);
    if c != 0 {
      VSet(m.cells, zo, zn, k + 1, m.cells[zo + k + 1] + c);
      m.cells := m.cells[zo + k + 1 := m.cells[zo + k + 1] + c];
    }
  }

  lemma SqSpillArith(t: int, c: int, z: int, p: int)
    requires t == c + z
    ensures (BigLo(t) - z) * p == BigLo(t) * p - z * p && t * p == c * p + z * p
  {
  }

  method SqLast(m: Memory, ghost s0: seq<Digit>, zo: nat, zn: nat, xo: nat, xn: nat)
    requires zo + zn <= |m.cells| && xo + xn <= |m.cells| == |s0|
    requires 0 < xn && xn * 2 <= zn && Apart(xo, xn, zo, zn)
    requires Keeps(s0, m.cells, zo, zn)
    requires V(m.cells, zo, zn) + s0[xo + xn - 1] * s0[xo + xn - 1] * Pow(2 * xn - 2) == V(s0, xo, xn) * V(s0, xo, xn)
    modifies m
    ensures Keeps(s0, m.cells, zo, zn)
    ensures V(m.cells, zo, zn) == V(s0, xo, xn) * V(s0, xo, xn)
  {
    ghost var s1 := m.cells;
    var i := xn - 1;
    var v: nat := m.cells[xo + i];
    var c: nat := m.cells[zo + (i + i)] + v * v;
    MulAddBound(m.cells[zo + (i + i)], 0, m.cells[xo + i], m.cells[xo + i]);
    VSet(s1, zo, zn, i + i, BigLo(c));
    SqDiagonal(c, s1[zo + (i + i)], v, Pow(i + i));
    m.cells := m.cells[zo + (i + i) := BigLo(c)];
    c := BigDn(c);
    if c != 0 {
      ghost var z: nat := m.cells[zo + (i + xn)];
      VDigit(m.cells, zo, zn, i + xn);
      VBound(s0, xo, xn);
      PowAdd(xn, xn);
      ProductLt(V(s0, xo, xn), V(s0, xo, xn), Pow(xn), Pow(xn));
      SqTop(z, c, Pow(i + xn));
      VSet(m.cells, zo, zn, i + xn, m.cells[zo + (i + xn)] + c);
      m.cells := m.cells[zo + (i + xn) := m.cells[zo + (i + xn)] + c];
    }
    KeepsIntro(s0, m.cells, zo, zn);
  }

  lemma SqTop(z: nat, c: nat, p: nat)
    requires z * p + c * p < B * p
    ensures z + c < B
  {
    assert (z + c) * p == z * p + c * p;
    if B <= z + c {
      MulLe(B, z + c, p);
    }
  }
}
