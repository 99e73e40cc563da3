/**
 The linear-time digit loops of bignum.c: copying, addition, subtraction,
 complement, comparison, shifts and multiply-accumulate.  Each is specified by
 the numbers its buffers hold and by what it leaves untouched.
 */
module Kernel {
  import opened Digits

  // BIGLO: the low digit of a (possibly negative) double-width value.
  function BigLo(t: int): (d: Digit)
  {
    t % B
  }

  // BIGDN: arithmetic shift right by one digit.
  function BigDn(t: int): (h: int)
    ensures t == B * h + BigLo(t)
  {
    t / B
  }

  function Abs(x: int): nat
  {
    if x < 0 then -x else x
  }

  function Min(a: nat, b: nat): nat
  {
    if a < b then a else b
  }

  // An ascending loop may write z while it still reads x.
  predicate Readable(zo: nat, xo: nat, xn: nat)
  {
    zo <= xo || xo + xn <= zo
  }

  lemma BigDnBound(t: int, lo: int, hi: int)
    requires lo * B <= t < hi * B
    ensures lo <= BigDn(t) < hi
  {
    if BigDn(t) < lo {
      MulLeB(BigDn(t) + 1, lo);
    } else if hi <= BigDn(t) {
      MulLeB(hi, BigDn(t));
    }
  }

  lemma MulLeB(a: int, b: int)
    requires a <= b
    ensures a * B <= b * B
  {
  }

  // Carrying one digit: t*p splits into its low digit at p and the rest at B*p.
  lemma CarrySplit(t: int, p: int)
    ensures t * p == BigLo(t) * p + BigDn(t) * (B * p)
  {
    assert t * p == (B * BigDn(t) + BigLo(t)) * p;
    assert (B * BigDn(t)) * p == BigDn(t) * (B * p);
  }

  lemma VPut(s: seq<Digit>, o: nat, i: nat, d: Digit)
    requires o + i < |s|
    ensures V(s[o + i := d], o, i + 1) == V(s, o, i) + d * Pow(i)
  {
    var t := s[o + i := d];
    assert s[o..o + i] == t[o..o + i];
    VSame(s, t, o, o, i);
  }

  // Changing digit j of an n-digit buffer.
  lemma {:induction false} VSet(s: seq<Digit>, o: nat, n: nat, j: nat, d: Digit)
    requires o + n <= |s| && j < n
    ensures V(s[o + j := d], o, n) == V(s, o, n) + (d - s[o + j]) * Pow(j)
  {
    if j == n - 1 {
      VPut(s, o, j, d);
      assert (d - s[o + j]) * Pow(j) == d * Pow(j) - s[o + j] * Pow(j);
    } else {
      VSet(s, o, n - 1, j, d);
      assert s[o + j := d][o + n - 1] == s[o + n - 1];
    }
  }

  // ---- BDIGITS_ZERO, MEMCPY, MEMMOVE ----

  method Zero(m: Memory, zo: nat, n: nat)
    requires zo + n <= |m.cells|
    modifies m
    ensures Keeps(old(m.cells), m.cells, zo, n)
    ensures forall i :: zo <= i < zo + n ==> m.cells[i] == 0
    ensures V(m.cells, zo, n) == 0
  {
    ghost var s0 := m.cells;
    var i := 0;
    while i < n
      invariant i <= n && KeepsCells(s0, m.cells, zo, i)
      invariant forall k :: zo <= k < zo + i ==> m.cells[k] == 0
    {
      m.cells := m.cells[zo + i := 0];
      i := i + 1;
    }
    KeepsIntro(s0, m.cells, zo, n);
    VZero(m.cells, zo, n);
  }

  method Move(m: Memory, zo: nat, xo: nat, n: nat)
    requires zo + n <= |m.cells| && xo + n <= |m.cells|
    modifies m
    ensures Keeps(old(m.cells), m.cells, zo, n)
    ensures m.cells[zo..zo + n] == old(m.cells[xo..xo + n])
    ensures V(m.cells, zo, n) == V(old(m.cells), xo, n)
  {
    ghost var s0 := m.cells;
    m.cells := m.cells[..zo] + m.cells[xo..xo + n] + m.cells[zo + n..];
    KeepsIntro(s0, m.cells, zo, n);
    assert m.cells[zo..zo + n] == s0[xo..xo + n];
    VSame(s0, m.cells, xo, zo, n);
  }

  // ---- bary_addc, bary_subb ----

  // The first i digits of x + sg*y + c are in z; num is pending at digit i.
  ghost predicate SumInv(s0: seq<Digit>, s: seq<Digit>, zo: nat, zn: nat, xo: nat, xn: nat, yo: nat, yn: nat,
                         sg: int, c: int, i: nat, num: int)
  {
    && zo + zn <= |s0| && xo + xn <= |s0| && yo + yn <= |s0| && i <= zn
    && KeepsCells(s0, s, zo, i)
    && (num == 0 || num == sg)
    && V(s, zo, i) + num * Pow(i) == V(s0, xo, Min(i, xn)) + sg * V(s0, yo, Min(i, yn)) + c
  }

  // The digit a loop reads at position i, zero beyond the buffer.
  ghost function DigitAt(s: seq<Digit>, o: nat, n: nat, i: nat): Digit
    requires o + n <= |s|
  {
    if i < n then s[o + i] else 0
  }

  lemma SumStep(s0: seq<Digit>, s: seq<Digit>, zo: nat, zn: nat, xo: nat, xn: nat, yo: nat, yn: nat,
                sg: int, c: int, i: nat, num: int, t: int)
    requires SumInv(s0, s, zo, zn, xo, xn, yo, yn, sg, c, i, num)
    requires i < zn && (sg == 1 || sg == -1)
    requires t == num + DigitAt(s0, xo, xn, i) + sg * DigitAt(s0, yo, yn, i)
    ensures SumInv(s0, s[zo + i := BigLo(t)], zo, zn, xo, xn, yo, yn, sg, c, i + 1, BigDn(t))
  {
    var x, y := DigitAt(s0, xo, xn, i), DigitAt(s0, yo, yn, i);
    var p := Pow(i);
    VPut(s, zo, i, BigLo(t));
    CarrySplit(t, p);
    if sg == 1 {
      BigDnBound(t, 0, 2);
    } else {
      BigDnBound(t, -1, 1);
    }
    assert V(s0, xo, Min(i + 1, xn)) == V(s0, xo, Min(i, xn)) + x * p;
    assert V(s0, yo, Min(i + 1, yn)) == V(s0, yo, Min(i, yn)) + y * p;
    SumStepArith(p, t, num, x, y, sg, V(s0, yo, Min(i, yn)));
  }

  lemma SumStepArith(p: int, t: int, num: int, x: int, y: int, sg: int, yv: int)
    requires t == num + x + sg * y && (sg == 1 || sg == -1)
    ensures t * p + sg * yv == num * p + x * p + sg * (yv + y * p)
  {
  }

  method AddC(m: Memory, zo: nat, zn: nat, xo: nat, xn: nat, yo: nat, yn: nat, carry: nat) returns (c: nat)
    requires zo + zn <= |m.cells| && xo + xn <= |m.cells| && yo + yn <= |m.cells|
    requires xn <= zn && yn <= zn && carry <= 1
    requires Readable(zo, xo, xn) && Readable(zo, yo, yn)
    modifies m
    ensures Keeps(old(m.cells), m.cells, zo, zn)
    ensures c <= 1
    ensures V(m.cells, zo, zn) + c * Pow(zn) == V(old(m.cells), xo, xn) + V(old(m.cells), yo, yn) + carry
  {
    ghost var s0 := m.cells;
    var a, an, b, bn := xo, xn, yo, yn;
    if an > bn {
      a, an, b, bn := yo, yn, xo, xn;
    }
    var num, i := carry as int, 0;
    SumStart(s0, zo, zn, a, an, b, bn, 1, carry);
    hide V, Pow, BigLo, BigDn;
    while i < an
      invariant i <= an && |m.cells| == |s0| && SumInv(s0, m.cells, zo, zn, a, an, b, bn, 1, carry, i, num)
    {
      var t := num + m.cells[a + i] + m.cells[b + i];
      SumStep(s0, m.cells, zo, zn, a, an, b, bn, 1, carry, i, num, t);
      m.cells := m.cells[zo + i := BigLo(t)];
      num := BigDn(t);
      i := i + 1;
    }
    c := Carry(m, s0, zo, zn, a, an, b, bn, carry, i, num);
    SumDone(s0, m.cells, zo, zn, a, an, b, bn, 1, carry, c);
  }

  // The rest of bary_addc once the shorter operand is used up.
  method Carry(m: Memory, ghost s0: seq<Digit>, zo: nat, zn: nat, ghost a: nat, an: nat, b: nat, bn: nat,
               ghost carry: nat, start: nat, pending: int) returns (c: nat)
    requires SumInv(s0, m.cells, zo, zn, a, an, b, bn, 1, carry, start, pending)
    requires an == start <= bn <= zn && Readable(zo, b, bn)
    modifies m
    ensures SumInv(s0, m.cells, zo, zn, a, an, b, bn, 1, carry, zn, c)
  {
    hide V, Pow, BigLo, BigDn;
    var num, i := pending, start;
    while i < bn && num != 0
      invariant an <= i <= bn && SumInv(s0, m.cells, zo, zn, a, an, b, bn, 1, carry, i, num)
    {
      var t := num + m.cells[b + i];
      SumStep(s0, m.cells, zo, zn, a, an, b, bn, 1, carry, i, num, t);
      m.cells := m.cells[zo + i := BigLo(t)];
      num := BigDn(t);
      i := i + 1;
    }
    while i < zn && num != 0
      invariant an <= i <= zn && (i < bn ==> num == 0)
      invariant SumInv(s0, m.cells, zo, zn, a, an, b, bn, 1, carry, i, num)
    {
      SumStep(s0, m.cells, zo, zn, a, an, b, bn, 1, carry, i, num, num);
      m.cells := m.cells[zo + i := BigLo(num)];
      num := BigDn(num);
      i := i + 1;
    }
    c := num;
    if i < zn {
      // num_is_zero
      if b == zo && bn == zn {
        SumEarly(s0, m.cells, zo, zn, a, an, b, bn, 1, carry, i);
      } else {
        CopyTail(m, s0, zo, zn, b, bn, a, an, b, bn, 1, carry, i);
      }
    }
  }

  lemma SumStart(s0: seq<Digit>, zo: nat, zn: nat, xo: nat, xn: nat, yo: nat, yn: nat, sg: int, c: int)
    requires zo + zn <= |s0| && xo + xn <= |s0| && yo + yn <= |s0|
    requires c == 0 || c == sg
    ensures SumInv(s0, s0, zo, zn, xo, xn, yo, yn, sg, c, 0, c)
  {
  }

  lemma SumDone(s0: seq<Digit>, s: seq<Digit>, zo: nat, zn: nat, xo: nat, xn: nat, yo: nat, yn: nat,
                sg: int, c: int, num: int)
    requires SumInv(s0, s, zo, zn, xo, xn, yo, yn, sg, c, zn, num)
    requires xn <= zn && yn <= zn
    ensures Keeps(s0, s, zo, zn)
    ensures num == 0 || num == sg
    ensures V(s, zo, zn) + num * Pow(zn) == V(s0, xo, xn) + sg * V(s0, yo, yn) + c
  {
    KeepsIntro(s0, s, zo, zn);
  }

  // Nothing is left to do when the buffer already holds the rest of the longer operand.
  lemma {:induction false} SumEarly(s0: seq<Digit>, s: seq<Digit>, zo: nat, zn: nat, xo: nat, xn: nat, yo: nat, yn: nat,
                                    sg: int, c: int, i: nat)
    requires SumInv(s0, s, zo, zn, xo, xn, yo, yn, sg, c, i, 0)
    requires sg == 1 || sg == -1
    requires forall k :: i <= k < zn ==>
               s0[zo + k] as int == DigitAt(s0, xo, xn, k) + sg * DigitAt(s0, yo, yn, k)
    ensures SumInv(s0, s, zo, zn, xo, xn, yo, yn, sg, c, zn, 0)
    decreases zn - i
  {
    if i < zn {
      var d := s[zo + i];
      SumStep(s0, s, zo, zn, xo, xn, yo, yn, sg, c, i, 0, d);
      assert s[zo + i := d] == s;
      SumEarly(s0, s, zo, zn, xo, xn, yo, yn, sg, c, i + 1);
    }
  }

  // The two closing loops shared by bary_addc and bary_subb: copy the longer operand, then clear.
  method CopyTail(m: Memory, ghost s0: seq<Digit>, zo: nat, zn: nat, bo: nat, bn: nat,
                  ghost xo: nat, ghost xn: nat, ghost yo: nat, ghost yn: nat,
                  ghost sg: int, ghost c: int, start: nat)
    requires SumInv(s0, m.cells, zo, zn, xo, xn, yo, yn, sg, c, start, 0)
    requires sg == 1 || sg == -1
    requires bo + bn <= |s0| && bn <= zn && Readable(zo, bo, bn)
    requires forall i :: start <= i ==>
               DigitAt(s0, bo, bn, i) as int == DigitAt(s0, xo, xn, i) + sg * DigitAt(s0, yo, yn, i)
    modifies m
    ensures SumInv(s0, m.cells, zo, zn, xo, xn, yo, yn, sg, c, zn, 0)
  {
    hide V, Pow, BigLo, BigDn;
    var i := start;
    while i < bn
      invariant start <= i <= zn
      invariant SumInv(s0, m.cells, zo, zn, xo, xn, yo, yn, sg, c, i, 0)
    {
      var d := m.cells[bo + i];
      SumStep(s0, m.cells, zo, zn, xo, xn, yo, yn, sg, c, i, 0, d);
      m.cells := m.cells[zo + i := d];
      i := i + 1;
    }
    while i < zn
      invariant start <= i <= zn && bn <= i
      invariant SumInv(s0, m.cells, zo, zn, xo, xn, yo, yn, sg, c, i, 0)
    {
      SumStep(s0, m.cells, zo, zn, xo, xn, yo, yn, sg, c, i, 0, 0);
      m.cells := m.cells[zo + i := 0];
      i := i + 1;
    }
  }

  // Returns the borrow out of digit zn.
  method SubB(m: Memory, zo: nat, zn: nat, xo: nat, xn: nat, yo: nat, yn: nat, borrow: nat) returns (c: nat)
    requires zo + zn <= |m.cells| && xo + xn <= |m.cells| && yo + yn <= |m.cells|
    requires xn <= zn && yn <= zn && borrow <= 1
    requires Readable(zo, xo, xn) && Readable(zo, yo, yn)
    modifies m
    ensures Keeps(old(m.cells), m.cells, zo, zn)
    ensures c <= 1
    ensures V(m.cells, zo, zn) - c * Pow(zn) == V(old(m.cells), xo, xn) - V(old(m.cells), yo, yn) - borrow
  {
    ghost var s0 := m.cells;
    var sn := if xn < yn then xn else yn;
    ghost var c0 := -(borrow as int);
    var num, i := -(borrow as int), 0;
    SumStart(s0, zo, zn, xo, xn, yo, yn, -1, c0);
    hide V, Pow, BigLo, BigDn;
    while i < sn
      invariant i <= sn && SumInv(s0, m.cells, zo, zn, xo, xn, yo, yn, -1, c0, i, num)
    {
      var t := num + m.cells[xo + i] - m.cells[yo + i];
      SumStep(s0, m.cells, zo, zn, xo, xn, yo, yn, -1, c0, i, num, t);
      m.cells := m.cells[zo + i := BigLo(t)];
      num := BigDn(t);
      i := i + 1;
    }
    num := Borrow(m, s0, zo, zn, xo, xn, yo, yn, c0, sn, num);
    SumDone(s0, m.cells, zo, zn, xo, xn, yo, yn, -1, c0, num);
    c := -num;
  }

  // The rest of bary_subb once the shorter operand is used up.
  method Borrow(m: Memory, ghost s0: seq<Digit>, zo: nat, zn: nat, xo: nat, xn: nat, yo: nat, yn: nat,
                ghost c0: int, sn: nat, pending: int) returns (num: int)
    requires SumInv(s0, m.cells, zo, zn, xo, xn, yo, yn, -1, c0, sn, pending)
    requires sn == Min(xn, yn) && xn <= zn && yn <= zn
    requires Readable(zo, xo, xn) && Readable(zo, yo, yn)
    modifies m
    ensures SumInv(s0, m.cells, zo, zn, xo, xn, yo, yn, -1, c0, zn, num)
  {
    hide V, Pow, BigLo, BigDn;
    num := pending;
    var i := sn;
    if yn <= xn {
      while i < xn && num != 0
        invariant yn <= i <= xn && SumInv(s0, m.cells, zo, zn, xo, xn, yo, yn, -1, c0, i, num)
      {
        var t := num + m.cells[xo + i];
        SumStep(s0, m.cells, zo, zn, xo, xn, yo, yn, -1, c0, i, num, t);
        m.cells := m.cells[zo + i := BigLo(t)];
        num := BigDn(t);
        i := i + 1;
      }
    } else {
      while i < yn
        invariant xn <= i <= yn && SumInv(s0, m.cells, zo, zn, xo, xn, yo, yn, -1, c0, i, num)
      {
        var t := num - m.cells[yo + i];
        SumStep(s0, m.cells, zo, zn, xo, xn, yo, yn, -1, c0, i, num, t);
        m.cells := m.cells[zo + i := BigLo(t)];
        num := BigDn(t);
        i := i + 1;
      }
    }
    if num == 0 {
      // num_is_zero
      if xo == zo && xn == zn {
        SumEarly(s0, m.cells, zo, zn, xo, xn, yo, yn, -1, c0, i);
      } else {
        CopyTail(m, s0, zo, zn, xo, xn, xo, xn, yo, yn, -1, c0, i);
      }
    } else {
      MinusOne();
      while i < zn
        invariant Max(xn, yn) <= i <= zn && SumInv(s0, m.cells, zo, zn, xo, xn, yo, yn, -1, c0, i, -1)
      {
        SumStep(s0, m.cells, zo, zn, xo, xn, yo, yn, -1, c0, i, -1, -1);
        m.cells := m.cells[zo + i := B - 1];
        i := i + 1;
      }
    }
  }

  function Max(a: nat, b: nat): nat
  {
    if a < b then b else a
  }

  lemma MinusOne()
    ensures BigLo(-1) == B - 1 && BigDn(-1) == -1
  {
    BigDnBound(-1, -1, 0);
  }

  // bary_add_one
  method AddOne(m: Memory, o: nat, n: nat) returns (c: nat)
    requires o + n <= |m.cells|
    modifies m
    ensures Keeps(old(m.cells), m.cells, o, n)
    ensures c <= 1
    ensures V(m.cells, o, n) + c * Pow(n) == V(old(m.cells), o, n) + 1
  {
    ghost var s0 := m.cells;
    var i := 0;
    while i < n
      invariant i <= n && KeepsCells(s0, m.cells, o, i)
      invariant V(m.cells, o, n) + Pow(i) == V(s0, o, n) + 1
    {
      var d: int := m.cells[o + i];
      var e := BigLo(d + 1);
      VSet(m.cells, o, n, i, e);
      Increment(d, e, Pow(i));
      m.cells := m.cells[o + i := e];
      if e != 0 {
        KeepsIntro(s0, m.cells, o, n);
        return 0;
      }
      i := i + 1;
    }
    KeepsIntro(s0, m.cells, o, n);
    return 1;
  }

  lemma Increment(d: int, e: int, p: int)
    requires 0 <= d < B && e == BigLo(d + 1)
    ensures e != 0 ==> (e - d) * p == p
    ensures e == 0 ==> (e - d) * p == p - B * p
  {
    BigDnBound(d + 1, 0, 2);
    if e == 0 {
      assert d == B - 1;
    }
  }

  // ---- bary_2comp ----

  // Returns 1, changing nothing, exactly when the buffer is zero.
  method TwoComp(m: Memory, o: nat, n: nat) returns (z: nat)
    requires o + n <= |m.cells|
    modifies m
    ensures Keeps(old(m.cells), m.cells, o, n)
    ensures z == if V(old(m.cells), o, n) == 0 then 1 else 0
    ensures V(m.cells, o, n) == if z == 1 then 0 else Pow(n) - V(old(m.cells), o, n)
  {
    ghost var s0 := m.cells;
    var i := 0;
    while i < n && m.cells[o + i] == 0
      invariant i <= n && m.cells == s0 && V(s0, o, i) == 0
    {
      i := i + 1;
    }
    if i == n {
      KeepsIntro(s0, m.cells, o, n);
      return 1;
    }
    VPositive(s0, o, n, i);
    VPut(m.cells, o, i, B - m.cells[o + i]);
    NegDigit(s0[o + i], Pow(i));
    m.cells := m.cells[o + i := B - m.cells[o + i]];
    i := i + 1;
    while i < n
      invariant i <= n && KeepsCells(s0, m.cells, o, i)
      invariant V(m.cells, o, i) == Pow(i) - V(s0, o, i)
    {
      VPut(m.cells, o, i, B - 1 - m.cells[o + i]);
      ComplementDigit(s0[o + i], Pow(i));
      m.cells := m.cells[o + i := B - 1 - m.cells[o + i]];
      i := i + 1;
    }
    KeepsIntro(s0, m.cells, o, n);
    return 0;
  }

  lemma NegDigit(d: nat, p: nat)
    ensures (B - d) * p == B * p - d * p
  {
  }

  lemma ComplementDigit(d: nat, p: nat)
    ensures (B - 1 - d) * p == B * p - p - d * p
  {
  }

  // A buffer with a non-zero digit k is at least B^k.
  lemma {:induction false} VPositive(s: seq<Digit>, o: nat, n: nat, k: nat)
    requires o + n <= |s| && k < n && s[o + k] != 0
    ensures Pow(k) <= V(s, o, n)
  {
    if k == n - 1 {
      MulLe(1, s[o + k], Pow(k));
    } else {
      VPositive(s, o, n - 1, k);
    }
  }

  // bary_zero_p
  method ZeroP(m: Memory, o: nat, n: nat) returns (z: bool)
    requires o + n <= |m.cells|
    ensures z <==> V(m.cells, o, n) == 0
  {
    var i: nat := n;
    while i != 0
      invariant i <= n && forall k :: o + i <= k < o + n ==> m.cells[k] == 0
    {
      i := i - 1;
      if m.cells[o + i] != 0 {
        VPositive(m.cells, o, n, i);
        return false;
      }
    }
    VZero(m.cells, o, n);
    return true;
  }

  // BARY_TRUNC: the length without leading zeros.
  method Trunc(m: Memory, o: nat, n: nat) returns (k: nat)
    requires o + n <= |m.cells|
    ensures k <= n && (k == 0 || m.cells[o + k - 1] != 0)
    ensures V(m.cells, o, k) == V(m.cells, o, n)
    ensures forall i :: o + k <= i < o + n ==> m.cells[i] == 0
  {
    k := n;
    while 0 < k && m.cells[o + k - 1] == 0
      invariant k <= n && V(m.cells, o, k) == V(m.cells, o, n)
      invariant forall i :: o + k <= i < o + n ==> m.cells[i] == 0
    {
      k := k - 1;
    }
  }

  // bary_cmp
  method Cmp(m: Memory, xo: nat, xn0: nat, yo: nat, yn0: nat) returns (c: int)
    requires xo + xn0 <= |m.cells| && yo + yn0 <= |m.cells|
    ensures c == -1 || c == 0 || c == 1
    ensures (c < 0 <==> V(m.cells, xo, xn0) < V(m.cells, yo, yn0))
    ensures (c > 0 <==> V(m.cells, xo, xn0) > V(m.cells, yo, yn0))
  {
    var xn := Trunc(m, xo, xn0);
    var yn := Trunc(m, yo, yn0);
    if xn < yn {
      Longer(m.cells, xo, xn, yo, yn);
      return -1;
    }
    if xn > yn {
      Longer(m.cells, yo, yn, xo, xn);
      return 1;
    }
    var i := 0;
    while i < xn && m.cells[xo + xn - i - 1] == m.cells[yo + yn - i - 1]
      invariant i <= xn
      invariant V(m.cells, xo, xn) - V(m.cells, yo, yn) == V(m.cells, xo, xn - i) - V(m.cells, yo, yn - i)
    {
      i := i + 1;
    }
    if i == xn {
      return 0;
    }
    if m.cells[xo + xn - i - 1] < m.cells[yo + yn - i - 1] {
      TopDigit(m.cells, xo, yo, xn - i);
      return -1;
    }
    TopDigit(m.cells, yo, xo, xn - i);
    return 1;
  }

  lemma Longer(s: seq<Digit>, xo: nat, xn: nat, yo: nat, yn: nat)
    requires xo + xn <= |s| && yo + yn <= |s| && xn < yn && s[yo + yn - 1] != 0
    ensures V(s, xo, xn) < V(s, yo, yn)
  {
    VBound(s, xo, xn);
    PowMono(xn, yn - 1);
    VPositive(s, yo, yn, yn - 1);
  }

  lemma TopDigit(s: seq<Digit>, xo: nat, yo: nat, n: nat)
    requires 0 < n && xo + n <= |s| && yo + n <= |s| && s[xo + n - 1] < s[yo + n - 1]
    ensures V(s, xo, n) < V(s, yo, n)
  {
    VBound(s, xo, n - 1);
    MulLt(s[xo + n - 1], s[yo + n - 1], Pow(n - 1));
  }

  // ---- bary_small_lshift, bary_small_rshift ----

  // Returns the digit shifted out at the top.
  method SmallLshift(m: Memory, zo: nat, xo: nat, n: nat, shift: nat) returns (out: Digit)
    requires zo + n <= |m.cells| && xo + n <= |m.cells| && shift < W
    requires Readable(zo, xo, n)
    modifies m
    ensures Keeps(old(m.cells), m.cells, zo, n)
    ensures out < Pow2(shift)
    ensures V(m.cells, zo, n) + out * Pow(n) == V(old(m.cells), xo, n) * Pow2(shift)
  {
    ghost var s0 := m.cells;
    var f := Pow2(shift);
    var num: nat, i := 0, 0;
    while i < n
      invariant i <= n && KeepsCells(s0, m.cells, zo, i) && num < f
      invariant V(m.cells, zo, i) + num * Pow(i) == V(s0, xo, i) * f
    {
      ghost var x := m.cells[xo + i];
      // the shifted digit has its low `shift` bits clear, so the bitwise or is a sum
      var t := num + m.cells[xo + i] * f;
      VPut(m.cells, zo, i, BigLo(t));
      CarrySplit(t, Pow(i));
      ShiftStep(V(s0, xo, i), num, x, f, t, Pow(i));
      m.cells := m.cells[zo + i := BigLo(t)];
      num := BigDn(t);
      i := i + 1;
    }
    KeepsIntro(s0, m.cells, zo, n);
    ShiftedOut(shift);
    out := num;
  }

  lemma ShiftStep(v: nat, num: nat, x: Digit, f: nat, t: nat, p: nat)
    requires t == num + x * f && num < f
    ensures (v + x * p) * f == v * f + t * p - num * p
    ensures 0 <= BigDn(t) < f
  {
    assert (v + x * p) * f == v * f + (x * f) * p;
    assert t * p == num * p + (x * f) * p;
    MulLt(x, B, f);
    assert t < B * f;
    BigDnBound(t, 0, f);
  }

  lemma ShiftedOut(shift: nat)
    requires shift < W
    ensures Pow2(shift) < B
  {
    Pow2Mono(shift + 1, W);
  }

  // Shifts right by `shift` bits, taking the new high bits from the low bits of `higher`.
  method SmallRshift(m: Memory, zo: nat, xo: nat, n: nat, shift: nat, higher: Digit)
    requires zo + n <= |m.cells| && xo + n <= |m.cells| && shift < W
    requires xo <= zo || zo + n <= xo
    modifies m
    ensures Keeps(old(m.cells), m.cells, zo, n)
    ensures V(m.cells, zo, n) * Pow2(shift) + (if n == 0 then higher else old(m.cells)[xo]) % Pow2(shift)
         == V(old(m.cells), xo, n) + (higher % Pow2(shift)) * Pow(n)
  {
    ghost var s0 := m.cells;
    var f := Pow2(shift);
    var num: nat, k: nat := higher, n;
    while 0 < k
      invariant k <= n && KeepsCells(s0, m.cells, zo + k, n - k)
      invariant num == if k == n then higher else s0[xo + k]
      invariant V(m.cells, zo + k, n - k) * f + num % f == V(s0, xo + k, n - k) + (higher % f) * Pow(n - k)
    {
      k := k - 1;
      var x: nat := m.cells[xo + k];
      var z := BigLo((num * B + x) / f);
      ghost var s1 := m.cells;
      m.cells := m.cells[zo + k := z];
      RshiftDigit(num, x, shift, z);
      VPrepend(s1, m.cells, zo + k, n - k - 1);
      VPrepend(s0, s0, xo + k, n - k - 1);
      RshiftStep(f, z, V(s1, zo + k + 1, n - k - 1), num % f, x, x % f, V(s0, xo + k + 1, n - k - 1),
                 higher % f, Pow(n - k - 1));
      num := x;
    }
    KeepsIntro(s0, m.cells, zo, n);
  }

  // A new lowest digit: the rest moves up by one place.
  lemma VPrepend(s: seq<Digit>, t: seq<Digit>, o: nat, n: nat)
    requires o + n < |s| && |t| == |s| && s[o + 1..o + 1 + n] == t[o + 1..o + 1 + n]
    ensures V(t, o, n + 1) == t[o] + B * V(s, o + 1, n)
  {
    VSplit(t, o, 1, n);
    VSame(s, t, o + 1, o + 1, n);
    Pow1();
    assert V(t, o, 1) == V(t, o, 0) + t[o] * Pow(0);
  }

  // The quotient and remainder are determined by the division equation.
  lemma DivUnique(t: int, d: int, q: int, r: int)
    requires t == d * q + r && 0 <= r < d
    ensures t / d == q && t % d == r
  {
    QuotientUnique(d, t / d, t % d, q, r);
  }

  lemma QuotientUnique(d: int, q: int, r: int, q': int, r': int)
    requires d * q + r == d * q' + r' && 0 <= r < d && 0 <= r' < d
    ensures q == q' && r == r'
  {
    if q < q' {
      LeMul(d, q + 1, q');
    } else if q' < q {
      LeMul(d, q' + 1, q);
    }
  }

  lemma LeMul(d: int, a: int, b: int)
    requires 0 <= d && a <= b
    ensures d * a <= d * b
    ensures d * a == d * (a - 1) + d
  {
  }

  lemma RshiftDigit(h: nat, x: nat, shift: nat, z: nat)
    requires h < B && x < B && shift < W
    requires z == BigLo((h * B + x) / Pow2(shift))
    ensures z * Pow2(shift) == (h % Pow2(shift)) * B + x - x % Pow2(shift)
  {
    Pow2Add(shift, W - shift);
    DivMod(h, Pow2(shift));
    DivMod(x, Pow2(shift));
    RshiftParts(h, x, Pow2(shift), Pow2(W - shift), h / Pow2(shift), h % Pow2(shift), x / Pow2(shift), x % Pow2(shift));
  }

  lemma DivMod(t: int, d: int)
    requires 0 < d
    ensures t == d * (t / d) + t % d
  {
  }

  lemma ModLess(v: int, p: nat)
    requires 0 < p
    ensures 0 <= v % p < p && (0 <= v ==> 0 <= v / p)
  {
    DivMod(v, p);
    if 0 <= v && v / p < 0 {
      LeMul(p, v / p, -1);
    }
  }

  lemma QuotientBelow(x: nat, b: nat, p: nat)
    requires 0 < b && x < b * p
    ensures x / b < p
  {
    DivMod(x, b);
    if p <= x / b {
      LeMul(b, p, x / b);
    }
  }

  lemma RshiftParts(h: nat, x: nat, f: nat, g: nat, hq: int, hr: int, xq: int, xr: int)
    requires h < B && x < B && B == f * g && 0 < f
    requires h == f * hq + hr && 0 <= hr < f
    requires x == f * xq + xr && 0 <= xr < f
    ensures BigLo((h * B + x) / f) * f == hr * B + x - xr
  {
    assert 0 <= hq && 0 <= xq by {
      if hq < 0 { LeMul(f, hq, -1); }
      if xq < 0 { LeMul(f, xq, -1); }
    }
    RshiftWhole(h, x, f, g, xq, xr);
    DivUnique(h * B + x, f, h * g + xq, xr);
    RshiftLow(h, f, g, hq, hr, xq, x);
    DivUnique(h * g + xq, B, hq, hr * g + xq);
    RshiftBack(f, g, hr, xq);
  }

  lemma RshiftBack(f: nat, g: nat, hr: nat, xq: nat)
    requires B == f * g
    ensures (hr * g + xq) * f == hr * B + f * xq
  {
    assert (hr * g) * f == hr * (f * g);
  }

  lemma RshiftWhole(h: nat, x: nat, f: nat, g: nat, xq: nat, xr: nat)
    requires B == f * g && x == f * xq + xr
    ensures h * B + x == f * (h * g + xq) + xr
  {
    assert h * (f * g) == f * (h * g);
    assert f * (h * g + xq) == f * (h * g) + f * xq;
  }

  lemma RshiftLow(h: nat, f: nat, g: nat, hq: nat, hr: nat, xq: nat, x: nat)
    requires B == f * g && h == f * hq + hr && hr < f && f * xq <= x < B
    ensures h * g + xq == B * hq + (hr * g + xq)
    ensures 0 <= hr * g + xq < B
  {
    assert h * g == (f * hq) * g + hr * g;
    assert (f * hq) * g == (f * g) * hq;
    if g <= xq {
      MulLe(g, xq, f);
    }
    MulLt(hr, f, g);
  }

  lemma RshiftStep(f: nat, z: nat, v: nat, nr: nat, x: nat, xr: nat, v0: nat, hr: nat, p: nat)
    requires z * f == nr * B + x - xr
    requires v * f + nr == v0 + hr * p
    ensures (z + B * v) * f + xr == (x + B * v0) + hr * (B * p)
  {
    assert (z + B * v) * f == z * f + B * (v * f);
    assert B * (v * f) == B * (v0 + hr * p - nr);
    assert B * (v0 + hr * p - nr) == B * v0 + hr * (B * p) - nr * B;
  }
}
