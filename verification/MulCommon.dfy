/**
 What the multiplication routines of bignum.c share: their contract, the trimming
 done before every product, the sparseness test, and sums into part of a buffer.
 */
module MulCommon {
  import opened Digits
  import opened Kernel
  import opened MulKernel
  import opened Division
  import opened Lengths

  const KARATSUBA_MUL_DIGITS: nat := 70
  const TOOM3_MUL_DIGITS: nat := 150

  // Balanced operands up to this length are multiplied without running out of workspace.
  const SURE_DIGITS: nat := 26000000

  predicate KaratsubaBalanced(xn: nat, yn: nat)
  {
    yn / 2 < xn
  }

  predicate Toom3Balanced(xn: nat, yn: nat)
  {
    (yn + 2) / 3 * 2 < xn
  }

  // ---- the contract of every product ----

  // z and the workspace w are apart from each other and from the operands.
  ghost predicate MulArgs(s: seq<Digit>, zo: nat, zn: nat, xo: nat, xn: nat, yo: nat, yn: nat, wo: nat, wn: nat)
  {
    && zo + zn <= |s| && xo + xn <= |s| && yo + yn <= |s| && wo + wn <= |s|
    && xn + yn <= zn
    && Apart(xo, xn, zo, zn) && Apart(yo, yn, zo, zn) && Apart(wo, wn, zo, zn)
    && Apart(wo, wn, xo, xn) && Apart(wo, wn, yo, yn)
  }

  // z holds the product; nothing outside z and w changed.
  ghost predicate MulDone(s0: seq<Digit>, s: seq<Digit>, zo: nat, zn: nat, xo: nat, xn: nat, yo: nat, yn: nat,
                          wo: nat, wn: nat)
    requires MulArgs(s0, zo, zn, xo, xn, yo, yn, wo, wn)
  {
    && Keeps2(s0, s, zo, zn, wo, wn)
    && V(s, zo, zn) == V(s0, xo, xn) * V(s0, yo, yn)
  }

  // ---- bary_mul_precheck ----

  // Drops leading zeros and, if anything is left, trailing zeros.
  method TrimBoth(m: Memory, xo: nat, xn: nat) returns (o: nat, n: nat)
    requires xo + xn <= |m.cells|
    ensures xo <= o && o + n <= xo + xn
    ensures n != 0 ==> m.cells[o] != 0
    ensures V(m.cells, xo, xn) == Pow(o - xo) * V(m.cells, o, n)
    ensures Cut(m.cells, V(m.cells, xo, xn), o - xo, o, n)
  {
    n := Trunc(m, xo, xn);
    o := xo;
    while 0 < n && m.cells[o] == 0
      invariant xo <= o && o + n <= xo + xn && (o != xo ==> n != 0)
      invariant n != 0 ==> m.cells[o + n - 1] != 0
      invariant V(m.cells, xo, xn) == Pow(o - xo) * V(m.cells, o, n)
      decreases n
    {
      VPrepend(m.cells, m.cells, o, n - 1);
      assert Pow(o + 1 - xo) == B * Pow(o - xo);
      PowTimesB(Pow(o - xo), V(m.cells, o + 1, n - 1));
      o := o + 1;
      n := n - 1;
    }
    CutIs(m.cells, V(m.cells, xo, xn), o - xo, o, n);
  }

  // The n digits at o are the number x without the zeros at either end, k of them at the low end.
  ghost predicate Cut(s: seq<Digit>, x: nat, k: nat, o: nat, n: nat)
    requires o + n <= |s|
  {
    k == Low(x) && V(s, o, n) == Trim(x) && n == Len(Trim(x))
  }

  lemma CutIs(s: seq<Digit>, x: nat, k: nat, o: nat, n: nat)
    requires o + n <= |s| && x == Pow(k) * V(s, o, n)
    requires if n == 0 then k == 0 else s[o] != 0 && s[o + n - 1] != 0
    ensures Cut(s, x, k, o, n)
  {
    if n != 0 {
      LowDigit(s, o, n);
      LowIs(x, k, V(s, o, n));
    }
    LenOfBuffer(s, o, n);
  }

  lemma PowTimesB(p: nat, v: nat)
    ensures p * (B * v) == (B * p) * v
  {
  }

  // The case that x has at most one digit.
  method MulTiny(m: Memory, zo: nat, zn: nat, xo: nat, xn: nat, yo: nat, yn: nat)
    requires zo + zn <= |m.cells| && xo + xn <= |m.cells| && yo + yn <= |m.cells|
    requires xn + yn <= zn && xn <= yn && xn <= 1 && Apart(xo, xn, zo, zn) && Apart(yo, yn, zo, zn)
    requires xn == 1 ==> m.cells[xo] != 0
    modifies m
    ensures Keeps(old(m.cells), m.cells, zo, zn)
    ensures V(m.cells, zo, zn) == V(old(m.cells), xo, xn) * V(old(m.cells), yo, yn)
  {
    ghost var s0 := m.cells;
    if xn == 0 {
      Zero(m, zo, zn);
      return;
    }
    VOne(m.cells, xo);
    hide V, Pow, Pow2;
    if m.cells[xo] == 1 {
      Move(m, zo, yo, yn);
      PadZeros(m, zo, yn, zn);
    } else if Pow2P(m.cells[xo]) {
      MulPow2(m, zo, zn, m.cells[xo], yo, yn);
    } else if yn == 1 && m.cells[yo] == 1 {
      VOne(m.cells, yo);
      m.cells := m.cells[zo := m.cells[xo]];
      VOne(m.cells, zo);
      KeepsIntro(s0, m.cells, zo, 1);
      PadZeros(m, zo, 1, zn);
    } else {
      MulNormal(m, zo, zn, xo, xn, yo, yn);
    }
    KeepsIntro(s0, m.cells, zo, zn);
  }

  // A power of two is multiplied by shifting.
  method MulPow2(m: Memory, zo: nat, zn: nat, x: Digit, yo: nat, yn: nat)
    requires zo + zn <= |m.cells| && yo + yn <= |m.cells| && yn < zn && Apart(yo, yn, zo, zn)
    requires x != 0 && Pow2P(x)
    modifies m
    ensures Keeps(old(m.cells), m.cells, zo, zn)
    ensures V(m.cells, zo, zn) == x * V(old(m.cells), yo, yn)
  {
    ghost var s0 := m.cells;
    hide V, Pow;
    BitLengthDigit(x);
    var shift := BitLength(x) - 1;
    ghost var f: nat := x;
    assert f == Pow2(shift);
    hide Pow2, Pow2P, BitLength;
    var out := SmallLshift(m, zo, yo, yn, shift);
    ghost var s1 := m.cells;
    VPut(s1, zo, yn, out);
    m.cells := m.cells[zo + yn := out];
    PadZeros(m, zo, yn + 1, zn);
    KeepsIntro(s0, m.cells, zo, zn);
    assert V(m.cells, zo, zn) == V(s0, yo, yn) * f;
  }

  // BDIGITS_ZERO(zds+n, zn-n)
  method PadZeros(m: Memory, zo: nat, n: nat, zn: nat)
    requires zo + zn <= |m.cells| && n <= zn
    modifies m
    ensures Keeps(old(m.cells), m.cells, zo + n, zn - n)
    ensures V(m.cells, zo, zn) == V(old(m.cells), zo, n)
  {
    Zero(m, zo + n, zn - n);
    VSplit(m.cells, zo, n, zn - n);
  }

  // One buffer lies inside another.
  predicate Within(o: nat, n: nat, xo: nat, xn: nat)
  {
    xo <= o && o + n <= xo + xn
  }

  // The trimmed operands: x' is the shorter one, and the low digits of z are already zero.
  datatype Operands = Operands(zo: nat, zn: nat, xo: nat, xn: nat, yo: nat, yn: nat)

  ghost predicate Trimmed(s0: seq<Digit>, s: seq<Digit>, zo: nat, zn: nat, xo: nat, xn: nat, yo: nat, yn: nat, t: Operands)
    requires zo + zn <= |s0| && xo + xn <= |s0| && yo + yn <= |s0|
    requires Apart(xo, xn, zo, zn) && Apart(yo, yn, zo, zn)
  {
    && zo <= t.zo && t.zo + t.zn == zo + zn
    && Keeps(s0, s, zo, t.zo - zo) && V(s, zo, t.zo - zo) == 0
    && t.xn <= t.yn && t.xn + t.yn <= t.zn
    && (|| (Within(t.xo, t.xn, xo, xn) && Within(t.yo, t.yn, yo, yn))
        || (Within(t.xo, t.xn, yo, yn) && Within(t.yo, t.yn, xo, xn)))
    && (t.xn != 0 ==> s0[t.xo] != 0)
    && t.zo == zo + Low(V(s0, xo, xn)) + Low(V(s0, yo, yn))
    && Sorted(s0, t, Trim(V(s0, xo, xn)), Trim(V(s0, yo, yn)))
    && Pow(t.zo - zo) * (V(s0, t.xo, t.xn) * V(s0, t.yo, t.yn)) == V(s0, xo, xn) * V(s0, yo, yn)
  }

  // The trimmed operands are x and y, the longer one second, and have no leading zeros.
  ghost predicate Sorted(s: seq<Digit>, t: Operands, x: nat, y: nat)
  {
    && t.xo + t.xn <= |s| && t.yo + t.yn <= |s|
    && Len(V(s, t.xo, t.xn)) == t.xn && Len(V(s, t.yo, t.yn)) == t.yn
    && (if Len(x) <= Len(y) then V(s, t.xo, t.xn) == x && V(s, t.yo, t.yn) == y
        else V(s, t.xo, t.xn) == y && V(s, t.yo, t.yn) == x)
  }

  method TrimOperands(m: Memory, zo: nat, zn: nat, xo: nat, xn: nat, yo: nat, yn: nat) returns (t: Operands)
    requires zo + zn <= |m.cells| && xo + xn <= |m.cells| && yo + yn <= |m.cells|
    requires xn + yn <= zn && Apart(xo, xn, zo, zn) && Apart(yo, yn, zo, zn)
    modifies m
    ensures Trimmed(old(m.cells), m.cells, zo, zn, xo, xn, yo, yn, t)
  {
    ghost var s0 := m.cells;
    var xo1, xn1 := TrimBoth(m, xo, xn);
    var yo1, yn1 := TrimBoth(m, yo, yn);
    var nlsz := (xo1 - xo) + (yo1 - yo);
    hide V, Pow;
    Zero(m, zo, nlsz);
    PowAdd(xo1 - xo, yo1 - yo);
    TrimProduct(Pow(xo1 - xo), V(s0, xo1, xn1), Pow(yo1 - yo), V(s0, yo1, yn1));
    t := if xn1 > yn1 then Operands(zo + nlsz, zn - nlsz, yo1, yn1, xo1, xn1)
         else Operands(zo + nlsz, zn - nlsz, xo1, xn1, yo1, yn1);
  }

  // Returns true when it has computed the product itself.
  method Precheck(m: Memory, zo: nat, zn: nat, xo: nat, xn: nat, yo: nat, yn: nat) returns (done: bool, t: Operands)
    requires zo + zn <= |m.cells| && xo + xn <= |m.cells| && yo + yn <= |m.cells|
    requires xn + yn <= zn && Apart(xo, xn, zo, zn) && Apart(yo, yn, zo, zn)
    modifies m
    ensures done ==> Keeps(old(m.cells), m.cells, zo, zn)
    ensures done ==> V(m.cells, zo, zn) == V(old(m.cells), xo, xn) * V(old(m.cells), yo, yn)
    ensures !done ==> 2 <= t.xn && Trimmed(old(m.cells), m.cells, zo, zn, xo, xn, yo, yn, t)
    ensures done ==> Min(Len(Trim(V(old(m.cells), xo, xn))), Len(Trim(V(old(m.cells), yo, yn)))) <= 1
  {
    ghost var s0 := m.cells;
    hide V, Pow;
    t := TrimOperands(m, zo, zn, xo, xn, yo, yn);
    done := t.xn <= 1;
    if done {
      MulTiny(m, t.zo, t.zn, t.xo, t.xn, t.yo, t.yn);
      AboveZeros(s0, m.cells, zo, zn, t.zo - zo);
    }
  }

  lemma AboveZeros(s0: seq<Digit>, s: seq<Digit>, zo: nat, zn: nat, k: nat)
    requires zo + zn <= |s0| && k <= zn && KeepsCells(s0, s, zo, zn) && V(s, zo, k) == 0
    ensures Keeps(s0, s, zo, zn)
    ensures V(s, zo, zn) == Pow(k) * V(s, zo + k, zn - k)
  {
    VSplit(s, zo, k, zn - k);
    KeepsIntro(s0, s, zo, zn);
  }

  lemma TrimProduct(p: nat, x: nat, q: nat, y: nat)
    ensures (p * x) * (q * y) == (p * q) * (x * y)
    ensures (p * x) * (q * y) == (p * q) * (y * x)
  {
    assert (p * x) * (q * y) == p * (x * (q * y));
    assert x * (q * y) == q * (x * y);
  }

  lemma TrimmedArgs(s0: seq<Digit>, s1: seq<Digit>, zo: nat, zn: nat, xo: nat, xn: nat, yo: nat, yn: nat,
                    wo: nat, wn: nat, t: Operands)
    requires MulArgs(s0, zo, zn, xo, xn, yo, yn, wo, wn)
    requires Trimmed(s0, s1, zo, zn, xo, xn, yo, yn, t)
    ensures MulArgs(s1, t.zo, t.zn, t.xo, t.xn, t.yo, t.yn, wo, wn)
    ensures t.xn + t.yn <= xn + yn && t.yn <= Max(xn, yn)
  {
  }

  // A product of the trimmed operands is a product of the given ones.
  lemma TrimmedDone(s0: seq<Digit>, s1: seq<Digit>, s: seq<Digit>, zo: nat, zn: nat, xo: nat, xn: nat, yo: nat, yn: nat,
                    wo: nat, wn: nat, t: Operands)
    requires MulArgs(s0, zo, zn, xo, xn, yo, yn, wo, wn)
    requires Trimmed(s0, s1, zo, zn, xo, xn, yo, yn, t)
    requires MulArgs(s1, t.zo, t.zn, t.xo, t.xn, t.yo, t.yn, wo, wn)
    requires MulDone(s1, s, t.zo, t.zn, t.xo, t.xn, t.yo, t.yn, wo, wn)
    ensures MulDone(s0, s, zo, zn, xo, xn, yo, yn, wo, wn)
  {
    Keeps2Intro(s0, s, zo, zn, wo, wn);
    VSplit(s, zo, t.zo - zo, t.zn);
  }

  // ---- bary_sparse_p ----

  // At most one of three digits in the middle is not zero.
  ghost predicate Sparse(x: nat)
  {
    var n := Len(x);
    (if Piece(x, 2 * n / 5, 1) != 0 then 1 else 0) + (if Piece(x, n / 2, 1) != 0 then 1 else 0)
    + (if Piece(x, 3 * n / 5, 1) != 0 then 1 else 0) <= 1
  }

  method SparseP(m: Memory, o: nat, n: nat) returns (sparse: bool)
    requires o + n <= |m.cells| && 0 < n == Len(V(m.cells, o, n))
    ensures sparse <==> Sparse(V(m.cells, o, n))
    ensures sparse <==> || (m.cells[o + 2 * n / 5] == 0 && m.cells[o + n / 2] == 0)
                        || (m.cells[o + 2 * n / 5] == 0 && m.cells[o + 3 * n / 5] == 0)
                        || (m.cells[o + n / 2] == 0 && m.cells[o + 3 * n / 5] == 0)
  {
    DigitIs(m.cells, o, n, 2 * n / 5);
    DigitIs(m.cells, o, n, n / 2);
    DigitIs(m.cells, o, n, 3 * n / 5);
    var c := 0;
    if m.cells[o + 2 * n / 5] != 0 {
      c := c + 1;
    }
    if c <= 1 && m.cells[o + n / 2] != 0 {
      c := c + 1;
    }
    if c <= 1 && m.cells[o + 3 * n / 5] != 0 {
      c := c + 1;
    }
    sparse := c <= 1;
  }

  // ---- signed differences and sums into part of a buffer ----

  // bary_sub followed, on a borrow, by bary_2comp: the absolute difference and whether x < y.
  method AbsDiff(m: Memory, zo: nat, zn: nat, xo: nat, xn: nat, yo: nat, yn: nat) returns (neg: bool)
    requires zo + zn <= |m.cells| && xo + xn <= |m.cells| && yo + yn <= |m.cells|
    requires xn <= zn && yn <= zn && Readable(zo, xo, xn) && Readable(zo, yo, yn)
    modifies m
    ensures Keeps(old(m.cells), m.cells, zo, zn)
    ensures neg <==> V(old(m.cells), xo, xn) < V(old(m.cells), yo, yn)
    ensures V(m.cells, zo, zn) == if neg then V(old(m.cells), yo, yn) - V(old(m.cells), xo, xn)
                                  else V(old(m.cells), xo, xn) - V(old(m.cells), yo, yn)
  {
    ghost var s0 := m.cells;
    VBound(s0, xo, xn);
    VBound(s0, yo, yn);
    PowMono(xn, zn);
    PowMono(yn, zn);
    var borrow := SubB(m, zo, zn, xo, xn, yo, yn, 0);
    VBound(m.cells, zo, zn);
    if borrow != 0 {
      var zero := TwoComp(m, zo, zn);
    }
    neg := borrow != 0;
    KeepsIntro(s0, m.cells, zo, zn);
  }

  // A change confined to the digits from off on.
  lemma VLift(s: seq<Digit>, t: seq<Digit>, zo: nat, zn: nat, off: nat, d: int, k: int)
    requires zo + zn <= |s| && off <= zn && Keeps(s, t, zo + off, zn - off)
    requires V(t, zo + off, zn - off) + k * Pow(zn - off) == V(s, zo + off, zn - off) + d
    ensures V(t, zo, zn) + k * Pow(zn) == V(s, zo, zn) + Pow(off) * d
  {
    VSplit(s, zo, off, zn - off);
    VSplit(t, zo, off, zn - off);
    PowAdd(off, zn - off);
    VLiftArith(Pow(off), V(t, zo + off, zn - off), k, Pow(zn - off), V(s, zo + off, zn - off), d);
  }

  lemma VLiftArith(p: nat, vt: int, k: int, q: int, vs: int, d: int)
    requires vt + k * q == vs + d
    ensures p * vt + k * (p * q) == p * vs + p * d
  {
    assert p * (vt + k * q) == p * vt + k * (p * q);
    assert p * (vs + d) == p * vs + p * d;
  }

  // Two numbers below q that differ by a multiple of q are equal.
  lemma SameResidue(z: nat, v: nat, k: int, q: nat)
    requires z < q && v < q && z + k * q == v
    ensures z == v
  {
    QuotientUnique(q, k, z, 0, v);
  }

  lemma ProductBound(s: seq<Digit>, xo: nat, xn: nat, yo: nat, yn: nat, zn: nat)
    requires xo + xn <= |s| && yo + yn <= |s| && xn + yn <= zn
    ensures V(s, xo, xn) * V(s, yo, yn) < Pow(zn)
  {
    VBound(s, xo, xn);
    VBound(s, yo, yn);
    ProductLt(V(s, xo, xn), V(s, yo, yn), Pow(xn), Pow(yn));
    PowAdd(xn, yn);
    PowMono(xn + yn, zn);
  }

  // Adds a single digit held in a local variable (bary_add with yds = &c, yn = 1).
  method AddDigit(m: Memory, zo: nat, zn: nat, c: Digit) returns (carry: nat)
    requires zo + zn <= |m.cells| && 0 < zn
    modifies m
    ensures Keeps(old(m.cells), m.cells, zo, zn)
    ensures V(m.cells, zo, zn) + carry * Pow(zn) == V(old(m.cells), zo, zn) + c
  {
    ghost var s0 := m.cells;
    var o := m.Alloc(1);
    VPrefix(s0, m.cells, zo, zn);
    m.cells := m.cells[o := c];
    ghost var s1 := m.cells;
    assert s0 <= s1;
    VPrefix(s0, s1, zo, zn);
    VOne(s1, o);
    carry := AddC(m, zo, zn, zo, zn, o, 1, 0);
    ghost var s2 := m.cells;
    m.Free(o);
    VPrefix(m.cells, s2, zo, zn);
    KeepsIntro(s0, m.cells, zo, zn);
  }

  // ---- workspace that is certainly enough ----

  // The digits bary_mul_toom3 takes from its workspace for operands cut into pieces of n digits.
  function Toom3Work(n: nat): nat
  {
    22 * n + 15
  }

  // Toom-3 on operands of up to len digits, and all products below it, fit in this much.
  function Room(len: nat): nat
  {
    if len < TOOM3_MUL_DIGITS then len else Toom3Work((len + 2) / 3) + Room((len + 2) / 3 + 1)
  }

  lemma {:induction false} RoomAtLeast(len: nat)
    ensures len <= Room(len)
  {
    if TOOM3_MUL_DIGITS <= len {
      RoomAtLeast((len + 2) / 3 + 1);
    }
  }

  lemma {:induction false} RoomMono(a: nat, b: nat)
    requires a <= b
    ensures Room(a) <= Room(b)
    decreases b
  {
    if TOOM3_MUL_DIGITS <= a {
      RoomMono((a + 2) / 3 + 1, (b + 2) / 3 + 1);
    } else {
      RoomAtLeast(b);
    }
  }

  // Up to this length k levels of Toom-3 lie above Karatsuba.
  function Reach(k: nat): (n: nat)
    ensures TOOM3_MUL_DIGITS <= n + 1
  {
    if k == 0 then TOOM3_MUL_DIGITS - 1 else 3 * Reach(k - 1) - 3
  }

  lemma {:induction false} RoomSlack(len: nat, k: nat)
    requires 50 <= len <= Reach(k)
    ensures Room(len) + 500 <= 11 * len + 48 * k
    decreases k
  {
    if TOOM3_MUL_DIGITS <= len {
      RoomSlack((len + 2) / 3 + 1, k - 1);
    }
  }

  // What bary_mul_toom3 allocates at the top is enough for all levels below, up to more than 26 million digits.
  lemma RoomAllocated(n: nat)
    requires 50 <= n + 1 <= 8709729
    ensures Room(n + 1) <= Toom3Work(n) * 3 / 2 - Toom3Work(n)
  {
    assert Reach(3) == 3984;
    assert Reach(6) == 107529;
    assert Reach(8) == 967749;
    assert Reach(10) == 8709729;
    RoomSlack(n + 1, 10);
  }

  // Cutting an unbalanced operand into slices of xn digits leaves room for the slices.
  lemma {:induction false} RoomSlice(xn: nat, yn: nat)
    requires TOOM3_MUL_DIGITS <= xn <= yn && !Toom3Balanced(xn, yn)
    ensures Room(xn) + xn <= Room(yn)
  {
    var m, n := (xn + 2) / 3, (yn + 2) / 3;
    assert Room(xn) == Toom3Work(m) + Room(m + 1);
    assert Room(yn) == Toom3Work(n) + Room(n + 1);
    hide Room;
    RoomMono(m + 1, n + 1);
  }
}
