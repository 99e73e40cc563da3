/**
 The mutually recursive products of bignum.c: the two dispatchers, balancing by
 slices, Karatsuba and Toom-3.

 Every routine answers false when bary_mul_balance_with_mulfunc has stopped the
 process with "wds is not enough", which is exactly when `Workspace.Stops` says so;
 otherwise z holds the exact product.
 */
module Multiply {
  import opened Digits
  import opened Kernel
  import opened MulKernel
  import opened Division
  import opened MulCommon
  import opened KaratsubaSteps
  import opened Toom3Steps
  import opened Lengths
  import opened Workspace

  // The number in a buffer has no leading zeros.
  ghost predicate Full(s: seq<Digit>, o: nat, n: nat)
  {
    o + n <= |s| && Len(V(s, o, n)) == n
  }

  // bary_mul_karatsuba_start and bary_mul_toom3_start
  method Start(f: MulFunc, m: Memory, zo: nat, zn: nat, xo: nat, xn: nat, yo: nat, yn: nat, wo: nat, wn: nat)
    returns (ok: bool)
    requires MulArgs(m.cells, zo, zn, xo, xn, yo, yn, wo, wn)
    modifies m
    ensures ok ==> MulDone(old(m.cells), m.cells, zo, zn, xo, xn, yo, yn, wo, wn)
    ensures ok <==> !Stops(f, V(old(m.cells), xo, xn), V(old(m.cells), yo, yn), zn, wn)
    decreases xn + yn, 6
  {
    ghost var s0 := m.cells;
    hide V, Pow, Stops, BranchStops;
    var done, t := Precheck(m, zo, zn, xo, xn, yo, yn);
    if done {
      ShortNever(f, V(s0, xo, xn), V(s0, yo, yn), zn, wn);
      Keeps2Intro(s0, m.cells, zo, zn, wo, wn);
      return true;
    }
    ghost var s1 := m.cells;
    TrimmedArgs(s0, s1, zo, zn, xo, xn, yo, yn, wo, wn, t);
    TrimmedStops(f, s0, s1, zo, zn, xo, xn, yo, yn, wn, t);
    hide MulArgs;
    if f.KaratsubaStart? {
      ok := KaratsubaBranch(m, t.zo, t.zn, t.xo, t.xn, t.yo, t.yn, wo, wn);
    } else {
      ok := Toom3Branch(m, t.zo, t.zn, t.xo, t.xn, t.yo, t.yn, wo, wn);
    }
    if ok {
      TrimmedDone(s0, s1, m.cells, zo, zn, xo, xn, yo, yn, wo, wn, t);
    }
  }

  lemma TrimmedStops(f: MulFunc, s0: seq<Digit>, s1: seq<Digit>, zo: nat, zn: nat, xo: nat, xn: nat, yo: nat, yn: nat,
                     wn: nat, t: Operands)
    requires zo + zn <= |s0| && xo + xn <= |s0| && yo + yn <= |s0| && Apart(xo, xn, zo, zn) && Apart(yo, yn, zo, zn)
    requires Trimmed(s0, s1, zo, zn, xo, xn, yo, yn, t)
    ensures Full(s1, t.xo, t.xn) && Full(s1, t.yo, t.yn)
    ensures Stops(f, V(s0, xo, xn), V(s0, yo, yn), zn, wn)
       <==> BranchStops(f, V(s1, t.xo, t.xn), V(s1, t.yo, t.yn), t.zn, wn)
  {
    hide V, Pow, Len, Low, Trim, BranchStops;
  }

  // Squaring or the schoolbook product
  method Normal(m: Memory, zo: nat, zn: nat, xo: nat, xn: nat, yo: nat, yn: nat, ghost wo: nat, ghost wn: nat)
    requires MulArgs(m.cells, zo, zn, xo, xn, yo, yn, wo, wn)
    modifies m
    ensures MulDone(old(m.cells), m.cells, zo, zn, xo, xn, yo, yn, wo, wn)
  {
    ghost var s0 := m.cells;
    hide V, Pow;
    if xo == yo && xn == yn {
      SqFast(m, zo, zn, xo, xn);
    } else {
      ShortMul(m, zo, zn, xo, xn, yo, yn);
    }
    Keeps2Intro(s0, m.cells, zo, zn, wo, wn);
  }

  method KaratsubaBranch(m: Memory, zo: nat, zn: nat, xo: nat, xn: nat, yo: nat, yn: nat, wo: nat, wn: nat)
    returns (ok: bool)
    requires MulArgs(m.cells, zo, zn, xo, xn, yo, yn, wo, wn) && 2 <= xn <= yn
    requires Full(m.cells, xo, xn) && Full(m.cells, yo, yn)
    modifies m
    ensures ok ==> MulDone(old(m.cells), m.cells, zo, zn, xo, xn, yo, yn, wo, wn)
    ensures ok <==> !BranchStops(KaratsubaStart, V(old(m.cells), xo, xn), V(old(m.cells), yo, yn), zn, wn)
    decreases xn + yn, 4
  {
    ghost var s0 := m.cells;
    hide V, Pow, KaratsubaStops, BalanceStops, Sparse;
    var sparseX := SparseP(m, xo, xn);
    var sparseY := SparseP(m, yo, yn);
    ok := true;
    if xn < KARATSUBA_MUL_DIGITS || sparseX {
      Normal(m, zo, zn, xo, xn, yo, yn, wo, wn);
    } else if sparseY {
      ShortMul(m, zo, zn, yo, yn, xo, xn);
      Keeps2Intro(s0, m.cells, zo, zn, wo, wn);
    } else if !KaratsubaBalanced(xn, yn) {
      ok := Balance(KaratsubaStart, m, zo, zn, xo, xn, yo, yn, wo, wn);
    } else {
      ok := Karatsuba(m, zo, zn, xo, xn, yo, yn, wo, wn);
    }
  }

  method Toom3Branch(m: Memory, zo: nat, zn: nat, xo: nat, xn: nat, yo: nat, yn: nat, wo: nat, wn: nat)
    returns (ok: bool)
    requires MulArgs(m.cells, zo, zn, xo, xn, yo, yn, wo, wn) && 2 <= xn <= yn
    requires Full(m.cells, xo, xn) && Full(m.cells, yo, yn)
    modifies m
    ensures ok ==> MulDone(old(m.cells), m.cells, zo, zn, xo, xn, yo, yn, wo, wn)
    ensures ok <==> !BranchStops(Toom3Start, V(old(m.cells), xo, xn), V(old(m.cells), yo, yn), zn, wn)
    decreases xn + yn, 5
  {
    hide V, Pow, KaratsubaStops, BalanceStops, Toom3Stops, Sparse;
    if xn < TOOM3_MUL_DIGITS {
      ok := KaratsubaBranch(m, zo, zn, xo, xn, yo, yn, wo, wn);
    } else if !Toom3Balanced(xn, yn) {
      ok := Balance(Toom3Start, m, zo, zn, xo, xn, yo, yn, wo, wn);
    } else {
      ok := Toom3(m, zo, zn, xo, xn, yo, yn, wo, wn);
    }
  }

  // ---- bary_mul_balance_with_mulfunc ----

  // What the callers of balancing guarantee.
  ghost predicate BalanceArgs(f: MulFunc, xn: nat, yn: nat)
  {
    && 0 < xn < yn
    && (if f.KaratsubaStart? then !KaratsubaBalanced(xn, yn)
        else TOOM3_MUL_DIGITS <= xn && !Toom3Balanced(xn, yn))
  }

  method Balance(f: MulFunc, m: Memory, zo: nat, zn: nat, xo: nat, xn: nat, yo: nat, yn: nat, wo: nat, wn: nat)
    returns (ok: bool)
    requires MulArgs(m.cells, zo, zn, xo, xn, yo, yn, wo, wn) && BalanceArgs(f, xn, yn)
    requires Full(m.cells, xo, xn) && Full(m.cells, yo, yn)
    modifies m
    ensures ok ==> MulDone(old(m.cells), m.cells, zo, zn, xo, xn, yo, yn, wo, wn)
    ensures ok <==> !BalanceStops(f, V(old(m.cells), xo, xn), V(old(m.cells), yo, yn), zn, wn)
    decreases xn + yn, 3
  {
    ghost var s0 := m.cells;
    var base := |m.cells|;
    hide V, Pow, SlicesStop;
    Zero(m, zo, xn);
    var w, wlen := wo, wn;
    if wn < xn {
      if 2 * xn + yn + LastSlice(xn, yn) > zn {
        wlen := xn;
        w := m.Alloc(wlen);
      }
    }
    ghost var s1 := m.cells;
    AllocKeeps(s0, s1, zo, xn, xo, xn, yo, yn);
    ok := BalanceLoop(f, m, zo, zn, xo, xn, yo, yn, w, wlen);
    if ok {
      ghost var s2 := m.cells;
      PadZeros(m, zo, xn + yn, zn);
      Keeps2Intro(s1, m.cells, zo, zn, w, wlen);
      FreeDone(s0, s1, m.cells, zo, zn, wo, wn, w, wlen);
      m.Free(base);
    }
  }

  // Clearing digits of z and allocating leave the operands alone.
  lemma AllocKeeps(s0: seq<Digit>, s1: seq<Digit>, zo: nat, zn: nat, xo: nat, xn: nat, yo: nat, yn: nat)
    requires zo + zn <= |s0| <= |s1| && xo + xn <= |s0| && yo + yn <= |s0|
    requires Apart(xo, xn, zo, zn) && Apart(yo, yn, zo, zn)
    requires KeepsCells(s0, s1[..|s0|], zo, zn)
    ensures V(s1, xo, xn) == V(s0, xo, xn) && V(s1, yo, yn) == V(s0, yo, yn)
    ensures V(s1, zo, zn) == V(s1[..|s0|], zo, zn)
  {
    KeepsIntro(s0, s1[..|s0|], zo, zn);
    VPrefix(s1[..|s0|], s1, xo, xn);
    VPrefix(s1[..|s0|], s1, yo, yn);
    VPrefix(s1[..|s0|], s1, zo, zn);
  }

  // Dropping an allocated workspace: what is left differs from s0 in z and the caller's workspace only.
  lemma FreeDone(s0: seq<Digit>, s1: seq<Digit>, s2: seq<Digit>, zo: nat, zn: nat, wo: nat, wn: nat, w: nat, wlen: nat)
    requires zo + zn <= |s0| <= |s1| == |s2| && wo + wn <= |s0| && (|s0| <= w || (w == wo && wlen == wn))
    requires forall i {:trigger s1[i]} :: 0 <= i < |s0| && (i < zo || zo + zn <= i) ==> s1[i] == s0[i]
    requires Keeps2(s1, s2, zo, zn, w, wlen)
    ensures Keeps2(s0, s2[..|s0|], zo, zn, wo, wn)
    ensures V(s2[..|s0|], zo, zn) == V(s2, zo, zn)
  {
    Keeps2Intro(s0, s2[..|s0|], zo, zn, wo, wn);
    VPrefix(s2[..|s0|], s2, zo, zn);
  }

  method BalanceLoop(f: MulFunc, m: Memory, zo: nat, zn: nat, xo: nat, xn: nat, yo: nat, yn: nat, wo: nat, wn: nat)
    returns (ok: bool)
    requires MulArgs(m.cells, zo, zn, xo, xn, yo, yn, wo, wn) && 0 < xn < yn
    requires Full(m.cells, xo, xn) && Full(m.cells, yo, yn) && V(m.cells, zo, xn) == 0
    modifies m
    ensures ok ==> Keeps2(old(m.cells), m.cells, zo, zn, wo, wn)
    ensures ok ==> V(m.cells, zo, xn + yn) == V(old(m.cells), xo, xn) * V(old(m.cells), yo, yn)
    ensures ok <==> !SlicesStop(f, V(old(m.cells), xo, xn), V(old(m.cells), yo, yn), zn, wn, 0)
    decreases xn + yn, 2
  {
    ghost var s0 := m.cells;
    ghost var x, y := V(s0, xo, xn), V(s0, yo, yn);
    var n := 0;
    hide SliceStops;
    while n < yn
      invariant n <= yn && (SlicesStop(f, x, y, zn, wn, 0) <==> SlicesStop(f, x, y, zn, wn, n))
      invariant Keeps2(s0, m.cells, zo, zn, wo, wn)
      invariant V(m.cells, zo, xn + n) == V(s0, xo, xn) * V(s0, yo, n)
    {
      hide V, Pow, Keeps2, MulArgs;
      var r := if xn > yn - n then yn - n else xn;
      ok := BalanceNext(f, m, s0, zo, zn, xo, xn, yo, yn, wo, wn, n, r);
      if !ok {
        return;
      }
      n := n + r;
    }
    ok := true;
  }

  method BalanceNext(f: MulFunc, m: Memory, ghost s0: seq<Digit>, zo: nat, zn: nat, xo: nat, xn: nat, yo: nat, yn: nat,
                     wo: nat, wn: nat, n: nat, r: nat)
    returns (ok: bool)
    requires MulArgs(s0, zo, zn, xo, xn, yo, yn, wo, wn) && 0 < xn < yn && n < yn && r == Min(xn, yn - n)
    requires Full(s0, xo, xn) && Full(s0, yo, yn) && Keeps2(s0, m.cells, zo, zn, wo, wn)
    requires V(m.cells, zo, xn + n) == V(s0, xo, xn) * V(s0, yo, n)
    modifies m
    ensures ok ==> Keeps2(s0, m.cells, zo, zn, wo, wn)
    ensures ok ==> V(m.cells, zo, xn + (n + r)) == V(s0, xo, xn) * V(s0, yo, n + r)
    ensures ok <==> !SliceStops(f, V(s0, xo, xn), V(s0, yo, yn), zn, wn, n)
    decreases xn + yn, 1, 1
  {
    hide V, Pow, SliceStops;
    ghost var s1 := m.cells;
    SliceSum(s1, zo, xo, xn, yo, n, r);
    ok := BalanceStep(f, m, zo, zn, xo, xn, yo, yn, wo, wn, n, r);
    if ok {
      SliceAdded(s1, m.cells, zo, xo, xn, yo, n, r);
      Keeps2Intro(s0, m.cells, zo, zn, wo, wn);
    }
  }

  lemma SliceSum(s: seq<Digit>, zo: nat, xo: nat, xn: nat, yo: nat, n: nat, r: nat)
    requires zo + xn + n <= |s| && xo + xn <= |s| && yo + n + r <= |s|
    requires V(s, zo, xn + n) == V(s, xo, xn) * V(s, yo, n)
    ensures V(s, zo, n) + Pow(n) * (V(s, zo + n, xn) + V(s, xo, xn) * V(s, yo + n, r)) == V(s, xo, xn) * V(s, yo, n + r)
    ensures V(s, zo + n, xn) + V(s, xo, xn) * V(s, yo + n, r) < Pow(xn + r)
  {
    VJoin(s, zo, n, zo + n, xn, xn + n);
    VSplit(s, yo, n, r);
    ProductBound(s, xo, xn, yo, n + r, xn + r + n);
    PowAdd(n, xn + r);
    assert n + (xn + r) == xn + r + n;
    hide V, Pow;
    SliceArith(V(s, zo, n), Pow(n), V(s, zo + n, xn), V(s, xo, xn), V(s, yo, n), V(s, yo + n, r), Pow(xn + r));
  }

  lemma SliceArith(low: nat, p: nat, z: nat, x: nat, y: nat, yr: nat, q: nat)
    requires low + p * z == x * y && x * (y + p * yr) < p * q
    ensures low + p * (z + x * yr) == x * (y + p * yr)
    ensures z + x * yr < q
  {
    assert x * (y + p * yr) == x * y + p * (x * yr);
    assert p * (z + x * yr) == p * z + p * (x * yr);
    if q <= z + x * yr {
      LeMul(p, q, z + x * yr);
    }
  }

  lemma SliceAdded(s1: seq<Digit>, s: seq<Digit>, zo: nat, xo: nat, xn: nat, yo: nat, n: nat, r: nat)
    requires zo + xn + n + r <= |s1| == |s| && xo + xn <= |s| && yo + n + r <= |s|
    requires V(s1, zo, n) + Pow(n) * (V(s1, zo + n, xn) + V(s1, xo, xn) * V(s1, yo + n, r)) == V(s1, xo, xn) * V(s1, yo, n + r)
    requires V(s, zo, n) == V(s1, zo, n)
    requires V(s, zo + n, xn + r) == V(s1, zo + n, xn) + V(s1, xo, xn) * V(s1, yo + n, r)
    ensures V(s, zo, xn + (n + r)) == V(s1, xo, xn) * V(s1, yo, n + r)
  {
    VJoin(s, zo, n, zo + n, xn + r, xn + (n + r));
  }

  // The product of x with the slice of r digits at n is added in at digit n of z.
  method BalanceStep(f: MulFunc, m: Memory, zo: nat, zn: nat, xo: nat, xn: nat, yo: nat, yn: nat, wo: nat, wn: nat,
                     n: nat, r: nat)
    returns (ok: bool)
    requires MulArgs(m.cells, zo, zn, xo, xn, yo, yn, wo, wn) && 0 < xn < yn && n < yn && r == Min(xn, yn - n)
    requires Full(m.cells, xo, xn) && Full(m.cells, yo, yn)
    requires V(m.cells, zo + n, xn) + V(m.cells, xo, xn) * V(m.cells, yo + n, r) < Pow(xn + r)
    modifies m
    ensures ok ==> Keeps2(old(m.cells), m.cells, zo + n, zn - n, wo, wn)
    ensures ok ==>
      V(m.cells, zo + n, xn + r)
      == V(old(m.cells), zo + n, xn) + V(old(m.cells), xo, xn) * V(old(m.cells), yo + n, r)
    ensures ok <==> !SliceStops(f, V(old(m.cells), xo, xn), V(old(m.cells), yo, yn), zn, wn, n)
    decreases xn + yn, 1, 0
  {
    hide V, Pow, Stops;
    PieceIs(m.cells, yo, yn, n, r);
    if 2 * (xn + r) <= zn - n {
      ok := SliceBeyond(f, m, zo, zn, xo, xn, yo, yn, wo, wn, n, r);
    } else if wn < xn {
      // rb_bug("wds is not enough")
      ok := false;
    } else {
      ok := SliceInPlace(f, m, zo, zn, xo, xn, yo, yn, wo, wn, n, r);
    }
  }

  // The product is formed beyond the digits in use and then added.
  method SliceBeyond(f: MulFunc, m: Memory, zo: nat, zn: nat, xo: nat, xn: nat, yo: nat, yn: nat, wo: nat, wn: nat,
                     n: nat, r: nat)
    returns (ok: bool)
    requires MulArgs(m.cells, zo, zn, xo, xn, yo, yn, wo, wn) && 0 < r <= xn < yn && n + r <= yn
    requires 2 * (xn + r) <= zn - n
    requires V(m.cells, zo + n, xn) + V(m.cells, xo, xn) * V(m.cells, yo + n, r) < Pow(xn + r)
    modifies m
    ensures ok ==> Keeps2(old(m.cells), m.cells, zo + n, zn - n, wo, wn)
    ensures ok ==>
      V(m.cells, zo + n, xn + r)
      == V(old(m.cells), zo + n, xn) + V(old(m.cells), xo, xn) * V(old(m.cells), yo + n, r)
    ensures ok <==> !Stops(f, V(old(m.cells), xo, xn), V(old(m.cells), yo + n, r), xn + r, wn)
    decreases xn + yn, 0
  {
    ghost var s0 := m.cells;
    var tds, tn := zo + n + xn + r, xn + r;
    hide V, Pow, Stops;
    ok := Start(f, m, tds, tn, xo, xn, yo + n, r, wo, wn);
    if ok {
      PadZeros(m, zo + n, xn, tn);
      Add(m, zo + n, tn, zo + n, tn, tds, tn);
      Keeps2Intro(s0, m.cells, zo + n, zn - n, wo, wn);
    }
  }

  // The digits of z in the way are saved in the workspace and added back.
  method SliceInPlace(f: MulFunc, m: Memory, zo: nat, zn: nat, xo: nat, xn: nat, yo: nat, yn: nat, wo: nat, wn: nat,
                      n: nat, r: nat)
    returns (ok: bool)
    requires MulArgs(m.cells, zo, zn, xo, xn, yo, yn, wo, wn) && 0 < r <= xn < yn && n + r <= yn
    requires xn <= wn
    requires V(m.cells, zo + n, xn) + V(m.cells, xo, xn) * V(m.cells, yo + n, r) < Pow(xn + r)
    modifies m
    ensures ok ==> Keeps2(old(m.cells), m.cells, zo + n, zn - n, wo, wn)
    ensures ok ==>
      V(m.cells, zo + n, xn + r)
      == V(old(m.cells), zo + n, xn) + V(old(m.cells), xo, xn) * V(old(m.cells), yo + n, r)
    ensures ok <==> !Stops(f, V(old(m.cells), xo, xn), V(old(m.cells), yo + n, r), xn + r, wn - xn)
    decreases xn + yn, 0
  {
    ghost var s0 := m.cells;
    hide V, Pow, Stops;
    Move(m, wo, zo + n, xn);
    ghost var s1 := m.cells;
    assert V(s1, xo, xn) == V(s0, xo, xn) && V(s1, yo + n, r) == V(s0, yo + n, r);
    ok := Start(f, m, zo + n, xn + r, xo, xn, yo + n, r, wo + xn, wn - xn);
    if ok {
      assert V(m.cells, wo, xn) == V(s1, wo, xn);
      Add(m, zo + n, xn + r, zo + n, xn + r, wo, xn);
      Keeps2Intro(s0, m.cells, zo + n, zn - n, wo, wn);
    }
  }

  // ---- bary_mul_karatsuba ----

  method Karatsuba(m: Memory, zo: nat, zn: nat, xo: nat, xn0: nat, yo: nat, yn0: nat, wo: nat, wn: nat)
    returns (ok: bool)
    requires MulArgs(m.cells, zo, zn, xo, xn0, yo, yn0, wo, wn) && 2 <= xn0 <= yn0 < 2 * xn0
    requires Full(m.cells, xo, xn0) && Full(m.cells, yo, yn0)
    modifies m
    ensures ok ==> MulDone(old(m.cells), m.cells, zo, zn, xo, xn0, yo, yn0, wo, wn)
    ensures ok <==> !KaratsubaStops(V(old(m.cells), xo, xn0), V(old(m.cells), yo, yn0), zn, wn)
    decreases xn0 + yn0, 3
  {
    ghost var s0 := m.cells;
    var base := |m.cells|;
    var n := yn0 / 2;
    hide V, Pow, HalvesStop;
    HalvesAre(s0, xo, xn0, yo, yn0, n);
    var w, wlen := wo, wn;
    if wn < n {
      wlen := 2 * n;
      w := m.Alloc(wlen);
    }
    ghost var s1 := m.cells;
    KeepsIntro(s0, s0, zo, 0);
    assert s1[..|s0|] == s0;
    AllocKeeps(s0, s1, zo, 0, xo, xn0, yo, yn0);
    SameHalves(s0, s1, xo, xn0, yo, yn0, n);
    ok := KaratsubaOdd(m, zo, zn, xo, xn0, yo, yn0, n, w, wlen);
    if ok {
      FreeDone(s0, s1, m.cells, zo, zn, wo, wn, w, wlen);
      m.Free(base);
    }
  }

  // The halves of x and y, without their top digits if their lengths are odd
  lemma HalvesAre(s: seq<Digit>, xo: nat, xn: nat, yo: nat, yn: nat, n: nat)
    requires xo + xn <= |s| && yo + yn <= |s| && n < xn <= yn && n == yn / 2
    ensures Piece(V(s, xo, xn), 0, n) == V(s, xo, n)
    ensures Piece(V(s, xo, xn), n, Min(xn, 2 * n) - n) == V(s, xo + n, Min(xn, 2 * n) - n)
    ensures Piece(V(s, yo, yn), 0, n) == V(s, yo, n) && Piece(V(s, yo, yn), n, n) == V(s, yo + n, n)
  {
    hide V, Pow, Piece;
    PieceIs(s, xo, xn, 0, n);
    PieceIs(s, xo, xn, n, Min(xn, 2 * n) - n);
    PieceIs(s, yo, yn, 0, n);
    PieceIs(s, yo, yn, n, n);
  }

  lemma SameHalves(s: seq<Digit>, t: seq<Digit>, xo: nat, xn: nat, yo: nat, yn: nat, n: nat)
    requires s <= t && xo + xn <= |s| && yo + yn <= |s| && n < xn <= yn && n == yn / 2
    ensures V(t, xo, n) == V(s, xo, n) && V(t, xo + n, Min(xn, 2 * n) - n) == V(s, xo + n, Min(xn, 2 * n) - n)
    ensures V(t, yo, n) == V(s, yo, n) && V(t, yo + n, n) == V(s, yo + n, n)
  {
    hide V;
    VPrefix(s, t, xo, n);
    VPrefix(s, t, xo + n, Min(xn, 2 * n) - n);
    VPrefix(s, t, yo, n);
    VPrefix(s, t, yo + n, n);
  }

  // The three products of the halves in memory stop.
  ghost predicate EvenStops(s: seq<Digit>, xo: nat, xn: nat, yo: nat, n: nat, zn: nat, rest: nat)
    requires n < xn && xo + xn <= |s| && yo + 2 * n <= |s|
  {
    HalvesStop(V(s, xo, n), V(s, xo + n, xn - n), V(s, yo, n), V(s, yo + n, n), n, xn - n, zn, rest)
  }

  // Splits off the top digits of odd lengths, and adds their products at the end.
  method KaratsubaOdd(m: Memory, zo: nat, zn: nat, xo: nat, xn0: nat, yo: nat, yn0: nat, n: nat, wo: nat, wn: nat)
    returns (ok: bool)
    requires MulArgs(m.cells, zo, zn, xo, xn0, yo, yn0, wo, wn) && 2 <= xn0 <= yn0 < 2 * xn0
    requires n == yn0 / 2 <= wn
    modifies m
    ensures ok ==> MulDone(old(m.cells), m.cells, zo, zn, xo, xn0, yo, yn0, wo, wn)
    ensures ok <==> !EvenStops(old(m.cells), xo, Min(xn0, 2 * n), yo, n, zn, wn - n)
    decreases xn0 + yn0, 2
  {
    var sq := xo == yo && xn0 == yn0;
    hide V, Pow, EvenStops;
    if yn0 % 2 == 0 {
      assert yn0 == 2 * n;
      ok := KaratsubaEven(m, zo, zn, xo, xn0, yo, n, sq, wo, wn);
    } else {
      assert yn0 == 2 * n + 1;
      if yn0 - 1 < xn0 {
        ok := KaratsubaOddBoth(m, zo, zn, xo, yo, n, sq, wo, wn);
      } else {
        ok := KaratsubaOddY(m, zo, zn, xo, xn0, yo, n, wo, wn);
      }
    }
  }

  // odd_y without odd_xy
  method KaratsubaOddY(m: Memory, zo: nat, zn: nat, xo: nat, xn: nat, yo: nat, n: nat, wo: nat, wn: nat)
    returns (ok: bool)
    requires MulArgs(m.cells, zo, zn, xo, xn, yo, 2 * n + 1, wo, wn) && 0 < n < xn <= 2 * n && n <= wn
    modifies m
    ensures ok ==> MulDone(old(m.cells), m.cells, zo, zn, xo, xn, yo, 2 * n + 1, wo, wn)
    ensures ok <==> !EvenStops(old(m.cells), xo, xn, yo, n, zn, wn - n)
    decreases xn + 2 * n, 2
  {
    ghost var s0 := m.cells;
    hide V, Pow, EvenStops;
    ok := KaratsubaEven(m, zo, zn, xo, xn, yo, n, false, wo, wn);
    if ok {
      AddTopDigit(m, zo, zn, xo, xn, yo, 2 * n, wo, wn);
      Keeps2Intro(s0, m.cells, zo, zn, wo, wn);
    }
  }

  // odd_xy: both lengths are 2n+1
  method KaratsubaOddBoth(m: Memory, zo: nat, zn: nat, xo: nat, yo: nat, n: nat, sq: bool, wo: nat, wn: nat)
    returns (ok: bool)
    requires MulArgs(m.cells, zo, zn, xo, 2 * n + 1, yo, 2 * n + 1, wo, wn) && 0 < n <= wn
    requires sq ==> xo == yo
    modifies m
    ensures ok ==> MulDone(old(m.cells), m.cells, zo, zn, xo, 2 * n + 1, yo, 2 * n + 1, wo, wn)
    ensures ok <==> !EvenStops(old(m.cells), xo, 2 * n, yo, n, zn, wn - n)
    decreases 2 * n + 2 * n, 2
  {
    ghost var s0 := m.cells;
    hide V, Pow, EvenStops;
    ok := KaratsubaEven(m, zo, zn, xo, 2 * n, yo, n, sq, wo, wn);
    if ok {
      AddTopDigit(m, zo, zn, xo, 2 * n, yo, 2 * n, wo, wn);
      Commute(V(m.cells, xo, 2 * n), V(m.cells, yo, 2 * n + 1));
      AddTopDigit(m, zo, zn, yo, 2 * n + 1, xo, 2 * n, wo, wn);
      Commute(V(m.cells, xo, 2 * n + 1), V(m.cells, yo, 2 * n + 1));
      Keeps2Intro(s0, m.cells, zo, zn, wo, wn);
    }
  }

  // z == x * (low yn digits of y); adds x times digit yn of y.
  method AddTopDigit(m: Memory, zo: nat, zn: nat, xo: nat, xn: nat, yo: nat, yn: nat, ghost wo: nat, ghost wn: nat)
    requires MulArgs(m.cells, zo, zn, xo, xn, yo, yn + 1, wo, wn)
    requires V(m.cells, zo, zn) == V(m.cells, xo, xn) * V(m.cells, yo, yn)
    modifies m
    ensures Keeps(old(m.cells), m.cells, zo, zn)
    ensures V(m.cells, zo, zn) == V(old(m.cells), xo, xn) * V(old(m.cells), yo, yn + 1)
  {
    ghost var s0 := m.cells;
    var c := MulAdd1xN(m, zo + yn, zn - yn, m.cells[yo + yn], xo, xn);
    VLift(s0, m.cells, zo, zn, yn, s0[yo + yn] * V(s0, xo, xn), c);
    ProductBound(s0, xo, xn, yo, yn + 1, zn);
    TopDigitArith(V(s0, xo, xn), V(s0, yo, yn), s0[yo + yn], Pow(yn));
    hide V, Pow;
    KeepsIntro(s0, m.cells, zo, zn);
    NoCarry(V(m.cells, zo, zn), c, Pow(zn));
  }

  lemma Commute(a: int, b: int)
    ensures a * b == b * a
  {
  }

  lemma TopDigitArith(x: nat, y: nat, d: nat, p: nat)
    ensures x * y + p * (d * x) == x * (y + d * p)
  {
    assert p * (d * x) == x * (d * p);
  }

  // The ranges of one level: yn == 2n and n < xn <= 2n, with at least n digits of workspace.
  ghost predicate EvenArgs(s: seq<Digit>, zo: nat, zn: nat, xo: nat, xn: nat, yo: nat, n: nat, wo: nat, wn: nat)
  {
    && MulArgs(s, zo, zn, xo, xn, yo, 2 * n, wo, wn) && 0 < n < xn <= 2 * n && n <= wn
  }

  method KaratsubaEven(m: Memory, zo: nat, zn: nat, xo: nat, xn: nat, yo: nat, n: nat, sq: bool, wo: nat, wn: nat)
    returns (ok: bool)
    requires EvenArgs(m.cells, zo, zn, xo, xn, yo, n, wo, wn)
    requires sq ==> xo == yo && xn == 2 * n
    modifies m
    ensures ok ==> MulDone(old(m.cells), m.cells, zo, zn, xo, xn, yo, 2 * n, wo, wn)
    ensures ok <==> !EvenStops(old(m.cells), xo, xn, yo, n, zn, wn - n)
    decreases xn + 2 * n, 1
  {
    ghost var s0 := m.cells;
    var borrow, carry1, carry2: nat;
    HalvesFit(s0, xo, xn, yo, n);
    hide V, Pow, Stops, Halves, EvenArgs, Keeps2;
    assert MulArgs(s0, zo, zn, xo, xn, yo, 2 * n, wo, wn) && n < xn by { hide *; UnfoldArgs(s0, zo, zn, xo, xn, yo, n, wo, wn); }
    ok, borrow := MiddleProduct(m, zo, zn, xo, xn, yo, n, sq, wo, wn);
    if !ok {
      return;
    }
    ghost var s1 := m.cells;
    SameOperands(s0, s1, zo, zn, xo, xn, yo, n, wo, wn);
    ok, carry1, carry2 := LowProduct(m, zo, zn, xo, xn, yo, n, wo, wn);
    if !ok {
      return;
    }
    ghost var s2 := m.cells;
    Keeps2Then(s0, s1, s2, zo, zn, wo, wn);
    SameOperands(s0, s2, zo, zn, xo, xn, yo, n, wo, wn);
    ghost var k;
    ok, k := HighProduct(m, zo, zn, xo, xn, yo, n, wo, wn, borrow, carry1, carry2);
    if !ok {
      return;
    }
    Keeps2Then(s0, s2, m.cells, zo, zn, wo, wn);
    EvenTotal(s0, zo, zn, xo, xn, yo, n, V(s1, zo + n, 2 * n), borrow, V(s2, zo, 2 * n), V(s2, wo, n), carry1, carry2,
              V(m.cells, zo, zn), k) by { VBound(m.cells, zo, zn); }
  }

  lemma UnfoldArgs(s: seq<Digit>, zo: nat, zn: nat, xo: nat, xn: nat, yo: nat, n: nat, wo: nat, wn: nat)
    requires EvenArgs(s, zo, zn, xo, xn, yo, n, wo, wn)
    ensures MulArgs(s, zo, zn, xo, xn, yo, 2 * n, wo, wn) && n < xn
  {
  }

  lemma SameOperands(s: seq<Digit>, t: seq<Digit>, zo: nat, zn: nat, xo: nat, xn: nat, yo: nat, n: nat, wo: nat, wn: nat)
    requires EvenArgs(s, zo, zn, xo, xn, yo, n, wo, wn) && Keeps2(s, t, zo, zn, wo, wn)
    ensures EvenArgs(t, zo, zn, xo, xn, yo, n, wo, wn)
    ensures V(t, xo, n) == V(s, xo, n) && V(t, xo + n, xn - n) == V(s, xo + n, xn - n)
    ensures V(t, yo, n) == V(s, yo, n) && V(t, yo + n, n) == V(s, yo + n, n)
  {
    hide V;
  }

  lemma HalvesFit(s: seq<Digit>, xo: nat, xn: nat, yo: nat, n: nat)
    requires n < xn <= 2 * n && xo + xn <= |s| && yo + 2 * n <= |s|
    ensures Halves(V(s, xo, n), V(s, xo + n, xn - n), V(s, yo, n), V(s, yo + n, n), n, xn - n)
  {
    VBound(s, xo, n);
    VBound(s, xo + n, xn - n);
    VBound(s, yo, n);
    VBound(s, yo + n, n);
  }

  lemma EvenTotal(s: seq<Digit>, zo: nat, zn: nat, xo: nat, xn: nat, yo: nat, n: nat, z12: nat, borrow: nat,
                  low: nat, w: nat, c1: nat, c2: nat, z: nat, k: int)
    requires xo + xn <= |s| && yo + 2 * n <= |s| && n < xn && xn + 2 * n <= zn && z < Pow(zn)
    requires z12 - borrow * Pow(2 * n)
          == -((V(s, xo + n, xn - n) - V(s, xo, n)) * (V(s, yo + n, n) - V(s, yo, n)))
    requires low + Pow(2 * n) * (c2 + w + Pow(n) * c1)
          == V(s, xo, n) * V(s, yo, n) + Pow(n) * (z12 + V(s, xo, n) * V(s, yo, n))
    requires z + k * Pow(zn)
          == low + Pow(2 * n) * (V(s, xo + n, xn - n) * V(s, yo + n, n)) + Pow(n) * (V(s, xo + n, xn - n) * V(s, yo + n, n))
             + Pow(2 * n) * (w + c2) + Pow(3 * n) * (c1 - borrow)
    ensures z == V(s, xo, xn) * V(s, yo, 2 * n)
  {
    VJoin(s, xo, n, xo + n, xn - n, xn);
    VJoin(s, yo, n, yo + n, n, 2 * n);
    PowAdd(n, n);
    PowAdd(2 * n, n);
    ProductBound(s, xo, xn, yo, 2 * n, zn);
    hide V, Pow;
    KaratsubaTotal(V(s, xo, n), V(s, xo + n, xn - n), V(s, yo, n), V(s, yo + n, n), Pow(n), z12, borrow, low, w, c1, c2,
                   z + k * Pow(zn));
    SameResidue(z, V(s, xo, xn) * V(s, yo, 2 * n), k, Pow(zn));
  }

  // x0*y0 into z0,z1, and the first two rounds of carries.
  method LowProduct(m: Memory, zo: nat, zn: nat, xo: nat, xn: nat, yo: nat, n: nat, wo: nat, wn: nat)
    returns (ok: bool, carry1: nat, carry2: nat)
    requires EvenArgs(m.cells, zo, zn, xo, xn, yo, n, wo, wn)
    modifies m
    ensures ok ==> Keeps2(old(m.cells), m.cells, zo, zn, wo, wn) && carry1 <= 1 && carry2 <= 1
    ensures ok ==>
      V(m.cells, zo, 2 * n) + Pow(2 * n) * (carry2 + V(m.cells, wo, n) + Pow(n) * carry1)
      == V(old(m.cells), xo, n) * V(old(m.cells), yo, n)
         + Pow(n) * (V(old(m.cells), zo + n, 2 * n) + V(old(m.cells), xo, n) * V(old(m.cells), yo, n))
    ensures ok <==> !Stops(KaratsubaStart, V(old(m.cells), xo, n), V(old(m.cells), yo, n), 2 * n, wn - n)
    decreases xn + 2 * n, 0
  {
    ghost var s0 := m.cells;
    hide V, Pow;
    VJoin(s0, zo + n, n, zo + 2 * n, n, 2 * n);
    Move(m, wo, zo + n, n);
    carry1, carry2 := 0, 0;
    ok := Start(KaratsubaStart, m, zo, 2 * n, xo, n, yo, n, wo + n, wn - n);
    if ok {
      carry1, carry2 := AddLowProduct(m, zo, n, wo);
      Keeps2Intro(s0, m.cells, zo, zn, wo, wn);
    }
  }

  // x1*y1 into z2,z3, and the remaining carries; exact modulo B^zn.
  method HighProduct(m: Memory, zo: nat, zn: nat, xo: nat, xn: nat, yo: nat, n: nat, wo: nat, wn: nat,
                     borrow: nat, carry1: nat, carry2: nat)
    returns (ok: bool, ghost k: int)
    requires EvenArgs(m.cells, zo, zn, xo, xn, yo, n, wo, wn)
    requires borrow <= 1 && carry1 <= 1 && carry2 <= 1
    modifies m
    ensures ok ==> Keeps2(old(m.cells), m.cells, zo, zn, wo, wn)
    ensures ok ==>
      V(m.cells, zo, zn) + k * Pow(zn)
      == V(old(m.cells), zo, 2 * n)
         + Pow(2 * n) * (V(old(m.cells), xo + n, xn - n) * V(old(m.cells), yo + n, n))
         + Pow(n) * (V(old(m.cells), xo + n, xn - n) * V(old(m.cells), yo + n, n))
         + Pow(2 * n) * (V(old(m.cells), wo, n) + carry2) + Pow(3 * n) * (carry1 - borrow)
    ensures ok <==>
      !Stops(KaratsubaStart, V(old(m.cells), xo + n, xn - n), V(old(m.cells), yo + n, n), zn - 2 * n, wn - n)
    decreases xn + 2 * n, 0
  {
    ghost var s0 := m.cells;
    ProductBound(s0, xo + n, xn - n, yo + n, n, 2 * n);
    hide V, Pow;
    k := 0;
    ok := Start(KaratsubaStart, m, zo + 2 * n, zn - 2 * n, xo + n, xn - n, yo + n, n, wo + n, wn - n);
    if ok {
      k := HighSums(m, zo, zn, n, wo, borrow, carry1, carry2);
      Keeps2Intro(s0, m.cells, zo, zn, wo, wn);
    }
  }

  // x1*y1, in z2,z3, is added to z1,z2, and the carries to z2,z3.
  method HighSums(m: Memory, zo: nat, zn: nat, n: nat, wo: nat, borrow: nat, carry1: nat, carry2: nat) returns (ghost k: int)
    requires zo + zn <= |m.cells| && 3 * n < zn && wo + n <= |m.cells| && Apart(wo, n, zo, zn)
    requires V(m.cells, zo + 2 * n, zn - 2 * n) < Pow(2 * n) && borrow <= 1 && carry1 <= 1 && carry2 <= 1
    modifies m
    ensures Keeps(old(m.cells), m.cells, zo, zn)
    ensures V(m.cells, zo, zn) + k * Pow(zn)
         == V(old(m.cells), zo, 2 * n) + Pow(2 * n) * V(old(m.cells), zo + 2 * n, zn - 2 * n)
            + Pow(n) * V(old(m.cells), zo + 2 * n, zn - 2 * n)
            + Pow(2 * n) * (V(old(m.cells), wo, n) + carry2) + Pow(3 * n) * (carry1 - borrow)
  {
    ghost var s0 := m.cells;
    hide V, Pow;
    VJoin(s0, zo, 2 * n, zo + 2 * n, zn - 2 * n, zn);
    var carry3 := AddHighProduct(m, zo, zn, n);
    ghost var s1 := m.cells;
    k := AddCarries(m, zo, zn, n, wo, carry1, carry2, carry3, borrow);
    TimesDifference(Pow(3 * n), carry1, carry3, borrow);
    KeepsThen(s0, s1, m.cells, zo, zn, zo, zn);
  }

  lemma TimesDifference(p: int, a: int, b: int, c: int)
    ensures p * (a + b - c) == p * (a - c) + p * b
  {
  }

  // z1,z2 <- -(x1-x0)*(y1-y0), modulo B^(2n); the borrow says whether B^(2n) was added.
  method MiddleProduct(m: Memory, zo: nat, zn: nat, xo: nat, xn: nat, yo: nat, n: nat, sq: bool, wo: nat, wn: nat)
    returns (ok: bool, borrow: nat)
    requires EvenArgs(m.cells, zo, zn, xo, xn, yo, n, wo, wn)
    requires sq ==> xo == yo && xn == 2 * n
    modifies m
    ensures ok ==> Keeps2(old(m.cells), m.cells, zo, zn, wo, wn) && borrow <= 1
    ensures ok ==>
      V(m.cells, zo + n, 2 * n) - borrow * Pow(2 * n)
      == -((V(old(m.cells), xo + n, xn - n) - V(old(m.cells), xo, n))
           * (V(old(m.cells), yo + n, n) - V(old(m.cells), yo, n)))
    ensures ok <==>
      !Stops(KaratsubaStart, Abs(V(old(m.cells), xo, n) - V(old(m.cells), xo + n, xn - n)),
             Abs(V(old(m.cells), yo, n) - V(old(m.cells), yo + n, n)), 2 * n, wn - n)
    decreases xn + 2 * n, 0
  {
    ghost var s0 := m.cells;
    hide V, Pow;
    borrow := 0;
    var sameSign;
    ok, sameSign := AbsProduct(m, zo, zn, xo, xn, yo, n, sq, wo, wn);
    if ok {
      SignedProduct(V(s0, xo, n), V(s0, xo + n, xn - n), V(s0, yo, n), V(s0, yo + n, n), V(m.cells, zo + n, 2 * n));
      if sameSign {
        var zero := TwoComp(m, zo + n, 2 * n);
        borrow := 1 - zero;
      }
      Keeps2Intro(s0, m.cells, zo, zn, wo, wn);
    }
  }

  // z1,z2 <- |x0-x1| * |y0-y1|
  method AbsProduct(m: Memory, zo: nat, zn: nat, xo: nat, xn: nat, yo: nat, n: nat, sq: bool, wo: nat, wn: nat)
    returns (ok: bool, sameSign: bool)
    requires EvenArgs(m.cells, zo, zn, xo, xn, yo, n, wo, wn)
    requires sq ==> xo == yo && xn == 2 * n
    modifies m
    ensures ok ==> Keeps2(old(m.cells), m.cells, zo, zn, wo, wn)
    ensures
      sameSign
      == ((V(old(m.cells), xo, n) < V(old(m.cells), xo + n, xn - n))
          == (V(old(m.cells), yo, n) < V(old(m.cells), yo + n, n)))
    ensures ok ==>
      V(m.cells, zo + n, 2 * n)
      == Abs(V(old(m.cells), xo, n) - V(old(m.cells), xo + n, xn - n))
         * Abs(V(old(m.cells), yo, n) - V(old(m.cells), yo + n, n))
    ensures ok <==>
      !Stops(KaratsubaStart, Abs(V(old(m.cells), xo, n) - V(old(m.cells), xo + n, xn - n)),
             Abs(V(old(m.cells), yo, n) - V(old(m.cells), yo + n, n)), 2 * n, wn - n)
    decreases xn + 2 * n, 0, 0
  {
    ghost var s0 := m.cells;
    hide V, Pow;
    ghost var a, b := Abs(V(s0, xo, n) - V(s0, xo + n, xn - n)), Abs(V(s0, yo, n) - V(s0, yo + n, n));
    var xneg := AbsDiff(m, zo, n, xo, n, xo + n, xn - n);
    assert V(m.cells, zo, n) == a;
    if sq {
      assert a == b;
      sameSign := true;
      SquareNever(KaratsubaStart, a, 2 * n, wn);
      SquareNever(KaratsubaStart, a, 2 * n, wn - n);
      ok := Start(KaratsubaStart, m, zo + n, 2 * n, zo, n, zo, n, wo, wn);
      if ok {
        Keeps2Intro(s0, m.cells, zo, zn, wo, wn);
      }
    } else {
      var yneg;
      ok, yneg := AbsProductY(m, zo, zn, yo, n, wo, wn);
      sameSign := xneg == yneg;
      if ok {
        Keeps2Intro(s0, m.cells, zo, zn, wo, wn);
      }
    }
  }

  // z1,z2 <- z0 * |y0-y1|
  method AbsProductY(m: Memory, zo: nat, zn: nat, yo: nat, n: nat, wo: nat, wn: nat) returns (ok: bool, yneg: bool)
    requires MulArgs(m.cells, zo, zn, yo, 0, yo, 2 * n, wo, wn) && 0 < n <= wn && 3 * n <= zn
    modifies m
    ensures ok ==> Keeps2(old(m.cells), m.cells, zo, zn, wo, wn)
    ensures yneg <==> V(old(m.cells), yo, n) < V(old(m.cells), yo + n, n)
    ensures ok ==>
      V(m.cells, zo + n, 2 * n) == V(old(m.cells), zo, n) * Abs(V(old(m.cells), yo, n) - V(old(m.cells), yo + n, n))
    ensures ok <==>
      !Stops(KaratsubaStart, V(old(m.cells), zo, n), Abs(V(old(m.cells), yo, n) - V(old(m.cells), yo + n, n)), 2 * n, wn - n)
    decreases 3 * n, 0
  {
    ghost var s0 := m.cells;
    hide V, Pow;
    yneg := AbsDiff(m, wo, n, yo, n, yo + n, n);
    ok := Start(KaratsubaStart, m, zo + n, 2 * n, zo, n, wo, n, wo + n, wn - n);
    if ok {
      Keeps2Intro(s0, m.cells, zo, zn, wo, wn);
    }
  }

  lemma SignedProduct(x0: nat, x1: nat, y0: nat, y1: nat, d: nat)
    requires d == Abs(x0 - x1) * Abs(y0 - y1)
    ensures (x1 - x0) * (y1 - y0) == if (x0 < x1) == (y0 < y1) then d else -(d as int)
  {
  }

  // ---- bary_mul_toom3 ----

  method Toom3(m: Memory, zo: nat, zn: nat, xo: nat, xn: nat, yo: nat, yn: nat, wo: nat, wn: nat)
    returns (ok: bool)
    requires MulArgs(m.cells, zo, zn, xo, xn, yo, yn, wo, wn) && TOOM3_MUL_DIGITS <= xn <= yn && Toom3Balanced(xn, yn)
    requires Full(m.cells, xo, xn) && Full(m.cells, yo, yn)
    modifies m
    ensures ok ==> MulDone(old(m.cells), m.cells, zo, zn, xo, xn, yo, yn, wo, wn)
    ensures ok <==> !Toom3Stops(V(old(m.cells), xo, xn), V(old(m.cells), yo, yn), wn)
    decreases xn + yn, 3
  {
    ghost var s0 := m.cells;
    var base := |m.cells|;
    var n := (yn + 2) / 3;
    hide V, Pow, PiecesStop;
    PiecesAre(s0, xo, xn, n);
    PiecesAre(s0, yo, yn, n);
    var w, wlen := wo, wn;
    if wn < Toom3Work(n) {
      wlen := Toom3Work(n) * 3 / 2;
      w := m.Alloc(wlen);
    }
    ghost var s1 := m.cells;
    assert s1[..|s0|] == s0;
    AllocKeeps(s0, s1, zo, 0, xo, xn, yo, yn);
    PiecesAre(s1, xo, xn, n);
    PiecesAre(s1, yo, yn, n);
    ok := Toom3Body(m, zo, zn, xo, xn, yo, yn, n, w, wlen);
    if ok {
      FreeDone(s0, s1, m.cells, zo, zn, wo, wn, w, wlen);
      m.Free(base);
    }
  }

  // The pieces of an operand in memory
  ghost function PiecesOf(s: seq<Digit>, o: nat, len: nat, n: nat): Pieces
    requires 2 * n < len && o + len <= |s|
  {
    Pieces(V(s, o, n), V(s, o + n, n), V(s, o + 2 * n, len - 2 * n))
  }

  lemma PiecesAre(s: seq<Digit>, o: nat, len: nat, n: nat)
    requires 2 * n < len <= 3 * n && o + len <= |s|
    ensures PiecesOf(s, o, len, n) == Cut3(V(s, o, len), n)
  {
    hide V, Pow, Piece;
    PieceIs(s, o, len, 0, n);
    PieceIs(s, o, len, n, n);
    TopPiece(s, o, len, 2 * n, n);
  }

  ghost predicate Toom3Args(s: seq<Digit>, zo: nat, zn: nat, xo: nat, xn: nat, yo: nat, yn: nat, n: nat, wo: nat, wn: nat)
  {
    && MulArgs(s, zo, zn, xo, xn, yo, yn, wo, wn) && 0 < n && 2 * n < xn <= yn <= 3 * n
    && Toom3Work(n) <= wn
  }

  method Toom3Body(m: Memory, zo: nat, zn: nat, xo: nat, xn: nat, yo: nat, yn: nat, n: nat, wo: nat, wn: nat)
    returns (ok: bool)
    requires Toom3Args(m.cells, zo, zn, xo, xn, yo, yn, n, wo, wn)
    modifies m
    ensures ok ==> MulDone(old(m.cells), m.cells, zo, zn, xo, xn, yo, yn, wo, wn)
    ensures ok <==>
      !PiecesStop(PiecesOf(old(m.cells), xo, xn, n), PiecesOf(old(m.cells), yo, yn, n), n, wn - Toom3Work(n))
    decreases xn + yn, 2
  {
    ghost var s0 := m.cells;
    hide V, Pow, PiecesStop;
    var t2p, t3p: bool;
    ok, t2p, t3p := Toom3Points(m, zo, zn, xo, xn, yo, yn, n, wo, wn);
    if ok {
      ghost var z := PiecesProduct(s0, xo, xn, yo, yn, n);
      ProductOfPieces(s0, xo, xn, yo, yn, n, zn);
      Interpolate(m, wo, n, t2p, t3p, z);
      CopyResult(m, zo, zn, wo, 6 * n + 1, xn + yn);
      Keeps2Intro(s0, m.cells, zo, zn, wo, wn);
    }
  }

  ghost function PiecesProduct(s: seq<Digit>, xo: nat, xn: nat, yo: nat, yn: nat, n: nat): Poly
    requires xo + xn <= |s| && yo + yn <= |s| && 2 * n < xn <= yn
  {
    Product(V(s, xo, n), V(s, xo + n, n), V(s, xo + 2 * n, xn - 2 * n),
            V(s, yo, n), V(s, yo + n, n), V(s, yo + 2 * n, yn - 2 * n))
  }

  lemma ProductOfPieces(s: seq<Digit>, xo: nat, xn: nat, yo: nat, yn: nat, n: nat, zn: nat)
    requires xo + xn <= |s| && yo + yn <= |s| && 2 * n < xn <= yn <= 3 * n && xn + yn <= zn
    ensures At(PiecesProduct(s, xo, xn, yo, yn, n), Pow(n)) == V(s, xo, xn) * V(s, yo, yn)
    ensures V(s, xo, xn) * V(s, yo, yn) < Pow(xn + yn) <= Pow(6 * n + 1)
    ensures Small(PiecesProduct(s, xo, xn, yo, yn, n), Pow(2 * n))
    ensures 65536 * Pow(2 * n) <= Pow(2 * n + 1)
  {
    ThreePieces(s, xo, xn, n);
    ThreePieces(s, yo, yn, n);
    ProductBound(s, xo, xn, yo, yn, xn + yn);
    PowMono(xn + yn, 6 * n + 1);
    BLarge();
    MulLe(65536, B, Pow(2 * n));
    assert Pow(2 * n + 1) == B * Pow(2 * n);
    PowAdd(n, n);
    hide V, Pow, At;
    ProductAt(V(s, xo, n), V(s, xo + n, n), V(s, xo + 2 * n, xn - 2 * n),
              V(s, yo, n), V(s, yo + n, n), V(s, yo + 2 * n, yn - 2 * n), Pow(n));
    ProductSmall(V(s, xo, n), V(s, xo + n, n), V(s, xo + 2 * n, xn - 2 * n),
                 V(s, yo, n), V(s, yo + n, n), V(s, yo + 2 * n, yn - 2 * n), Pow(n));
  }

  lemma ThreePieces(s: seq<Digit>, xo: nat, xn: nat, n: nat)
    requires xo + xn <= |s| && 2 * n < xn <= 3 * n
    ensures V(s, xo, xn) == V(s, xo, n) + Pow(n) * V(s, xo + n, n) + (Pow(n) * Pow(n)) * V(s, xo + 2 * n, xn - 2 * n)
    ensures V(s, xo, n) < Pow(n) && V(s, xo + n, n) < Pow(n) && V(s, xo + 2 * n, xn - 2 * n) < Pow(n)
  {
    VJoin(s, xo, 2 * n, xo + 2 * n, xn - 2 * n, xn);
    VJoin(s, xo, n, xo + n, n, 2 * n);
    PowAdd(n, n);
    PieceBounds(s, xo, n, xn - 2 * n);
  }

  // Steps 2 and 3 on the workspace at wo.
  method Interpolate(m: Memory, wo: nat, n: nat, t2p: bool, t3p: bool, ghost z: Poly)
    requires wo + Toom3Work(n) <= |m.cells| && 0 < n
    requires Points(LayoutAt(wo, n), m.cells, t2p, t3p, z)
    requires Small(z, Pow(2 * n)) && 65536 * Pow(2 * n) <= Pow(2 * n + 1)
    requires At(z, Pow(n)) < Pow(6 * n + 1)
    modifies m
    ensures Keeps(old(m.cells), m.cells, wo, Toom3Work(n))
    ensures V(m.cells, wo, 6 * n + 1) == At(z, Pow(n))
  {
    ghost var s0 := m.cells;
    hide V, Pow, At, Small;
    var l := LayoutAt(wo, n);
    var z1p, z2p, z3p := Differences(m, l, t2p, t3p, z, Pow(2 * n));
    z1p, z2p, z3p := Combine(m, l, z1p, z2p, z3p, z, Pow(2 * n));
    Substitute(m, wo, l, z1p, z2p, z3p, z);
    KeepsIntro(s0, m.cells, wo, Toom3Work(n));
  }

  // BARY_TRUNC, then copying what is left into z.
  method CopyResult(m: Memory, zo: nat, zn: nat, wo: nat, wn: nat, ghost total: nat)
    requires zo + zn <= |m.cells| && wo + wn <= |m.cells| && Apart(wo, wn, zo, zn) && total <= zn
    requires V(m.cells, wo, wn) < Pow(total)
    modifies m
    ensures Keeps(old(m.cells), m.cells, zo, zn)
    ensures V(m.cells, zo, zn) == V(old(m.cells), wo, wn)
  {
    ghost var s0 := m.cells;
    var k := Trunc(m, wo, wn);
    if k != 0 {
      VPositive(m.cells, wo, k, k - 1);
      if total < k {
        PowMono(total, k - 1);
      }
    }
    hide V, Pow;
    Move(m, zo, wo, k);
    PadZeros(m, zo, k, zn);
    KeepsIntro(s0, m.cells, zo, zn);
  }

  // Step 1: evaluates both operands and multiplies the values.
  method Toom3Points(m: Memory, zo: nat, zn: nat, xo: nat, xn: nat, yo: nat, yn: nat, n: nat, wo: nat, wn: nat)
    returns (ok: bool, t2p: bool, t3p: bool)
    requires Toom3Args(m.cells, zo, zn, xo, xn, yo, yn, n, wo, wn)
    modifies m
    ensures ok ==> Keeps(old(m.cells), m.cells, wo, wn)
    ensures ok ==> Points(LayoutAt(wo, n), m.cells, t2p, t3p, PiecesProduct(old(m.cells), xo, xn, yo, yn, n))
    ensures ok <==>
      !PiecesStop(PiecesOf(old(m.cells), xo, xn, n), PiecesOf(old(m.cells), yo, yn, n), n, wn - Toom3Work(n))
    decreases xn + yn, 1
  {
    ghost var s0 := m.cells;
    hide V, Pow, Signed, Points, PiecesStop, FiveStop;
    var l := LayoutAt(wo, n);
    var vo, u2p, u3p, v2p, v3p := EvaluateBoth(m, xo, xn, yo, yn, n, wo);
    ghost var s1 := m.cells;
    ok := FiveProducts(m, xo, xn, yo, yn, n, wo, vo, l.t0, l.t1, l.t4, wo + Toom3Work(n), wn - Toom3Work(n));
    FiveArePieces(s0, s1, xo, xn, yo, yn, n, wo, vo, u2p, u3p, v2p, v3p, wn - Toom3Work(n));
    t2p, t3p := u2p == v2p, u3p == v3p;
    if ok {
      KeepsIntro(s0, m.cells, wo, wn);
      PointsOfPieces(s0, s1, m.cells, xo, xn, yo, yn, n, wo, vo, l, u2p, u3p, v2p, v3p);
    }
  }

  // The five products of the pieces and values in memory
  ghost predicate FiveStop(s: seq<Digit>, xo: nat, xn: nat, yo: nat, yn: nat, n: nat, uo: nat, vo: nat, rest: nat)
    requires 2 * n < xn && 2 * n < yn && xo + xn <= |s| && yo + yn <= |s|
    requires uo + 3 * (n + 1) <= |s| && vo + 3 * (n + 1) <= |s|
  {
    || Stops(Toom3Start, V(s, xo, n), V(s, yo, n), 2 * n, rest)
    || ThreeStop(s, n, uo, vo, rest)
    || Stops(Toom3Start, V(s, xo + 2 * n, xn - 2 * n), V(s, yo + 2 * n, yn - 2 * n), 2 * n, rest)
  }

  ghost predicate ThreeStop(s: seq<Digit>, n: nat, uo: nat, vo: nat, rest: nat)
    requires uo + 3 * (n + 1) <= |s| && vo + 3 * (n + 1) <= |s|
  {
    || Stops(Toom3Start, V(s, uo, n + 1), V(s, vo, n + 1), 2 * n + 2, rest)
    || Stops(Toom3Start, V(s, uo + (n + 1), n + 1), V(s, vo + (n + 1), n + 1), 2 * n + 2, rest)
    || Stops(Toom3Start, V(s, uo + 2 * (n + 1), n + 1), V(s, vo + 2 * (n + 1), n + 1), 2 * n + 2, rest)
  }

  lemma FiveArePieces(s0: seq<Digit>, s1: seq<Digit>, xo: nat, xn: nat, yo: nat, yn: nat, n: nat, uo: nat, vo: nat,
                      u2p: bool, u3p: bool, v2p: bool, v3p: bool, rest: nat)
    requires xo + xn <= |s0| == |s1| && yo + yn <= |s0| && 2 * n < xn <= yn <= 3 * n
    requires uo + 3 * (n + 1) <= |s1| && vo + 3 * (n + 1) <= |s1|
    requires Keeps(s0, s1, uo, 6 * (n + 1)) && Apart(xo, xn, uo, 6 * (n + 1)) && Apart(yo, yn, uo, 6 * (n + 1))
    requires Evaluated(s0, s1, xo, xn, n, uo, u2p, u3p) && Evaluated(s0, s1, yo, yn, n, vo, v2p, v3p)
    ensures FiveStop(s1, xo, xn, yo, yn, n, uo, vo, rest)
       <==> PiecesStop(PiecesOf(s0, xo, xn, n), PiecesOf(s0, yo, yn, n), n, rest)
  {
    PiecesFit(s0, xo, xn, n);
    PiecesFit(s0, yo, yn, n);
    hide V, Pow, Stops, Bounded;
    ValuesArePieces(s0, s1, xo, xn, n, uo, u2p, u3p);
    ValuesArePieces(s0, s1, yo, yn, n, vo, v2p, v3p);
    hide Evaluated, AtOne, AtMinusOne, AtMinusTwo;
  }

  lemma ValuesArePieces(s0: seq<Digit>, s1: seq<Digit>, xo: nat, xn: nat, n: nat, uo: nat, u2p: bool, u3p: bool)
    requires xo + xn <= |s0| && 2 * n < xn && uo + 3 * (n + 1) <= |s1| && Evaluated(s0, s1, xo, xn, n, uo, u2p, u3p)
    ensures V(s1, uo, n + 1) == AtOne(PiecesOf(s0, xo, xn, n))
    ensures V(s1, uo + (n + 1), n + 1) == AtMinusOne(PiecesOf(s0, xo, xn, n))
    ensures V(s1, uo + 2 * (n + 1), n + 1) == AtMinusTwo(PiecesOf(s0, xo, xn, n))
  {
    hide V;
  }

  lemma PiecesFit(s: seq<Digit>, o: nat, len: nat, n: nat)
    requires 2 * n < len <= 3 * n && o + len <= |s|
    ensures Bounded(PiecesOf(s, o, len, n), n)
  {
    PieceBounds(s, o, n, len - 2 * n);
  }

  lemma PointsOfPieces(s0: seq<Digit>, s1: seq<Digit>, s: seq<Digit>, xo: nat, xn: nat, yo: nat, yn: nat, n: nat,
                       uo: nat, vo: nat, l: Layout, u2p: bool, u3p: bool, v2p: bool, v3p: bool)
    requires xo + xn <= |s0| && yo + yn <= |s0| && 2 * n < xn <= yn <= 3 * n
    requires uo + 3 * (n + 1) <= |s1| && vo + 3 * (n + 1) <= |s1| && LayoutOk(l, s) && l.n == n
    requires Evaluated(s0, s1, xo, xn, n, uo, u2p, u3p) && Evaluated(s0, s1, yo, yn, n, vo, v2p, v3p)
    requires ThreeDone(s1, s, uo, vo, n, l.t1)
    requires V(s, l.t0, 2 * n) == V(s0, xo, n) * V(s0, yo, n)
    requires V(s, l.t4, 2 * n) == V(s0, xo + 2 * n, xn - 2 * n) * V(s0, yo + 2 * n, yn - 2 * n)
    ensures Points(l, s, u2p == v2p, u3p == v3p, PiecesProduct(s0, xo, xn, yo, yn, n))
  {
    ThreePieces(s0, xo, xn, n);
    ThreePieces(s0, yo, yn, n);
    hide V, Pow, Points, Signed;
    PointsOfProduct(s, l, V(s0, xo, n), V(s0, xo + n, n), V(s0, xo + 2 * n, xn - 2 * n),
                    V(s0, yo, n), V(s0, yo + n, n), V(s0, yo + 2 * n, yn - 2 * n),
                    u2p, V(s1, uo + (n + 1), n + 1), u3p, V(s1, uo + 2 * (n + 1), n + 1),
                    v2p, V(s1, vo + (n + 1), n + 1), v3p, V(s1, vo + 2 * (n + 1), n + 1));
  }

  // The values of an operand at 1, -1 and -2 are in three consecutive buffers from uo on.
  ghost predicate Evaluated(s0: seq<Digit>, s: seq<Digit>, xo: nat, xn: nat, n: nat, uo: nat, u2p: bool, u3p: bool)
    requires xo + xn <= |s0| && 2 * n < xn && uo + 3 * (n + 1) <= |s|
  {
    && V(s, uo, n + 1) == V(s0, xo, n) + V(s0, xo + n, n) + V(s0, xo + 2 * n, xn - 2 * n)
    && Signed(u2p, V(s, uo + (n + 1), n + 1)) == V(s0, xo, n) - V(s0, xo + n, n) + V(s0, xo + 2 * n, xn - 2 * n)
    && Signed(u3p, V(s, uo + 2 * (n + 1), n + 1))
       == V(s0, xo, n) - 2 * V(s0, xo + n, n) + 4 * V(s0, xo + 2 * n, xn - 2 * n)
  }

  method EvaluateBoth(m: Memory, xo: nat, xn: nat, yo: nat, yn: nat, n: nat, wo: nat)
    returns (vo: nat, u2p: bool, u3p: bool, v2p: bool, v3p: bool)
    requires wo + 6 * (n + 1) <= |m.cells| && xo + xn <= |m.cells| && yo + yn <= |m.cells|
    requires 2 * n < xn <= yn <= 3 * n
    requires Apart(xo, xn, wo, 6 * (n + 1)) && Apart(yo, yn, wo, 6 * (n + 1))
    modifies m
    ensures Keeps(old(m.cells), m.cells, wo, 6 * (n + 1))
    ensures wo <= vo && vo + 3 * (n + 1) <= wo + 6 * (n + 1)
    ensures Evaluated(old(m.cells), m.cells, xo, xn, n, wo, u2p, u3p)
    ensures Evaluated(old(m.cells), m.cells, yo, yn, n, vo, v2p, v3p)
  {
    ghost var s0 := m.cells;
    hide V, Pow, Evaluated;
    u2p, u3p := EvaluateAt(m, wo, n, xo, xn);
    ghost var s1 := m.cells;
    if xo == yo && xn == yn {
      vo, v2p, v3p := wo, u2p, u3p;
    } else {
      vo := wo + 3 * (n + 1);
      v2p, v3p := EvaluateAt(m, vo, n, yo, yn);
      EvaluatedStays(s0, s1, m.cells, xo, xn, n, wo, u2p, u3p, vo);
      EvaluatedLater(s0, s1, m.cells, yo, yn, n, wo, vo, v2p, v3p);
    }
    KeepsIntro(s0, m.cells, wo, 6 * (n + 1));
  }

  method EvaluateAt(m: Memory, uo: nat, n: nat, xo: nat, xn: nat) returns (u2p: bool, u3p: bool)
    requires 2 * n < xn <= 3 * n && uo + 3 * (n + 1) <= |m.cells| && xo + xn <= |m.cells| && Apart(xo, xn, uo, 3 * (n + 1))
    modifies m
    ensures Keeps(old(m.cells), m.cells, uo, 3 * (n + 1))
    ensures Evaluated(old(m.cells), m.cells, xo, xn, n, uo, u2p, u3p)
  {
    hide V, Pow, Signed;
    u2p, u3p := Evaluate(m, uo, n, xo, xn - 2 * n);
  }

  lemma EvaluatedStays(s0: seq<Digit>, s1: seq<Digit>, s2: seq<Digit>, xo: nat, xn: nat, n: nat, uo: nat, u2p: bool,
                       u3p: bool, vo: nat)
    requires xo + xn <= |s0| && 2 * n < xn && uo + 3 * (n + 1) <= |s1| == |s2|
    requires Evaluated(s0, s1, xo, xn, n, uo, u2p, u3p) && vo == uo + 3 * (n + 1) && Keeps(s1, s2, vo, 3 * (n + 1))
    ensures Evaluated(s0, s2, xo, xn, n, uo, u2p, u3p)
  {
    hide V;
  }

  lemma EvaluatedLater(s0: seq<Digit>, s1: seq<Digit>, s2: seq<Digit>, yo: nat, yn: nat, n: nat, wo: nat, vo: nat, v2p: bool,
                       v3p: bool)
    requires yo + yn <= |s0| == |s1| == |s2| && 2 * n < yn && vo + 3 * (n + 1) <= |s2|
    requires Keeps(s0, s1, wo, 3 * (n + 1)) && Apart(yo, yn, wo, 3 * (n + 1)) && Evaluated(s1, s2, yo, yn, n, vo, v2p, v3p)
    ensures Evaluated(s0, s2, yo, yn, n, vo, v2p, v3p)
  {
    hide V;
  }

  method FiveProducts(m: Memory, xo: nat, xn: nat, yo: nat, yn: nat, n: nat, uo: nat, vo: nat, t0: nat, t1: nat, t4: nat,
                      wo: nat, wn: nat)
    returns (ok: bool)
    requires 0 < n && 2 * n < xn <= yn <= 3 * n
    requires uo + 3 * (n + 1) <= t0 && vo + 3 * (n + 1) <= t0 && t0 + 2 * n <= t1 && t1 + 6 * n + 6 <= t4
    requires t4 + 2 * n <= wo && wo + wn <= |m.cells|
    requires xo + xn <= |m.cells| && yo + yn <= |m.cells|
    requires Apart(xo, xn, t0, wo + wn - t0) && Apart(yo, yn, t0, wo + wn - t0)
    modifies m
    ensures ok ==> Keeps(old(m.cells), m.cells, t0, wo + wn - t0)
    ensures ok ==> V(m.cells, t0, 2 * n) == V(old(m.cells), xo, n) * V(old(m.cells), yo, n)
    ensures ok ==>
      V(m.cells, t4, 2 * n) == V(old(m.cells), xo + 2 * n, xn - 2 * n) * V(old(m.cells), yo + 2 * n, yn - 2 * n)
    ensures ok ==> ThreeDone(old(m.cells), m.cells, uo, vo, n, t1)
    ensures ok <==> !FiveStop(old(m.cells), xo, xn, yo, yn, n, uo, vo, wn)
    decreases xn + yn, 0
  {
    ghost var s0 := m.cells;
    hide V, Pow, Stops, ThreeStop, ThreeDone;
    ok := FourProducts(m, xo, yo, n, uo, vo, t0, t1, wo, wn);
    if ok {
      ghost var s1 := m.cells;
      assert V(s1, xo + 2 * n, xn - 2 * n) == V(s0, xo + 2 * n, xn - 2 * n);
      assert V(s1, yo + 2 * n, yn - 2 * n) == V(s0, yo + 2 * n, yn - 2 * n);
      ok := Start(Toom3Start, m, t4, 2 * n, xo + 2 * n, xn - 2 * n, yo + 2 * n, yn - 2 * n, wo, wn);
      if ok {
        ThreeStay(s0, s1, m.cells, uo, vo, n, t0, t1, t4, wo, wn);
        KeepsIntro(s0, m.cells, t0, wo + wn - t0);
      }
    }
  }

  lemma ThreeStay(s0: seq<Digit>, s1: seq<Digit>, s: seq<Digit>, uo: nat, vo: nat, n: nat, t0: nat, t1: nat, t4: nat, wo: nat,
                  wn: nat)
    requires uo + 3 * (n + 1) <= |s0| && vo + 3 * (n + 1) <= |s0| && t0 + 2 * n <= t1 && t1 + 6 * n + 6 <= t4 <= wo
    requires |s1| == |s| && t4 <= |s1| && ThreeDone(s0, s1, uo, vo, n, t1) && Keeps2(s1, s, t4, 2 * n, wo, wn)
    ensures ThreeDone(s0, s, uo, vo, n, t1) && V(s, t0, 2 * n) == V(s1, t0, 2 * n)
  {
    hide V;
  }

  method FourProducts(m: Memory, xo: nat, yo: nat, n: nat, uo: nat, vo: nat, t0: nat, t1: nat, wo: nat, wn: nat)
    returns (ok: bool)
    requires 0 < n && uo + 3 * (n + 1) <= t0 && vo + 3 * (n + 1) <= t0 && t0 + 2 * n <= t1
    requires t1 + 6 * n + 6 <= wo && wo + wn <= |m.cells|
    requires xo + n <= |m.cells| && yo + n <= |m.cells|
    requires Apart(xo, n, t0, wo + wn - t0) && Apart(yo, n, t0, wo + wn - t0)
    modifies m
    ensures ok ==> Keeps2(old(m.cells), m.cells, t0, t1 + 6 * n + 6 - t0, wo, wn)
    ensures ok ==> V(m.cells, t0, 2 * n) == V(old(m.cells), xo, n) * V(old(m.cells), yo, n)
    ensures ok ==> ThreeDone(old(m.cells), m.cells, uo, vo, n, t1)
    ensures ok <==>
      !Stops(Toom3Start, V(old(m.cells), xo, n), V(old(m.cells), yo, n), 2 * n, wn) && !ThreeStop(old(m.cells), n, uo, vo, wn)
    decreases 4 * n + 1, 1
  {
    ghost var s0 := m.cells;
    hide V, Pow, Stops;
    ok := Start(Toom3Start, m, t0, 2 * n, xo, n, yo, n, wo, wn);
    if !ok {
      return;
    }
    ok := ThreeMiddle(m, uo, vo, n, t1, wo, wn);
    if ok {
      Keeps2Intro(s0, m.cells, t0, t1 + 6 * n + 6 - t0, wo, wn);
    }
  }

  // The products of the values at 1, -1 and -2.
  ghost predicate ThreeDone(s0: seq<Digit>, s: seq<Digit>, uo: nat, vo: nat, n: nat, t1: nat)
    requires uo + 3 * (n + 1) <= |s0| && vo + 3 * (n + 1) <= |s0| && t1 + 6 * n + 6 <= |s|
  {
    && V(s, t1, 2 * n + 2) == V(s0, uo, n + 1) * V(s0, vo, n + 1)
    && V(s, t1 + 2 * n + 2, 2 * n + 2) == V(s0, uo + (n + 1), n + 1) * V(s0, vo + (n + 1), n + 1)
    && V(s, t1 + 4 * n + 4, 2 * n + 2) == V(s0, uo + 2 * (n + 1), n + 1) * V(s0, vo + 2 * (n + 1), n + 1)
  }

  method ThreeMiddle(m: Memory, uo: nat, vo: nat, n: nat, t1: nat, wo: nat, wn: nat) returns (ok: bool)
    requires 0 < n && uo + 3 * (n + 1) <= t1 && vo + 3 * (n + 1) <= t1 && t1 + 6 * n + 6 <= wo && wo + wn <= |m.cells|
    modifies m
    ensures ok ==> Keeps2(old(m.cells), m.cells, t1, 6 * n + 6, wo, wn)
    ensures ok ==> ThreeDone(old(m.cells), m.cells, uo, vo, n, t1)
    ensures ok <==> !ThreeStop(old(m.cells), n, uo, vo, wn)
    decreases 4 * n + 1, 0
  {
    ghost var s0 := m.cells;
    hide V, Pow, Stops;
    ok := Start(Toom3Start, m, t1, 2 * n + 2, uo, n + 1, vo, n + 1, wo, wn);
    if !ok {
      return;
    }
    ok := TwoMiddle(m, uo + (n + 1), vo + (n + 1), n, t1 + 2 * n + 2, wo, wn);
    if !ok {
      return;
    }
    Keeps2Intro(s0, m.cells, t1, 6 * n + 6, wo, wn);
  }

  // The products of the values at -1 and -2, which are at uo and vo
  method TwoMiddle(m: Memory, uo: nat, vo: nat, n: nat, t2: nat, wo: nat, wn: nat) returns (ok: bool)
    requires 0 < n && uo + 2 * (n + 1) <= t2 && vo + 2 * (n + 1) <= t2 && t2 + 4 * n + 4 <= wo && wo + wn <= |m.cells|
    modifies m
    ensures ok ==> Keeps2(old(m.cells), m.cells, t2, 4 * n + 4, wo, wn)
    ensures ok ==> V(m.cells, t2, 2 * n + 2) == V(old(m.cells), uo, n + 1) * V(old(m.cells), vo, n + 1)
    ensures ok ==>
      V(m.cells, t2 + 2 * n + 2, 2 * n + 2)
      == V(old(m.cells), uo + (n + 1), n + 1) * V(old(m.cells), vo + (n + 1), n + 1)
    ensures ok <==>
      && !Stops(Toom3Start, V(old(m.cells), uo, n + 1), V(old(m.cells), vo, n + 1), 2 * n + 2, wn)
      && !Stops(Toom3Start, V(old(m.cells), uo + (n + 1), n + 1), V(old(m.cells), vo + (n + 1), n + 1), 2 * n + 2, wn)
    decreases 2 * (n + 1), 7
  {
    ghost var s0 := m.cells;
    hide V, Pow, Stops;
    ok := Start(Toom3Start, m, t2, 2 * n + 2, uo, n + 1, vo, n + 1, wo, wn);
    if !ok {
      return;
    }
    ok := Start(Toom3Start, m, t2 + 2 * n + 2, 2 * n + 2, uo + (n + 1), n + 1, vo + (n + 1), n + 1, wo, wn);
    if !ok {
      return;
    }
    Keeps2Intro(s0, m.cells, t2, 4 * n + 4, wo, wn);
  }

  // ---- bary_mul ----

  method BaryMul(m: Memory, zo: nat, zn: nat, xo: nat, xn: nat, yo: nat, yn: nat) returns (ok: bool)
    requires MulArgs(m.cells, zo, zn, xo, xn, yo, yn, 0, 0)
    modifies m
    ensures ok ==> Keeps(old(m.cells), m.cells, zo, zn)
    ensures ok ==> V(m.cells, zo, zn) == V(old(m.cells), xo, xn) * V(old(m.cells), yo, yn)
    ensures ok <==> !Stops(Toom3Start, V(old(m.cells), xo, xn), V(old(m.cells), yo, yn), zn, 0)
  {
    ghost var s0 := m.cells;
    if Min(xn, yn) < KARATSUBA_MUL_DIGITS {
      ShortBuffers(s0, xo, xn, yo, yn, zn);
    }
    hide V, Pow, Stops;
    ok := true;
    if xn <= yn {
      if xn < KARATSUBA_MUL_DIGITS {
        if xo == yo && xn == yn {
          SqFast(m, zo, zn, xo, xn);
        } else {
          ShortMul(m, zo, zn, xo, xn, yo, yn);
        }
        return;
      }
    } else if yn < KARATSUBA_MUL_DIGITS {
      ShortMul(m, zo, zn, yo, yn, xo, xn);
      Commute(V(s0, xo, xn), V(s0, yo, yn));
      return;
    }
    ok := Start(Toom3Start, m, zo, zn, xo, xn, yo, yn, 0, 0);
    if ok {
      KeepsIntro(s0, m.cells, zo, zn);
    }
  }

  lemma ShortBuffers(s: seq<Digit>, xo: nat, xn: nat, yo: nat, yn: nat, zn: nat)
    requires xo + xn <= |s| && yo + yn <= |s| && Min(xn, yn) < KARATSUBA_MUL_DIGITS
    ensures !Stops(Toom3Start, V(s, xo, xn), V(s, yo, yn), zn, 0)
  {
    hide V, Pow, Len, Trim, Stops;
    LenOfAny(s, xo, xn);
    LenOfAny(s, yo, yn);
    TrimLen(V(s, xo, xn));
    TrimLen(V(s, yo, yn));
    ShortNever(Toom3Start, V(s, xo, xn), V(s, yo, yn), zn, 0);
  }
}
