/**
 When multiplying runs out of workspace.

 bary_mul_balance_with_mulfunc checks its workspace before its loop with the length of
 the last slice only, and an earlier slice may need more: then it stops the process with
 "wds is not enough".  `Stops` says for which operands this happens, as a function of the
 two numbers, the length of the result buffer and the length of the workspace.  It looks
 at no memory and computes no product; it follows only the lengths.
 */
module Workspace {
  import opened Digits
  import opened Kernel
  import opened Lengths
  import opened MulCommon

  // mulfunc_t
  datatype MulFunc = KaratsubaStart | Toom3Start

  // ---- sub-operands ----

  lemma LenOfSum(x: nat, n: nat)
    requires x < 7 * Pow(n)
    ensures Len(x) <= n + 1
  {
    BLarge();
    assert Pow(n + 1) == B * Pow(n);
    MulLe(7, B, Pow(n));
    LenAtMost(x, n + 1);
  }

  // Two operands of Karatsuba in two halves, of n digits but for the high one of x, of h digits
  ghost predicate Halves(x0: nat, x1: nat, y0: nat, y1: nat, n: nat, h: nat)
  {
    0 < h <= n && x0 < Pow(n) && x1 < Pow(h) && y0 < Pow(n) && y1 < Pow(n)
  }

  lemma HalfLengths(x0: nat, x1: nat, y0: nat, y1: nat, n: nat, h: nat)
    requires Halves(x0, x1, y0, y1, n, h)
    ensures Len(Abs(x0 - x1)) <= n && Len(Abs(y0 - y1)) <= n
    ensures Len(x0) <= n && Len(y0) <= n && Len(x1) <= h && Len(y1) <= n
  {
    PowMono(h, n);
    LenAtMost(Abs(x0 - x1), n);
    LenAtMost(Abs(y0 - y1), n);
    LenAtMost(x0, n);
    LenAtMost(x1, h);
    LenAtMost(y0, n);
    LenAtMost(y1, n);
  }

  // The pieces of an operand of Toom-3, and its values at 1, -1 and -2 without their signs
  datatype Pieces = Pieces(x0: nat, x1: nat, x2: nat)

  ghost predicate Bounded(p: Pieces, n: nat)
  {
    p.x0 < Pow(n) && p.x1 < Pow(n) && p.x2 < Pow(n)
  }

  ghost function Cut3(x: nat, n: nat): (p: Pieces)
    ensures Bounded(p, n)
  {
    Pieces(Piece(x, 0, n), Piece(x, n, n), Piece(x, 2 * n, n))
  }

  ghost function AtOne(p: Pieces): nat
  {
    p.x0 + p.x1 + p.x2
  }

  ghost function AtMinusOne(p: Pieces): nat
  {
    Abs(p.x0 - p.x1 + p.x2)
  }

  ghost function AtMinusTwo(p: Pieces): nat
  {
    Abs(p.x0 - 2 * p.x1 + 4 * p.x2)
  }

  lemma ValueLengths(p: Pieces, n: nat)
    requires Bounded(p, n)
    ensures Len(p.x0) <= n && Len(p.x2) <= n
    ensures Len(AtOne(p)) <= n + 1 && Len(AtMinusOne(p)) <= n + 1 && Len(AtMinusTwo(p)) <= n + 1
  {
    LenAtMost(p.x0, n);
    LenAtMost(p.x2, n);
    LenOfSum(AtOne(p), n);
    LenOfSum(AtMinusOne(p), n);
    LenOfSum(AtMinusTwo(p), n);
  }

  // The workspace handed to the products of Toom-3: what is left of the given one, or of a new allocation
  function Toom3Rest(wn: nat, n: nat): nat
  {
    (if wn < Toom3Work(n) then Toom3Work(n) * 3 / 2 else wn) - Toom3Work(n)
  }

  // ---- the operands that stop a product ----

  // Multiplying x and y into zn digits with wn digits of workspace stops.
  ghost predicate Stops(f: MulFunc, x: nat, y: nat, zn: int, wn: nat)
    decreases Len(x) + Len(y), 3, 0
  {
    TrimLen(x);
    TrimLen(y);
    var a, b, z := Trim(x), Trim(y), zn - Low(x) - Low(y);
    if Len(a) <= Len(b) then BranchStops(f, a, b, z, wn) else BranchStops(f, b, a, z, wn)
  }

  ghost predicate BranchStops(f: MulFunc, x: nat, y: nat, zn: int, wn: nat)
    requires Len(x) <= Len(y)
    decreases Len(x) + Len(y), 2, 0
  {
    var xn, yn := Len(x), Len(y);
    if xn <= 1 then false
    else if f.Toom3Start? && TOOM3_MUL_DIGITS <= xn then
      if Toom3Balanced(xn, yn) then Toom3Stops(x, y, wn) else BalanceStops(f, x, y, zn, wn)
    else if xn < KARATSUBA_MUL_DIGITS || Sparse(x) || Sparse(y) then false
    else if KaratsubaBalanced(xn, yn) then KaratsubaStops(x, y, zn, wn)
    else BalanceStops(KaratsubaStart, x, y, zn, wn)
  }

  // The length of the last slice of y
  function LastSlice(xn: nat, yn: nat): (r: nat)
    requires 0 < xn
    ensures r <= xn && (0 < yn ==> 0 < r)
  {
    if yn % xn != 0 then yn % xn else xn
  }

  ghost predicate BalanceStops(f: MulFunc, x: nat, y: nat, zn: int, wn: nat)
    requires 0 < Len(x) < Len(y)
    decreases Len(x) + Len(y), 1, 0
  {
    var xn, yn := Len(x), Len(y);
    SlicesStop(f, x, y, zn, if wn < xn && 2 * xn + yn + LastSlice(xn, yn) > zn then xn else wn, 0)
  }

  // One of the slices of y from digit n on stops.
  ghost predicate SlicesStop(f: MulFunc, x: nat, y: nat, zn: int, wn: nat, n: nat)
    requires 0 < Len(x) < Len(y)
    decreases Len(x) + Len(y), 0, Len(y) - n
  {
    n < Len(y) && (SliceStops(f, x, y, zn, wn, n) || SlicesStop(f, x, y, zn, wn, n + Min(Len(x), Len(y) - n)))
  }

  // A slice is multiplied beyond the digits in use if there is room, and otherwise in place.
  ghost predicate SliceStops(f: MulFunc, x: nat, y: nat, zn: int, wn: nat, n: nat)
    requires 0 < Len(x) < Len(y) && n < Len(y)
    decreases Len(x) + Len(y), 0, 0
  {
    var xn, r := Len(x), Min(Len(x), Len(y) - n);
    if 2 * (xn + r) <= zn - n then Stops(f, x, Piece(y, n, r), xn + r, wn)
    else wn < xn || Stops(f, x, Piece(y, n, r), xn + r, wn - xn)
  }

  // One of the three products of Karatsuba stops.
  ghost predicate KaratsubaStops(x: nat, y: nat, zn: int, wn: nat)
    requires 2 <= Len(x) <= Len(y) < 2 * Len(x)
    decreases Len(x) + Len(y), 1, 0
  {
    var n := Len(y) / 2;
    HalvesStop(Piece(x, 0, n), Piece(x, n, Min(Len(x), 2 * n) - n), Piece(y, 0, n), Piece(y, n, n),
               n, Min(Len(x), 2 * n) - n, zn, (if wn < n then 2 * n else wn) - n)
  }

  ghost predicate HalvesStop(x0: nat, x1: nat, y0: nat, y1: nat, n: nat, h: nat, zn: int, rest: nat)
    decreases n + h + 2 * n, 0, 0
  {
    Halves(x0, x1, y0, y1, n, h) &&
    (
    HalfLengths(x0, x1, y0, y1, n, h);
    || Stops(KaratsubaStart, Abs(x0 - x1), Abs(y0 - y1), 2 * n, rest)
    || Stops(KaratsubaStart, x0, y0, 2 * n, rest)
    || Stops(KaratsubaStart, x1, y1, zn - 2 * n, rest))
  }

  // One of the five products of Toom-3 stops.
  ghost predicate Toom3Stops(x: nat, y: nat, wn: nat)
    requires TOOM3_MUL_DIGITS <= Len(x) <= Len(y)
    decreases Len(x) + Len(y), 1, 0
  {
    var n := (Len(y) + 2) / 3;
    PiecesStop(Cut3(x, n), Cut3(y, n), n, Toom3Rest(wn, n))
  }

  ghost predicate PiecesStop(x: Pieces, y: Pieces, n: nat, rest: nat)
    decreases 2 * (n + 1), 4, 0
  {
    Bounded(x, n) && Bounded(y, n) &&
    (
    ValueLengths(x, n);
    ValueLengths(y, n);
    || Stops(Toom3Start, x.x0, y.x0, 2 * n, rest)
    || Stops(Toom3Start, AtOne(x), AtOne(y), 2 * n + 2, rest)
    || Stops(Toom3Start, AtMinusOne(x), AtMinusOne(y), 2 * n + 2, rest)
    || Stops(Toom3Start, AtMinusTwo(x), AtMinusTwo(y), 2 * n + 2, rest)
    || Stops(Toom3Start, x.x2, y.x2, 2 * n, rest))
  }

  // ---- operands that never stop ----

  // One of the operands is too short to be cut.
  lemma ShortNever(f: MulFunc, x: nat, y: nat, zn: int, wn: nat)
    requires Min(Len(Trim(x)), Len(Trim(y))) < KARATSUBA_MUL_DIGITS
    ensures !Stops(f, x, y, zn, wn)
  {
  }

  // A square is cut into squares, which are balanced.
  lemma {:induction false} SquareNever(f: MulFunc, x: nat, zn: int, wn: nat)
    ensures !Stops(f, x, x, zn, wn)
    decreases Len(x), 0
  {
    hide HalvesStop, PiecesStop, BalanceStops, SlicesStop, Len, Low, Trim, Pow, Sparse, Piece;
    TrimLen(x);
    var a, z := Trim(x), zn - Low(x) - Low(x);
    var n := Len(a);
    if 1 < n && f.Toom3Start? && TOOM3_MUL_DIGITS <= n {
      SquarePieces(Cut3(a, (n + 2) / 3), (n + 2) / 3, Toom3Rest(wn, (n + 2) / 3));
      assert !Toom3Stops(a, a, wn);
    } else if KARATSUBA_MUL_DIGITS <= n {
      var k := n / 2;
      assert Min(n, 2 * k) - k == k;
      SquareHalves(Piece(a, 0, k), Piece(a, k, k), k, z, (if wn < k then 2 * k else wn) - k);
      assert !KaratsubaStops(a, a, z, wn);
    }
    assert !BranchStops(f, a, a, z, wn);
  }

  lemma {:induction false} SquareHalves(x0: nat, x1: nat, n: nat, zn: int, rest: nat)
    ensures !HalvesStop(x0, x1, x0, x1, n, n, zn, rest)
    decreases n, 1
  {
    hide Stops, BranchStops, Len, Pow, Abs;
    if Halves(x0, x1, x0, x1, n, n) {
      HalfLengths(x0, x1, x0, x1, n, n);
      SquareNever(KaratsubaStart, Abs(x0 - x1), 2 * n, rest);
      SquareNever(KaratsubaStart, x0, 2 * n, rest);
      SquareNever(KaratsubaStart, x1, zn - 2 * n, rest);
    }
  }

  lemma {:induction false} SquarePieces(x: Pieces, n: nat, rest: nat)
    ensures !PiecesStop(x, x, n, rest)
    decreases n + 1, 1
  {
    hide Stops, BranchStops, Len, Pow, AtOne, AtMinusOne, AtMinusTwo;
    if Bounded(x, n) {
      ValueLengths(x, n);
      SquareNever(Toom3Start, x.x0, 2 * n, rest);
      SquareNever(Toom3Start, AtOne(x), 2 * n + 2, rest);
      SquareNever(Toom3Start, AtMinusOne(x), 2 * n + 2, rest);
      SquareNever(Toom3Start, AtMinusTwo(x), 2 * n + 2, rest);
      SquareNever(Toom3Start, x.x2, 2 * n, rest);
    }
  }
}
