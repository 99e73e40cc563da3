/**
 Which products stop for lack of workspace, in terms of lengths: balanced operands never
 do, and balancing does exactly when an earlier slice needs the workspace that only the
 last slice was checked for, or when the product of a slice stops.
 */
module Shortage {
  import opened Digits
  import opened Kernel
  import opened Lengths
  import opened MulCommon
  import opened Workspace

  // ---- enough workspace ----

  // Enough workspace for f on operands of up to len digits
  predicate Enough(f: MulFunc, wn: nat, len: nat)
  {
    (if f.KaratsubaStart? then len else Room(len)) <= wn
  }

  lemma EnoughLess(f: MulFunc, wn: nat, len: nat, len': nat)
    requires Enough(f, wn, len) && len' <= len
    ensures Enough(f, wn, len')
    ensures Enough(KaratsubaStart, wn, len')
  {
    RoomMono(len', len);
    RoomAtLeast(len');
  }

  lemma {:induction false} EnoughNever(f: MulFunc, x: nat, y: nat, zn: int, wn: nat, len: nat)
    requires Enough(f, wn, len) && Len(x) <= len && Len(y) <= len
    ensures !Stops(f, x, y, zn, wn)
    decreases Len(x) + Len(y), 3, 0
  {
    hide BranchStops, Enough, Low, Trim, Len;
    TrimLen(x);
    TrimLen(y);
    var a, b, z := Trim(x), Trim(y), zn - Low(x) - Low(y);
    if Len(a) <= Len(b) {
      EnoughLess(f, wn, len, Len(b));
      BranchNever(f, a, b, z, wn);
    } else {
      EnoughLess(f, wn, len, Len(a));
      BranchNever(f, b, a, z, wn);
    }
  }

  lemma {:induction false} BranchNever(f: MulFunc, x: nat, y: nat, zn: int, wn: nat)
    requires Len(x) <= Len(y) && Enough(f, wn, Len(y))
    ensures !BranchStops(f, x, y, zn, wn)
    decreases Len(x) + Len(y), 2, 0
  {
    hide Toom3Stops, KaratsubaStops, BalanceStops, Len, Sparse, Room, Piece, Toom3Rest;
    var xn, yn := Len(x), Len(y);
    RoomAtLeast(yn);
    if xn <= 1 {
    } else if f.Toom3Start? && TOOM3_MUL_DIGITS <= xn {
      if Toom3Balanced(xn, yn) {
        Toom3Never(x, y, wn);
      } else {
        BalanceNever(f, x, y, zn, wn);
      }
    } else if KARATSUBA_MUL_DIGITS <= xn {
      if KaratsubaBalanced(xn, yn) {
        KaratsubaNever(x, y, zn, wn);
      } else {
        BalanceNever(KaratsubaStart, x, y, zn, wn);
      }
    }
  }

  lemma {:induction false} BalanceNever(f: MulFunc, x: nat, y: nat, zn: int, wn: nat)
    requires 0 < Len(x) < Len(y) && Enough(f, wn, Len(y))
    requires if f.KaratsubaStart? then !KaratsubaBalanced(Len(x), Len(y))
             else TOOM3_MUL_DIGITS <= Len(x) && !Toom3Balanced(Len(x), Len(y))
    ensures !BalanceStops(f, x, y, zn, wn)
    decreases Len(x) + Len(y), 1, 0
  {
    var xn := Len(x);
    hide SlicesStop, Len, Room;
    if f.Toom3Start? {
      RoomSlice(xn, Len(y));
      RoomAtLeast(xn);
    }
    SlicesNever(f, x, y, zn, wn, 0);
  }

  lemma {:induction false} SlicesNever(f: MulFunc, x: nat, y: nat, zn: int, wn: nat, n: nat)
    requires 0 < Len(x) < Len(y) && Len(x) <= wn && Enough(f, wn, Len(x)) && Enough(f, wn - Len(x), Len(x))
    ensures !SlicesStop(f, x, y, zn, wn, n)
    decreases Len(x) + Len(y), 0, Len(y) - n
  {
    hide Stops, Len, Piece, Enough;
    if n < Len(y) {
      var r := Min(Len(x), Len(y) - n);
      EnoughNever(f, x, Piece(y, n, r), Len(x) + r, wn, Len(x));
      EnoughNever(f, x, Piece(y, n, r), Len(x) + r, wn - Len(x), Len(x));
      assert !SliceStops(f, x, y, zn, wn, n);
      SlicesNever(f, x, y, zn, wn, n + r);
    }
  }

  lemma {:induction false} KaratsubaNever(x: nat, y: nat, zn: int, wn: nat)
    requires KARATSUBA_MUL_DIGITS <= Len(x) <= Len(y) < 2 * Len(x)
    requires wn < Len(y) / 2 || Len(y) / 2 * 2 <= wn
    ensures !KaratsubaStops(x, y, zn, wn)
    decreases Len(x) + Len(y), 1, 0
  {
    hide HalvesStop, Len, Piece;
    var n := Len(y) / 2;
    var h, rest := Min(Len(x), 2 * n) - n, (if wn < n then 2 * n else wn) - n;
    HalvesNever(Piece(x, 0, n), Piece(x, n, h), Piece(y, 0, n), Piece(y, n, n), n, h, zn, rest);
  }

  lemma {:induction false} HalvesNever(x0: nat, x1: nat, y0: nat, y1: nat, n: nat, h: nat, zn: int, rest: nat)
    requires n <= rest
    ensures !HalvesStop(x0, x1, y0, y1, n, h, zn, rest)
    decreases n + h + 2 * n, 0, 0
  {
    hide Stops, Len, Pow, Abs;
    if Halves(x0, x1, y0, y1, n, h) {
      HalfLengths(x0, x1, y0, y1, n, h);
      EnoughNever(KaratsubaStart, Abs(x0 - x1), Abs(y0 - y1), 2 * n, rest, n);
      EnoughNever(KaratsubaStart, x0, y0, 2 * n, rest, n);
      EnoughNever(KaratsubaStart, x1, y1, zn - 2 * n, rest, n);
    }
  }

  lemma {:induction false} Toom3Never(x: nat, y: nat, wn: nat)
    requires TOOM3_MUL_DIGITS <= Len(x) <= Len(y)
    requires Enough(Toom3Start, wn, Len(y)) || (wn < Toom3Work((Len(y) + 2) / 3) && Len(y) <= SURE_DIGITS)
    ensures !Toom3Stops(x, y, wn)
    decreases Len(x) + Len(y), 1, 0
  {
    hide PiecesStop, Len, Cut3;
    var n := (Len(y) + 2) / 3;
    if Enough(Toom3Start, wn, Len(y)) {
      assert Room(Len(y)) == Toom3Work(n) + Room(n + 1);
    } else {
      RoomAllocated(n);
    }
    hide Room;
    PiecesNever(Cut3(x, n), Cut3(y, n), n, Toom3Rest(wn, n));
  }

  lemma {:induction false} PiecesNever(x: Pieces, y: Pieces, n: nat, rest: nat)
    requires Enough(Toom3Start, rest, n + 1)
    ensures !PiecesStop(x, y, n, rest)
    decreases 2 * (n + 1), 4, 0
  {
    hide Stops, Len, Pow, AtOne, AtMinusOne, AtMinusTwo, Enough;
    if Bounded(x, n) && Bounded(y, n) {
      ValueLengths(x, n);
      ValueLengths(y, n);
      EnoughNever(Toom3Start, x.x0, y.x0, 2 * n, rest, n + 1);
      EnoughNever(Toom3Start, AtOne(x), AtOne(y), 2 * n + 2, rest, n + 1);
      EnoughNever(Toom3Start, AtMinusOne(x), AtMinusOne(y), 2 * n + 2, rest, n + 1);
      EnoughNever(Toom3Start, AtMinusTwo(x), AtMinusTwo(y), 2 * n + 2, rest, n + 1);
      EnoughNever(Toom3Start, x.x2, y.x2, 2 * n, rest, n + 1);
    }
  }

  // ---- balanced operands ----

  // Without the zeros at either end the operands have balanced lengths.
  ghost predicate Balanced(x: nat, y: nat)
  {
    var a, b := Len(Trim(x)), Len(Trim(y));
    var xn, yn := Min(a, b), Max(a, b);
    || xn < KARATSUBA_MUL_DIGITS
    || (xn < TOOM3_MUL_DIGITS && KaratsubaBalanced(xn, yn))
    || (TOOM3_MUL_DIGITS <= xn && Toom3Balanced(xn, yn) && yn <= SURE_DIGITS)
  }

  // bary_mul multiplies balanced operands, whatever their digits are.
  lemma BalancedNever(x: nat, y: nat, zn: int)
    requires Balanced(x, y)
    ensures !Stops(Toom3Start, x, y, zn, 0)
  {
    hide BranchStops, Low, Trim, Len;
    var a, b, z := Trim(x), Trim(y), zn - Low(x) - Low(y);
    if Len(a) <= Len(b) {
      BalancedBranch(a, b, z);
    } else {
      BalancedBranch(b, a, z);
    }
  }

  lemma BalancedBranch(x: nat, y: nat, zn: int)
    requires Len(x) <= Len(y)
    requires || Len(x) < KARATSUBA_MUL_DIGITS
             || (Len(x) < TOOM3_MUL_DIGITS && KaratsubaBalanced(Len(x), Len(y)))
             || (TOOM3_MUL_DIGITS <= Len(x) && Toom3Balanced(Len(x), Len(y)) && Len(y) <= SURE_DIGITS)
    ensures !BranchStops(Toom3Start, x, y, zn, 0)
  {
    hide Toom3Stops, KaratsubaStops, BalanceStops, Len, Sparse;
    if TOOM3_MUL_DIGITS <= Len(x) {
      Toom3Never(x, y, 0);
    } else if KARATSUBA_MUL_DIGITS <= Len(x) {
      KaratsubaNever(x, y, zn, 0);
    }
  }

  // Operands this short are balanced, or one of them is too short to be cut.
  const SHORT_DIGITS: nat := 139

  lemma ShortBalanced(x: nat, y: nat)
    requires Len(x) <= SHORT_DIGITS && Len(y) <= SHORT_DIGITS
    ensures Balanced(x, y)
  {
    hide Len, Trim;
    TrimLen(x);
    TrimLen(y);
  }

  // ---- when balancing stops ----

  // The loop over the slices comes to a slice that fits neither beyond the digits in use nor, for lack
  // of workspace, in their place.
  predicate BalanceShort(xn: nat, yn: nat, zn: int, wn: nat)
    requires 0 < xn
  {
    wn < xn && 2 * xn + yn + LastSlice(xn, yn) <= zn < 3 * xn + yn - LastSlice(xn, yn)
  }

  // The workspace for the slices
  function SliceWork(xn: nat, yn: nat, zn: int, wn: nat): nat
    requires 0 < xn
  {
    if wn < xn && 2 * xn + yn + LastSlice(xn, yn) > zn then xn else wn
  }

  // The product with slice k, the digits of y from k times the length of x on, stops.
  ghost predicate ProductStops(f: MulFunc, x: nat, y: nat, zn: int, wn: nat, k: nat)
    requires 0 < Len(x)
  {
    var xn := Len(x);
    var n := k * xn;
    LeMul(xn, 0, k);
    0 <= n < Len(y) &&
    var r := Min(xn, Len(y) - n);
    Stops(f, x, Piece(y, n, r), xn + r, if 2 * (xn + r) <= zn - n || wn < xn then wn else wn - xn)
  }

  lemma NextStart(xn: nat, yn: nat, k: nat)
    requires 0 < xn && k * xn < yn
    ensures 0 <= k * xn && (k + 1) * xn == k * xn + xn
  {
    LeMul(xn, 0, k);
  }

  lemma {:induction false} StopsAt(f: MulFunc, x: nat, y: nat, zn: int, wn: nat, j: nat, k: nat)
    requires 0 < Len(x) < Len(y) && j <= k && 0 <= j * Len(x) && 0 <= k * Len(x) < Len(y)
    requires SliceStops(f, x, y, zn, wn, k * Len(x))
    ensures SlicesStop(f, x, y, zn, wn, j * Len(x))
    decreases k - j
  {
    hide SliceStops, Len;
    var xn := Len(x);
    LeMul(xn, j, k);
    if j < k {
      LeMul(xn, j + 1, k);
      NextStart(xn, Len(y), j);
      StopsAt(f, x, y, zn, wn, j + 1, k);
    }
  }

  lemma {:induction false} FindStop(f: MulFunc, x: nat, y: nat, zn: int, wn: nat, j: nat) returns (k: nat)
    requires 0 < Len(x) < Len(y) && 0 <= j * Len(x) < Len(y) && SlicesStop(f, x, y, zn, wn, j * Len(x))
    ensures 0 <= k * Len(x) < Len(y) && SliceStops(f, x, y, zn, wn, k * Len(x))
    decreases Len(y) - j * Len(x)
  {
    hide SliceStops, Len;
    var xn := Len(x);
    if SliceStops(f, x, y, zn, wn, j * xn) {
      k := j;
    } else {
      NextStart(xn, Len(y), j);
      k := FindStop(f, x, y, zn, wn, j + 1);
    }
  }

  // Balancing stops exactly when it comes to a slice it has no room for, or the product of a slice stops.
  lemma BalanceCondition(f: MulFunc, x: nat, y: nat, zn: int, wn: nat)
    requires 0 < Len(x) < Len(y)
    ensures BalanceStops(f, x, y, zn, wn)
       <==> BalanceShort(Len(x), Len(y), zn, wn)
            || exists k: nat :: ProductStops(f, x, y, zn, SliceWork(Len(x), Len(y), zn, wn), k)
  {
    hide SlicesStop, SliceStops, ProductStops, Len;
    var xn, yn := Len(x), Len(y);
    var w := SliceWork(xn, yn, zn, wn);
    assert 0 * xn == 0;
    if BalanceStops(f, x, y, zn, wn) {
      var k := FindStop(f, x, y, zn, w, 0);
      SliceParts(f, x, y, zn, w, k);
      if !ProductStops(f, x, y, zn, w, k) {
        ShortSlice(xn, yn, zn, wn, k);
      }
    }
    if BalanceShort(xn, yn, zn, wn) {
      var k := LastButOne(xn, yn);
      SliceParts(f, x, y, zn, w, k);
      StopsAt(f, x, y, zn, w, 0, k);
    }
    if k: nat :| ProductStops(f, x, y, zn, w, k) {
      ProductInRange(f, x, y, zn, w, k);
      SliceParts(f, x, y, zn, w, k);
      StopsAt(f, x, y, zn, w, 0, k);
    }
  }

  // The slice at digit n finds neither room nor workspace.
  predicate Squeezed(xn: nat, yn: nat, zn: int, wn: nat, n: nat)
  {
    wn < xn && 2 * (xn + if xn < yn - n then xn else yn - n) > zn - n
  }

  lemma SliceParts(f: MulFunc, x: nat, y: nat, zn: int, wn: nat, k: nat)
    requires 0 < Len(x) < Len(y) && 0 <= k * Len(x) < Len(y)
    ensures SliceStops(f, x, y, zn, wn, k * Len(x))
       <==> Squeezed(Len(x), Len(y), zn, wn, k * Len(x)) || ProductStops(f, x, y, zn, wn, k)
  {
    hide Stops, Len, Piece;
  }

  lemma ProductInRange(f: MulFunc, x: nat, y: nat, zn: int, wn: nat, k: nat)
    requires 0 < Len(x) && ProductStops(f, x, y, zn, wn, k)
    ensures 0 <= k * Len(x) < Len(y)
  {
  }

  // The last slice has room, and so a slice without is one of full length before it.
  lemma ShortSlice(xn: nat, yn: nat, zn: int, wn: nat, k: nat)
    requires 0 < xn < yn && 0 <= k * xn < yn && Squeezed(xn, yn, zn, SliceWork(xn, yn, zn, wn), k * xn)
    ensures BalanceShort(xn, yn, zn, wn)
  {
    var q := FullSlices(xn, yn);
    if k < q {
      LeMul(xn, k + 1, q);
      NextStart(xn, yn, k);
    } else {
      LeMul(xn, q, k);
    }
  }

  lemma LastButOne(xn: nat, yn: nat) returns (k: nat)
    requires 0 < xn < yn
    ensures 0 <= k * xn < yn && k * xn == yn - LastSlice(xn, yn) - xn
  {
    var q := FullSlices(xn, yn);
    k := q - 1;
    LeMul(xn, 0, k);
    assert k * xn == q * xn - xn;
  }

  // How many slices come before the last one
  ghost function FullSlices(xn: nat, yn: nat): (q: nat)
    requires 0 < xn < yn
    ensures yn == q * xn + LastSlice(xn, yn) && 1 <= q
  {
    DivMod(yn, xn);
    SliceCount(xn, yn, if yn % xn != 0 then yn / xn else yn / xn - 1, LastSlice(xn, yn));
    if yn % xn != 0 then yn / xn else yn / xn - 1
  }

  lemma SliceCount(xn: nat, yn: nat, q: int, last: nat)
    requires 0 < last <= xn < yn
    requires yn == xn * (q + 1) + last - xn
    ensures yn == q * xn + last && 1 <= q
  {
    assert xn * (q + 1) == q * xn + xn;
    if q < 1 {
      LeMul(xn, q, 0);
      assert false;
    }
  }

  // ---- a product that stops ----

  lemma OnesAtEnds(k: nat)
    requires 1 <= k
    ensures Len(Pow(k) + 1) == k + 1 && (Pow(k) + 1) % B == 1
  {
    BLarge();
    assert Pow(k) == B * Pow(k - 1) && Pow(k + 1) == B * Pow(k);
    PowMono(0, k - 1);
    assert Pow(0) == 1;
    MulLe(2, B, Pow(k));
    MulLe(2, B, Pow(k - 1));
    LenIs(Pow(k) + 1, k + 1);
    DivUnique(Pow(k) + 1, B, Pow(k - 1), 1);
  }

  // 250 significant digits, then 251 zeros, then 501 digits
  ghost function GappedNumber(): nat
  {
    Pow(249) + 1 + Pow(501) * (Pow(500) + 1)
  }

  lemma GappedDigits()
    ensures Len(GappedNumber()) == 1002 && GappedNumber() % B == 1
    ensures Piece(GappedNumber(), 0, 501) == Pow(249) + 1
  {
    var low, p := Pow(249) + 1, Pow(501);
    OnesAtEnds(249);
    assert low < p by {
      PowMono(250, 501);
      assert Pow(250) == B * Pow(249);
      BLarge();
      PowMono(0, 249);
      assert Pow(0) == 1;
      MulLe(2, B, Pow(249));
    }
    PowAdd(501, 500);
    PowAdd(501, 501);
    assert Pow(501) == B * Pow(500);
    BLarge();
    MulLe(2, B, Pow(500));
    PowMono(1, 500);
    Pow1();
    GappedBounds(low, p, Pow(500));
    LenIs(GappedNumber(), 1002);
    LowTimesB(low, Pow(500), Pow(500) + 1);
    hide Pow;
    DivUnique(GappedNumber(), 1, GappedNumber(), 0);
    DivUnique(GappedNumber(), p, Pow(500) + 1, low);
  }

  lemma GappedBounds(low: nat, p: nat, q: nat)
    requires low < p && 2 * q <= p && 2 <= q
    ensures p * q <= low + p * (q + 1) < p * p
  {
    assert p * (q + 1) + p == p * (q + 2);
    LeMul(p, q + 2, p);
  }

  lemma LowTimesB(low: nat, q: nat, h: nat)
    requires low % B == 1
    ensures (low + (B * q) * h) % B == 1
  {
    BLarge();
    DivMod(low, B);
    assert low + (B * q) * h == B * (low / B + q * h) + 1;
    DivUnique(low + (B * q) * h, B, low / B + q * h, 1);
  }

  lemma NoZeros(x: nat)
    requires x % B != 0
    ensures Low(x) == 0 && Trim(x) == x
  {
  }

  lemma UnbalancedStops(x: nat, y: nat, zn: int, wn: nat)
    requires TOOM3_MUL_DIGITS <= Len(x) < Len(y) && !Toom3Balanced(Len(x), Len(y)) && x % B != 0 && y % B != 0
    requires BalanceStops(Toom3Start, x, y, zn, wn)
    ensures Stops(Toom3Start, x, y, zn, wn) && Stops(Toom3Start, y, x, zn, wn)
  {
    NoZeros(x);
    NoZeros(y);
    hide Len, Low, Trim, BalanceStops, Toom3Stops, KaratsubaStops, Sparse;
    assert BranchStops(Toom3Start, x, y, zn, wn);
  }

  lemma FirstSliceStops()
    ensures Len(Pow(500) + 1) == 501 && (Pow(500) + 1) % B == 1
    ensures Stops(Toom3Start, Pow(500) + 1, Pow(249) + 1, 1002, 0)
  {
    OnesAtEnds(500);
    OnesAtEnds(249);
    hide Pow, Len, BalanceStops, Stops;
    assert BalanceShort(250, 501, 1002, 0);
    BalanceCondition(Toom3Start, Pow(249) + 1, Pow(500) + 1, 1002, 0);
    UnbalancedStops(Pow(249) + 1, Pow(500) + 1, 1002, 0);
  }

  // Two integers without leading zeros, of 501 and 1002 digits, whose product stops: the first slice of
  // y has 250 significant digits, and x, cut into slices of that length, leaves one digit over.
  lemma ProductOfIntegersStops()
    ensures Len(Pow(500) + 1) == 501 && Len(GappedNumber()) == 1002
    ensures Stops(Toom3Start, Pow(500) + 1, GappedNumber(), 501 + 1002, 0)
  {
    var x, y := Pow(500) + 1, GappedNumber();
    GappedDigits();
    FirstSliceStops();
    hide Pow, Len, GappedNumber, BalanceStops, Stops, Piece;
    assert 0 * 501 == 0 && SliceWork(501, 1002, 1503, 0) == 501;
    assert ProductStops(Toom3Start, x, y, 1503, 501, 0);
    BalanceCondition(Toom3Start, x, y, 1503, 0);
    UnbalancedStops(x, y, 1503, 0);
  }
}
