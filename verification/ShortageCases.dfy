/**
 Which products stop, case by case, and how short they can be: no product stops whose
 shorter operand has up to 140 digits, and one of 141 by 282 digits does.
 */
module ShortageCases {
  import opened Digits
  import opened Kernel
  import opened Lengths
  import opened MulCommon
  import opened Workspace
  import opened Shortage

  // ---- the cases ----

  // The longer operand at least twice as long as the shorter, which is too short for Toom-3 or handed to
  // Karatsuba: the product stops exactly when neither is sparse, and balancing has no room for a slice or the
  // product of a slice stops.
  lemma SlicedByKaratsuba(f: MulFunc, x: nat, y: nat, zn: int, wn: nat)
    requires 70 <= Len(Trim(x)) && 2 * Len(Trim(x)) <= Len(Trim(y)) && (f == KaratsubaStart || Len(Trim(x)) < 150)
    ensures var a, b, z := Trim(x), Trim(y), zn - Low(x) - Low(y);
            Stops(f, x, y, zn, wn)
            <==> && !Sparse(a) && !Sparse(b)
                 && (|| BalanceShort(Len(a), Len(b), z, wn)
                     || exists k: nat :: ProductStops(KaratsubaStart, a, b, z, SliceWork(Len(a), Len(b), z, wn), k))
    ensures Stops(f, y, x, zn, wn) <==> Stops(f, x, y, zn, wn)
  {
    hide Len, Low, Trim, BalanceStops, Toom3Stops, KaratsubaStops, Sparse, ProductStops, BalanceShort, SliceWork;
    BalanceCondition(KaratsubaStart, Trim(x), Trim(y), zn - Low(x) - Low(y), wn);
  }

  // Long operands whose lengths are too different for Toom-3: sparse or not, the product stops exactly when
  // balancing has no room for a slice or the product of a slice stops.
  lemma SlicedByToom3(x: nat, y: nat, zn: int, wn: nat)
    requires 150 <= Len(Trim(x)) <= (Len(Trim(y)) + 2) / 3 * 2
    ensures var a, b, z := Trim(x), Trim(y), zn - Low(x) - Low(y);
            Stops(Toom3Start, x, y, zn, wn)
            <==> || BalanceShort(Len(a), Len(b), z, wn)
                 || exists k: nat :: ProductStops(Toom3Start, a, b, z, SliceWork(Len(a), Len(b), z, wn), k)
    ensures Stops(Toom3Start, y, x, zn, wn) <==> Stops(Toom3Start, x, y, zn, wn)
  {
    hide Len, Low, Trim, BalanceStops, Toom3Stops, KaratsubaStops, Sparse, ProductStops, BalanceShort, SliceWork;
    BalanceCondition(Toom3Start, Trim(x), Trim(y), zn - Low(x) - Low(y), wn);
  }

  // With q slices of full length before the last one, of r digits
  lemma SliceTerms(xn: nat, yn: nat, q: nat, r: nat, zn: int, wn: nat)
    requires 0 < r <= xn && yn == xn * q + r
    ensures BalanceShort(xn, yn, zn, wn) <==> wn < xn && 2 * xn + yn + r <= zn < 3 * xn + yn - r
    ensures SliceWork(xn, yn, zn, wn) == if wn < xn && zn < 2 * xn + yn + r then xn else wn
  {
    if r < xn {
      DivUnique(yn, xn, q, r);
    } else {
      assert yn == xn * (q + 1);
      DivUnique(yn, xn, q + 1, 0);
    }
  }

  // One slice: its product gets the length of both operands, and as workspace what is left when the digits in
  // use must be saved.
  lemma SliceProduct(f: MulFunc, x: nat, y: nat, zn: int, wn: nat, k: nat, n: nat, r: nat)
    requires 0 < Len(x) && n == k * Len(x) && n + r <= Len(y)
    requires 0 < r <= Len(x) && (r == Len(x) || n + r == Len(y))
    ensures 2 * (Len(x) + r) <= zn - n ==>
              (ProductStops(f, x, y, zn, wn, k) <==> Stops(f, x, y / Pow(n) % Pow(r), Len(x) + r, wn))
    ensures zn - n < 2 * (Len(x) + r) && Len(x) <= wn ==>
              (ProductStops(f, x, y, zn, wn, k) <==> Stops(f, x, y / Pow(n) % Pow(r), Len(x) + r, wn - Len(x)))
  {
    hide Stops, Len, Pow;
  }

  // Lengths that Karatsuba takes as they are: the product stops exactly when neither operand is sparse and one of
  // the three products of halves does.
  lemma CutByKaratsuba(f: MulFunc, x: nat, y: nat, zn: int, wn: nat)
    requires 70 <= Len(Trim(x)) <= Len(Trim(y)) < 2 * Len(Trim(x)) && (f == KaratsubaStart || Len(Trim(x)) < 150)
    ensures var a, b, z := Trim(x), Trim(y), zn - Low(x) - Low(y);
            var n := Len(b) / 2;
            var h, rest := Min(Len(a), 2 * n) - n, if n <= wn then wn - n else n;
            Stops(f, x, y, zn, wn)
            <==> && !Sparse(a) && !Sparse(b)
                 && HalfStops(Piece(a, 0, n), Piece(a, n, h), Piece(b, 0, n), Piece(b, n, n), n, z, rest)
  {
    KaratsubaHalves(Trim(x), Trim(y), zn - Low(x) - Low(y), wn);
    hide Len, Low, Trim, BalanceStops, Toom3Stops, KaratsubaStops, HalfStops, Sparse, Piece;
  }

  lemma KaratsubaHalves(x: nat, y: nat, zn: int, wn: nat)
    requires 2 <= Len(x) <= Len(y) < 2 * Len(x)
    ensures var n := Len(y) / 2;
            var h, rest := Min(Len(x), 2 * n) - n, if n <= wn then wn - n else n;
            KaratsubaStops(x, y, zn, wn)
            <==> HalfStops(Piece(x, 0, n), Piece(x, n, h), Piece(y, 0, n), Piece(y, n, n), n, zn, rest)
  {
    var n := Len(y) / 2;
    var h := Min(Len(x), 2 * n) - n;
    HalvesOf(Piece(x, 0, n), Piece(x, n, h), Piece(y, 0, n), Piece(y, n, n), n, h, zn, if n <= wn then wn - n else n);
    hide Len, HalvesStop, HalfStops, Piece;
  }

  // The products of the differences, of the low halves and of the high halves
  ghost predicate HalfStops(x0: nat, x1: nat, y0: nat, y1: nat, n: nat, zn: int, rest: nat)
  {
    || Stops(KaratsubaStart, if x0 < x1 then x1 - x0 else x0 - x1, if y0 < y1 then y1 - y0 else y0 - y1, 2 * n, rest)
    || Stops(KaratsubaStart, x0, y0, 2 * n, rest)
    || Stops(KaratsubaStart, x1, y1, zn - 2 * n, rest)
  }

  lemma HalvesOf(x0: nat, x1: nat, y0: nat, y1: nat, n: nat, h: nat, zn: int, rest: nat)
    requires 0 < h <= n && x0 < Pow(n) && x1 < Pow(h) && y0 < Pow(n) && y1 < Pow(n)
    ensures HalvesStop(x0, x1, y0, y1, n, h, zn, rest) <==> HalfStops(x0, x1, y0, y1, n, zn, rest)
  {
    hide Stops, Len, Pow;
  }

  // Lengths that Toom-3 takes as they are: the product stops exactly when one of the five products of values of
  // the operands at 0, 1, -1, -2 and infinity does.
  lemma CutByToom3(x: nat, y: nat, zn: int, wn: nat)
    requires 150 <= Len(Trim(x)) <= Len(Trim(y)) && (Len(Trim(y)) + 2) / 3 * 2 < Len(Trim(x))
    ensures var a, b := Trim(x), Trim(y);
            var n := (Len(b) + 2) / 3;
            Stops(Toom3Start, x, y, zn, wn)
            <==> ValueStops(Piece(a, 0, n), Piece(a, n, n), Piece(a, 2 * n, n),
                            Piece(b, 0, n), Piece(b, n, n), Piece(b, 2 * n, n),
                            n, if wn < 22 * n + 15 then (22 * n + 15) * 3 / 2 - (22 * n + 15) else wn - (22 * n + 15))
  {
    Toom3Values(Trim(x), Trim(y), wn);
    hide Len, Low, Trim, BalanceStops, Toom3Stops, KaratsubaStops, ValueStops, Sparse, Piece;
  }

  lemma Toom3Values(x: nat, y: nat, wn: nat)
    requires 150 <= Len(x) <= Len(y)
    ensures var n := (Len(y) + 2) / 3;
            Toom3Stops(x, y, wn)
            <==> ValueStops(Piece(x, 0, n), Piece(x, n, n), Piece(x, 2 * n, n),
                            Piece(y, 0, n), Piece(y, n, n), Piece(y, 2 * n, n),
                            n, if wn < 22 * n + 15 then (22 * n + 15) * 3 / 2 - (22 * n + 15) else wn - (22 * n + 15))
  {
    var n := (Len(y) + 2) / 3;
    ValuesOf(Cut3(x, n), Cut3(y, n), n, Toom3Rest(wn, n));
    hide Len, PiecesStop, ValueStops, Piece;
  }

  ghost predicate ValueStops(x0: nat, x1: nat, x2: nat, y0: nat, y1: nat, y2: nat, n: nat, rest: nat)
  {
    || Stops(Toom3Start, x0, y0, 2 * n, rest)
    || Stops(Toom3Start, x0 + x1 + x2, y0 + y1 + y2, 2 * n + 2, rest)
    || Stops(Toom3Start, Abs(x0 - x1 + x2), Abs(y0 - y1 + y2), 2 * n + 2, rest)
    || Stops(Toom3Start, Abs(x0 - 2 * x1 + 4 * x2), Abs(y0 - 2 * y1 + 4 * y2), 2 * n + 2, rest)
    || Stops(Toom3Start, x2, y2, 2 * n, rest)
  }

  lemma ValuesOf(x: Pieces, y: Pieces, n: nat, rest: nat)
    requires Bounded(x, n) && Bounded(y, n)
    ensures PiecesStop(x, y, n, rest) <==> ValueStops(x.x0, x.x1, x.x2, y.x0, y.x1, y.x2, n, rest)
  {
    hide Stops, Len, Pow, Abs;
  }

  // ---- up to 140 digits ----

  lemma {:induction false} LenParts(x: nat)
    ensures Len(x) == Low(x) + Len(Trim(x))
    decreases x
  {
    if x != 0 && x % B == 0 {
      QuotientLess(x);
      LenParts(x / B);
    }
  }

  // Both operands are this short.
  lemma BothShort(x: nat, y: nat, zn: int)
    requires Len(x) <= SHORT_DIGITS && Len(y) <= SHORT_DIGITS
    ensures !Stops(KaratsubaStart, x, y, zn, 0)
  {
    ShortBalanced(x, y);
    TrimLen(x);
    TrimLen(y);
    hide Low, Trim, Len, Toom3Stops, KaratsubaStops, BalanceStops, Sparse;
    var a, b, z := Trim(x), Trim(y), zn - Low(x) - Low(y);
    if KARATSUBA_MUL_DIGITS <= Len(a) <= Len(b) {
      KaratsubaNever(a, b, z, 0);
    } else if KARATSUBA_MUL_DIGITS <= Len(b) <= Len(a) {
      KaratsubaNever(b, a, z, 0);
    }
  }

  // Cut into slices as short as this, y makes only short products.
  lemma SlicesShort(x: nat, y: nat, zn: int, wn: nat, k: nat)
    requires 0 < Len(x) <= SHORT_DIGITS && (wn == 0 || wn == Len(x))
    ensures !ProductStops(KaratsubaStart, x, y, zn, wn, k)
  {
    hide Stops, Len, Piece, BalanceStops;
    var n := k * Len(x);
    if 0 <= n < Len(y) {
      var r := Min(Len(x), Len(y) - n);
      BothShort(x, Piece(y, n, r), Len(x) + r);
      if wn == Len(x) {
        EnoughNever(KaratsubaStart, x, Piece(y, n, r), Len(x) + r, wn, Len(x));
      }
    }
  }

  // 70 digits by 140 are the only lengths up to 140 that Karatsuba does not take as they are.
  lemma BothUpTo140(x: nat, y: nat, zn: int)
    requires Len(x) <= 140 && Len(y) <= 140 && zn <= 280
    ensures !Stops(KaratsubaStart, x, y, zn, 0)
  {
    TrimLen(x);
    TrimLen(y);
    hide Low, Trim, Len, Stops, Sparse;
    var a, b := Len(Trim(x)), Len(Trim(y));
    if Min(a, b) < 70 {
      ShortNever(KaratsubaStart, x, y, zn, 0);
    } else if b < 2 * a && a < 2 * b {
      TakenAsTheyAre(x, y, zn);
    } else if a == 70 {
      SeventyByTwice(x, y, zn);
    } else {
      SeventyByTwice(y, x, zn);
    }
  }

  lemma TakenAsTheyAre(x: nat, y: nat, zn: int)
    requires 70 <= Len(Trim(x)) < 2 * Len(Trim(y)) && 70 <= Len(Trim(y)) < 2 * Len(Trim(x))
    ensures !Stops(KaratsubaStart, x, y, zn, 0)
  {
    hide Low, Trim, Len, Toom3Stops, KaratsubaStops, BalanceStops, Sparse;
    var a, b, z := Trim(x), Trim(y), zn - Low(x) - Low(y);
    if Len(a) <= Len(b) {
      KaratsubaNever(a, b, z, 0);
    } else {
      KaratsubaNever(b, a, z, 0);
    }
  }

  lemma SeventyByTwice(x: nat, y: nat, zn: int)
    requires Len(Trim(x)) == 70 && Len(Trim(y)) == 140 && zn <= 280
    ensures !Stops(KaratsubaStart, x, y, zn, 0) && !Stops(KaratsubaStart, y, x, zn, 0)
  {
    hide Low, Trim, Len, Stops, Sparse, ProductStops;
    SlicedByKaratsuba(KaratsubaStart, x, y, zn, 0);
    var z := zn - Low(x) - Low(y);
    SliceTerms(70, 140, 1, 70, z, 0);
    forall k: nat ensures !ProductStops(KaratsubaStart, Trim(x), Trim(y), z, SliceWork(70, 140, z, 0), k) {
      SlicesShort(Trim(x), Trim(y), z, SliceWork(70, 140, z, 0), k);
    }
  }

  // A slice of y of up to 140 digits, with all digits of the operands to put its product into or less
  lemma SliceUpTo140(x: nat, y: nat, zn: int, k: nat)
    requires 0 < Len(x) <= 140
    ensures !ProductStops(KaratsubaStart, x, y, zn, Len(x), k)
  {
    hide Stops, Len, Piece, BalanceStops;
    var n := k * Len(x);
    if 0 <= n < Len(y) {
      var r := Min(Len(x), Len(y) - n);
      BothUpTo140(x, Piece(y, n, r), Len(x) + r);
      EnoughNever(KaratsubaStart, x, Piece(y, n, r), Len(x) + r, Len(x), Len(x));
    }
  }

  // A product into exactly the digits it needs never stops when the shorter operand has up to 140 digits,
  // however long the other one is.
  lemma UpTo140(x: nat, y: nat, zn: int)
    requires Min(Len(Trim(x)), Len(Trim(y))) <= 140 && zn == Len(x) + Len(y)
    ensures !Stops(Toom3Start, x, y, zn, 0)
  {
    LenParts(x);
    LenParts(y);
    hide Low, Trim, Len, Stops;
    if Len(Trim(x)) <= Len(Trim(y)) {
      ShorterUpTo140(x, y, zn);
    } else {
      ShorterUpTo140(y, x, zn);
    }
  }

  lemma ShorterUpTo140(x: nat, y: nat, zn: int)
    requires Len(Trim(x)) <= Len(Trim(y)) && Len(Trim(x)) <= 140
    requires zn - Low(x) - Low(y) == Len(Trim(x)) + Len(Trim(y))
    ensures !Stops(Toom3Start, x, y, zn, 0)
    ensures Len(Trim(x)) < Len(Trim(y)) ==> !Stops(Toom3Start, y, x, zn, 0)
  {
    hide Low, Trim, Len, Stops, Sparse, ProductStops;
    var a, b, z := Trim(x), Trim(y), zn - Low(x) - Low(y);
    if Len(a) < 70 {
      ShortNever(Toom3Start, x, y, zn, 0);
      ShortNever(Toom3Start, y, x, zn, 0);
    } else if Len(b) < 2 * Len(a) {
      BalancedNever(x, y, zn);
      BalancedNever(y, x, zn);
    } else {
      SlicedByKaratsuba(Toom3Start, x, y, zn, 0);
      assert SliceWork(Len(a), Len(b), z, 0) == Len(a) && !BalanceShort(Len(a), Len(b), z, 0);
      forall k: nat ensures !ProductStops(KaratsubaStart, a, b, z, Len(a), k) {
        SliceUpTo140(a, b, z, k);
      }
    }
  }

  // ---- 141 digits ----

  // All n digits are the largest.
  ghost function Nines(n: nat): (x: nat)
  {
    PowMono(0, n);
    Pow(n) - 1
  }

  lemma NinesDigits(n: nat)
    requires 1 <= n
    ensures Len(Nines(n)) == n && Nines(n) % B != 0
  {
    BLarge();
    assert Pow(n) == B * Pow(n - 1);
    PowMono(0, n - 1);
    assert Pow(0) == 1;
    MulLe(2, B, Pow(n - 1));
    LenIs(Nines(n), n);
    BelowMultiple(B, Pow(n - 1));
  }

  lemma BelowMultiple(b: nat, p: nat)
    requires 2 <= b && 1 <= p
    ensures 0 <= b * p - 1 && (b * p - 1) % b == b - 1
  {
    LeMul(b, 1, p);
    assert b * p - 1 == b * (p - 1) + (b - 1);
    DivUnique(b * p - 1, b, p - 1, b - 1);
  }

  // The digits from k on are nines as well.
  lemma NinesAbove(n: nat, k: nat)
    requires k < n
    ensures Piece(Nines(n), k, 1) != 0
  {
    PowMono(0, k);
    PowMono(0, n - k);
    PowAdd(k, n - k);
    BLarge();
    assert Pow(0) == 1;
    assert Pow(k) * Pow(n - k) - 1 == Pow(k) * (Pow(n - k) - 1) + (Pow(k) - 1);
    DivUnique(Nines(n), Pow(k), Nines(n - k), Pow(k) - 1);
    NinesDigits(n - k);
    Pow1();
  }

  lemma NinesNotSparse(n: nat)
    requires 1 <= n
    ensures !Sparse(Nines(n))
  {
    NinesDigits(n);
    NinesAbove(n, 2 * n / 5);
    NinesAbove(n, n / 2);
    NinesAbove(n, 3 * n / 5);
    hide Piece, Nines, Len;
  }

  // Digits added below leave the others what they are.
  lemma PieceAbove(low: nat, h: nat, k: nat, j: nat)
    requires low < Pow(k)
    ensures 0 <= Pow(k) * h && Piece(low + Pow(k) * h, k + j, 1) == Piece(h, j, 1)
  {
    var p, q := Pow(k), Pow(j);
    PowMono(0, j);
    assert Pow(0) == 1;
    PowAdd(k, j);
    ModLess(h, q);
    DivMod(h, q);
    BelowProduct(low, p, h % q, q);
    SplitTwice(low, p, q, h / q, h % q);
    LeMul(p, 0, h);
    hide Pow;
    DivUnique(low + p * h, p * q, h / q, low + p * (h % q));
  }

  lemma BelowProduct(low: nat, p: nat, r: nat, q: nat)
    requires low < p && r < q
    ensures 0 <= low + p * r < p * q
  {
    LeMul(p, 0, r);
    LeMul(p, r + 1, q);
  }

  lemma SplitTwice(low: int, p: int, q: int, c: int, r: int)
    ensures low + p * (q * c + r) == (p * q) * c + (low + p * r)
  {
  }

  // 70 nines, then 71 zeros, then 141 nines
  ghost function Gapped(): nat
  {
    LeMul(Pow(141), 0, Nines(141));
    Nines(70) + Pow(141) * Nines(141)
  }

  lemma GappedLength()
    ensures Len(Gapped()) == 282
  {
    var p, q := Pow(141), Pow(281);
    PowMono(70, 141);
    PowMono(141, 281);
    PowAdd(141, 141);
    assert Pow(282) == B * q;
    BLarge();
    MulLe(2, B, q);
    GappedBounds(Nines(70), p, q, Pow(282));
    hide Pow;
    LenIs(Gapped(), 282);
  }

  lemma GappedBounds(low: nat, p: nat, q: nat, t: nat)
    requires low < p <= q && p * p == t && 2 * q <= t
    ensures q <= low + p * (p - 1) < t
  {
    assert p * (p - 1) == p * p - p;
  }

  lemma GappedDigits()
    ensures Gapped() % B != 0 && !Sparse(Gapped())
    ensures Piece(Gapped(), 0, 141) == Nines(70)
  {
    var low, h := Nines(70), Nines(141);
    PowMono(70, 141);
    NinesDigits(70);
    PieceAbove(low, h, 141, 0);
    PieceAbove(low, h, 141, 28);
    NinesAbove(141, 0);
    NinesAbove(141, 28);
    GappedLength();
    assert Pow(141) == B * Pow(140) && Pow(0) == 1;
    LowAbove(low, Pow(140), h);
    hide Nines, Len;
    DivUnique(Gapped(), Pow(141), h, low);
    DivUnique(Gapped(), 1, Gapped(), 0);
    hide Pow, Piece;
  }

  lemma LowAbove(low: nat, q: nat, h: nat)
    requires 0 < B
    ensures (low + (B * q) * h) % B == low % B
  {
    DivMod(low, B);
    ModLess(low, B);
    assert low + (B * q) * h == B * (low / B + q * h) + low % B;
    DivUnique(low + (B * q) * h, B, low / B + q * h, low % B);
  }

  // The low slice has 70 digits, and 141 digits cut into slices of 70 leave one over.
  lemma LowSliceStops()
    ensures Stops(KaratsubaStart, Nines(141), Nines(70), 282, 0)
  {
    NinesDigits(141);
    NinesDigits(70);
    NinesNotSparse(141);
    NinesNotSparse(70);
    NoZeros(Nines(141));
    NoZeros(Nines(70));
    hide Nines, Len, Low, Trim, Sparse, Stops, ProductStops;
    SliceTerms(70, 141, 2, 1, 282, 0);
    SlicedByKaratsuba(KaratsubaStart, Nines(70), Nines(141), 282, 0);
  }

  lemma GappedSliceStops()
    requires Len(Nines(141)) == 141 && Len(Gapped()) == 282
    ensures ProductStops(KaratsubaStart, Nines(141), Gapped(), 423, 141, 0)
  {
    GappedDigits();
    LowSliceStops();
    hide Nines, Gapped, Len, Stops, Piece;
    assert 0 * 141 == 0;
  }

  // A slice of half the longer operand stops.
  lemma HalfSliceStops(x: nat, y: nat)
    requires Len(x) == 141 && x % B != 0 && !Sparse(x) && Len(y) == 282 && y % B != 0 && !Sparse(y)
    requires ProductStops(KaratsubaStart, x, y, 423, 141, 0)
    ensures Stops(Toom3Start, x, y, 423, 0)
  {
    NoZeros(x);
    NoZeros(y);
    hide Len, Low, Trim, Sparse, Stops, ProductStops;
    SliceTerms(141, 282, 1, 141, 423, 0);
    SlicedByKaratsuba(Toom3Start, x, y, 423, 0);
  }

  // With 141 digits it can stop: two integers without leading zeros, of 141 and 282 digits.
  lemma StopsAt141()
    ensures Len(Nines(141)) == 141 && Len(Gapped()) == 282
    ensures Stops(Toom3Start, Nines(141), Gapped(), 141 + 282, 0)
  {
    hide Nines, Gapped, Len, Sparse, Stops, ProductStops;
    NinesDigits(141);
    NinesNotSparse(141);
    GappedLength();
    GappedDigits();
    GappedSliceStops();
    HalfSliceStops(Nines(141), Gapped());
  }
}
