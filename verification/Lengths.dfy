/**
 The digits of a number: how many there are, the zeros at the low end, and pieces of
 consecutive digits.  What a buffer holds has these as its digits.
 */
module Lengths {
  import opened Digits
  import opened Kernel

  lemma QuotientLess(x: nat)
    requires x != 0
    ensures 0 <= x / B < x
  {
    BLarge();
    LessByHalf(x, B);
  }

  lemma LessByHalf(x: nat, b: nat)
    requires 0 < x && 2 <= b
    ensures 0 <= x / b < x
  {
    DivMod(x, b);
    if x <= x / b {
      LeMul(b, x, x / b);
    }
  }

  // The number of digits, without leading zeros
  ghost function Len(x: nat): (n: nat)
    ensures n == 0 <==> x == 0
  {
    if x == 0 then 0
    else
      QuotientLess(x);
      1 + Len(x / B)
  }

  // The number of low digits that are zero
  ghost function Low(x: nat): nat
  {
    if x == 0 || x % B != 0 then 0
    else
      QuotientLess(x);
      1 + Low(x / B)
  }

  // The number without its low digits that are zero
  ghost function Trim(x: nat): nat
  {
    if x == 0 || x % B != 0 then x
    else
      QuotientLess(x);
      Trim(x / B)
  }

  // The r digits from digit k on
  ghost function Piece(x: nat, k: nat, r: nat): (p: nat)
    ensures p < Pow(r) && Len(p) <= r
  {
    ModLess(x / Pow(k), Pow(r));
    LenAtMost(x / Pow(k) % Pow(r), r);
    x / Pow(k) % Pow(r)
  }

  lemma {:induction false} LenAtMost(x: nat, n: nat)
    requires x < Pow(n)
    ensures Len(x) <= n
    decreases n
  {
    if x != 0 {
      QuotientLess(x);
      QuotientBelow(x, B, Pow(n - 1));
      LenAtMost(x / B, n - 1);
    }
  }

  lemma {:induction false} LenIs(x: nat, n: nat)
    requires 0 < n && Pow(n - 1) <= x < Pow(n)
    ensures Len(x) == n
    decreases n
  {
    QuotientLess(x);
    QuotientBelow(x, B, Pow(n - 1));
    if n == 1 {
      Pow1();
      assert x / B == 0;
    } else {
      QuotientAtLeast(x, B, Pow(n - 2));
      LenIs(x / B, n - 1);
    }
  }

  lemma QuotientAtLeast(x: nat, b: nat, p: nat)
    requires 0 < b && b * p <= x
    ensures p <= x / b
  {
    DivMod(x, b);
    if x / b < p {
      LeMul(b, x / b + 1, p);
    }
  }

  lemma {:induction false} TrimLen(x: nat)
    ensures Len(Trim(x)) <= Len(x)
    ensures Low(Trim(x)) == 0 && Trim(Trim(x)) == Trim(x)
    decreases x
  {
    if x != 0 && x % B == 0 {
      QuotientLess(x);
      TrimLen(x / B);
    }
  }

  lemma {:induction false} LowStep(x: nat, y: nat)
    requires x == B * y && 0 < y
    ensures Low(x) == 1 + Low(y) && Trim(x) == Trim(y)
  {
    BLarge();
    ProductPositive(B, y);
    QuotientOfProduct(x, B, y);
  }

  lemma QuotientOfProduct(x: nat, b: nat, y: nat)
    requires 0 < b && x == b * y
    ensures x / b == y && x % b == 0
  {
    DivUnique(x, b, y, 0);
  }

  lemma {:induction false} LowIs(x: nat, k: nat, v: nat)
    requires x == Pow(k) * v && v % B != 0
    ensures Low(x) == k && Trim(x) == v
    decreases k
  {
    if k != 0 {
      var p := Pow(k - 1);
      assert Pow(k) == B * p;
      hide Pow, Low, Trim;
      TimesB(p, v);
      ProductPositive(p, v);
      LowStep(x, p * v);
      LowIs(p * v, k - 1, v);
    } else {
      assert x == v;
    }
  }

  lemma TimesB(p: int, v: int)
    ensures (B * p) * v == B * (p * v)
  {
  }

  lemma ProductPositive(p: nat, v: nat)
    requires 0 < p && 0 < v
    ensures 0 < p * v
  {
    LeMul(p, 1, v);
  }

  // ---- the digits of what a buffer holds ----

  lemma LowDigit(s: seq<Digit>, o: nat, n: nat)
    requires 0 < n && o + n <= |s|
    ensures V(s, o, n) % B == s[o]
  {
    VJoin(s, o, 1, o + 1, n - 1, n);
    Pow1();
    assert V(s, o, 1) == V(s, o, 0) + s[o] * Pow(0);
    DivUnique(V(s, o, n), B, V(s, o + 1, n - 1), s[o]);
  }

  // A buffer with a non-zero top digit
  lemma LenOfBuffer(s: seq<Digit>, o: nat, n: nat)
    requires o + n <= |s| && (n != 0 ==> s[o + n - 1] != 0)
    ensures Len(V(s, o, n)) == n
  {
    if n != 0 {
      VBound(s, o, n);
      VPositive(s, o, n, n - 1);
      LenIs(V(s, o, n), n);
    }
  }

  lemma LenOfAny(s: seq<Digit>, o: nat, n: nat)
    requires o + n <= |s|
    ensures Len(V(s, o, n)) <= n
  {
    VBound(s, o, n);
    LenAtMost(V(s, o, n), n);
  }

  lemma PieceIs(s: seq<Digit>, o: nat, n: nat, k: nat, r: nat)
    requires o + n <= |s| && k + r <= n
    ensures Piece(V(s, o, n), k, r) == V(s, o + k, r)
  {
    VJoin(s, o, k, o + k, n - k, n);
    VJoin(s, o + k, r, o + (k + r), n - k - r, n - k);
    VBound(s, o, k);
    VBound(s, o + k, r);
    hide V, Pow;
    DivUnique(V(s, o, n), Pow(k), V(s, o + k, n - k), V(s, o, k));
    DivUnique(V(s, o + k, n - k), Pow(r), V(s, o + (k + r), n - k - r), V(s, o + k, r));
  }

  // A piece that reaches beyond the top digit
  lemma TopPiece(s: seq<Digit>, o: nat, n: nat, k: nat, r: nat)
    requires o + n <= |s| && k <= n <= k + r
    ensures Piece(V(s, o, n), k, r) == V(s, o + k, n - k)
  {
    VJoin(s, o, k, o + k, n - k, n);
    VBound(s, o, k);
    VBound(s, o + k, n - k);
    PowMono(n - k, r);
    hide V, Pow;
    DivUnique(V(s, o, n), Pow(k), V(s, o + k, n - k), V(s, o, k));
    DivUnique(V(s, o + k, n - k), Pow(r), 0, V(s, o + k, n - k));
  }

  lemma DigitIs(s: seq<Digit>, o: nat, n: nat, k: nat)
    requires o + n <= |s| && k < n
    ensures Piece(V(s, o, n), k, 1) == s[o + k]
  {
    PieceIs(s, o, n, k, 1);
    assert V(s, o + k, 1) == V(s, o + k, 0) + s[o + k] * Pow(0);
  }
}
