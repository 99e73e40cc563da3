/**
 Long division of bignum.c: division by one digit, the in-place quotient loop of
 bigdivrem1 with its add-back step, the stripping of trailing zeros in
 bigdivrem_restoring, and the normalising shift around it.
 */
module Division {
  import opened Digits
  import opened Kernel
  import opened MulKernel

  // bit_length
  function BitLength(d: nat): nat
  {
    if d == 0 then 0 else 1 + BitLength(d / 2)
  }

  // POW2_P: x & (x-1) is zero for 0 and the powers of two.
  predicate Pow2P(d: nat)
  {
    d == 0 || d == Pow2(BitLength(d) - 1)
  }

  lemma BitLengthBounds(d: nat)
    requires 0 < d
    ensures Pow2(BitLength(d) - 1) <= d < Pow2(BitLength(d))
  {
    if 1 < d {
      BitLengthBounds(d / 2);
    }
  }

  lemma BitLengthDigit(d: Digit)
    requires 0 < d
    ensures 1 <= BitLength(d) <= W
  {
    BitLengthBounds(d);
    Pow2Less(BitLength(d) - 1, W);
  }

  // BDIGIT_MSB
  predicate Msb(d: nat)
  {
    B <= 2 * d
  }

  // nlz
  function Nlz(d: Digit): (s: nat)
    requires 0 < d
    ensures s < W
    ensures B <= 2 * (d * Pow2(s)) && d * Pow2(s) + Pow2(s) <= B
  {
    BitLengthDigit(d);
    BitLengthBounds(d);
    NlzScaled(d);
    W - BitLength(d)
  }

  lemma NlzScaled(d: Digit)
    requires 0 < d && 1 <= BitLength(d) <= W
    requires Pow2(BitLength(d) - 1) <= d < Pow2(BitLength(d))
    ensures B <= 2 * (d * Pow2(W - BitLength(d))) && d * Pow2(W - BitLength(d)) + Pow2(W - BitLength(d)) <= B
  {
    var k, s := BitLength(d), W - BitLength(d);
    Pow2Add(k, s);
    Pow2Add(k - 1, s);
    MulLe(Pow2(k - 1), d, Pow2(s));
    MulLt(d, Pow2(k), Pow2(s));
    assert Pow2(k) == 2 * Pow2(k - 1);
    assert 2 * (Pow2(k - 1) * Pow2(s)) == Pow2(k) * Pow2(s);
  }

  // ---- bigdivrem_single1 ----

  // Divides the digits of x, preceded by x_higher_bdigit, by y; returns the remainder.
  method DivSingle1(m: Memory, qo: nat, xo: nat, xn: nat, higher: Digit, y: Digit) returns (r: Digit)
    requires qo + xn <= |m.cells| && xo + xn <= |m.cells|
    requires 0 < xn && higher < y && (xo <= qo || qo + xn <= xo)
    modifies m
    ensures Keeps(old(m.cells), m.cells, qo, xn)
    ensures r < y
    ensures V(m.cells, qo, xn) * y + r == V(old(m.cells), xo, xn) + higher * Pow(xn)
  {
    if Pow2P(y) {
      hide V, Pow;
      BitLengthDigit(y);
      // the mask y-1 keeps the bits below the single set bit of y
      r := m.cells[xo] % y;
      ModSmall(higher, y);
      SmallRshift(m, qo, xo, xn, BitLength(y) - 1, higher);
    } else {
      r := DivSingleLoop(m, qo, xo, xn, higher, y);
    }
  }

  method DivSingleLoop(m: Memory, qo: nat, xo: nat, xn: nat, higher: Digit, y: Digit) returns (r: Digit)
    requires qo + xn <= |m.cells| && xo + xn <= |m.cells|
    requires higher < y && (xo <= qo || qo + xn <= xo)
    modifies m
    ensures Keeps(old(m.cells), m.cells, qo, xn)
    ensures r < y
    ensures V(m.cells, qo, xn) * y + r == V(old(m.cells), xo, xn) + higher * Pow(xn)
  {
    ghost var s0 := m.cells;
    var t2: nat, k: nat := higher, xn;
    while 0 < k
      invariant k <= xn && t2 < y && KeepsCells(s0, m.cells, qo + k, xn - k)
      invariant V(m.cells, qo + k, xn - k) * y + t2 == V(s0, xo + k, xn - k) + higher * Pow(xn - k)
    {
      k := k - 1;
      ghost var s1, h := m.cells, t2;
      var x: nat := m.cells[xo + k];
      t2 := t2 * B + x;
      QuotientDigit(h, x, y);
      var q := t2 / y;
      m.cells := m.cells[qo + k := q];
      t2 := t2 % y;
      VPrepend(s1, m.cells, qo + k, xn - k - 1);
      VPrepend(s0, s0, xo + k, xn - k - 1);
      SingleStep(V(s1, qo + k + 1, xn - k - 1), y, h, x, q, t2, V(s0, xo + k + 1, xn - k - 1), higher, Pow(xn - k - 1));
    }
    KeepsIntro(s0, m.cells, qo, xn);
    r := t2;
  }

  lemma ModSmall(a: nat, b: nat)
    requires a < b
    ensures a % b == a
  {
    DivUnique(a, b, 0, a);
  }

  lemma QuotientDigit(h: nat, x: nat, y: nat)
    requires h < y && x < B
    ensures 0 <= (h * B + x) / y < B
    ensures h * B + x == ((h * B + x) / y) * y + (h * B + x) % y
  {
    var t := h * B + x;
    DivMod(t, y);
    MulLt(h, y, B);
    assert t < y * B;
    if B <= t / y {
      LeMul(y, B, t / y);
    }
    if t / y < 0 {
      LeMul(y, t / y, -1);
    }
  }

  lemma SingleStep(v: nat, y: nat, h: nat, x: nat, q: nat, r: nat, v0: nat, hi: nat, p: nat)
    requires v * y + h == v0 + hi * p
    requires h * B + x == q * y + r
    ensures (q + B * v) * y + r == (x + B * v0) + hi * (B * p)
  {
    assert (q + B * v) * y == q * y + B * (v * y);
    assert B * (v * y) == B * (v0 + hi * p - h);
    assert B * (v0 + hi * p - h) == B * v0 + hi * (B * p) - h * B;
  }

  // ---- bigdivrem1 ----

  // The digit guessed from the two top digits of z and the top digit of y.
  function Estimate(z1: Digit, z0: Digit, y1: Digit): Digit
    requires z1 <= y1 && 0 < y1
  {
    if z1 == y1 then B - 1 else QuotientDigit(z1, z0, y1); (z1 * B + z0) / y1
  }

  // The guess is never too small, and too large by less than B*r above a digit's worth.
  lemma EstimateBounds(z1: Digit, z0: Digit, zl: nat, y1: Digit, yl: nat, r: nat)
    requires 0 < y1 && z1 <= y1 && zl < r && yl < r
    requires z1 * (B * r) + z0 * r + zl < B * (y1 * r + yl)
    ensures Between(z1 * (B * r) + z0 * r + zl - Estimate(z1, z0, y1) * (y1 * r + yl), B * r, y1 * r + yl)
  {
    var q: nat := Estimate(z1, z0, y1);
    if z1 == y1 {
      EstimateTop(y1, z0, zl, yl, r);
    } else {
      QuotientDigit(z1, z0, y1);
      EstimateQuotient(z1, z0, zl, y1, yl, r, q, (z1 * B + z0) % y1);
    }
  }

  lemma EstimateTop(y1: nat, z0: nat, zl: nat, yl: nat, r: nat)
    requires 0 < y1 && yl < r && zl < r
    requires y1 * (B * r) + z0 * r + zl < B * (y1 * r + yl)
    ensures -(B * r) < y1 * (B * r) + z0 * r + zl - (B - 1) * (y1 * r + yl) < y1 * r + yl
  {
    var y := y1 * r + yl;
    assert (B - 1) * y == B * y - y;
    assert B * y == y1 * (B * r) + B * yl;
    MulLt(yl, r, B);
    assert 0 <= y1 * r && 0 <= z0 * r;
  }

  lemma EstimateQuotient(z1: nat, z0: nat, zl: nat, y1: nat, yl: nat, r: nat, q: nat, rho: nat)
    requires zl < r && yl < r && q < B && rho < y1
    requires z1 * B + z0 == q * y1 + rho
    ensures -(B * r) < z1 * (B * r) + z0 * r + zl - q * (y1 * r + yl) < y1 * r + yl
  {
    assert z1 * (B * r) + z0 * r == (z1 * B + z0) * r;
    assert (z1 * B + z0) * r == q * (y1 * r) + rho * r;
    assert q * (y1 * r + yl) == q * (y1 * r) + q * yl;
    MulLt(rho, y1, r);
    assert q * yl <= B * yl by { MulLe(q, B, yl); }
    MulLt(yl, r, B);
    assert 0 <= rho * r && 0 <= q * yl;
  }

  // One quotient digit: the window of yn+1 digits at wo becomes q*y + remainder, the remainder
  // staying in its low yn digits.  At most two add-backs are needed.
  method DivStep(m: Memory, wo: nat, yo: nat, yn: nat) returns (q: Digit, ghost adds: nat)
    requires wo + yn + 1 <= |m.cells| && yo + yn <= |m.cells|
    requires 2 <= yn && Apart(yo, yn, wo, yn + 1)
    requires Msb(m.cells[yo + yn - 1])
    requires V(m.cells, wo + 1, yn) < V(m.cells, yo, yn)
    modifies m
    ensures Keeps(old(m.cells), m.cells, wo, yn)
    ensures V(old(m.cells), wo, yn + 1) == q * V(m.cells, yo, yn) + V(m.cells, wo, yn)
    ensures V(m.cells, wo, yn) < V(m.cells, yo, yn)
    ensures adds <= 2
  {
    ghost var s0 := m.cells;
    ghost var y, z := V(s0, yo, yn), V(s0, wo, yn + 1);
    WindowEstimate(s0, wo, yo, yn);
    VBound(s0, yo, yn);
    MulLe(if m.cells[wo + yn] == 0 then 0 else 1, m.cells[wo + yn], Pow(yn));
    assert z == V(s0, wo, yn) + s0[wo + yn] * Pow(yn);
    hide V, Pow, BigLo, BigDn;
    adds := 0;
    if m.cells[wo + yn] == m.cells[yo + yn - 1] {
      q := B - 1;
    } else {
      QuotientDigit(m.cells[wo + yn], m.cells[wo + yn - 1], m.cells[yo + yn - 1]);
      q := (m.cells[wo + yn] * B + m.cells[wo + yn - 1]) / m.cells[yo + yn - 1];
    }
    if q != 0 {
      var num := MulSub(m, wo, yn + 1, q, yo, yn);
      q, adds := AddBack(m, wo, yo, yn, q, num, z);
      KeepsIntro(s0, m.cells, wo, yn);
    }
  }

  // num != 0 says that the guess q was too large: y is added back until it is not.
  method AddBack(m: Memory, wo: nat, yo: nat, yn: nat, guess: Digit, pending: int, ghost z: nat)
    returns (q: Digit, ghost adds: nat)
    requires wo + yn <= |m.cells| && yo + yn <= |m.cells| && Apart(yo, yn, wo, yn)
    requires V(m.cells, wo, yn) + pending * Pow(yn) == z - guess * V(m.cells, yo, yn)
    requires Between(z - guess * V(m.cells, yo, yn), Pow(yn), V(m.cells, yo, yn))
    requires Pow(yn) <= 2 * V(m.cells, yo, yn)
    modifies m
    ensures Keeps(old(m.cells), m.cells, wo, yn)
    ensures z == q * V(m.cells, yo, yn) + V(m.cells, wo, yn)
    ensures V(m.cells, wo, yn) < V(m.cells, yo, yn)
    ensures adds <= 2
  {
    ghost var s0 := m.cells;
    ghost var y := V(s0, yo, yn);
    var num := pending;
    q, adds := guess, 0;
    hide V, Pow;
    VBound(s0, wo, yn);
    VBound(s0, yo, yn);
    Sign(V(s0, wo, yn), num, Pow(yn), z - q * y);
    while num != 0
      invariant Keeps(s0, m.cells, wo, yn)
      invariant V(m.cells, wo, yn) + num * Pow(yn) == z - q * y
      invariant Between(z - q * y, Pow(yn), y) && num == (if z - q * y < 0 then -1 else 0)
      invariant adds <= 2 && -(2 * y) + adds * y < z - q * y
      decreases q
    {
      NextGuess(z, q, y, adds);
      q := q - 1;
      adds := adds + 1;
      num := AddC(m, wo, yn, wo, yn, yo, yn, 0);
      num := num - 1;
      VBound(m.cells, wo, yn);
      Sign(V(m.cells, wo, yn), num, Pow(yn), z - q * y);
      KeepsIntro(s0, m.cells, wo, yn);
    }
  }

  predicate Between(delta: int, p: int, y: int)
  {
    -p < delta < y
  }

  lemma MsbScaled(d: nat, r: nat)
    requires Msb(d)
    ensures B * r <= 2 * (d * r)
  {
    MulLe(B, 2 * d, r);
  }

  lemma Sign(v: nat, num: int, p: nat, delta: int)
    requires v < p && v + num * p == delta && Between(delta, p, p)
    ensures num == if delta < 0 then -1 else 0
  {
    if num <= -2 {
      MulLeInt(num, -2, p);
    } else if 1 <= num {
      MulLeInt(1, num, p);
    }
  }

  lemma NextGuess(z: nat, q: nat, y: nat, adds: nat)
    requires z < q * y && -(2 * y) + adds * y < z - q * y && adds <= 2
    ensures 0 < q && adds <= 1
    ensures (q - 1) * y == q * y - y && (adds + 1) * y == adds * y + y
  {
  }

  lemma WindowEstimate(s: seq<Digit>, wo: nat, yo: nat, yn: nat)
    requires wo + yn + 1 <= |s| && yo + yn <= |s| && 2 <= yn
    requires Msb(s[yo + yn - 1])
    requires V(s, wo + 1, yn) < V(s, yo, yn)
    ensures s[wo + yn] <= s[yo + yn - 1]
    ensures Between(V(s, wo, yn + 1) - Estimate(s[wo + yn], s[wo + yn - 1], s[yo + yn - 1]) * V(s, yo, yn),
                    Pow(yn), V(s, yo, yn))
    ensures Pow(yn) <= 2 * V(s, yo, yn)
  {
    var r, y, z := Pow(yn - 1), V(s, yo, yn), V(s, wo, yn + 1);
    var z1, z0, y1 := s[wo + yn], s[wo + yn - 1], s[yo + yn - 1];
    var zl, yl := V(s, wo, yn - 1), V(s, yo, yn - 1);
    assert V(s, wo, yn + 1) == V(s, wo, yn) + z1 * Pow(yn);
    assert z == zl + z0 * r + z1 * (B * r) && y == yl + y1 * r && Pow(yn) == B * r;
    VPrepend(s, s, wo, yn);
    VBound(s, wo, yn - 1);
    VBound(s, yo, yn - 1);
    MsbScaled(y1, r);
    if y1 < z1 {
      TopDigit(s, yo, wo + 1, yn);
    }
    hide V, Pow, Estimate;
    LeMul(B, V(s, wo + 1, yn) + 1, y);
    EstimateBounds(z1, z0, zl, y1, yl, r);
  }

  // In-place division of z by the normalised y: the remainder stays in the low yn digits of z,
  // the quotient replaces the digits above.
  method DivRem1(m: Memory, zo: nat, zn0: nat, yo: nat, yn: nat)
    requires zo + zn0 <= |m.cells| && yo + yn <= |m.cells| && Apart(yo, yn, zo, zn0)
    requires 2 <= yn < zn0
    requires Msb(m.cells[yo + yn - 1]) && m.cells[zo + zn0 - 1] < m.cells[yo + yn - 1]
    modifies m
    ensures Keeps(old(m.cells), m.cells, zo, zn0)
    ensures V(old(m.cells), zo, zn0) == V(m.cells, zo + yn, zn0 - yn) * V(m.cells, yo, yn) + V(m.cells, zo, yn)
    ensures V(m.cells, zo, yn) < V(m.cells, yo, yn)
  {
    ghost var s0 := m.cells;
    TopDigit(s0, zo + zn0 - yn, yo, yn);
    var zn := zn0;
    while yn < zn
      invariant yn <= zn <= zn0 && |m.cells| == |s0| && DivInv(s0, m.cells, zo, zn0, yo, yn, zn)
    {
      hide V, Pow;
      ghost var s1 := m.cells;
      var q, adds := DivStep(m, zo + zn - (yn + 1), yo, yn);
      zn := zn - 1;
      DivIter(s0, s1, m.cells, zo, zn0, yo, yn, zn, q);
      m.cells := m.cells[zo + zn := q];
    }
  }

  // The quotient digits from zn on are in place; what is left of z is below zn and its top
  // yn digits are smaller than y.
  ghost predicate DivInv(s0: seq<Digit>, s: seq<Digit>, zo: nat, zn0: nat, yo: nat, yn: nat, zn: nat)
    requires zo + zn0 <= |s0| && yo + yn <= |s0| && Apart(yo, yn, zo, zn0) && yn <= zn <= zn0
  {
    && Keeps(s0, s, zo, zn0)
    && V(s, zo + zn - yn, yn) < V(s0, yo, yn)
    && V(s0, zo, zn0) == V(s, zo + zn, zn0 - zn) * Pow(zn - yn) * V(s0, yo, yn) + V(s, zo, zn)
  }

  lemma DivIter(s0: seq<Digit>, s1: seq<Digit>, s2: seq<Digit>, zo: nat, zn0: nat, yo: nat, yn: nat, zn: nat, q: Digit)
    requires zo + zn0 <= |s0| && yo + yn <= |s0| && Apart(yo, yn, zo, zn0) && yn <= zn < zn0
    requires DivInv(s0, s1, zo, zn0, yo, yn, zn + 1)
    requires Keeps(s1, s2, zo + zn - yn, yn)
    requires V(s1, zo + zn - yn, yn + 1) == q * V(s2, yo, yn) + V(s2, zo + zn - yn, yn)
    requires V(s2, zo + zn - yn, yn) < V(s2, yo, yn)
    ensures DivInv(s0, s2[zo + zn := q], zo, zn0, yo, yn, zn)
  {
    var s3 := s2[zo + zn := q];
    KeepsIntro(s2, s3, zo + zn, 1);
    KeepsIntro(s0, s3, zo, zn0);
    VPrepend(s2, s3, zo + zn, zn0 - zn - 1);
    VSplit(s1, zo, zn - yn, yn + 1);
    VSplit(s3, zo, zn - yn, yn);
    assert Pow(zn + 1 - yn) == B * Pow(zn - yn);
    hide V, Pow;
    DivRemStep(V(s1, zo + zn + 1, zn0 - zn - 1), Pow(zn - yn), V(s0, yo, yn), V(s1, zo, zn - yn),
               V(s1, zo + zn - yn, yn + 1), q, V(s3, zo + zn - yn, yn));
  }

  lemma DivRemStep(quot: nat, p: nat, y: nat, low: nat, window: nat, q: nat, r: nat)
    requires window == q * y + r
    ensures quot * (B * p) * y + (low + p * window) == (q + B * quot) * p * y + (low + p * r)
  {
    assert (q + B * quot) * p == q * p + quot * (B * p);
    assert (q * p + quot * (B * p)) * y == q * p * y + quot * (B * p) * y;
    assert p * window == p * (q * y) + p * r;
    assert p * (q * y) == q * p * y;
  }

  // ---- bigdivrem_restoring ----

  // z has been divided by y in place: quotient from digit yn on, remainder below.
  ghost predicate Divided(s0: seq<Digit>, s: seq<Digit>, zo: nat, zn: nat, yo: nat, yn: nat)
    requires zo + zn <= |s0| && yo + yn <= |s0| && yn <= zn
  {
    && Keeps(s0, s, zo, zn)
    && V(s0, zo, zn) == V(s, zo + yn, zn - yn) * V(s0, yo, yn) + V(s, zo, yn)
    && V(s, zo, yn) < V(s0, yo, yn)
  }

  // Trailing zero digits of y are skipped, and with them the low digits of z.
  method Restoring(m: Memory, zo: nat, zn: nat, yo: nat, yn: nat)
    requires zo + zn <= |m.cells| && yo + yn <= |m.cells| && Apart(yo, yn, zo, zn)
    requires 0 < yn < zn
    requires Msb(m.cells[yo + yn - 1]) && m.cells[zo + zn - 1] < m.cells[yo + yn - 1]
    modifies m
    ensures Divided(old(m.cells), m.cells, zo, zn, yo, yn)
  {
    ghost var s0 := m.cells;
    BLarge();
    var ynzero := 0;
    while m.cells[yo + ynzero] == 0
      invariant ynzero < yn
      invariant forall i :: yo <= i < yo + ynzero ==> m.cells[i] == 0
      decreases yn - ynzero
    {
      ynzero := ynzero + 1;
    }
    if ynzero + 1 == yn {
      SingleDigitView(s0, zo, zn, yo, yn);
      var r := DivSingle1(m, zo + yn, zo + ynzero, zn - yn, m.cells[zo + zn - 1], m.cells[yo + ynzero]);
      ghost var s1 := m.cells;
      m.cells := m.cells[zo + ynzero := r];
      KeepsIntro(s1, m.cells, zo + ynzero, 1);
      VOne(m.cells, zo + ynzero);
    } else {
      DivRem1(m, zo + ynzero, zn - ynzero, yo + ynzero, yn - ynzero);
    }
    KeepsIntro(s0, m.cells, zo, zn);
    Unstrip(s0, m.cells, zo, zn, yo, yn, ynzero);
  }

  lemma SingleDigitView(s: seq<Digit>, zo: nat, zn: nat, yo: nat, yn: nat)
    requires zo + zn <= |s| && yo + yn <= |s| && 0 < yn < zn
    ensures V(s, zo + (yn - 1), zn - (yn - 1)) == V(s, zo + (yn - 1), zn - yn) + s[zo + zn - 1] * Pow(zn - yn)
    ensures V(s, yo + (yn - 1), 1) == s[yo + yn - 1]
  {
    VOne(s, yo + (yn - 1));
  }

  lemma Unstrip(s0: seq<Digit>, s: seq<Digit>, zo: nat, zn: nat, yo: nat, yn: nat, k: nat)
    requires zo + zn <= |s0| && yo + yn <= |s0| && k < yn < zn
    requires Keeps(s0, s, zo, zn) && V(s, zo, k) == V(s0, zo, k)
    requires forall i :: yo <= i < yo + k ==> s0[i] == 0
    requires V(s0, zo + k, zn - k) == V(s, zo + yn, zn - yn) * V(s0, yo + k, yn - k) + V(s, zo + k, yn - k)
    requires V(s, zo + k, yn - k) < V(s0, yo + k, yn - k)
    ensures Divided(s0, s, zo, zn, yo, yn)
  {
    VZero(s0, yo, k);
    VSplit(s0, yo, k, yn - k);
    VSplit(s0, zo, k, zn - k);
    VSplit(s, zo, k, yn - k);
    VBound(s0, zo, k);
    hide V, Pow;
    UnstripArith(V(s0, zo, k), Pow(k), V(s, zo + yn, zn - yn), V(s0, yo + k, yn - k), V(s, zo + k, yn - k));
  }

  lemma UnstripArith(low: nat, p: nat, q: nat, y: nat, r: nat)
    requires low < p && r < y
    ensures low + p * (q * y + r) == q * (p * y) + (low + p * r)
    ensures low + p * r < p * y
  {
    assert p * (q * y + r) == q * (p * y) + p * r;
    LeMul(p, r + 1, y);
  }

  // ---- bary_divmod_normal ----

  // A result buffer; qds and rds may be NULL.
  datatype Dest = Null | Dest(o: nat, n: nat)

  ghost predicate DestIn(d: Dest, s: seq<Digit>)
  {
    d.Dest? ==> d.o + d.n <= |s|
  }

  ghost predicate DestApart(d: Dest, o: nat, n: nat)
  {
    d.Dest? ==> Apart(d.o, d.n, o, n)
  }

  // Outside the two destinations nothing changed.
  ghost predicate KeepsDests(s0: seq<Digit>, s: seq<Digit>, q: Dest, r: Dest)
  {
    && |s| == |s0|
    && (forall i {:trigger s[i]} ::
          0 <= i < |s0| && (q.Dest? ==> i < q.o || q.o + q.n <= i) && (r.Dest? ==> i < r.o || r.o + r.n <= i)
          ==> s[i] == s0[i])
  }

  method DivmodNormal(m: Memory, q: Dest, r: Dest, xo: nat, xn: nat, yo: nat, yn: nat)
    requires DivmodArgs(m.cells, q, r, xo, xn, yo, yn)
    modifies m
    ensures 0 < V(old(m.cells), yo, yn)
    ensures KeepsDests(old(m.cells), m.cells, q, r)
    ensures q.Dest? ==> V(m.cells, q.o, q.n) == V(old(m.cells), xo, xn) / V(old(m.cells), yo, yn)
    ensures r.Dest? ==> V(m.cells, r.o, r.n) == V(old(m.cells), xo, xn) % V(old(m.cells), yo, yn)
  {
    ghost var s0 := m.cells;
    VPositive(s0, yo, yn, yn - 1);
    var base := |m.cells|;
    var shift := Nlz(m.cells[yo + yn - 1]);
    hide V, Pow, Pow2;
    var zo, yyo: nat;
    if shift != 0 {
      zo, yyo := PrepareShifted(m, q, r, xo, xn, yo, yn, shift);
    } else {
      zo, yyo := PrepareAligned(m, q, r, xo, xn, yo, yn);
    }
    ghost var s1 := m.cells;
    Restoring(m, zo, xn + 1, yyo, yn);
    QuotientOf(V(s0, xo, xn), V(s0, yo, yn), Pow2(shift), V(m.cells, zo + yn, xn + 1 - yn), V(m.cells, zo, yn));
    ExtractResults(m, q, r, zo, xn + 1, yn, shift, V(s0, xo, xn) % V(s0, yo, yn));
    FreeDests(m, s0, base, q, r);
  }

  // The first n cells are those of s0 except in the destinations.
  ghost predicate Untouched(s0: seq<Digit>, s: seq<Digit>, q: Dest, r: Dest)
  {
    && |s0| <= |s|
    && (forall i {:trigger s[i]} ::
          0 <= i < |s0| && (q.Dest? ==> i < q.o || q.o + q.n <= i) && (r.Dest? ==> i < r.o || r.o + r.n <= i)
          ==> s[i] == s0[i])
  }

  // What bary_divmod_normal asks of its callers.
  ghost predicate DivmodArgs(s: seq<Digit>, q: Dest, r: Dest, xo: nat, xn: nat, yo: nat, yn: nat)
  {
    && xo + xn <= |s| && yo + yn <= |s| && DestIn(q, s) && DestIn(r, s)
    && 0 < yn <= xn && s[yo + yn - 1] != 0
    && (yn < xn || s[yo + yn - 1] <= s[xo + xn - 1])
    && (q.Dest? ==> xn - yn + 1 <= q.n)
    && (r.Dest? ==> yn <= r.n)
    && DestApart(q, xo, xn) && DestApart(q, yo, yn) && DestApart(r, xo, xn) && DestApart(r, yo, yn)
    && (q.Dest? && r.Dest? ==> Apart(q.o, q.n, r.o, r.n))
  }

  // The scaled dividend, with its extra digit, is at zo and the scaled divisor at yyo.
  ghost predicate Prepared(s0: seq<Digit>, s: seq<Digit>, q: Dest, r: Dest, xo: nat, xn: nat, yo: nat, yn: nat,
                           zo: nat, yyo: nat, shift: nat)
    requires DivmodArgs(s0, q, r, xo, xn, yo, yn)
  {
    && Untouched(s0, s, q, r) && shift < W
    && zo + xn + 1 <= |s| && yyo + yn <= |s| && Apart(yyo, yn, zo, xn + 1)
    && (|s0| <= zo || (q.Dest? && zo == q.o && xn + 1 <= q.n))
    && V(s, zo, xn + 1) == V(s0, xo, xn) * Pow2(shift)
    && V(s, yyo, yn) == V(s0, yo, yn) * Pow2(shift)
    && Msb(s[yyo + yn - 1]) && s[zo + xn] < s[yyo + yn - 1]
  }

  method PrepareShifted(m: Memory, q: Dest, r: Dest, xo: nat, xn: nat, yo: nat, yn: nat, shift: nat)
    returns (zo: nat, yyo: nat)
    requires DivmodArgs(m.cells, q, r, xo, xn, yo, yn)
    requires shift == Nlz(m.cells[yo + yn - 1])
    modifies m
    ensures Prepared(old(m.cells), m.cells, q, r, xo, xn, yo, yn, zo, yyo, shift)
  {
    ghost var s0 := m.cells;
    hide V, Pow;
    zo, yyo := WorkBuffers(m, q, r, xn + 1, yn);
    Normalise(m, s0, zo, xo, xn, yyo, yo, yn, shift);
  }

  method PrepareAligned(m: Memory, q: Dest, r: Dest, xo: nat, xn: nat, yo: nat, yn: nat) returns (zo: nat, yyo: nat)
    requires DivmodArgs(m.cells, q, r, xo, xn, yo, yn)
    requires Nlz(m.cells[yo + yn - 1]) == 0
    modifies m
    ensures Prepared(old(m.cells), m.cells, q, r, xo, xn, yo, yn, zo, yyo, 0)
  {
    ghost var s0 := m.cells;
    hide V, Pow;
    if q.Dest? && xn + 1 <= q.n {
      zo := q.o;
    } else {
      zo := m.Alloc(xn + 1);
    }
    // bigdivrem_restoring does not modify y, so yds is used directly
    yyo := yo;
    Plain(m, s0, zo, xo, xn, yo, yn);
  }

  // Where the scaled operands go: into the result buffers when these are given and large enough.
  method WorkBuffers(m: Memory, q: Dest, r: Dest, zn: nat, yn: nat) returns (zo: nat, yyo: nat)
    requires DestIn(q, m.cells) && DestIn(r, m.cells)
    requires r.Dest? ==> yn <= r.n
    requires q.Dest? && r.Dest? ==> Apart(q.o, q.n, r.o, r.n)
    modifies m
    ensures old(m.cells) <= m.cells
    ensures zo + zn <= |m.cells| && yyo + yn <= |m.cells| && Apart(zo, zn, yyo, yn)
    ensures |old(m.cells)| <= zo || (q.Dest? && zo == q.o && zn <= q.n)
    ensures |old(m.cells)| <= yyo || (r.Dest? && yyo == r.o)
  {
    if r.Null? && (q.Null? || q.n < zn) {
      yyo := m.Alloc(yn + zn);
      zo := yyo + yn;
    } else {
      if r.Null? {
        yyo := m.Alloc(yn);
      } else {
        yyo := r.o;
      }
      if q.Null? || q.n < zn {
        zo := m.Alloc(zn);
      } else {
        zo := q.o;
      }
    }
  }

  lemma QuotientOf(x: nat, y: nat, f: nat, q: nat, r: nat)
    requires 0 < y && 0 < f
    requires x * f == q * (y * f) + r && r < y * f
    ensures q == x / y && r == (x % y) * f
  {
    DivMod(x, y);
    QuotientScale(x, y, f, x / y, x % y);
    QuotientUnique(y * f, x / y, (x % y) * f, q, r);
  }

  lemma QuotientScale(x: nat, y: nat, f: nat, a: int, b: int)
    requires x == y * a + b && 0 <= b < y && 0 < f
    ensures x * f == (y * f) * a + b * f && 0 <= b * f < y * f
  {
    assert (y * a) * f == (y * f) * a;
    MulLt(b, y, f);
  }

  // Copies x and y shifted left so that the top bit of y is set.
  method Normalise(m: Memory, ghost s0: seq<Digit>, zo: nat, xo: nat, xn: nat, yyo: nat, yo: nat, yn: nat, shift: nat)
    requires zo + xn + 1 <= |m.cells| && xo + xn <= |m.cells| && yyo + yn <= |m.cells| && yo + yn <= |m.cells|
    requires (zo == xo || Apart(xo, xn, zo, xn + 1)) && Apart(yo, yn, zo, xn + 1) && Apart(yyo, yn, zo, xn + 1)
    requires Apart(yo, yn, yyo, yn)
    requires 0 < yn && m.cells[yo + yn - 1] != 0 && shift == Nlz(m.cells[yo + yn - 1])
    requires xo + xn <= |s0| && yo + yn <= |s0| && s0 <= m.cells
    modifies m
    ensures Keeps2(old(m.cells), m.cells, zo, xn + 1, yyo, yn)
    ensures V(m.cells, zo, xn + 1) == V(s0, xo, xn) * Pow2(shift)
    ensures V(m.cells, yyo, yn) == V(s0, yo, yn) * Pow2(shift)
    ensures Msb(m.cells[yyo + yn - 1]) && m.cells[zo + xn] < m.cells[yyo + yn - 1]
  {
    ghost var s1 := m.cells;
    VPrefix(s0, s1, xo, xn);
    VPrefix(s0, s1, yo, yn);
    var out := SmallLshift(m, zo, xo, xn, shift);
    ghost var s2 := m.cells;
    m.cells := m.cells[zo + xn := out];
    KeepsIntro(s2, m.cells, zo + xn, 1);
    var none := SmallLshift(m, yyo, yo, yn, shift);
    TopShifted(s1, m.cells, yyo, yo, yn, shift, none);
    TopShiftedOut(shift, out);
    Keeps2Intro(s1, m.cells, zo, xn + 1, yyo, yn);
  }

  lemma VPrefix(s0: seq<Digit>, s: seq<Digit>, o: nat, n: nat)
    requires s0 <= s && o + n <= |s0|
    ensures V(s, o, n) == V(s0, o, n)
  {
    assert s[o..o + n] == s0[o..o + n];
    VSame(s, s0, o, o, n);
  }

  // With the shift of nlz nothing leaves the top digit of y, and its top bit becomes set.
  lemma TopShifted(s: seq<Digit>, t: seq<Digit>, o: nat, p: nat, n: nat, shift: nat, out: Digit)
    requires p + n <= |s| && o + n <= |t| && 0 < n
    requires s[p + n - 1] != 0 && shift == Nlz(s[p + n - 1])
    requires V(t, o, n) + out * Pow(n) == V(s, p, n) * Pow2(shift)
    ensures out == 0 && Msb(t[o + n - 1])
  {
    hide V, Pow, Pow2, Nlz;
    TopParts(s, p, n);
    TopParts(t, o, n);
    TopShiftedArith(V(t, o, n - 1), t[o + n - 1], Pow(n - 1), out, V(s, p, n - 1), s[p + n - 1], Pow2(shift));
  }

  lemma TopParts(s: seq<Digit>, o: nat, n: nat)
    requires o + n <= |s| && 0 < n
    ensures V(s, o, n) == V(s, o, n - 1) + s[o + n - 1] * Pow(n - 1)
    ensures V(s, o, n - 1) < Pow(n - 1) && Pow(n) == B * Pow(n - 1)
  {
    VBound(s, o, n - 1);
  }

  lemma TopShiftedArith(low': nat, e: nat, q: nat, out: nat, low: nat, d: nat, f: nat)
    requires low' < q && low < q && 0 < f && e < B
    requires low' + e * q + out * (B * q) == (low + d * q) * f
    requires B <= 2 * (d * f) && d * f + f <= B
    ensures out == 0 && Msb(e)
  {
    TopRewrite(e, q, out, low, d, f);
    MulLt(low, q, f);
    TopBetween(low', e + out * B, q, low * f, d * f, f);
    if out != 0 {
      MulLe(1, out, B);
    }
  }

  lemma TopRewrite(e: int, q: int, out: int, low: int, d: int, f: int)
    ensures (low + d * q) * f == low * f + (d * f) * q
    ensures e * q + out * (B * q) == (e + out * B) * q
  {
  }

  lemma TopBetween(low': nat, e: nat, q: nat, low: nat, a: nat, f: nat)
    requires low' < q && low < f * q && low' + e * q == low + a * q
    ensures a <= e < a + f
  {
    assert (a + f) * q == a * q + f * q;
    if e < a {
      MulLt(e, a, q);
    }
    if a + f <= e {
      MulLe(a + f, e, q);
    }
  }

  lemma TopShiftedOut(shift: nat, out: Digit)
    requires shift < W && out < Pow2(shift)
    ensures 2 * (out as nat) < B
  {
    Pow2Mono(shift + 1, W);
  }

  // Normalised already: x is copied with a zero digit on top.
  method Plain(m: Memory, ghost s0: seq<Digit>, zo: nat, xo: nat, xn: nat, yo: nat, yn: nat)
    requires zo + xn + 1 <= |m.cells| && xo + xn <= |m.cells| && yo + yn <= |m.cells|
    requires Apart(xo, xn, zo, xn + 1) && Apart(yo, yn, zo, xn + 1)
    requires 0 < yn && m.cells[yo + yn - 1] != 0 && Nlz(m.cells[yo + yn - 1]) == 0
    requires xo + xn <= |s0| && yo + yn <= |s0| && s0 <= m.cells
    modifies m
    ensures Keeps(old(m.cells), m.cells, zo, xn + 1)
    ensures V(m.cells, zo, xn + 1) == V(s0, xo, xn)
    ensures V(m.cells, yo, yn) == V(s0, yo, yn)
    ensures Msb(m.cells[yo + yn - 1]) && m.cells[zo + xn] < m.cells[yo + yn - 1]
  {
    ghost var s1 := m.cells;
    VPrefix(s0, s1, xo, xn);
    VPrefix(s0, s1, yo, yn);
    Move(m, zo, xo, xn);
    ghost var s2 := m.cells;
    m.cells := m.cells[zo + xn := 0];
    KeepsIntro(s2, m.cells, zo + xn, 1);
    KeepsIntro(s1, m.cells, zo, xn + 1);
  }

  // Moves the remainder (shifted back) and the quotient to their destinations.
  method ExtractResults(m: Memory, q: Dest, r: Dest, zo: nat, zn: nat, yn: nat, shift: nat, ghost rem: nat)
    requires zo + zn <= |m.cells| && 0 < yn < zn && shift < W && DestIn(q, m.cells) && DestIn(r, m.cells)
    requires V(m.cells, zo, yn) == rem * Pow2(shift)
    requires q.Dest? ==> zn - yn <= q.n
    requires r.Dest? ==> yn <= r.n
    requires DestApart(r, zo, zn) && (q.Dest? && r.Dest? ==> Apart(q.o, q.n, r.o, r.n))
    modifies m
    ensures KeepsDests(old(m.cells), m.cells, q, r)
    ensures q.Dest? ==> V(m.cells, q.o, q.n) == V(old(m.cells), zo + yn, zn - yn)
    ensures r.Dest? ==> V(m.cells, r.o, r.n) == rem
  {
    hide V, Pow, Pow2;
    if r.Dest? {
      ExtractRemainder(m, r, zo, yn, shift, rem);
    }
    if q.Dest? {
      var j := zn - yn;
      Move(m, q.o, zo + yn, j);
      Zero(m, q.o + j, q.n - j);
      VSplit(m.cells, q.o, j, q.n - j);
    }
  }

  method ExtractRemainder(m: Memory, r: Dest, zo: nat, yn: nat, shift: nat, ghost rem: nat)
    requires r.Dest? && zo + yn <= |m.cells| && 0 < yn <= r.n && shift < W && DestIn(r, m.cells)
    requires V(m.cells, zo, yn) == rem * Pow2(shift)
    requires DestApart(r, zo, yn)
    modifies m
    ensures Keeps(old(m.cells), m.cells, r.o, r.n)
    ensures V(m.cells, r.o, r.n) == rem
  {
    ghost var s0 := m.cells;
    if shift != 0 {
      ghost var low := m.cells[zo];
      SmallRshift(m, r.o, zo, yn, shift, 0);
      ModSmall(0, Pow2(shift));
      ShiftedBack(V(m.cells, r.o, yn), low, Pow2(shift), rem);
    } else {
      Move(m, r.o, zo, yn);
    }
    Zero(m, r.o + yn, r.n - yn);
    VSplit(m.cells, r.o, yn, r.n - yn);
    KeepsIntro(s0, m.cells, r.o, r.n);
  }

  lemma ShiftedBack(v: nat, low: nat, f: nat, rem: nat)
    requires 0 < f && v * f + low % f == rem * f
    ensures v == rem
  {
    QuotientUnique(f, v, low % f, rem, 0);
  }

  method FreeDests(m: Memory, ghost s0: seq<Digit>, base: nat, q: Dest, r: Dest)
    requires base == |s0| && DestIn(q, s0) && DestIn(r, s0) && Untouched(s0, m.cells, q, r)
    modifies m
    ensures KeepsDests(s0, m.cells, q, r)
    ensures q.Dest? ==> V(m.cells, q.o, q.n) == V(old(m.cells), q.o, q.n)
    ensures r.Dest? ==> V(m.cells, r.o, r.n) == V(old(m.cells), r.o, r.n)
  {
    ghost var s1 := m.cells;
    m.Free(base);
    if q.Dest? {
      VPrefix(m.cells, s1, q.o, q.n);
    }
    if r.Dest? {
      VPrefix(m.cells, s1, r.o, r.n);
    }
  }
}
