/**
 The bit operations of bignum.c on sign and magnitude: operands become two's complement
 digits with a sign extension, and results are turned back.  They agree, bit by bit, with
 the same operations on integers written in infinite two's complement.
 */
module Bits {
  import opened Digits
  import opened Kernel
  import opened MulKernel
  import opened Division
  import opened MulCommon

  // ---- bits of integers ----

  type Bit = b: nat | b < 2

  // Bit i of v in infinite two's complement
  function BitAt(v: int, i: nat): (b: Bit)
  {
    v / Pow2(i) % 2
  }

  datatype Op = And | Or | Xor

  function OnBits(op: Op, a: Bit, b: Bit): (c: Bit)
  {
    match op
    case And => if a == 1 && b == 1 then 1 else 0
    case Or => if a == 1 || b == 1 then 1 else 0
    case Xor => if a == b then 0 else 1
  }

  // The tables of the three operations
  lemma OnBitsIs(a: Bit, b: Bit)
    ensures OnBits(And, a, b) == 1 <==> a == 1 && b == 1
    ensures OnBits(Or, a, b) == 1 <==> a == 1 || b == 1
    ensures OnBits(Xor, a, b) == 1 <==> a != b
  {
  }

  // The bits of an integer determine it from below: bit 0 is its parity and the others are those of its half,
  // rounded down.
  lemma BitAtIs(v: int, b: Bit, i: nat)
    ensures BitAt(2 * v + b, 0) == b && BitAt(2 * v + b, i + 1) == BitAt(v, i)
    ensures BitAt(0, i) == 0 && BitAt(-1, i) == 1
  {
    assert Pow2(0) == 1 && Pow2(i + 1) == 2 * Pow2(i);
    var p := Pow2(i);
    hide Pow2;
    DivUnique(2 * v + b, 2, v, b);
    Halved(2 * v + b, v, p);
    DivUnique(0, p, 0, 0);
    DivUnique(-1, p, -1, p - 1);
  }

  lemma Halved(x: int, v: int, p: nat)
    requires x / 2 == v && 0 < p
    ensures x / (2 * p) == v / p
  {
    DivMod(x, 2);
    DivMod(v, p);
    var q, r := v / p, v % p;
    assert x == (2 * p) * q + (2 * r + x % 2);
    DivUnique(x, 2 * p, q, 2 * r + x % 2);
  }

  // &, | and ^ on a word of w bits
  function OnWords(op: Op, a: nat, b: nat, w: nat): (c: nat)
    ensures c < Pow2(w)
  {
    if w == 0 then 0 else OnBits(op, a % 2, b % 2) + 2 * OnWords(op, a / 2, b / 2, w - 1)
  }

  function OnDigits(op: Op, a: Digit, b: Digit): (c: Digit)
  {
    OnWords(op, a, b, W)
  }

  lemma {:induction false} WordBit(op: Op, a: nat, b: nat, w: nat, j: nat)
    requires j < w
    ensures BitAt(OnWords(op, a, b, w), j) == OnBits(op, BitAt(a, j), BitAt(b, j))
    decreases w
  {
    var c, rest := OnBits(op, a % 2, b % 2), OnWords(op, a / 2, b / 2, w - 1);
    if j == 0 {
      LowBit(c + 2 * rest);
      LowBit(a);
      LowBit(b);
      DivUnique(c + 2 * rest, 2, rest, c);
    } else {
      WordBit(op, a / 2, b / 2, w - 1, j - 1);
      DivUnique(c + 2 * rest, 2, rest, c);
      NextBit(c + 2 * rest, j);
      NextBit(a, j);
      NextBit(b, j);
    }
  }

  lemma LowBit(v: int)
    ensures BitAt(v, 0) == v % 2
  {
    assert Pow2(0) == 1;
  }

  lemma NextBit(v: int, j: nat)
    requires 0 < j
    ensures BitAt(v, j) == BitAt(v / 2, j - 1)
  {
    assert Pow2(j) == 2 * Pow2(j - 1);
    DivTwice(v, 2, Pow2(j - 1));
  }

  lemma DivTwice(v: int, d: nat, e: nat)
    requires 0 < d && 0 < e
    ensures v / (d * e) == v / d / e
  {
    DivMod(v, d);
    DivMod(v / d, e);
    var q, r, s := v / d / e, v / d % e, v % d;
    assert v == d * (e * q + r) + s;
    assert d * (e * q + r) == (d * e) * q + d * r;
    LeMul(d, r + 1, e);
    DivUnique(v, d * e, q, d * r + s);
  }

  // ---- bits of two's complement digits ----

  // The digits and what is above them
  ghost function Twos(s: seq<Digit>, o: nat, n: nat, hi: bool): int
    requires o + n <= |s|
  {
    V(s, o, n) - (if hi then Pow(n) else 0)
  }

  function Sign(hi: bool): Bit
  {
    if hi then 1 else 0
  }

  // Dropping the low k digits is division by B^k.
  lemma TwosDrop(s: seq<Digit>, o: nat, n: nat, hi: bool, k: nat)
    requires o + n <= |s| && k <= n
    ensures Twos(s, o, n, hi) / Pow(k) == Twos(s, o + k, n - k, hi)
    ensures Twos(s, o, n, hi) % Pow(k) == V(s, o, k)
  {
    VJoin(s, o, k, o + k, n - k, n);
    VBound(s, o, k);
    PowAdd(k, n - k);
    var h := if hi then Pow(n - k) else 0;
    assert Twos(s, o, n, hi) == Pow(k) * (V(s, o + k, n - k) - h) + V(s, o, k) by {
      assert Pow(k) * (V(s, o + k, n - k) - h) == Pow(k) * V(s, o + k, n - k) - Pow(k) * h;
    }
    DivUnique(Twos(s, o, n, hi), Pow(k), Twos(s, o + k, n - k, hi), V(s, o, k));
  }

  // Bit k * W + j is bit j of digit k.
  lemma DigitBit(s: seq<Digit>, o: nat, n: nat, hi: bool, k: nat, j: nat)
    requires o + n <= |s| && k < n && j < W
    ensures BitAt(Twos(s, o, n, hi), k * W + j) == BitAt(s[o + k], j)
  {
    var t := Twos(s, o, n, hi);
    PowIsPow2(k);
    Pow2Add(k * W, j);
    DivTwice(t, Pow(k), Pow2(j));
    TwosDrop(s, o, n, hi, k);
    TwosDrop(s, o + k, n - k, hi, 1);
    Pow1();
    VOne(s, o + k);
    var d, above := s[o + k], Twos(s, o + k + 1, n - k - 1, hi);
    DivMod(Twos(s, o + k, n - k, hi), Pow(1));
    LowDigitBit(d, above, j);
  }

  lemma LowDigitBit(d: Digit, above: int, j: nat)
    requires j < W
    ensures BitAt(B * above + d, j) == BitAt(d, j)
  {
    var p, q := Pow2(j), Pow2(W - j - 1);
    Pow2Add(j, W - j);
    assert Pow2(W - j) == 2 * q;
    DivMod(d, p);
    assert B * above == p * (2 * q * above);
    assert p * (2 * q * above + d / p) == p * (2 * q * above) + p * (d / p);
    DivUnique(B * above + d, p, 2 * q * above + d / p, d % p);
    assert 2 * q * above == 2 * (q * above);
    EvenPlus(q * above, d / p);
  }

  lemma EvenPlus(a: int, b: int)
    ensures (2 * a + b) % 2 == b % 2
  {
  }

  // Above the digits every bit is the sign.
  lemma SignBit(s: seq<Digit>, o: nat, n: nat, hi: bool, i: nat)
    requires o + n <= |s| && n * W <= i
    ensures BitAt(Twos(s, o, n, hi), i) == Sign(hi)
  {
    VBound(s, o, n);
    PowIsPow2(n);
    Pow2Mono(n * W, i);
    var t, p := Twos(s, o, n, hi), Pow2(i);
    if hi {
      DivUnique(t, p, -1, t + p);
    } else {
      DivUnique(t, p, 0, t);
    }
  }

  // ---- sign and magnitude to two's complement and back ----

  // A bignum: its digits and its sign
  datatype Big = Big(o: nat, n: nat, negative: bool)

  ghost function IntOf(s: seq<Digit>, x: Big): int
    requires x.o + x.n <= |s|
  {
    if x.negative then 0 - V(s, x.o, x.n) else V(s, x.o, x.n)
  }

  // abs2twocomp; `hi` says that hibits is BDIGMAX and not zero.
  method Abs2Twocomp(m: Memory, x: Big) returns (o: nat, n: nat, hi: bool)
    requires x.o + x.n <= |m.cells|
    modifies m
    ensures old(m.cells) <= m.cells && o + n <= |m.cells|
    ensures Twos(m.cells, o, n, hi) == IntOf(old(m.cells), x)
    ensures n <= x.n
  {
    ghost var s0 := m.cells;
    o, hi := x.o, false;
    n := Trunc(m, x.o, x.n);
    if n != 0 && x.negative {
      o := m.Alloc(n);
      ghost var s1 := m.cells;
      Move(m, o, x.o, n);
      VPrefix(s0, s1, x.o, n);
      ghost var s2 := m.cells;
      VPositive(s0, x.o, n, n - 1);
      var zero := TwoComp(m, o, n);
      hi := true;
      KeepsPrefix2(s0, s1, s2, m.cells, o, n);
    }
  }

  lemma KeepsPrefix2(s0: seq<Digit>, s1: seq<Digit>, s2: seq<Digit>, s3: seq<Digit>, o: nat, n: nat)
    requires s0 <= s1 && |s0| <= o && Keeps(s1, s2, o, n) && Keeps(s2, s3, o, n)
    ensures s0 <= s3
  {
  }

  // twocomp2abs_bang, on digits at the end of what is allocated; a carry makes one digit more.
  method Twocomp2Abs(m: Memory, o: nat, n: nat, hi: bool) returns (x: Big)
    requires o + n == |m.cells|
    modifies m
    ensures x.o == o && o + x.n <= |m.cells| && old(m.cells)[..o] <= m.cells && x.negative == hi
    ensures IntOf(m.cells, x) == Twos(old(m.cells), o, n, hi)
  {
    ghost var s0 := m.cells;
    x := Big(o, n, hi);
    if hi {
      // get2comp
      var zero := TwoComp(m, o, n);
      if zero == 1 {
        // big_extend_carry
        ghost var s1 := m.cells;
        var top := m.Alloc(1);
        VPrefix(s1, m.cells, o, n);
        ghost var s2 := m.cells;
        m.cells := m.cells[top := 1];
        VPut(s2, o, n, 1);
        x := Big(o, n + 1, hi);
      }
    }
  }

  // ---- and, or, xor ----

  function HiDigit(hi: bool): Digit
  {
    if hi then B - 1 else 0
  }

  // Digit k of the result: from both operands, or against the sign of the shorter one
  function Combined(op: Op, s: seq<Digit>, ao: nat, n1: nat, ah: bool, bo: nat, k: nat): Digit
    requires ao + n1 <= |s| && bo + k < |s|
  {
    OnDigits(op, if k < n1 then s[ao + k] else HiDigit(ah), s[bo + k])
  }

  ghost predicate AllCombined(op: Op, s: seq<Digit>, ao: nat, n1: nat, ah: bool, bo: nat, t: seq<Digit>, zo: nat, n: nat)
    requires ao + n1 <= |s| && bo + n <= |s| && zo + n <= |t|
  {
    forall k {:trigger Combined(op, s, ao, n1, ah, bo, k)} ::
      0 <= k < n ==> t[zo + k] == Combined(op, s, ao, n1, ah, bo, k)
  }

  // The two loops
  method Combine(m: Memory, op: Op, ao: nat, n1: nat, ah: bool, bo: nat, n2: nat) returns (zo: nat)
    requires ao + n1 <= |m.cells| && bo + n2 <= |m.cells| && n1 <= n2
    modifies m
    ensures zo == |old(m.cells)| && |m.cells| == zo + n2 && old(m.cells) <= m.cells
    ensures AllCombined(op, old(m.cells), ao, n1, ah, bo, m.cells, zo, n2)
  {
    ghost var s0 := m.cells;
    zo := m.Alloc(n2);
    var i := 0;
    while i < n1
      invariant i <= n1 && |m.cells| == zo + n2 && s0 <= m.cells
      invariant AllCombined(op, s0, ao, n1, ah, bo, m.cells, zo, i)
    {
      assert m.cells[ao + i] == s0[ao + i] && m.cells[bo + i] == s0[bo + i];
      m.cells := m.cells[zo + i := OnDigits(op, m.cells[ao + i], m.cells[bo + i])];
      i := i + 1;
    }
    while i < n2
      invariant n1 <= i <= n2 && |m.cells| == zo + n2 && s0 <= m.cells
      invariant AllCombined(op, s0, ao, n1, ah, bo, m.cells, zo, i)
    {
      assert m.cells[bo + i] == s0[bo + i];
      m.cells := m.cells[zo + i := OnDigits(op, HiDigit(ah), m.cells[bo + i])];
      i := i + 1;
    }
  }

  lemma OnesBelow(p: nat, q: nat, b: nat)
    requires 0 < p && 0 < q && b == p * (2 * q)
    ensures (b - 1) / p % 2 == 1
  {
    OddProduct(p, q);
    DivUnique(b - 1, p, 2 * q - 1, p - 1);
    EvenPlus(q - 1, 1);
  }

  lemma OddProduct(p: int, q: int)
    ensures p * (2 * q) - 1 == p * (2 * q - 1) + (p - 1)
  {
  }

  lemma HiDigitBit(hi: bool, j: nat)
    requires j < W
    ensures BitAt(HiDigit(hi), j) == Sign(hi)
  {
    if hi {
      Pow2Add(j, W - j);
      assert Pow2(W - j) == 2 * Pow2(W - j - 1);
      assert B == Pow2(j) * (2 * Pow2(W - j - 1));
      hide Pow2;
      OnesBelow(Pow2(j), Pow2(W - j - 1), B);
    } else {
      DivUnique(0, Pow2(j), 0, 0);
    }
  }

  // A combined digit has the combined bits.
  lemma CombinedLow(op: Op, s: seq<Digit>, ao: nat, n1: nat, ah: bool, bo: nat, bn: nat, bh: bool,
                    t: seq<Digit>, zo: nat, n2: nat, zh: bool, i: nat)
    requires ao + n1 <= |s| && bo + bn <= |s| && zo + n2 <= |t| && n1 <= n2 <= bn && i < n2 * W
    requires AllCombined(op, s, ao, n1, ah, bo, t, zo, n2)
    ensures BitAt(Twos(t, zo, n2, zh), i)
         == OnBits(op, BitAt(Twos(s, ao, n1, ah), i), BitAt(Twos(s, bo, bn, bh), i))
  {
    var k, j := i / W, i % W;
    Place(i, n2);
    hide V, Pow, Pow2, OnWords, BitAt, Twos;
    assert t[zo + k] == Combined(op, s, ao, n1, ah, bo, k);
    DigitBit(t, zo, n2, zh, k, j);
    DigitBit(s, bo, bn, bh, k, j);
    WordBit(op, if k < n1 then s[ao + k] else HiDigit(ah), s[bo + k], W, j);
    if k < n1 {
      DigitBit(s, ao, n1, ah, k, j);
    } else {
      PlaceAfter(i, n1);
      SignBit(s, ao, n1, ah, i);
      HiDigitBit(ah, j);
    }
  }

  lemma PlaceAfter(i: nat, n: nat)
    requires n <= i / W
    ensures n * W <= i
  {
    DivMod(i, W);
    LeMul(W, n, i / W);
  }

  lemma Place(i: nat, n: nat)
    requires i < n * W
    ensures i == i / W * W + i % W && i / W < n && i % W < W
  {
    DivMod(i, W);
    if n <= i / W {
      LeMul(W, n, i / W);
    }
  }

  // Above the digits kept, the result is the sign of the result.
  lemma CombinedHigh(op: Op, s: seq<Digit>, ao: nat, n1: nat, ah: bool, bo: nat, bn: nat, bh: bool,
                     t: seq<Digit>, zo: nat, n2: nat, zh: bool, i: nat)
    requires ao + n1 <= |s| && bo + bn <= |s| && zo + n2 <= |t| && n1 <= n2 <= bn && n2 * W <= i
    requires Sign(zh) == OnBits(op, Sign(ah), Sign(bh))
    requires n2 == bn || forall b: Bit :: OnBits(op, Sign(ah), b) == Sign(zh)
    ensures BitAt(Twos(t, zo, n2, zh), i)
         == OnBits(op, BitAt(Twos(s, ao, n1, ah), i), BitAt(Twos(s, bo, bn, bh), i))
  {
    LeMul(W, n1, n2);
    hide V, Pow, Pow2, BitAt, Twos;
    SignBit(t, zo, n2, zh, i);
    SignBit(s, ao, n1, ah, i);
    if n2 == bn {
      SignBit(s, bo, bn, bh, i);
    }
  }

  // Every bit of z is the operation on the bits of a and b.
  ghost predicate Bitwise(op: Op, a: int, b: int, z: int)
  {
    forall i: nat :: BitAt(z, i) == OnBits(op, BitAt(a, i), BitAt(b, i))
  }

  // What the three functions share once n2 and the sign of the result are chosen
  method Finish(m: Memory, op: Op, ao: nat, n1: nat, ah: bool, bo: nat, bn: nat, bh: bool, n2: nat, zh: bool) returns (z: Big)
    requires ao + n1 <= |m.cells| && bo + bn <= |m.cells| && n1 <= n2 <= bn
    requires Sign(zh) == OnBits(op, Sign(ah), Sign(bh))
    requires n2 == bn || forall b: Bit :: OnBits(op, Sign(ah), b) == Sign(zh)
    modifies m
    ensures old(m.cells) <= m.cells && z.o + z.n <= |m.cells|
    ensures Bitwise(op, Twos(old(m.cells), ao, n1, ah), Twos(old(m.cells), bo, bn, bh), IntOf(m.cells, z))
  {
    ghost var s0 := m.cells;
    hide V, Pow, Pow2, BitAt, Twos, AllCombined;
    var zo := Combine(m, op, ao, n1, ah, bo, n2);
    ghost var s1 := m.cells;
    forall i: nat
      ensures BitAt(Twos(s1, zo, n2, zh), i)
           == OnBits(op, BitAt(Twos(s0, ao, n1, ah), i), BitAt(Twos(s0, bo, bn, bh), i))
    {
      if i < n2 * W {
        CombinedLow(op, s0, ao, n1, ah, bo, bn, bh, s1, zo, n2, zh, i);
      } else {
        CombinedHigh(op, s0, ao, n1, ah, bo, bn, bh, s1, zo, n2, zh, i);
      }
    }
    z := Twocomp2Abs(m, zo, n2, zh);
    assert s0 <= s1[..zo];
  }

  // Both operands in two's complement, the shorter one first
  method Operands(m: Memory, x: Big, y: Big, ghost op: Op)
    returns (ao: nat, n1: nat, ah: bool, bo: nat, n2: nat, bh: bool)
    requires x.o + x.n <= |m.cells| && y.o + y.n <= |m.cells|
    modifies m
    ensures old(m.cells) <= m.cells && ao + n1 <= |m.cells| && bo + n2 <= |m.cells| && n1 <= n2
    ensures forall z: int :: Bitwise(op, Twos(m.cells, ao, n1, ah), Twos(m.cells, bo, n2, bh), z) ==>
              Bitwise(op, IntOf(old(m.cells), x), IntOf(old(m.cells), y), z)
  {
    ghost var s0 := m.cells;
    ao, n1, ah := Abs2Twocomp(m, x);
    ghost var s1 := m.cells;
    VPrefix(s0, s1, y.o, y.n);
    bo, n2, bh := Abs2Twocomp(m, y);
    VPrefix(s1, m.cells, ao, n1);
    if n1 > n2 {
      ao, n1, ah, bo, n2, bh := bo, n2, bh, ao, n1, ah;
      forall z: int | Bitwise(op, Twos(m.cells, ao, n1, ah), Twos(m.cells, bo, n2, bh), z)
        ensures Bitwise(op, IntOf(s0, x), IntOf(s0, y), z)
      {
        Commutes(op, Twos(m.cells, ao, n1, ah), Twos(m.cells, bo, n2, bh), z);
      }
    }
  }

  lemma Commutes(op: Op, a: int, b: int, z: int)
    requires Bitwise(op, a, b, z)
    ensures Bitwise(op, b, a, z)
  {
    forall i: nat ensures BitAt(z, i) == OnBits(op, BitAt(b, i), BitAt(a, i)) {
    }
  }

  // rb_big_and
  method BigAnd(m: Memory, x: Big, y: Big) returns (z: Big)
    requires x.o + x.n <= |m.cells| && y.o + y.n <= |m.cells|
    modifies m
    ensures old(m.cells) <= m.cells && z.o + z.n <= |m.cells|
    ensures Bitwise(And, IntOf(old(m.cells), x), IntOf(old(m.cells), y), IntOf(m.cells, z))
  {
    var ao, n1, hibits1, bo, bn, hibits2 := Operands(m, x, y, And);
    var n2 := bn;
    if !hibits1 {
      n2 := n1;
    }
    z := Finish(m, And, ao, n1, hibits1, bo, bn, hibits2, n2, hibits1 && hibits2);
  }

  // rb_big_or
  method BigOr(m: Memory, x: Big, y: Big) returns (z: Big)
    requires x.o + x.n <= |m.cells| && y.o + y.n <= |m.cells|
    modifies m
    ensures old(m.cells) <= m.cells && z.o + z.n <= |m.cells|
    ensures Bitwise(Or, IntOf(old(m.cells), x), IntOf(old(m.cells), y), IntOf(m.cells, z))
  {
    var ao, n1, hibits1, bo, bn, hibits2 := Operands(m, x, y, Or);
    var n2 := bn;
    if hibits1 {
      n2 := n1;
    }
    z := Finish(m, Or, ao, n1, hibits1, bo, bn, hibits2, n2, hibits1 || hibits2);
  }

  // rb_big_xor
  method BigXor(m: Memory, x: Big, y: Big) returns (z: Big)
    requires x.o + x.n <= |m.cells| && y.o + y.n <= |m.cells|
    modifies m
    ensures old(m.cells) <= m.cells && z.o + z.n <= |m.cells|
    ensures Bitwise(Xor, IntOf(old(m.cells), x), IntOf(old(m.cells), y), IntOf(m.cells, z))
  {
    var ao, n1, hibits1, bo, n2, hibits2 := Operands(m, x, y, Xor);
    z := Finish(m, Xor, ao, n1, hibits1, bo, n2, hibits2, n2, hibits1 != hibits2);
  }

  // ---- shifts ----

  // An Integer: a fixnum or a bignum
  datatype Number = Fixnum(v: int) | Bignum(big: Big)

  ghost predicate InMemory(s: seq<Digit>, z: Number)
  {
    z.Bignum? ==> z.big.o + z.big.n <= |s|
  }

  ghost function NumberOf(s: seq<Digit>, z: Number): int
    requires InMemory(s, z)
  {
    match z
    case Fixnum(v) => v
    case Bignum(b) => IntOf(s, b)
  }

  // big_shift3 to the left
  method ShiftLeft(m: Memory, x: Big, shiftNumdigits: nat, shiftNumbits: nat) returns (z: Number)
    requires x.o + x.n <= |m.cells| && shiftNumbits < W
    modifies m
    ensures old(m.cells) <= m.cells && InMemory(m.cells, z)
    ensures NumberOf(m.cells, z) == IntOf(old(m.cells), x) * Pow2(shiftNumdigits * W + shiftNumbits)
  {
    ghost var s0 := m.cells;
    var s1, s2, xn := shiftNumdigits, shiftNumbits, x.n;
    var zo := m.Alloc(xn + s1 + 1);
    VPrefix(s0, m.cells, x.o, xn);
    ghost var c0 := m.cells;
    Zero(m, zo, s1);
    ghost var c1 := m.cells;
    var out := SmallLshift(m, zo + s1, x.o, xn, s2);
    ghost var c2 := m.cells;
    m.cells := m.cells[zo + xn + s1 := out];
    VPut(c2, zo + s1, xn, out);
    ghost var c3 := m.cells;
    assert V(c2, zo, s1) == 0;
    assert c3[zo..zo + s1] == c2[zo..zo + s1];
    VSame(c2, c3, zo, zo, s1);
    VJoin(c3, zo, s1, zo + s1, xn + 1, xn + s1 + 1);
    PowIsPow2(s1);
    Pow2Add(s1 * W, s2);
    ShiftArith(V(s0, x.o, xn), Pow2(s2), Pow(s1));
    assert s0 <= c3;
    z := Bignum(Big(zo, xn + s1 + 1, x.negative));
  }

  lemma ShiftArith(x: int, f: int, p: int)
    ensures p * (x * f) == x * (p * f) && -(x * (p * f)) == (-x) * (p * f)
  {
  }

  // big_shift3 to the right: division rounding down, for either sign
  method ShiftRight(m: Memory, x: Big, shiftNumdigits: nat, shiftNumbits: nat) returns (z: Number)
    requires x.o + x.n <= |m.cells| && shiftNumbits < W
    modifies m
    ensures old(m.cells) <= m.cells && InMemory(m.cells, z)
    ensures NumberOf(m.cells, z) == IntOf(old(m.cells), x) / Pow2(shiftNumdigits * W + shiftNumbits)
  {
    ghost var s0 := m.cells;
    if x.n <= shiftNumdigits {
      AllShiftedOut(s0, x, shiftNumdigits, shiftNumbits);
      var zero := ZeroP(m, x.o, x.n);
      if !x.negative || zero {
        return Fixnum(0);
      } else {
        return Fixnum(-1);
      }
    }
    var s1, s2 := shiftNumdigits, shiftNumbits;
    var xo, xn, hibitsx := Abs2Twocomp(m, x);
    ghost var c0 := m.cells;
    TwosShifted(c0, xo, xn, hibitsx, s1, s2);
    if xn <= s1 {
      return if hibitsx then Fixnum(-1) else Fixnum(0);
    }
    var zn := xn - s1;
    var zo := m.Alloc(zn);
    ghost var c1 := m.cells;
    VPrefix(c0, c1, xo + s1, zn);
    var higher: Digit := if hibitsx then B - 1 else 0;
    SmallRshift(m, zo, xo + s1, zn, s2, higher);
    ghost var c2 := m.cells;
    assert c0 <= c2;
    Rounded(V(c2, zo, zn), V(c0, xo + s1, zn), c1[xo + s1], Pow(zn), hibitsx, s2);
    var b := Twocomp2Abs(m, zo, zn, hibitsx);
    assert c0 <= c2[..zo];
    z := Bignum(b);
  }

  // Shifting by s1 digits and s2 bits
  lemma TwosShifted(s: seq<Digit>, o: nat, n: nat, hi: bool, s1: nat, s2: nat)
    requires o + n <= |s| && s2 < W
    ensures n <= s1 ==> Twos(s, o, n, hi) / Pow2(s1 * W + s2) == if hi then -1 else 0
    ensures s1 < n ==> Twos(s, o, n, hi) / Pow2(s1 * W + s2) == Twos(s, o + s1, n - s1, hi) / Pow2(s2)
  {
    PowIsPow2(s1);
    Pow2Add(s1 * W, s2);
    if n <= s1 {
      VBound(s, o, n);
      PowMono(n, s1);
      LeMul(Pow(s1), 1, Pow2(s2));
      SmallQuotient(Twos(s, o, n, hi), Pow2(s1 * W + s2));
    } else {
      DivTwice(Twos(s, o, n, hi), Pow(s1), Pow2(s2));
      TwosDrop(s, o, n, hi, s1);
    }
  }

  lemma AllShiftedOut(s: seq<Digit>, x: Big, s1: nat, s2: nat)
    requires x.o + x.n <= |s| && x.n <= s1 && s2 < W
    ensures IntOf(s, x) / Pow2(s1 * W + s2) == if x.negative && V(s, x.o, x.n) != 0 then -1 else 0
  {
    PowIsPow2(s1);
    Pow2Add(s1 * W, s2);
    VBound(s, x.o, x.n);
    PowMono(x.n, s1);
    LeMul(Pow(s1), 1, Pow2(s2));
    SmallQuotient(IntOf(s, x), Pow2(s1 * W + s2));
  }

  lemma SmallQuotient(t: int, p: nat)
    requires 0 - p <= t < p
    ensures t / p == if t < 0 then -1 else 0
  {
    DivUnique(t, p, if t < 0 then -1 else 0, if t < 0 then t + p else t);
  }

  // What bary_small_rshift leaves is the quotient rounded down, in two's complement.
  lemma Rounded(z: nat, x: nat, low: Digit, p: nat, hi: bool, s2: nat)
    requires s2 < W
    requires z * Pow2(s2) + low % Pow2(s2) == x + ((if hi then B - 1 else 0) % Pow2(s2)) * p
    ensures z - (if hi then p else 0) == (x - (if hi then p else 0)) / Pow2(s2)
  {
    var f, g := Pow2(s2), Pow2(W - s2);
    Pow2Add(s2, W - s2);
    DivMod(low, f);
    AllOnes(f, g);
    ModSmall(0, f);
    RoundedArith(z, x, low % f, if hi then p else 0, f);
  }

  lemma AllOnes(f: nat, g: nat)
    requires 0 < f && 0 < g
    ensures (f * g - 1) % f == f - 1
  {
    assert f * g - 1 == f * (g - 1) + (f - 1);
    DivUnique(f * g - 1, f, g - 1, f - 1);
  }

  lemma RoundedArith(z: int, x: int, r: int, p: int, f: int)
    requires 0 <= r < f && z * f + r == x + (f - 1) * p
    ensures z - p == (x - p) / f
  {
    assert f * (z - p) == z * f - f * p && (f - 1) * p == f * p - p;
    DivUnique(x - p, f, z - p, r);
  }

  // ---- reading a bit ----

  // rb_big_aref with an index that is not negative and fits a machine word
  method BigAref(m: Memory, x: Big, shift: nat) returns (bit: Bit)
    requires x.o + x.n <= |m.cells| && (x.negative ==> V(m.cells, x.o, x.n) != 0)
    ensures bit == BitAt(IntOf(m.cells, x), shift)
  {
    ghost var v := V(m.cells, x.o, x.n);
    var s1, s2 := shift / W, shift % W;
    DivMod(shift, W);
    if s1 >= x.n {
      LeMul(W, x.n, s1);
      AboveBit(m.cells, x, shift);
      return if x.negative then 1 else 0;
    }
    var digit := m.cells[x.o + s1];
    var at := BitAt(digit, s2);
    DigitBit(m.cells, x.o, x.n, false, s1, s2);
    LowPart(m.cells, x.o, x.n, s1, s2);
    if !x.negative {
      return at;
    }
    NegatedBit(v, shift);
    if digit % Pow2(s2) != 0 {
      return 1 - at;
    }
    var i := 0;
    while i < s1
      invariant i <= s1 && V(m.cells, x.o, i) == 0
    {
      if m.cells[x.o + i] != 0 {
        VPositive(m.cells, x.o, s1, i);
        return 1 - at;
      }
      i := i + 1;
    }
    return at;
  }

  lemma AboveBit(s: seq<Digit>, x: Big, i: nat)
    requires x.o + x.n <= |s| && x.n * W <= i && (x.negative ==> V(s, x.o, x.n) != 0)
    ensures BitAt(IntOf(s, x), i) == Sign(x.negative)
  {
    VBound(s, x.o, x.n);
    PowIsPow2(x.n);
    Pow2Mono(x.n * W, i);
    var t, p := IntOf(s, x), Pow2(i);
    DivUnique(t, p, if x.negative then -1 else 0, if x.negative then t + p else t);
  }

  // The bits below i: those of the digit and the digits before it
  lemma LowPart(s: seq<Digit>, o: nat, n: nat, k: nat, j: nat)
    requires o + n <= |s| && k < n && j < W
    ensures V(s, o, n) % Pow2(k * W + j) == V(s, o, k) + Pow(k) * (s[o + k] % Pow2(j))
    ensures V(s, o, n) % Pow2(k * W + j) == 0 <==> V(s, o, k) == 0 && s[o + k] % Pow2(j) == 0
  {
    var v, p, q := V(s, o, n), Pow(k), Pow2(j);
    PowIsPow2(k);
    Pow2Add(k * W, j);
    VBound(s, o, k);
    TwosDrop(s, o, n, false, k);
    TwosDrop(s, o + k, n - k, false, 1);
    Pow1();
    VOne(s, o + k);
    var rest := V(s, o + k, n - k);
    DivMod(rest, B);
    DigitMod(s[o + k], rest / B, j);
    DivMod(v, p);
    LowArith(v, p, q, rest, V(s, o, k));
  }

  lemma LowArith(v: nat, p: nat, q: nat, rest: nat, low: nat)
    requires 0 < p && 0 < q && v == p * rest + low && low < p
    ensures v % (p * q) == low + p * (rest % q)
    ensures v % (p * q) == 0 <==> low == 0 && rest % q == 0
  {
    DivMod(rest, q);
    var a, b := rest / q, rest % q;
    assert p * (q * a + b) == (p * q) * a + p * b;
    LeMul(p, b + 1, q);
    LeMul(p, 0, b);
    DivUnique(v, p * q, a, p * b + low);
    if b != 0 {
      LeMul(p, 1, b);
    }
  }

  lemma DigitMod(d: Digit, above: int, j: nat)
    requires j < W
    ensures (B * above + d) % Pow2(j) == d % Pow2(j)
  {
    Pow2Add(j, W - j);
    ModArith(d, above, Pow2(j), Pow2(W - j));
  }

  lemma ModArith(d: nat, above: int, p: nat, q: nat)
    requires 0 < p
    ensures (p * q * above + d) % p == d % p
  {
    DivMod(d, p);
    assert p * q * above == p * (q * above);
    assert p * (q * above + d / p) == p * (q * above) + p * (d / p);
    DivUnique(p * q * above + d, p, q * above + d / p, d % p);
  }

  // The bits of -v are those of v up to its lowest one bit, and inverted above.
  lemma NegatedBit(v: int, i: nat)
    requires 0 <= v
    ensures BitAt(-v, i) == if v % Pow2(i) == 0 then BitAt(v, i) else 1 - BitAt(v, i)
  {
    hide Pow2;
    DivMod(v, Pow2(i));
    NegatedQuotient(v, Pow2(i), v / Pow2(i), v % Pow2(i));
    NegatedParity(v / Pow2(i));
  }

  lemma NegatedQuotient(v: int, p: int, q: int, r: int)
    requires v == p * q + r && 0 <= r < p
    ensures (0 - v) / p == if r == 0 then 0 - q else 0 - q - 1
  {
    NegatedProduct(p, q);
    if r == 0 {
      DivUnique(0 - v, p, 0 - q, 0);
    } else {
      DivUnique(0 - v, p, 0 - q - 1, p - r);
    }
  }

  lemma NegatedProduct(p: int, q: int)
    ensures p * (0 - q) == 0 - p * q && p * (0 - q - 1) == 0 - p * q - p
  {
  }

  lemma NegatedParity(q: int)
    ensures (0 - q) % 2 == q % 2 && (0 - q - 1) % 2 == 1 - q % 2
  {
  }
}
