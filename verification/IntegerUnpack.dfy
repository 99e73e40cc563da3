/**
 The generic branch of bary_unpack_internal: the data bits of a buffer are pushed into
 digits, and the result is signed by extension of its top bit or as told; unpacking
 what was packed gives the number back.
 */
module IntegerUnpack {
  import opened Digits
  import opened Kernel
  import opened MulKernel
  import opened Division
  import opened Packing
  import opened IntegerPack

  // ---- how many digits are needed ----

  // integer_unpack_num_bdigits_small: the digits, and the leading padding bits in the top one
  function NumBdigits(f: Format): (r: (nat, nat))
    requires ValidFormat(f)
    ensures r.0 * W == Wordbits(f) * f.numwords + r.1 && r.1 < W
  {
    var bits := DataBits(f);
    var n := (bits + W - 1) / W;
    RoundUp(bits, W);
    (n, n * W - bits)
  }

  function DataBits(f: Format): (n: nat)
    requires ValidFormat(f)
    ensures n == Wordbits(f) * f.numwords
  {
    LeMul(Wordbits(f), 0, f.numwords);
    Wordbits(f) * f.numwords
  }

  lemma RoundUp(n: nat, d: nat)
    requires 0 < d
    ensures n <= (n + d - 1) / d * d < n + d
  {
    DivMod(n + d - 1, d);
  }

  lemma RoundUpIs(n: int, d: int, q: int, r: int)
    requires 0 < d && n == d * q - r && 0 <= r < d
    ensures (n + d - 1) / d == q
  {
    DivUnique(n + d - 1, d, q, d - 1 - r);
  }

  method QuoRem(a: nat, d: nat) returns (q: nat, r: nat)
    requires 0 < d
    ensures a == d * q + r && r < d
  {
    q, r := a / d, a % d;
    DivMod(a, d);
  }

  // integer_unpack_num_bdigits_generic, which never forms the number of bits, finds the same.
  method NumBdigitsGeneric(f: Format) returns (n: nat, nlp: nat)
    requires ValidFormat(f)
    ensures (n, nlp) == NumBdigits(f)
  {
    LeMul(f.wordsize, 0, f.numwords);
    var numBytes1: nat := f.wordsize * f.numwords;
    var q1, r1 := QuoRem(f.numwords, 8);
    NoUnderflow(f, q1, r1);
    var numBytes2: nat := numBytes1 - f.nails * q1;
    var q2, r2 := QuoRem(f.nails, 8);
    DivUnique(f.nails, 8, q2, r2);
    var numBytes3: nat := numBytes2 - q2 * r1;
    var q3, r3 := QuoRem(numBytes3, W);
    BitsLeft(f, q1, r1, q2, r2, q3, r3);
    n, nlp := DigitsAndPadding(8 * q3, 8 * r3, r1 * r2, DataBits(f));
  }

  // numDigits1 digits and bits3 - less bits, rounded up
  method DigitsAndPadding(numDigits1: nat, bits3: nat, less: nat, ghost bits: nat) returns (n: nat, nlp: nat)
    requires bits == W * numDigits1 + bits3 - less && bits3 - less <= 8 * W
    ensures n == (bits + W - 1) / W && nlp == n * W - bits
  {
    if bits3 >= less {
      var tmp1: nat := 8 * W - (bits3 - less);
      var q4, r4 := QuoRem(tmp1, W);
      assert W * (numDigits1 + 8 - q4) == W * numDigits1 + 8 * W - W * q4;
      RoundUpIs(bits, W, numDigits1 + 8 - q4, r4);
      n, nlp := numDigits1 + 8 - q4, r4;
    } else {
      var tmp1: nat := less - bits3;
      var q4, r4 := QuoRem(tmp1, W);
      assert W * (numDigits1 - q4) == W * numDigits1 - W * q4;
      RoundUpIs(bits, W, numDigits1 - q4, r4);
      n, nlp := numDigits1 - q4, r4;
    }
  }

  lemma NoUnderflow(f: Format, q1: nat, r1: nat)
    requires ValidFormat(f) && f.numwords == 8 * q1 + r1
    ensures 0 <= f.wordsize * f.numwords - f.nails * q1 - f.nails / 8 * r1
    ensures 0 <= f.wordsize * f.numwords - f.nails * q1
  {
    LeMul(q1, f.nails, 8 * f.wordsize);
    LeMul(r1, f.nails / 8, f.wordsize);
    assert f.wordsize * f.numwords == q1 * (8 * f.wordsize) + r1 * f.wordsize;
    LeMul(r1, 0, f.nails / 8);
  }

  lemma BitsLeft(f: Format, q1: nat, r1: nat, q2: nat, r2: nat, q3: nat, r3: nat)
    requires ValidFormat(f) && f.numwords == 8 * q1 + r1 && f.nails == 8 * q2 + r2 && r1 < 8 && r2 < 8 && r3 < W
    requires f.wordsize * f.numwords - f.nails * q1 - q2 * r1 == W * q3 + r3
    ensures DataBits(f) == W * (8 * q3) + 8 * r3 - r1 * r2
    ensures 0 <= r1 * r2 <= 49 && 8 * r3 - r1 * r2 <= 8 * W
  {
    assert DataBits(f) == (8 * f.wordsize - f.nails) * f.numwords;
    hide DataBits;
    BitsArith(f.wordsize, f.nails, f.numwords, q1, r1, q2, r2);
    EightTimes(W, q3, r3, f.wordsize * f.numwords - f.nails * q1 - q2 * r1);
    SmallProduct(r1, r2);
  }

  lemma EightTimes(w: int, q: int, r: int, t: int)
    requires t == w * q + r
    ensures 8 * t == w * (8 * q) + 8 * r
  {
  }

  lemma SmallProduct(a: nat, b: nat)
    requires a < 8 && b < 8
    ensures 0 <= a * b <= 49
  {
    LeMul(a, b, 7);
    LeMul(a, 0, b);
  }

  lemma BitsArith(wordsize: int, nails: int, numwords: int, q1: int, r1: int, q2: int, r2: int)
    requires numwords == 8 * q1 + r1 && nails == 8 * q2 + r2
    ensures (8 * wordsize - nails) * numwords == 8 * (wordsize * numwords - nails * q1 - q2 * r1) - r1 * r2
  {
    assert (8 * wordsize - nails) * numwords == 8 * (wordsize * numwords) - nails * numwords;
    assert nails * numwords == 8 * (nails * q1) + nails * r1;
    assert nails * r1 == 8 * (q2 * r1) + r1 * r2;
  }

  // ---- pushing bits ----

  // The digits stored and the double digit in hand
  ghost function Held(s: seq<Digit>, ds: nat, dp: nat, dd: nat): nat
    requires ds <= dp <= |s|
  {
    V(s, ds, dp - ds) + Pow(dp - ds) * dd
  }

  // c bits have been pushed.
  ghost predicate Pushed(s: seq<Digit>, ds: nat, n: nat, dp: nat, dd: nat, nb: nat, c: nat)
  {
    && ds <= dp <= ds + n <= |s| && Weighs(ds, dp, nb, c) && nb < W && dd < Pow2(nb)
  }

  // The bits in the stored digits and in the hand
  ghost predicate Weighs(ds: nat, dp: nat, nb: nat, c: nat)
  {
    ds <= dp && c == (dp - ds) * W + nb
  }

  lemma RoomForDigit(ds: nat, dp: nat, nb: nat, c: nat, n: nat)
    requires Weighs(ds, dp, nb, c) && W <= nb && c <= n * W
    ensures dp < ds + n && Weighs(ds, dp + 1, nb - W, c)
  {
    if n <= dp - ds {
      LeMul(W, n, dp - ds);
    }
    assert (dp + 1 - ds) * W == (dp - ds) * W + W;
  }

  // integer_unpack_push_bits
  method PushBits(m: Memory, data: nat, numbits: nat, ds: nat, n: nat, dp0: nat, dd0: nat, nb0: nat, ghost c: nat)
    returns (dp: nat, dd: nat, nb: nat)
    requires Pushed(m.cells, ds, n, dp0, dd0, nb0, c) && numbits <= 8 && data < Pow2(numbits) && c + numbits <= n * W
    modifies m
    ensures Keeps(old(m.cells), m.cells, ds, n) && Pushed(m.cells, ds, n, dp, dd, nb, c + numbits)
    ensures Held(m.cells, ds, dp, dd) == Held(old(m.cells), ds, dp0, dd0) + data * Pow2(c)
  {
    ghost var s0 := m.cells;
    PushArith(dd0, data, nb0, numbits);
    HeldPlus(s0, ds, dp0, dd0, nb0, c, data, numbits);
    dp, dd, nb := dp0, dd0 + data * Pow2(nb0), nb0 + numbits;
    KeepsIntro(s0, s0, ds, n);
    hide V, Pow, Pow2, Held, Weighs;
    ghost var held := Held(s0, ds, dp, dd);
    while W <= nb
      invariant ds <= dp <= ds + n && Weighs(ds, dp, nb, c + numbits) && dd < Pow2(nb)
      invariant Keeps(s0, m.cells, ds, n) && Held(m.cells, ds, dp, dd) == held
      decreases nb
    {
      RoomForDigit(ds, dp, nb, c + numbits, n);
      ghost var s1 := m.cells;
      dp, dd := StoreLow(m, ds, n, dp, dd, nb);
      KeepsThen(s0, s1, m.cells, ds, n, ds, n);
      nb := nb - W;
    }
  }

  // A full digit goes to the buffer.
  method StoreLow(m: Memory, ds: nat, n: nat, dp0: nat, dd0: nat, ghost nb: nat) returns (dp: nat, dd: nat)
    requires ds <= dp0 < ds + n <= |m.cells| && W <= nb && dd0 < Pow2(nb)
    modifies m
    ensures dp == dp0 + 1 && dd < Pow2(nb - W) && Keeps(old(m.cells), m.cells, ds, n)
    ensures Held(m.cells, ds, dp, dd) == Held(old(m.cells), ds, dp0, dd0)
  {
    ghost var s := m.cells;
    Pow2Add(W, nb - W);
    HighPart(dd0, Pow2(nb - W));
    StoreArith(dd0, Pow(dp0 - ds));
    VPut(s, ds, dp0 - ds, BigLo(dd0));
    m.cells := m.cells[dp0 := BigLo(dd0)];
    KeepsIntro(s, m.cells, ds, n);
    dp, dd := dp0 + 1, BigDn(dd0);
  }

  lemma PushArith(dd: nat, data: nat, nb: nat, k: nat)
    requires dd < Pow2(nb) && data < Pow2(k)
    ensures dd + data * Pow2(nb) < Pow2(nb + k)
  {
    Pow2Add(nb, k);
    LeMul(Pow2(nb), data + 1, Pow2(k));
  }

  lemma HeldPlus(s: seq<Digit>, ds: nat, dp: nat, dd: nat, nb: nat, c: nat, data: nat, n: nat)
    requires ds <= dp <= |s| && Weighs(ds, dp, nb, c)
    ensures Held(s, ds, dp, dd + data * Pow2(nb)) == Held(s, ds, dp, dd) + data * Pow2(c)
    ensures Weighs(ds, dp, nb + n, c + n)
  {
    PowIsPow2(dp - ds);
    Pow2Add((dp - ds) * W, nb);
    HeldMore(V(s, ds, dp - ds), Pow(dp - ds), dd, data, Pow2(nb));
  }

  lemma HeldMore(v: int, p: int, dd: int, data: int, q: int)
    ensures v + p * (dd + data * q) == v + p * dd + data * (p * q)
  {
    assert p * (data * q) == data * (p * q);
  }

  lemma StoreArith(dd: nat, p: nat)
    ensures p * dd == BigLo(dd) * p + (B * p) * BigDn(dd)
  {
    CarrySplit(dd, p);
  }

  lemma HighPart(dd: nat, q: nat)
    requires dd < B * q
    ensures 0 <= BigDn(dd) < q
  {
    BigDnBound(dd, 0, q);
  }

  // ---- one word ----

  method UnpackWord(m: Memory, f: Format, buf: array<Byte>, base: nat, ds: nat, n: nat, dp0: nat, dd0: nat, nb0: nat, ghost c: nat)
    returns (dp: nat, dd: nat, nb: nat)
    requires ValidFormat(f) && base + f.wordsize <= buf.Length
    requires Pushed(m.cells, ds, n, dp0, dd0, nb0, c) && c + Wordbits(f) <= n * W
    modifies m
    ensures Keeps(old(m.cells), m.cells, ds, n) && Pushed(m.cells, ds, n, dp, dd, nb, c + Wordbits(f))
    ensures Held(m.cells, ds, dp, dd) == Held(old(m.cells), ds, dp0, dd0) + Word(f, buf[..], base) * Pow2(c)
  {
    ghost var s0, h0 := m.cells, Held(m.cells, ds, dp0, dd0);
    var full, partial, index := Fullbytes(f), Partialbits(f), 0;
    dp, dd, nb := dp0, dd0, nb0;
    KeepsIntro(s0, s0, ds, n);
    Pow256();
    assert HeldIs(s0, ds, dp, dd, h0, WordUpTo(f, buf[..], base, 0), c);
    hide V, Pow, Pow2, Held, Pushed, Keeps, HeldIs, WordUpTo;
    while index < full
      invariant index <= full && Keeps(s0, m.cells, ds, n)
      invariant Pushed(m.cells, ds, n, dp, dd, nb, c + 8 * index)
      invariant HeldIs(m.cells, ds, dp, dd, h0, WordUpTo(f, buf[..], base, index), c)
    {
      ghost var s1 := m.cells;
      dp, dd, nb := PushCell(m, f, buf, base, index, 8, buf[base + ByteAt(f, index)], ds, n, dp, dd, nb, c, h0);
      KeepsThen(s0, s1, m.cells, ds, n, ds, n);
      index := index + 1;
    }
    if partial != 0 {
      ghost var s1 := m.cells;
      DivMod(buf[base + ByteAt(f, index)], Pow2(partial));
      var data := buf[base + ByteAt(f, index)] % Pow2(partial);
      dp, dd, nb := PushCell(m, f, buf, base, index, partial, data, ds, n, dp, dd, nb, c, h0);
      KeepsThen(s0, s1, m.cells, ds, n, ds, n);
    }
    HeldWord(m.cells, ds, dp, dd, h0, Word(f, buf[..], base), c);
  }

  lemma HeldWord(s: seq<Digit>, ds: nat, dp: nat, dd: nat, h0: nat, word: nat, c: nat)
    requires HeldIs(s, ds, dp, dd, h0, word, c)
    ensures ds <= dp <= |s| && Held(s, ds, dp, dd) == h0 + word * Pow2(c)
  {
  }

  ghost predicate HeldIs(s: seq<Digit>, ds: nat, dp: nat, dd: nat, h0: nat, word: nat, c: nat)
  {
    ds <= dp <= |s| && Held(s, ds, dp, dd) == h0 + word * Pow2(c)
  }

  // One cell of a word
  method PushCell(m: Memory, f: Format, buf: array<Byte>, base: nat, index: nat, w: nat, data: nat,
                  ds: nat, n: nat, dp0: nat, dd0: nat, nb0: nat, ghost c: nat, ghost h0: nat)
    returns (dp: nat, dd: nat, nb: nat)
    requires ValidFormat(f) && base + f.wordsize <= buf.Length && index < Cells(f) && c + Wordbits(f) <= n * W
    requires w == (if index < Fullbytes(f) then 8 else Partialbits(f)) && data == Cell(f, buf[..], base, index) < Pow2(w)
    requires Pushed(m.cells, ds, n, dp0, dd0, nb0, c + 8 * index)
    requires HeldIs(m.cells, ds, dp0, dd0, h0, WordUpTo(f, buf[..], base, index), c)
    modifies m
    ensures Keeps(old(m.cells), m.cells, ds, n) && Pushed(m.cells, ds, n, dp, dd, nb, c + 8 * index + w)
    ensures HeldIs(m.cells, ds, dp, dd, h0, WordUpTo(f, buf[..], base, index + 1), c)
  {
    dp, dd, nb := PushBits(m, data, w, ds, n, dp0, dd0, nb0, c + 8 * index);
    Pow2Add(c, 8 * index);
    CellWeight(WordUpTo(f, buf[..], base, index), data, Pow2(8 * index), Pow2(c));
  }

  lemma CellWeight(v: int, d: int, p: int, q: int)
    ensures v * q + d * (q * p) == (v + d * p) * q
  {
  }

  // ---- all the words ----

  // Bits up to word k fit with the rest to come.
  lemma RoomForWord(f: Format, k: nat, n: nat)
    requires ValidFormat(f) && k < f.numwords && Wordbits(f) * f.numwords <= n * W
    ensures Wordbits(f) * k + Wordbits(f) <= n * W
    ensures Wordbits(f) * (k + 1) == Wordbits(f) * k + Wordbits(f)
  {
    LeMul(Wordbits(f), k + 1, f.numwords);
  }

  // The loop over the words; there is at least one, and n digits hold their bits.
  method UnpackWords(m: Memory, f: Format, buf: array<Byte>, ds: nat, n: nat) returns (dp: nat, dd: nat, nb: nat)
    requires ValidFormat(f) && 0 < f.numwords && buf.Length == Bufsize(f) && ds + n <= |m.cells|
    requires DataBits(f) <= n * W
    modifies m
    ensures Keeps(old(m.cells), m.cells, ds, n) && Pushed(m.cells, ds, n, dp, dd, nb, DataBits(f))
    ensures Held(m.cells, ds, dp, dd) == Data(f, buf[..], f.numwords)
  {
    ghost var s0 := m.cells;
    var wordp, last := FirstAndLast(f);
    dp, dd, nb := ds, 0, 0;
    ghost var k, c := 0, 0;
    NextWord(f, 0);
    assert Pushed(s0, ds, n, dp, dd, nb, 0) by { assert Pow2(0) == 1; }
    assert Held(s0, ds, dp, dd) == 0 == Data(f, buf[..], 0);
    assert HeldData(f, buf[..], s0, ds, dp, dd, 0);
    KeepsIntro(s0, s0, ds, n);
    hide V, Pow, Pow2, Held, Pushed, Keeps, KeepsCells, WordAt, Bufsize, Word, Data, HeldData;
    while true
      invariant k < f.numwords && wordp == WordAt(f, k) && Keeps(s0, m.cells, ds, n)
      invariant c == Wordbits(f) * k && Pushed(m.cells, ds, n, dp, dd, nb, c) && HeldData(f, buf[..], m.cells, ds, dp, dd, k)
      decreases f.numwords - k
    {
      ghost var s1 := m.cells;
      RoomForWord(f, k, n);
      dp, dd, nb := UnpackNext(m, f, buf, wordp, ds, n, dp, dd, nb, k, c);
      KeepsThen(s0, s1, m.cells, ds, n, ds, n);
      LastWord(f, k);
      k := k + 1;
      c := c + Wordbits(f);
      if wordp == last {
        break;
      }
      wordp := NextWordAt(f, k - 1, wordp);
    }
  }

  // Word k
  method UnpackNext(m: Memory, f: Format, buf: array<Byte>, wordp: nat, ds: nat, n: nat, dp0: nat, dd0: nat, nb0: nat, ghost k: nat,
                    ghost c: nat)
    returns (dp: nat, dd: nat, nb: nat)
    requires ValidFormat(f) && buf.Length == Bufsize(f) && k < f.numwords && wordp == WordAt(f, k) && c == Wordbits(f) * k
    requires Pushed(m.cells, ds, n, dp0, dd0, nb0, c) && c + Wordbits(f) <= n * W
    requires HeldData(f, buf[..], m.cells, ds, dp0, dd0, k)
    modifies m
    ensures Keeps(old(m.cells), m.cells, ds, n) && Pushed(m.cells, ds, n, dp, dd, nb, c + Wordbits(f))
    ensures HeldData(f, buf[..], m.cells, ds, dp, dd, k + 1)
  {
    ghost var s := m.cells;
    WordInside(f, k);
    dp, dd, nb := UnpackWord(m, f, buf, wordp, ds, n, dp0, dd0, nb0, c);
    HeldNext(f, buf[..], s, ds, dp0, dd0, m.cells, dp, dd, k, c);
  }

  ghost predicate HeldData(f: Format, b: seq<Byte>, s: seq<Digit>, ds: nat, dp: nat, dd: nat, k: nat)
    requires ValidFormat(f) && Bufsize(f) == |b| && k <= f.numwords
  {
    ds <= dp <= |s| && Held(s, ds, dp, dd) == Data(f, b, k)
  }

  lemma HeldNext(f: Format, b: seq<Byte>, s: seq<Digit>, ds: nat, dp: nat, dd: nat, s': seq<Digit>, dp': nat, dd': nat, k: nat,
                 c: nat)
    requires ValidFormat(f) && Bufsize(f) == |b| && k < f.numwords && HeldData(f, b, s, ds, dp, dd, k)
    requires c == Wordbits(f) * k && WordAt(f, k) + f.wordsize <= |b| && ds <= dp' <= |s'|
    requires Held(s', ds, dp', dd') == Held(s, ds, dp, dd) + Word(f, b, WordAt(f, k)) * Pow2(c)
    ensures HeldData(f, b, s', ds, dp', dd', k + 1)
  {
  }

  // What is in hand goes to the last digit, and zeros fill up.
  method FinishDigits(m: Memory, ds: nat, n: nat, dp0: nat, dd: nat, nb: nat, ghost c: nat)
    requires Pushed(m.cells, ds, n, dp0, dd, nb, c) && c <= n * W
    modifies m
    ensures Keeps(old(m.cells), m.cells, ds, n)
    ensures V(m.cells, ds, n) == Held(old(m.cells), ds, dp0, dd)
  {
    hide V, Pow, Pow2, Held, Pushed, Weighs;
    ghost var s0 := m.cells;
    var dp := StoreLast(m, ds, n, dp0, dd, nb, c);
    ghost var s1 := m.cells;
    Zero(m, dp, ds + n - dp);
    VJoin(m.cells, ds, dp - ds, dp, ds + n - dp, n);
    KeepsThen(s0, s1, m.cells, ds, n, dp, ds + n - dp);
  }

  method StoreLast(m: Memory, ds: nat, n: nat, dp0: nat, dd: nat, nb: nat, ghost c: nat) returns (dp: nat)
    requires Pushed(m.cells, ds, n, dp0, dd, nb, c) && c <= n * W
    modifies m
    ensures Keeps(old(m.cells), m.cells, ds, n) && ds <= dp <= ds + n <= |m.cells|
    ensures V(m.cells, ds, dp - ds) == Held(old(m.cells), ds, dp0, dd)
  {
    ghost var s0 := m.cells;
    dp := dp0;
    if dd != 0 {
      InHand(ds, dp, dd, nb, c, n);
      VPut(s0, ds, dp - ds, dd);
      m.cells := m.cells[dp := dd];
      dp := dp + 1;
    }
    // assert(dp <= de)
    assert dp <= ds + n;
    KeepsIntro(s0, m.cells, ds, n);
  }

  lemma InHand(ds: nat, dp: nat, dd: nat, nb: nat, c: nat, n: nat)
    requires Weighs(ds, dp, nb, c) && 0 < dd < Pow2(nb) && nb < W && c <= n * W
    ensures dp < ds + n && dd < B
  {
    assert Pow2(0) == 1;
    Pow2Mono(nb, W);
    if n <= dp - ds {
      LeMul(W, n, dp - ds);
    }
  }

  // ---- the sign ----

  // The number that n bits of data stand for
  function UnpackValue(data: nat, n: nat, twoComp: bool, negative: bool): int
  {
    if !twoComp then if negative then 0 - data else data
    else if negative then data - Pow2(n)
    else if 0 < n && Pow2(n - 1) <= data then data - Pow2(n)
    else data
  }

  // Sign and magnitude; the one negative number with those bits; or the number in range with them
  lemma UnpackClasses(data: nat, n: nat)
    requires data < Pow2(n)
    ensures UnpackValue(data, n, false, false) == data && UnpackValue(data, n, false, true) == 0 - data
    ensures 0 - Pow2(n) <= UnpackValue(data, n, true, true) < 0 && UnpackValue(data, n, true, true) == data - Pow2(n)
    ensures n == 0 ==> UnpackValue(data, n, true, false) == 0
    ensures 0 < n ==>
              && 0 - Pow2(n - 1) <= UnpackValue(data, n, true, false) < Pow2(n - 1)
              && (UnpackValue(data, n, true, false) == data || UnpackValue(data, n, true, false) == data - Pow2(n))
  {
  }

  // The magnitude and the sign returned; -2 says that the magnitude is one digit longer: B^n.
  ghost function ValueOf(s: seq<Digit>, ds: nat, n: nat, sign: int): int
    requires ds + n <= |s|
  {
    if sign == -2 then 0 - Pow(n) else sign * V(s, ds, n)
  }

  method ApplySign(m: Memory, ds: nat, n: nat, nlp: nat, twoComp: bool, negative: bool, ghost bits: nat) returns (sign: int)
    requires ds + n <= |m.cells| && n * W == bits + nlp && nlp < W && V(m.cells, ds, n) < Pow2(bits)
    modifies m
    ensures Keeps(old(m.cells), m.cells, ds, n)
    ensures ValueOf(m.cells, ds, n, sign) == UnpackValue(V(old(m.cells), ds, n), bits, twoComp, negative)
  {
    ghost var s0 := m.cells;
    KeepsIntro(s0, s0, ds, n);
    PowIsPow2(n);
    if !twoComp {
      sign := if negative then -1 else 1;
      return;
    }
    if nlp != 0 {
      sign := SignPadded(m, ds, n, nlp, negative, bits);
    } else {
      sign := SignAligned(m, ds, n, negative, bits);
    }
    if sign == -1 && n != 0 {
      ghost var s1 := m.cells;
      var zero := TwoComp(m, ds, n);
      KeepsThen(s0, s1, m.cells, ds, n, ds, n);
    }
  }

  // With padding in the top digit: it is filled with ones below a negative sign.
  method SignPadded(m: Memory, ds: nat, n: nat, nlp: nat, negative: bool, ghost bits: nat) returns (sign: int)
    requires ds + n <= |m.cells| && n * W == bits + nlp && 0 < nlp < W && V(m.cells, ds, n) < Pow2(bits)
    modifies m
    ensures Keeps(old(m.cells), m.cells, ds, n) && 0 < n && 0 < bits && Pow2(bits) < Pow(n)
    ensures sign == if negative || Pow2(bits - 1) <= V(old(m.cells), ds, n) then -1 else 1
    ensures V(m.cells, ds, n) == V(old(m.cells), ds, n) + if sign == -1 then Pow(n) - Pow2(bits) else 0
  {
    hide V, Pow, Pow2;
    ghost var s0 := m.cells;
    KeepsIntro(s0, s0, ds, n);
    PaddedTop(s0, ds, n, nlp, bits);
    var top := m.cells[ds + n - 1];
    if negative || top / Pow2(W - nlp - 1) != 0 {
      // the padding bits are clear, so the bitwise or is a sum
      var filled: Digit := top + (B - Pow2(W - nlp));
      m.cells := m.cells[ds + n - 1 := filled];
      FilledTop(s0, m.cells, ds, n, nlp, bits, filled);
      KeepsIntro(s0, m.cells, ds, n);
      sign := -1;
    } else {
      sign := 1;
    }
  }

  method SignAligned(m: Memory, ds: nat, n: nat, negative: bool, ghost bits: nat) returns (sign: int)
    requires ds + n <= |m.cells| && n * W == bits
    ensures negative ==> sign == if V(m.cells, ds, n) == 0 then -2 else -1
    ensures !negative ==> sign == if 0 < bits && Pow2(bits - 1) <= V(m.cells, ds, n) then -1 else 1
  {
    TopBit(m.cells, ds, n);
    if negative {
      var zero := ZeroP(m, ds, n);
      sign := if zero then -2 else -1;
    } else {
      sign := if n != 0 && Msb(m.cells[ds + n - 1]) then -1 else 1;
    }
  }

  // The top digit has no bits in the padding; its top data bit is the top data bit.
  lemma PaddedTop(s: seq<Digit>, ds: nat, n: nat, nlp: nat, bits: nat)
    requires ds + n <= |s| && n * W == bits + nlp && 0 < nlp < W && V(s, ds, n) < Pow2(bits)
    ensures 0 < n && s[ds + n - 1] < Pow2(W - nlp) <= B
    ensures 0 < bits && (s[ds + n - 1] / Pow2(W - nlp - 1) != 0 <==> Pow2(bits - 1) <= V(s, ds, n))
    ensures Pow2(bits) == Pow(n - 1) * Pow2(W - nlp) && Pow2(bits) < Pow(n)
  {
    TopPowers(n, nlp, bits);
    var k := n - 1;
    VBound(s, ds, k);
    assert V(s, ds, n) == V(s, ds, k) + s[ds + k] * Pow(k);
    hide V, Pow, Pow2;
    TopParts(V(s, ds, k), s[ds + k], Pow(k), Pow2(W - nlp - 1));
  }

  // The powers of two at the top digit
  lemma TopPowers(n: nat, nlp: nat, bits: nat)
    requires n * W == bits + nlp && 0 < nlp < W
    ensures 0 < n && 0 < bits
    ensures Pow2(bits) == Pow(n - 1) * Pow2(W - nlp) && Pow2(bits - 1) == Pow(n - 1) * Pow2(W - nlp - 1)
    ensures Pow2(bits) < Pow(n) && Pow2(W - nlp) == 2 * Pow2(W - nlp - 1) && Pow2(W - nlp) <= B
  {
    SomeDigits(n, W);
    var k := n - 1;
    assert n * W == k * W + W;
    LeMul(W, 0, k);
    PowIsPow2(n);
    PowIsPow2(k);
    Pow2Mono(bits + 1, n * W);
    assert Pow2(bits + 1) == 2 * Pow2(bits);
    Pow2Add(k * W, W - nlp);
    Pow2Add(k * W, W - nlp - 1);
    Pow2Mono(W - nlp, W);
  }

  lemma SomeDigits(n: nat, w: nat)
    requires 0 < n * w
    ensures 0 < n
  {
  }

  lemma TopParts(low: nat, t: nat, p: nat, q: nat)
    requires low < p && 0 < q && low + t * p < p * (2 * q)
    ensures t < 2 * q
    ensures t / q != 0 <==> p * q <= low + t * p
  {
    if 2 * q <= t {
      LeMul(p, 2 * q, t);
    }
    DivMod(t, q);
    if q <= t {
      LeMul(p, q, t);
    } else {
      LeMul(p, t + 1, q);
    }
    if t / q != 0 && t < q {
      LeMul(q, 1, t / q);
    }
  }

  // The padding filled with ones: the number minus 2^bits, in two's complement of the whole digits
  lemma FilledTop(s: seq<Digit>, t: seq<Digit>, ds: nat, n: nat, nlp: nat, bits: nat, filled: Digit)
    requires 0 < n && ds + n <= |s| && nlp < W && Pow2(bits) == Pow(n - 1) * Pow2(W - nlp)
    requires filled == s[ds + n - 1] + (B - Pow2(W - nlp)) && t == s[ds + n - 1 := filled]
    ensures V(t, ds, n) == V(s, ds, n) + Pow(n) - Pow2(bits)
  {
    VPut(s, ds, n - 1, filled);
    FilledArith(s[ds + n - 1], filled, Pow2(W - nlp), Pow(n - 1));
  }

  lemma FilledArith(t: int, filled: int, q: int, p: int)
    requires filled == t + (B - q)
    ensures filled * p == t * p + B * p - p * q
  {
  }

  // Without padding the top bit of the top digit is the top data bit.
  lemma TopBit(s: seq<Digit>, ds: nat, n: nat)
    requires ds + n <= |s|
    ensures 0 < n ==> (Msb(s[ds + n - 1]) <==> Pow2(n * W - 1) <= V(s, ds, n))
  {
    if 0 < n {
      var k, t := n - 1, s[ds + n - 1];
      assert n * W == k * W + W;
      PowIsPow2(k);
      VBound(s, ds, k);
      Pow2Add(k * W, W - 1);
      assert B == 2 * Pow2(W - 1);
      var p, q := Pow(k), Pow2(W - 1);
      if q <= t {
        LeMul(p, q, t);
      } else {
        LeMul(p, t + 1, q);
      }
    }
  }

  // ---- bary_unpack_internal ----

  method Unpack(m: Memory, f: Format, buf: array<Byte>, ds: nat, n: nat, nlp: nat, twoComp: bool, negative: bool)
    returns (sign: int)
    requires ValidFormat(f) && buf.Length == Bufsize(f) && (n, nlp) == NumBdigits(f) && ds + n <= |m.cells|
    modifies m
    ensures Keeps(old(m.cells), m.cells, ds, n)
    ensures ValueOf(m.cells, ds, n, sign)
         == UnpackValue(Data(f, buf[..], f.numwords), DataBits(f), twoComp, negative)
  {
    ghost var s0 := m.cells;
    KeepsIntro(s0, s0, ds, n);
    DataBound(f, buf[..], f.numwords);
    if n != 0 {
      var dp, dd, nb := UnpackWords(m, f, buf, ds, n);
      ghost var s1 := m.cells;
      FinishDigits(m, ds, n, dp, dd, nb, DataBits(f));
      KeepsThen(s0, s1, m.cells, ds, n, ds, n);
    }
    ghost var s2 := m.cells;
    sign := ApplySign(m, ds, n, nlp, twoComp, negative, DataBits(f));
    KeepsThen(s0, s2, m.cells, ds, n, ds, n);
  }

  // ---- unpacking what was packed ----

  // Two's complement with sign extension, for every number that has its sign bit
  lemma SignExtended(v: int, n: nat)
    requires 0 < n && -(Pow2(n - 1) as int) <= v < Pow2(n - 1)
    ensures UnpackValue(v % Pow2(n), n, true, false) == v
  {
    var p := Pow2(n);
    if v < 0 {
      DivUnique(v, p, -1, v + p);
    } else {
      DivUnique(v, p, 0, v);
    }
  }

  // Negative numbers down to -2^n, the one that only two's complement reaches
  lemma KnownNegative(v: int, n: nat)
    requires -(Pow2(n) as int) <= v < 0
    ensures UnpackValue(v % Pow2(n), n, true, true) == v
  {
    DivUnique(v, Pow2(n), -1, v + Pow2(n));
  }

  // Sign and magnitude
  lemma SignAndMagnitude(v: int, n: nat)
    requires -(Pow2(n) as int) < v < Pow2(n)
    ensures UnpackValue((if v < 0 then 0 - v else v) % Pow2(n), n, false, v < 0) == v
  {
    var a := if v < 0 then 0 - v else v;
    DivUnique(a, Pow2(n), 0, a);
  }

  // A code that does not report overflow is exactly what says that the number can be read back.
  lemma FitsIff(v: int, n: nat, twoComp: bool)
    ensures -1 <= PackCode(v, n, twoComp) <= 1 <==>
              v == if twoComp && v < 0
                   then UnpackValue(v % Pow2(n), n, true, true)
                   else UnpackValue((if v < 0 then 0 - v else v) % Pow2(n), n, false, v < 0)
  {
    var p := Pow2(n);
    if -1 <= PackCode(v, n, twoComp) <= 1 {
      if twoComp && v < 0 {
        KnownNegative(v, n);
      } else {
        SignAndMagnitude(v, n);
      }
    } else {
      hide Pow2;
      DivMod(v, p);
      DivMod(if v < 0 then 0 - v else v, p);
    }
  }

  // The numbers that n bits stand for, read with the sign in two's complement, known to be negative, or given
  predicate Representable(v: int, n: nat, twoComp: bool, negative: bool)
  {
    if !twoComp then (if negative then -(Pow2(n) as int) < v <= 0 else 0 <= v < Pow2(n))
    else if negative then -(Pow2(n) as int) <= v < 0
    else if n == 0 then v == 0
    else -(Pow2(n - 1) as int) <= v < Pow2(n - 1)
  }

  // What Pack stores reads back as the number exactly when the number is one of them.
  lemma ReadsBack(v: int, n: nat, twoComp: bool, negative: bool)
    ensures UnpackValue((if twoComp || 0 <= v then v else 0 - v) % Pow2(n), n, twoComp, negative) == v
       <==> Representable(v, n, twoComp, negative)
    ensures Representable(v, n, twoComp, negative) ==> -1 <= PackCode(v, n, twoComp) <= 1
  {
    if 0 < n {
      HalfPower(n);
    }
    DataRange(v, n, twoComp);
    if Representable(v, n, twoComp, negative) {
      if !twoComp {
        SignAndMagnitude(v, n);
      } else if negative {
        KnownNegative(v, n);
      } else if n != 0 {
        SignExtended(v, n);
      }
    }
  }

  lemma DataRange(v: int, n: nat, twoComp: bool)
    ensures 0 <= (if twoComp || 0 <= v then v else 0 - v) % Pow2(n) < Pow2(n)
  {
    ModLess(if twoComp || 0 <= v then v else 0 - v, Pow2(n));
  }

  lemma HalfPower(n: nat)
    requires 0 < n
    ensures Pow2(n) == 2 * Pow2(n - 1)
  {
  }

  // A number packed, and unpacked in the same format, is back exactly when it is representable.
  method PackAndUnpack(m: Memory, sign0: int, ds: nat, n0: nat, f: Format, buf: array<Byte>, twoComp: bool, negative: bool)
    returns (code: int, zo: nat, zn: nat, sign: int)
    requires ValidFormat(f) && buf.Length == Bufsize(f) && ds + n0 <= |m.cells| && (sign0 == 1 || sign0 == -1)
    modifies buf, m
    ensures zo + zn <= |m.cells|
    ensures var v := sign0 * V(old(m.cells), ds, n0);
            && (ValueOf(m.cells, zo, zn, sign) == v <==> Representable(v, DataBits(f), twoComp, negative))
            && (Representable(v, DataBits(f), twoComp, negative) ==> -1 <= code <= 1)
  {
    ghost var a := V(m.cells, ds, n0);
    ghost var v := sign0 * a;
    Magnitude(sign0, a, v);
    ReadsBack(v, DataBits(f), twoComp, negative);
    hide V, Data, UnpackValue, Representable, PackCode, ValueOf, Clean;
    code := Pack(m, sign0, ds, n0, f, buf, twoComp);
    var digits := NumBdigits(f);
    zn := digits.0;
    zo := m.Alloc(zn);
    sign := Unpack(m, f, buf, zo, zn, digits.1, twoComp, negative);
  }

  lemma Magnitude(sign: int, a: nat, v: int)
    requires v == sign * a && (sign == 1 || sign == -1)
    ensures a == if 0 <= v then v else 0 - v
  {
  }
}
