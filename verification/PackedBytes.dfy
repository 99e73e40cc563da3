/**
 Which bits of a number each byte of a packed buffer holds, counted from the start of
 the buffer, for either order of words and either order of bytes.
 */
module PackedBytes {
  import opened Digits
  import opened Kernel
  import opened Packing

  // The n bits of x from bit a on
  function BitsFrom(x: nat, a: nat, n: nat): (b: nat)
    ensures b < Pow2(n)
  {
    ModLess(x, Pow2(a));
    ModLess(x / Pow2(a), Pow2(n));
    x / Pow2(a) % Pow2(n)
  }

  // Bits of the part above bit a, and of the part below
  lemma BitsAbove(lo: nat, hi: nat, a: nat, e: nat, n: nat)
    requires lo < Pow2(a)
    ensures 0 <= hi * Pow2(a) && BitsFrom(lo + hi * Pow2(a), a + e, n) == BitsFrom(hi, e, n)
  {
    LeMul(Pow2(a), 0, hi);
    Pow2Add(a, e);
    QuotientAbove(lo, hi, Pow2(a), Pow2(e));
  }

  lemma QuotientAbove(lo: nat, hi: nat, p: nat, q: nat)
    requires lo < p && 0 < q
    ensures 0 < p * q && (lo + hi * p) / (p * q) == hi / q
  {
    LeMul(p, 1, q);
    DivMod(hi, q);
    AboveArith(lo, hi, p, q, hi / q, hi % q);
    DivUnique(lo + hi * p, p * q, hi / q, p * (hi % q) + lo);
  }

  lemma AboveArith(lo: nat, hi: nat, p: nat, q: nat, h: int, r: int)
    requires lo < p && hi == q * h + r && 0 <= r < q
    ensures lo + hi * p == (p * q) * h + (p * r + lo) && 0 <= p * r + lo < p * q
  {
    assert hi * p == (p * q) * h + p * r;
    LeMul(p, r + 1, q);
    LeMul(p, 0, r);
  }

  lemma BitsBelow(lo: nat, hi: nat, a: nat, b: nat, n: nat)
    requires lo < Pow2(a) && b + n <= a
    ensures 0 <= hi * Pow2(a) && BitsFrom(lo + hi * Pow2(a), b, n) == BitsFrom(lo, b, n)
  {
    LeMul(Pow2(a), 0, hi);
    Pow2Add(b, n);
    Pow2Add(b + n, a - b - n);
    BitsOfLow(lo, hi, Pow2(b), Pow2(n), Pow2(a - b - n));
  }

  lemma BitsOfLow(lo: nat, hi: nat, p: nat, q: nat, g: nat)
    requires 0 < p && 0 < q
    ensures (lo + hi * ((p * q) * g)) / p % q == lo / p % q
  {
    DivMod(lo, p);
    BelowArith(lo, hi, p, q, g, lo / p, lo % p);
    DivUnique(lo + hi * ((p * q) * g), p, lo / p + hi * (q * g), lo % p);
    SameRest(lo / p, hi * g, q);
    assert hi * (q * g) == q * (hi * g);
  }

  lemma SameRest(l: int, k: int, q: nat)
    requires 0 < q
    ensures (l + q * k) % q == l % q
  {
    DivMod(l, q);
    assert q * (l / q + k) == q * (l / q) + q * k;
    DivUnique(l + q * k, q, l / q + k, l % q);
  }

  lemma BelowArith(lo: int, hi: int, p: int, q: int, g: int, l: int, r: int)
    requires lo == p * l + r
    ensures lo + hi * ((p * q) * g) == p * (l + hi * (q * g)) + r
  {
    assert hi * ((p * q) * g) == p * (hi * (q * g));
  }

  // How many bits of data byte j of a word holds
  function DataIn(f: Format, j: nat): (d: nat)
    requires ValidFormat(f)
    ensures d <= 8
  {
    if Wordbits(f) <= 8 * j then 0 else Min(8, Wordbits(f) - 8 * j)
  }

  lemma {:induction false} CellBits(f: Format, s: seq<Byte>, base: nat, n: nat, j: nat)
    requires ValidFormat(f) && base + f.wordsize <= |s| && j < n <= Cells(f)
    ensures BitsFrom(WordUpTo(f, s, base, n), 8 * j, DataIn(f, j)) == Cell(f, s, base, j)
    ensures Cell(f, s, base, j) < Pow2(DataIn(f, j))
    decreases n
  {
    Pow256();
    ModLess(s[base + ByteAt(f, j)], Pow2(Partialbits(f)));
    var c := Cell(f, s, base, n - 1);
    LowerCells(f, s, base, n - 1);
    if j == n - 1 {
      BitsAbove(WordUpTo(f, s, base, n - 1), c, 8 * j, 0, DataIn(f, j));
      assert Pow2(0) == 1;
      WholeCell(c, DataIn(f, j));
    } else {
      CellBits(f, s, base, n - 1, j);
      BitsBelow(WordUpTo(f, s, base, n - 1), c, 8 * (n - 1), 8 * j, DataIn(f, j));
    }
  }

  lemma WholeCell(c: nat, d: nat)
    requires c < Pow2(d)
    ensures BitsFrom(c, 0, d) == c
  {
    assert Pow2(0) == 1;
    DivUnique(c, 1, c, 0);
    DivUnique(c, Pow2(d), 0, c);
  }

  lemma LowerCells(f: Format, s: seq<Byte>, base: nat, n: nat)
    requires ValidFormat(f) && base + f.wordsize <= |s| && n < Cells(f)
    ensures WordUpTo(f, s, base, n) < Pow2(8 * n)
  {
    WordUpToBound(f, s, base, n);
  }

  lemma {:induction false} WordBits(f: Format, s: seq<Byte>, n: nat, k: nat, e: nat, d: nat)
    requires ValidFormat(f) && Bufsize(f) == |s| && k < n <= f.numwords && e + d <= Wordbits(f)
    requires WordAt(f, k) + f.wordsize <= |s|
    ensures 0 <= Wordbits(f) * k
    ensures BitsFrom(Data(f, s, n), Wordbits(f) * k + e, d) == BitsFrom(Word(f, s, WordAt(f, k)), e, d)
    decreases n
  {
    LeMul(Wordbits(f), 0, k);
    LeMul(Wordbits(f), 0, n - 1);
    WordInside(f, n - 1);
    DataBound(f, s, n - 1);
    var lo, w := Data(f, s, n - 1), Word(f, s, WordAt(f, n - 1));
    assert Data(f, s, n) == lo + w * Pow2(Wordbits(f) * (n - 1));
    hide Data, Word, WordAt, Bufsize;
    if k == n - 1 {
      BitsAbove(lo, w, Wordbits(f) * k, e, d);
    } else {
      LeMul(Wordbits(f), k + 1, n - 1);
      assert Wordbits(f) * (k + 1) == Wordbits(f) * k + Wordbits(f);
      BitsBelow(lo, w, Wordbits(f) * (n - 1), Wordbits(f) * k + e, d);
      WordBits(f, s, n - 1, k, e, d);
    }
  }

  // ---- where a byte is in the buffer ----

  lemma Places(f: Format, i: nat)
    requires ValidFormat(f) && i < f.numwords * f.wordsize
    ensures 0 <= i / f.wordsize < f.numwords && 0 <= i % f.wordsize < f.wordsize
    ensures i == (i / f.wordsize) * f.wordsize + i % f.wordsize
  {
    DivMod(i, f.wordsize);
    ModLess(i, f.wordsize);
    QuotientBelow(i, f.wordsize, f.numwords);
  }

  lemma Located(f: Format, s: seq<Byte>, i: nat, k: nat, j: nat)
    requires ValidFormat(f) && |s| == Bufsize(f) && i < |s| && k < f.numwords && j < f.wordsize
    requires i == WordAt(f, k) + ByteAt(f, j)
    ensures WordAt(f, k) + f.wordsize <= |s| && DataIn(f, j) <= 8
    ensures 0 <= Wordbits(f) * k
    ensures BitsFrom(Data(f, s, f.numwords), Wordbits(f) * k + 8 * j, DataIn(f, j)) == s[i] % Pow2(DataIn(f, j))
    ensures Clean(f, s, f.numwords) ==> s[i] % Pow2(DataIn(f, j)) == s[i]
  {
    WordInside(f, k);
    Pow256();
    LeMul(Wordbits(f), 0, k);
    var base, d := WordAt(f, k), DataIn(f, j);
    if d == 0 {
      NoBits(Data(f, s, f.numwords), Wordbits(f) * k + 8 * j, s[i]);
    } else {
      WordBits(f, s, f.numwords, k, 8 * j, d);
      CellBits(f, s, base, Cells(f), j);
      SmallRest(s[i]);
    }
    if Clean(f, s, f.numwords) {
      CleanByte(f, s, base, j);
    }
  }

  lemma NoBits(x: nat, a: nat, b: nat)
    ensures BitsFrom(x, a, 0) == b % Pow2(0)
  {
    assert Pow2(0) == 1;
  }

  lemma SmallRest(b: nat)
    requires b < 256
    ensures b % 256 == b
  {
  }

  // The bits of a clean word's bytes that hold no data are zero.
  lemma CleanByte(f: Format, s: seq<Byte>, base: nat, j: nat)
    requires ValidFormat(f) && base + f.wordsize <= |s| && j < f.wordsize && CleanWord(f, s, base)
    ensures s[base + ByteAt(f, j)] % Pow2(DataIn(f, j)) == s[base + ByteAt(f, j)]
  {
    Pow256();
    var b, d := s[base + ByteAt(f, j)], DataIn(f, j);
    assert Pow2(0) == 1;
    assert b < Pow2(d);
    DivUnique(b, Pow2(d), 0, b);
  }

  // Byte i belongs to word i / wordsize, counted from either end, and is byte i % wordsize of it, again
  // counted from either end.  It holds the bits at that place, eight of them but for the top byte of a word
  // with nails; bytes above that hold none.
  lemma ByteHolds(f: Format, s: seq<Byte>, i: nat)
    requires ValidFormat(f) && |s| == f.numwords * f.wordsize && i < |s|
    ensures var k := if f.mswordFirst then f.numwords - 1 - i / f.wordsize else i / f.wordsize;
            var j := if f.msbyteFirst then f.wordsize - 1 - i % f.wordsize else i % f.wordsize;
            var bits := 8 * f.wordsize - f.nails;
            var d := if bits <= 8 * j then 0 else if bits < 8 * j + 8 then bits - 8 * j else 8;
            && 0 <= k && 0 <= j && 0 <= bits * k && 0 <= d
            && Data(f, s, f.numwords) / Pow2(bits * k + 8 * j) % Pow2(d) == s[i] % Pow2(d)
            && (Clean(f, s, f.numwords) ==> s[i] % Pow2(d) == s[i])
  {
    Places(f, i);
    var k := if f.mswordFirst then f.numwords - 1 - i / f.wordsize else i / f.wordsize;
    var j := if f.msbyteFirst then f.wordsize - 1 - i % f.wordsize else i % f.wordsize;
    assert i == WordAt(f, k) + ByteAt(f, j);
    Located(f, s, i, k, j);
    hide Data, Clean, WordAt, ByteAt, Pow2;
  }

  // Without nails, least significant word and byte first: little-endian
  lemma LittleEndian(f: Format, s: seq<Byte>, i: nat)
    requires ValidFormat(f) && |s| == f.numwords * f.wordsize && i < |s|
    requires f.nails == 0 && !f.mswordFirst && !f.msbyteFirst
    ensures s[i] == Data(f, s, f.numwords) / Pow2(8 * i) % 256
  {
    Places(f, i);
    ByteHolds(f, s, i);
    Pow256();
    SmallRest(s[i]);
    FromTheStart(f.wordsize, i / f.wordsize, i % f.wordsize);
  }

  lemma FromTheStart(w: int, q: int, r: int)
    ensures 8 * w * q + 8 * r == 8 * (q * w + r)
  {
  }

  // The two mixed orders: words from one end, and bytes in them from the other
  lemma MixedEndian(f: Format, s: seq<Byte>, i: nat)
    requires ValidFormat(f) && |s| == f.numwords * f.wordsize && i < |s|
    requires f.nails == 0 && f.mswordFirst != f.msbyteFirst
    ensures 0 <= (i / f.wordsize) * f.wordsize <= i && 0 <= i % f.wordsize < f.wordsize
    ensures f.msbyteFirst ==>
              s[i] == Data(f, s, f.numwords) / Pow2(8 * ((i / f.wordsize) * f.wordsize + (f.wordsize - 1 - i % f.wordsize))) % 256
    ensures f.mswordFirst ==>
              && 0 <= (f.numwords - 1 - i / f.wordsize) * f.wordsize
              && s[i] == Data(f, s, f.numwords)
                         / Pow2(8 * ((f.numwords - 1 - i / f.wordsize) * f.wordsize + i % f.wordsize)) % 256
  {
    Places(f, i);
    ByteHolds(f, s, i);
    Pow256();
    SmallRest(s[i]);
    LeMul(f.wordsize, 0, i / f.wordsize);
    LeMul(f.wordsize, 0, f.numwords - 1 - i / f.wordsize);
    FromTheStart(f.wordsize, i / f.wordsize, f.wordsize - 1 - i % f.wordsize);
    FromTheStart(f.wordsize, f.numwords - 1 - i / f.wordsize, i % f.wordsize);
  }

  // Most significant word and byte first: big-endian
  lemma BigEndian(f: Format, s: seq<Byte>, i: nat)
    requires ValidFormat(f) && |s| == f.numwords * f.wordsize && i < |s|
    requires f.nails == 0 && f.mswordFirst && f.msbyteFirst
    ensures s[i] == Data(f, s, f.numwords) / Pow2(8 * (|s| - 1 - i)) % 256
  {
    Places(f, i);
    ByteHolds(f, s, i);
    Pow256();
    SmallRest(s[i]);
    FromTheEnd(f.numwords, f.wordsize, i / f.wordsize, i % f.wordsize);
  }

  lemma FromTheEnd(n: int, w: int, q: int, r: int)
    ensures 8 * w * (n - 1 - q) + 8 * (w - 1 - r) == 8 * (n * w - 1 - (q * w + r))
  {
    assert w * (n - 1 - q) == n * w - w - q * w;
  }
}
