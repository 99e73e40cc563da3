/**
 The layout of packed integers in bignum.c: words of bytes, in either order of words and
 either order of bytes, with padding bits ("nails") at the top of each word; and the
 number such a buffer holds.
 */
module Packing {
  import opened Digits
  import opened Kernel

  type Byte = b: nat | b < 256 witness 0

  // numwords words of wordsize bytes with `nails` padding bits each
  datatype Format = Format(numwords: nat, wordsize: nat, nails: nat, mswordFirst: bool, msbyteFirst: bool)

  // validate_integer_pack_format
  predicate ValidFormat(f: Format)
  {
    0 < f.wordsize && f.nails / 8 < f.wordsize
  }

  // word_num_partialbits
  function Partialbits(f: Format): (p: nat)
    ensures p < 8
  {
    if f.nails % 8 == 0 then 0 else 8 - f.nails % 8
  }

  // word_num_fullbytes
  function Fullbytes(f: Format): nat
    requires ValidFormat(f)
  {
    f.wordsize - f.nails / 8 - if Partialbits(f) != 0 then 1 else 0
  }

  // Data bits in a word
  function Wordbits(f: Format): (d: nat)
    requires ValidFormat(f)
    ensures d == 8 * Fullbytes(f) + Partialbits(f) && 0 < d
  {
    8 * f.wordsize - f.nails
  }

  // Bytes of a word that hold data
  function Cells(f: Format): (n: nat)
    requires ValidFormat(f)
    ensures n <= f.wordsize
  {
    Fullbytes(f) + if Partialbits(f) != 0 then 1 else 0
  }

  function Bufsize(f: Format): nat
  {
    f.numwords * f.wordsize
  }

  // The place of the k-th least significant word
  function WordPlace(f: Format, k: nat): (p: nat)
    requires k < f.numwords
    ensures p < f.numwords
  {
    if f.mswordFirst then f.numwords - 1 - k else k
  }

  // Where it starts
  function WordAt(f: Format, k: nat): nat
    requires k < f.numwords
  {
    WordPlace(f, k) * f.wordsize
  }

  // Where the j-th least significant byte of a word is in it
  function ByteAt(f: Format, j: nat): (p: nat)
    requires j < f.wordsize
    ensures p < f.wordsize
  {
    if f.msbyteFirst then f.wordsize - 1 - j else j
  }

  lemma WordInside(f: Format, k: nat)
    requires k < f.numwords
    ensures WordAt(f, k) + f.wordsize <= Bufsize(f)
  {
    LeMul(f.wordsize, WordPlace(f, k) + 1, f.numwords);
  }

  lemma WordsApart(f: Format, j: nat, k: nat)
    requires j < k < f.numwords
    ensures WordAt(f, j) + f.wordsize <= WordAt(f, k) || WordAt(f, k) + f.wordsize <= WordAt(f, j)
  {
    var p, q := WordPlace(f, j), WordPlace(f, k);
    if p < q {
      LeMul(f.wordsize, p + 1, q);
    } else {
      LeMul(f.wordsize, q + 1, p);
    }
  }

  // ---- the number in a buffer ----

  // The data in byte j of the word at `base`
  function Cell(f: Format, s: seq<Byte>, base: nat, j: nat): nat
    requires ValidFormat(f) && base + f.wordsize <= |s| && j < Cells(f)
  {
    if j < Fullbytes(f) then s[base + ByteAt(f, j)] else s[base + ByteAt(f, j)] % Pow2(Partialbits(f))
  }

  function WordUpTo(f: Format, s: seq<Byte>, base: nat, j: nat): nat
    requires ValidFormat(f) && base + f.wordsize <= |s| && j <= Cells(f)
  {
    if j == 0 then 0 else WordUpTo(f, s, base, j - 1) + Cell(f, s, base, j - 1) * Pow2(8 * (j - 1))
  }

  function Word(f: Format, s: seq<Byte>, base: nat): nat
    requires ValidFormat(f) && base + f.wordsize <= |s|
  {
    WordUpTo(f, s, base, Cells(f))
  }

  // The number in the k least significant words
  function Data(f: Format, s: seq<Byte>, k: nat): nat
    requires ValidFormat(f) && Bufsize(f) == |s| && k <= f.numwords
  {
    if k == 0 then 0 else Data(f, s, k - 1) + PlacedWord(f, s, k - 1)
  }

  // Word k at its place
  function PlacedWord(f: Format, s: seq<Byte>, k: nat): nat
    requires ValidFormat(f) && Bufsize(f) == |s| && k < f.numwords
  {
    WordInside(f, k);
    Weighed(Word(f, s, WordAt(f, k)), WordWeight(f, k))
  }

  function Weighed(w: nat, p: nat): nat
  {
    LeMul(p, 0, w);
    w * p
  }

  function WordWeight(f: Format, k: nat): (p: nat)
    requires ValidFormat(f)
    ensures 0 < p
  {
    Pow2(Wordbits(f) * k)
  }

  // The padding of the word at `base` is zero.
  ghost predicate CleanWord(f: Format, s: seq<Byte>, base: nat)
    requires ValidFormat(f) && base + f.wordsize <= |s|
  {
    && (forall j {:trigger ByteAt(f, j)} :: Cells(f) <= j < f.wordsize ==> s[base + ByteAt(f, j)] == 0)
    && (Partialbits(f) != 0 ==> s[base + ByteAt(f, Fullbytes(f))] < Pow2(Partialbits(f)))
  }

  ghost predicate Clean(f: Format, s: seq<Byte>, k: nat)
    requires ValidFormat(f) && Bufsize(f) == |s| && k <= f.numwords
  {
    forall i {:trigger WordAt(f, i)} :: 0 <= i < k ==> WordAt(f, i) + f.wordsize <= |s| && CleanWord(f, s, WordAt(f, i))
  }

  // ---- only the bytes of a word matter to it ----

  ghost predicate SameAt(s: seq<Byte>, t: seq<Byte>, base: nat, n: nat)
  {
    |s| == |t| && base + n <= |s| && s[base..base + n] == t[base..base + n]
  }

  lemma SameByte(s: seq<Byte>, t: seq<Byte>, base: nat, n: nat, i: nat)
    requires SameAt(s, t, base, n) && i < n
    ensures s[base + i] == t[base + i]
  {
    assert s[base..base + n][i] == t[base..base + n][i];
  }

  lemma SameWord(f: Format, s: seq<Byte>, t: seq<Byte>, base: nat, j: nat)
    requires ValidFormat(f) && SameAt(s, t, base, f.wordsize) && j <= Cells(f)
    ensures WordUpTo(f, t, base, j) == WordUpTo(f, s, base, j)
    ensures CleanWord(f, t, base) == CleanWord(f, s, base)
  {
    assert |s| == |t|;
    hide SameAt, WordUpTo, ByteAt, Pow2;
    SameUpTo(f, s, t, base, j);
    forall i: nat | i < f.wordsize ensures s[base + ByteAt(f, i)] == t[base + ByteAt(f, i)] {
      SameByte(s, t, base, f.wordsize, ByteAt(f, i));
    }
  }

  lemma {:induction false} SameUpTo(f: Format, s: seq<Byte>, t: seq<Byte>, base: nat, j: nat)
    requires ValidFormat(f) && SameAt(s, t, base, f.wordsize) && j <= Cells(f)
    ensures WordUpTo(f, t, base, j) == WordUpTo(f, s, base, j)
  {
    if j != 0 {
      SameUpTo(f, s, t, base, j - 1);
      SameByte(s, t, base, f.wordsize, ByteAt(f, j - 1));
    }
  }

  // A change in word k leaves the words below it as they are.
  lemma {:induction false} SameData(f: Format, s: seq<Byte>, t: seq<Byte>, k: nat, w: nat)
    requires ValidFormat(f) && Bufsize(f) == |s| == |t| && k <= w < f.numwords
    requires forall i :: 0 <= i < |s| && !(WordAt(f, w) <= i < WordAt(f, w) + f.wordsize) ==> t[i] == s[i]
    ensures Data(f, t, k) == Data(f, s, k) && Clean(f, t, k) == Clean(f, s, k)
  {
    if k != 0 {
      hide WordAt, WordUpTo, WordWeight, CleanWord, Clean, Bufsize;
      SameData(f, s, t, k - 1, w);
      WordInside(f, k - 1);
      WordsApart(f, k - 1, w);
      var base := WordAt(f, k - 1);
      assert s[base..base + f.wordsize] == t[base..base + f.wordsize];
      SameWord(f, s, t, base, Cells(f));
      CleanSplit(f, s, k - 1);
      CleanSplit(f, t, k - 1);
    } else {
      hide WordAt, CleanWord;
    }
  }

  lemma CleanSplit(f: Format, s: seq<Byte>, k: nat)
    requires ValidFormat(f) && Bufsize(f) == |s| && k < f.numwords && WordAt(f, k) + f.wordsize <= |s|
    ensures Clean(f, s, k + 1) <==> Clean(f, s, k) && CleanWord(f, s, WordAt(f, k))
  {
  }

  // ---- bounds ----

  lemma {:induction false} WordUpToBound(f: Format, s: seq<Byte>, base: nat, j: nat)
    requires ValidFormat(f) && base + f.wordsize <= |s| && j <= Fullbytes(f)
    ensures WordUpTo(f, s, base, j) < Pow2(8 * j)
  {
    if j != 0 {
      WordUpToBound(f, s, base, j - 1);
      Pow2Add(8 * (j - 1), 8);
      Pow256();
      BoundArith(WordUpTo(f, s, base, j - 1), Cell(f, s, base, j - 1), Pow2(8 * (j - 1)), 256);
    }
  }

  lemma Pow256()
    ensures Pow2(8) == 256
  {
    assert Pow2(4) == 16;
    Pow2Add(4, 4);
  }

  lemma BoundArith(v: nat, c: nat, p: nat, q: nat)
    requires v < p && c < q
    ensures v + c * p < p * q
  {
    LeMul(p, c + 1, q);
  }

  lemma WordBound(f: Format, s: seq<Byte>, base: nat)
    requires ValidFormat(f) && base + f.wordsize <= |s|
    ensures Word(f, s, base) < Pow2(Wordbits(f))
  {
    var full := Fullbytes(f);
    WordUpToBound(f, s, base, full);
    if Partialbits(f) != 0 {
      Pow2Add(8 * full, Partialbits(f));
      DivMod(s[base + ByteAt(f, full)], Pow2(Partialbits(f)));
      BoundArith(WordUpTo(f, s, base, full), Cell(f, s, base, full), Pow2(8 * full), Pow2(Partialbits(f)));
    }
  }

  lemma {:induction false} DataBound(f: Format, s: seq<Byte>, k: nat)
    requires ValidFormat(f) && Bufsize(f) == |s| && k <= f.numwords
    ensures Data(f, s, k) < WordWeight(f, k)
  {
    if k != 0 {
      DataBound(f, s, k - 1);
      WordInside(f, k - 1);
      WordBound(f, s, WordAt(f, k - 1));
      NextWord(f, k - 1);
      hide Word, WordWeight, WordAt;
      BoundArith(Data(f, s, k - 1), Word(f, s, WordAt(f, k - 1)), WordWeight(f, k - 1), Pow2(Wordbits(f)));
    }
  }

  lemma NextWord(f: Format, k: nat)
    requires ValidFormat(f)
    ensures WordWeight(f, k + 1) == WordWeight(f, k) * Pow2(Wordbits(f)) && WordWeight(f, 0) == 1
  {
    assert Wordbits(f) * (k + 1) == Wordbits(f) * k + Wordbits(f);
    Pow2Add(Wordbits(f) * k, Wordbits(f));
    assert Wordbits(f) * 0 == 0;
  }

  // ---- taking a number apart ----

  lemma ModSplit(x: nat, p: nat, q: nat)
    requires 0 < p && 0 < q
    ensures x % (p * q) == x % p + (x / p % q) * p
    ensures x / (p * q) == x / p / q
  {
    DivMod(x, p);
    DivMod(x / p, q);
    var a, b, c := x / p / q, x / p % q, x % p;
    assert p * (q * a + b) == (p * q) * a + p * b;
    LeMul(p, b + 1, q);
    LeMul(p, 0, b);
    DivUnique(x, p * q, a, b * p + c);
  }
}
