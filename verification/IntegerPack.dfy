/**
 The generic branch of bary_pack: a number is written to a buffer of words bit by bit,
 complemented in place if it is negative and two's complement is asked for, and its
 sign and overflow class is returned.
 */
module IntegerPack {
  import opened Digits
  import opened Kernel
  import opened MulKernel
  import opened Division
  import opened Packing
  import opened PackedBytes

  // ---- the bits still to be written ----

  // The double digit in hand, and the digits from dp to de above it
  ghost function Rest(s: seq<Digit>, dp: nat, de: nat, dd: nat, nb: nat): nat
    requires dp <= de <= |s|
  {
    dd + Pow2(nb) * V(s, dp, de - dp)
  }

  ghost predicate Streams(s: seq<Digit>, dp: nat, de: nat, dd: nat, nb: nat)
  {
    dp <= de <= |s| && nb <= 2 * W && dd < Pow2(nb)
  }

  lemma VFirst(s: seq<Digit>, o: nat, n: nat)
    requires 0 < n && o + n <= |s|
    ensures V(s, o, n) == s[o] + B * V(s, o + 1, n - 1)
  {
    VJoin(s, o, 1, o + 1, n - 1, n);
    VOne(s, o);
    Pow1();
  }

  // integer_pack_fill_dd
  method FillDd(m: Memory, dp0: nat, de: nat, dd0: nat, nb0: nat) returns (dp: nat, dd: nat, nb: nat)
    requires Streams(m.cells, dp0, de, dd0, nb0)
    ensures Streams(m.cells, dp, de, dd, nb) && W <= nb && dp0 <= dp
    ensures Rest(m.cells, dp, de, dd, nb) == Rest(m.cells, dp0, de, dd0, nb0)
    ensures dp < de ==> W <= nb
    ensures dp == dp0 < de ==> W < nb
  {
    dp, dd, nb := dp0, dd0, nb0;
    hide V, Pow2, Rest;
    if dp < de && W <= 2 * W - nb {
      OneDigitMore(m.cells, dp, de, dd, nb);
      dd := dd + m.cells[dp] * Pow2(nb);
      dp := dp + 1;
      nb := nb + W;
    } else if dp == de {
      // higher bits are zeros without end
      NoMoreDigits(m.cells, dp, dd, nb);
      nb := 2 * W;
    }
  }

  lemma OneDigitMore(s: seq<Digit>, dp: nat, de: nat, dd: nat, nb: nat)
    requires dp < de <= |s| && dd < Pow2(nb)
    ensures Rest(s, dp + 1, de, dd + s[dp] * Pow2(nb), nb + W) == Rest(s, dp, de, dd, nb)
    ensures dd + s[dp] * Pow2(nb) < Pow2(nb + W)
  {
    VFirst(s, dp, de - dp);
    Pow2Add(nb, W);
    FillArith(dd, Pow2(nb), s[dp], V(s, dp + 1, de - dp - 1));
  }

  lemma NoMoreDigits(s: seq<Digit>, dp: nat, dd: nat, nb: nat)
    requires dp <= |s| && dd < Pow2(nb) && nb <= 2 * W
    ensures Rest(s, dp, dp, dd, 2 * W) == Rest(s, dp, dp, dd, nb) && dd < Pow2(2 * W)
  {
    Pow2Mono(nb, 2 * W);
    assert V(s, dp, 0) == 0;
  }

  lemma FillArith(dd: nat, p: nat, d: nat, v: nat)
    requires dd < p && d < B
    ensures dd + p * (d + B * v) == dd + d * p + (p * B) * v
    ensures dd + d * p < p * B
  {
    LeMul(p, d + 1, B);
    assert p * (d + B * v) == d * p + (p * B) * v;
  }

  // integer_pack_take_lowbits
  method TakeLowbits(n: nat, dd0: nat, nb0: nat, ghost v: nat) returns (bits: nat, dd: nat, nb: nat)
    requires n <= nb0 && dd0 < Pow2(nb0)
    ensures nb == nb0 - n && dd < Pow2(nb) && bits < Pow2(n)
    ensures bits == (dd0 + Pow2(nb0) * v) % Pow2(n)
    ensures dd + Pow2(nb) * v == (dd0 + Pow2(nb0) * v) / Pow2(n)
  {
    Pow2Add(n, nb0 - n);
    TakeArith(dd0, Pow2(n), Pow2(nb0 - n), v);
    bits := dd0 % Pow2(n);
    dd := dd0 / Pow2(n);
    nb := nb0 - n;
  }

  lemma TakeArith(dd: nat, p: nat, q: nat, v: nat)
    requires dd < p * q && 0 < p && 0 < q
    ensures (dd + (p * q) * v) % p == dd % p
    ensures (dd + (p * q) * v) / p == dd / p + q * v
    ensures dd / p < q
  {
    DivMod(dd, p);
    assert (p * q) * v == p * (q * v);
    assert p * (dd / p + q * v) == p * (dd / p) + p * (q * v);
    DivUnique(dd + (p * q) * v, p, dd / p + q * v, dd % p);
    if q <= dd / p {
      LeMul(p, q, dd / p);
    }
  }

  // FILL_DD and TAKE_LOWBITS
  method Take(m: Memory, dp0: nat, de: nat, dd0: nat, nb0: nat, n: nat) returns (bits: nat, dp: nat, dd: nat, nb: nat)
    requires Streams(m.cells, dp0, de, dd0, nb0) && n <= 8
    ensures Streams(m.cells, dp, de, dd, nb) && dp0 <= dp && bits < Pow2(n)
    ensures bits == Rest(m.cells, dp0, de, dd0, nb0) % Pow2(n)
    ensures Rest(m.cells, dp, de, dd, nb) == Rest(m.cells, dp0, de, dd0, nb0) / Pow2(n)
  {
    dp, dd, nb := FillDd(m, dp0, de, dd0, nb0);
    bits, dd, nb := TakeLowbits(n, dd, nb, V(m.cells, dp, de - dp));
  }

  // ---- one word ----

  // A change outside the bytes of a word's first j cells
  lemma {:induction false} UpToSame(f: Format, s: seq<Byte>, t: seq<Byte>, base: nat, j: nat)
    requires ValidFormat(f) && |s| == |t| && base + f.wordsize <= |s| && j <= Cells(f)
    requires forall i {:trigger ByteAt(f, i)} :: 0 <= i < j ==> t[base + ByteAt(f, i)] == s[base + ByteAt(f, i)]
    ensures WordUpTo(f, t, base, j) == WordUpTo(f, s, base, j)
  {
    if j != 0 {
      UpToSame(f, s, t, base, j - 1);
      assert t[base + ByteAt(f, j - 1)] == s[base + ByteAt(f, j - 1)];
    }
  }

  // Only the word at `base` may differ.
  ghost predicate OnlyWord(f: Format, s: seq<Byte>, t: seq<Byte>, base: nat)
  {
    |t| == |s| && forall i :: 0 <= i < |s| && !(base <= i < base + f.wordsize) ==> t[i] == s[i]
  }

  // Byte j of a word
  method SetByte(f: Format, buf: array<Byte>, base: nat, j: nat, b: Byte)
    requires ValidFormat(f) && base + f.wordsize <= buf.Length && j < f.wordsize
    modifies buf
    ensures OnlyWord(f, old(buf[..]), buf[..], base)
    ensures buf[base + ByteAt(f, j)] == b
    ensures forall i {:trigger ByteAt(f, i)} :: 0 <= i < f.wordsize && i != j ==>
              buf[base + ByteAt(f, i)] == old(buf[base + ByteAt(f, i)])
    ensures j <= Cells(f) ==> WordUpTo(f, buf[..], base, j) == WordUpTo(f, old(buf[..]), base, j)
    ensures Cells(f) <= j ==> Word(f, buf[..], base) == Word(f, old(buf[..]), base)
  {
    ghost var s := buf[..];
    buf[base + ByteAt(f, j)] := b;
    UpToSame(f, s, buf[..], base, if j <= Cells(f) then j else Cells(f));
    if Cells(f) <= j {
      UpToSame(f, s, buf[..], base, Cells(f));
    }
  }

  // The bytes of a word that are data through and through
  method PackFullbytes(m: Memory, f: Format, buf: array<Byte>, base: nat, dp0: nat, de: nat, dd0: nat, nb0: nat)
    returns (dp: nat, dd: nat, nb: nat)
    requires ValidFormat(f) && base + f.wordsize <= buf.Length && Streams(m.cells, dp0, de, dd0, nb0)
    modifies buf
    ensures Streams(m.cells, dp, de, dd, nb) && dp0 <= dp && OnlyWord(f, old(buf[..]), buf[..], base)
    ensures WordUpTo(f, buf[..], base, Fullbytes(f)) == Rest(m.cells, dp0, de, dd0, nb0) % Pow2(8 * Fullbytes(f))
    ensures Rest(m.cells, dp, de, dd, nb) == Rest(m.cells, dp0, de, dd0, nb0) / Pow2(8 * Fullbytes(f))
  {
    ghost var a, s := Rest(m.cells, dp0, de, dd0, nb0), buf[..];
    var full, index := Fullbytes(f), 0;
    dp, dd, nb := dp0, dd0, nb0;
    ModOne(a);
    hide V, Pow2, Rest, Cell;
    while index < full
      invariant index <= full && Streams(m.cells, dp, de, dd, nb) && dp0 <= dp && OnlyWord(f, s, buf[..], base)
      invariant WordUpTo(f, buf[..], base, index) == a % Pow2(8 * index)
      invariant Rest(m.cells, dp, de, dd, nb) == a / Pow2(8 * index)
    {
      var bits;
      bits, dp, dd, nb := Take(m, dp, de, dd, nb, 8);
      Pow256();
      SetByte(f, buf, base, index, bits);
      CellAdded(f, buf[..], base, index, a, bits, 8);
      index := index + 1;
    }
  }

  // The padding bytes of a word
  method PadWord(f: Format, buf: array<Byte>, base: nat)
    requires ValidFormat(f) && base + f.wordsize <= buf.Length
    requires Partialbits(f) != 0 ==> buf[base + ByteAt(f, Fullbytes(f))] < Pow2(Partialbits(f))
    modifies buf
    ensures OnlyWord(f, old(buf[..]), buf[..], base) && CleanWord(f, buf[..], base)
    ensures Word(f, buf[..], base) == Word(f, old(buf[..]), base)
  {
    ghost var s := buf[..];
    var index := Cells(f);
    hide Word, Pow2;
    while index < f.wordsize
      invariant Cells(f) <= index <= f.wordsize && OnlyWord(f, s, buf[..], base)
      invariant Word(f, buf[..], base) == Word(f, s, base)
      invariant forall j {:trigger ByteAt(f, j)} :: Cells(f) <= j < index ==> buf[base + ByteAt(f, j)] == 0
      invariant Partialbits(f) != 0 ==> buf[base + ByteAt(f, Fullbytes(f))] < Pow2(Partialbits(f))
    {
      SetByte(f, buf, base, index, 0);
      index := index + 1;
    }
  }

  // The loops over the bytes of one word
  method PackWord(m: Memory, f: Format, buf: array<Byte>, base: nat, dp0: nat, de: nat, dd0: nat, nb0: nat)
    returns (dp: nat, dd: nat, nb: nat)
    requires ValidFormat(f) && base + f.wordsize <= buf.Length && Streams(m.cells, dp0, de, dd0, nb0)
    modifies buf
    ensures Streams(m.cells, dp, de, dd, nb) && dp0 <= dp && OnlyWord(f, old(buf[..]), buf[..], base)
    ensures Word(f, buf[..], base) == Rest(m.cells, dp0, de, dd0, nb0) % Pow2(Wordbits(f))
    ensures Rest(m.cells, dp, de, dd, nb) == Rest(m.cells, dp0, de, dd0, nb0) / Pow2(Wordbits(f))
    ensures CleanWord(f, buf[..], base)
  {
    ghost var a := Rest(m.cells, dp0, de, dd0, nb0);
    dp, dd, nb := PackFullbytes(m, f, buf, base, dp0, de, dd0, nb0);
    hide V, Pow2, Rest, Cell;
    var partial, index := Partialbits(f), Fullbytes(f);
    if partial != 0 {
      var bits;
      bits, dp, dd, nb := Take(m, dp, de, dd, nb, partial);
      SmallByte(bits, partial);
      SetByte(f, buf, base, index, bits);
      CellAdded(f, buf[..], base, index, a, bits, partial);
      index := index + 1;
    }
    PadWord(f, buf, base);
  }

  lemma ModOne(a: nat)
    ensures a % Pow2(8 * 0) == 0 && a / Pow2(8 * 0) == a
  {
    assert Pow2(0) == 1;
  }

  lemma SmallByte(bits: nat, n: nat)
    requires bits < Pow2(n) && n < 8
    ensures bits < 256
  {
    Pow2Mono(n, 8);
    Pow256();
  }

  // The next w bits of a, in the next cell of the word
  lemma CellAdded(f: Format, s: seq<Byte>, base: nat, j: nat, a: nat, bits: nat, w: nat)
    requires ValidFormat(f) && base + f.wordsize <= |s| && j < Cells(f) && s[base + ByteAt(f, j)] == bits
    requires w == if j < Fullbytes(f) then 8 else Partialbits(f)
    requires WordUpTo(f, s, base, j) == a % Pow2(8 * j) && bits == a / Pow2(8 * j) % Pow2(w)
    ensures WordUpTo(f, s, base, j + 1) == a % Pow2(8 * j + w)
    ensures a / Pow2(8 * j) / Pow2(w) == a / Pow2(8 * j + w)
  {
    var p, q := Pow2(8 * j), Pow2(w);
    Pow2Add(8 * j, w);
    DivMod(a / p, q);
    CellIs(f, s, base, j, bits, w);
    assert WordUpTo(f, s, base, j + 1) == WordUpTo(f, s, base, j) + bits * p;
    hide Pow2, WordUpTo, Cell;
    ModSplit(a, p, q);
  }

  lemma CellIs(f: Format, s: seq<Byte>, base: nat, j: nat, bits: nat, w: nat)
    requires ValidFormat(f) && base + f.wordsize <= |s| && j < Cells(f) && s[base + ByteAt(f, j)] == bits
    requires w == (if j < Fullbytes(f) then 8 else Partialbits(f)) && bits < Pow2(w)
    ensures Cell(f, s, base, j) == bits
  {
    ModSmall(bits, Pow2(w));
  }

  lemma ModMod(a: nat, p: nat)
    requires 0 < p
    ensures a % p % p == a % p
  {
    DivMod(a, p);
    ModSmall(a % p, p);
  }

  // ---- all the words ----

  // The k least significant words hold the low bits of a, and the rest of a is still in the stream.
  ghost predicate Packed(f: Format, s: seq<Byte>, k: nat, a: nat, rest: nat)
    requires ValidFormat(f) && Bufsize(f) == |s| && k <= f.numwords
  {
    Data(f, s, k) == a % WordWeight(f, k) && rest == a / WordWeight(f, k) && Clean(f, s, k)
  }

  lemma PackedNext(f: Format, s: seq<Byte>, t: seq<Byte>, k: nat, a: nat, rest: nat, rest': nat)
    requires ValidFormat(f) && Bufsize(f) == |s| && k < f.numwords && Packed(f, s, k, a, rest)
    requires OnlyWord(f, s, t, WordAt(f, k)) && WordAt(f, k) + f.wordsize <= |s| && CleanWord(f, t, WordAt(f, k))
    requires Word(f, t, WordAt(f, k)) == rest % Pow2(Wordbits(f)) && rest' == rest / Pow2(Wordbits(f))
    ensures Packed(f, t, k + 1, a, rest')
  {
    SameData(f, s, t, k, k);
    CleanSplit(f, t, k);
    NextWord(f, k);
    hide Word, WordAt, Clean, CleanWord, WordWeight;
    ModSplit(a, WordWeight(f, k), Pow2(Wordbits(f)));
  }

  // The loop over the words; there is at least one.
  method PackWords(m: Memory, f: Format, buf: array<Byte>, ds: nat, de: nat) returns (dp: nat, dd: nat, nb: nat)
    requires ValidFormat(f) && 0 < f.numwords && buf.Length == Bufsize(f) && ds <= de <= |m.cells|
    modifies buf
    ensures Streams(m.cells, dp, de, dd, nb)
    ensures Packed(f, buf[..], f.numwords, V(m.cells, ds, de - ds), Rest(m.cells, dp, de, dd, nb))
  {
    ghost var a := V(m.cells, ds, de - ds);
    var wordp, last := FirstAndLast(f);
    dp, dd, nb := ds, 0, 0;
    ghost var k := 0;
    assert Rest(m.cells, dp, de, dd, nb) == a by { assert Pow2(0) == 1; }
    assert Packed(f, buf[..], 0, a, a) by { NextWord(f, 0); }
    assert dd < Pow2(nb);
    hide V, Pow2, Rest, Word, Packed;
    while true
      invariant k < f.numwords && wordp == WordAt(f, k) && Streams(m.cells, dp, de, dd, nb)
      invariant Packed(f, buf[..], k, a, Rest(m.cells, dp, de, dd, nb))
      decreases f.numwords - k
    {
      ghost var s, rest := buf[..], Rest(m.cells, dp, de, dd, nb);
      WordInside(f, k);
      dp, dd, nb := PackWord(m, f, buf, wordp, dp, de, dd, nb);
      PackedNext(f, s, buf[..], k, a, rest, Rest(m.cells, dp, de, dd, nb));
      LastWord(f, k);
      k := k + 1;
      if wordp == last {
        break;
      }
      wordp := NextWordAt(f, k - 1, wordp);
    }
  }

  // word_start and word_last
  method FirstAndLast(f: Format) returns (first: nat, last: nat)
    requires ValidFormat(f) && 0 < f.numwords
    ensures first == WordAt(f, 0) && last == WordAt(f, f.numwords - 1)
  {
    LeMul(f.wordsize, 0, f.numwords - 1);
    if f.mswordFirst {
      first, last := f.wordsize * (f.numwords - 1), 0;
    } else {
      first, last := 0, f.wordsize * (f.numwords - 1);
    }
  }

  lemma LastWord(f: Format, k: nat)
    requires ValidFormat(f) && k < f.numwords
    ensures WordAt(f, k) == WordAt(f, f.numwords - 1) <==> k == f.numwords - 1
  {
    if k != f.numwords - 1 {
      WordsApart(f, k, f.numwords - 1);
    }
  }

  // wordp += word_step
  method NextWordAt(f: Format, ghost k: nat, wordp: nat) returns (next: nat)
    requires ValidFormat(f) && k + 1 < f.numwords && wordp == WordAt(f, k)
    ensures next == WordAt(f, k + 1)
  {
    NextPlace(f, k);
    next := if f.mswordFirst then wordp - f.wordsize else wordp + f.wordsize;
  }

  lemma NextPlace(f: Format, k: nat)
    requires k + 1 < f.numwords
    ensures WordAt(f, k + 1) == if f.mswordFirst then WordAt(f, k) - f.wordsize else WordAt(f, k) + f.wordsize
  {
  }

  // ---- complementing in place ----

  // What has been complemented so far: the old data inverted, plus the carry that went in
  ghost predicate Inverted(now: nat, carry: int, was: nat, carry0: nat, p: nat)
  {
    now + carry * p == carry0 + p - 1 - was && 0 <= carry <= 1
  }

  // carry += inverted cell; the cell takes the low bits
  lemma InvertCell(now: nat, carry: nat, was: nat, carry0: nat, p: nat, cell: nat, q: nat)
    requires Inverted(now, carry, was, carry0, p) && cell < q && 0 < q
    ensures var t := carry + (q - 1 - cell);
            Inverted(now + (t % q) * p, t / q, was + cell * p, carry0, p * q)
  {
    var t := carry + (q - 1 - cell);
    DivMod(t, q);
    if 2 <= t / q {
      LeMul(q, 2, t / q);
    }
    assert (t % q) * p + (t / q) * (p * q) == t * p;
    assert t * p == carry * p + (q - 1 - cell) * p;
    assert (q - 1 - cell) * p == p * q - p - cell * p;
  }

  // One more cell of a word
  lemma InvertedCell(f: Format, s: seq<Byte>, t: seq<Byte>, base: nat, j: nat, carry: nat, carry0: nat, q: nat, w: nat)
    requires ValidFormat(f) && |s| == |t| && base + f.wordsize <= |s| && j < Cells(f)
    requires w == (if j < Fullbytes(f) then 8 else Partialbits(f)) && q == Pow2(w)
    requires Inverted(WordUpTo(f, t, base, j), carry, WordUpTo(f, s, base, j), carry0, Pow2(8 * j))
    requires s[base + ByteAt(f, j)] < q
    requires t[base + ByteAt(f, j)] == (carry + (q - 1 - s[base + ByteAt(f, j)])) % q
    ensures Inverted(WordUpTo(f, t, base, j + 1), (carry + (q - 1 - s[base + ByteAt(f, j)])) / q,
                     WordUpTo(f, s, base, j + 1), carry0, Pow2(8 * j + w))
  {
    var cell := s[base + ByteAt(f, j)];
    var now := carry + (q - 1 - cell);
    InvertCell(WordUpTo(f, t, base, j), carry, WordUpTo(f, s, base, j), carry0, Pow2(8 * j), cell, q);
    Pow2Add(8 * j, w);
    ModSmall(cell, q);
    ModMod(now, q);
  }

  // The new cell and the new carry
  method InvertStep(carry0: nat, cell: nat, q: nat) returns (b: nat, carry: nat)
    requires cell < q
    ensures b == (carry0 + (q - 1 - cell)) % q && carry == (carry0 + (q - 1 - cell)) / q && b < q
  {
    var t := carry0 + (q - 1 - cell);
    b, carry := t % q, t / q;
  }

  method InvertWord(f: Format, buf: array<Byte>, base: nat, carry0: nat) returns (carry: nat)
    requires ValidFormat(f) && base + f.wordsize <= buf.Length && carry0 <= 1 && CleanWord(f, buf[..], base)
    modifies buf
    ensures OnlyWord(f, old(buf[..]), buf[..], base) && CleanWord(f, buf[..], base)
    ensures Inverted(Word(f, buf[..], base), carry, Word(f, old(buf[..]), base), carry0, Pow2(Wordbits(f)))
  {
    ghost var s := buf[..];
    carry := InvertFullbytes(f, buf, base, carry0);
    if Partialbits(f) != 0 {
      carry := InvertPartial(f, buf, s, base, carry, carry0);
    }
  }

  // The cells from j on are as they were.
  ghost predicate RestSame(f: Format, s: seq<Byte>, t: seq<Byte>, base: nat, j: nat)
    requires |s| == |t| && base + f.wordsize <= |s|
  {
    forall i {:trigger ByteAt(f, i)} :: j <= i < f.wordsize ==> t[base + ByteAt(f, i)] == s[base + ByteAt(f, i)]
  }

  method InvertFullbytes(f: Format, buf: array<Byte>, base: nat, carry0: nat) returns (carry: nat)
    requires ValidFormat(f) && base + f.wordsize <= buf.Length && carry0 <= 1
    modifies buf
    ensures OnlyWord(f, old(buf[..]), buf[..], base) && RestSame(f, old(buf[..]), buf[..], base, Fullbytes(f))
    ensures Inverted(WordUpTo(f, buf[..], base, Fullbytes(f)), carry, WordUpTo(f, old(buf[..]), base, Fullbytes(f)), carry0,
                     Pow2(8 * Fullbytes(f)))
  {
    ghost var s := buf[..];
    var full, index := Fullbytes(f), 0;
    carry := carry0;
    Pow256();
    assert Pow2(0) == 1;
    hide Pow2, Inverted, Cell;
    assert Inverted(WordUpTo(f, s, base, 0), carry, WordUpTo(f, s, base, 0), carry0, Pow2(8 * 0)) by {
      NothingInverted(carry0);
    }
    hide WordUpTo, OnlyWord, RestSame;
    while index < full
      invariant index <= full && OnlyWord(f, s, buf[..], base) && RestSame(f, s, buf[..], base, index)
      invariant Inverted(WordUpTo(f, buf[..], base, index), carry, WordUpTo(f, s, base, index), carry0, Pow2(8 * index))
    {
      carry := InvertByte(f, buf, s, base, index, carry, carry0);
      index := index + 1;
    }
  }

  method InvertByte(f: Format, buf: array<Byte>, ghost s: seq<Byte>, base: nat, j: nat, carry1: nat, ghost carry0: nat)
    returns (carry: nat)
    requires ValidFormat(f) && base + f.wordsize <= buf.Length && |s| == buf.Length && j < Fullbytes(f)
    requires OnlyWord(f, s, buf[..], base) && RestSame(f, s, buf[..], base, j)
    requires Inverted(WordUpTo(f, buf[..], base, j), carry1, WordUpTo(f, s, base, j), carry0, Pow2(8 * j))
    modifies buf
    ensures OnlyWord(f, s, buf[..], base) && RestSame(f, s, buf[..], base, j + 1)
    ensures Inverted(WordUpTo(f, buf[..], base, j + 1), carry, WordUpTo(f, s, base, j + 1), carry0, Pow2(8 * (j + 1)))
  {
    Pow256();
    hide Pow2, Inverted, WordUpTo, Cell;
    var b;
    b, carry := InvertStep(carry1, buf[base + ByteAt(f, j)], 256);
    SetByte(f, buf, base, j, b);
    InvertedCell(f, s, buf[..], base, j, carry1, carry0, 256, 8);
  }

  lemma NothingInverted(carry0: nat)
    requires carry0 <= 1
    ensures Inverted(0, carry0, 0, carry0, Pow2(8 * 0))
  {
    assert Pow2(0) == 1;
  }

  method InvertPartial(f: Format, buf: array<Byte>, ghost s: seq<Byte>, base: nat, carry1: nat, ghost carry0: nat)
    returns (carry: nat)
    requires ValidFormat(f) && base + f.wordsize <= buf.Length && |s| == buf.Length && Partialbits(f) != 0
    requires OnlyWord(f, s, buf[..], base) && CleanWord(f, s, base) && RestSame(f, s, buf[..], base, Fullbytes(f))
    requires Inverted(WordUpTo(f, buf[..], base, Fullbytes(f)), carry1, WordUpTo(f, s, base, Fullbytes(f)), carry0,
                      Pow2(8 * Fullbytes(f)))
    modifies buf
    ensures OnlyWord(f, s, buf[..], base) && CleanWord(f, buf[..], base)
    ensures Inverted(Word(f, buf[..], base), carry, Word(f, s, base), carry0, Pow2(Wordbits(f)))
  {
    var full, partial := Fullbytes(f), Partialbits(f);
    var mask := Pow2(partial) - 1;
    assert buf[base + ByteAt(f, full)] == s[base + ByteAt(f, full)] <= mask;
    ModSmall(buf[base + ByteAt(f, full)], mask + 1);
    hide Pow2, Inverted, WordUpTo, Cell;
    var b;
    b, carry := InvertStep(carry1, buf[base + ByteAt(f, full)] % (mask + 1), mask + 1);
    SmallByte(b, partial);
    SetByte(f, buf, base, full, b);
    InvertedCell(f, s, buf[..], base, full, carry1, carry0, mask + 1, partial);
  }

  // Two stretches one after the other
  lemma InvertedJoin(now: int, carry: int, was: int, carry0: int, p: int, now2: int, carry2: int, was2: int, q: int)
    requires now + carry * p == carry0 + p - 1 - was && now2 + carry2 * q == carry + q - 1 - was2
    ensures (now + now2 * p) + carry2 * (p * q) == carry0 + p * q - 1 - (was + was2 * p)
  {
    assert (now2 + carry2 * q) * p == (carry + q - 1 - was2) * p;
    assert (now2 + carry2 * q) * p == now2 * p + carry2 * (p * q);
    assert (carry + q - 1 - was2) * p == carry * p + p * q - p - was2 * p;
  }

  // The words from k on are as they were.
  ghost predicate WordsSame(f: Format, s: seq<Byte>, t: seq<Byte>, k: nat)
    requires Bufsize(f) == |s| == |t|
  {
    forall w {:trigger WordAt(f, w)} :: k <= w < f.numwords ==> SameAt(s, t, WordAt(f, w), f.wordsize)
  }

  lemma WordsSameNext(f: Format, s: seq<Byte>, t: seq<Byte>, t': seq<Byte>, k: nat)
    requires Bufsize(f) == |s| == |t| && k < f.numwords && WordsSame(f, s, t, k) && OnlyWord(f, t, t', WordAt(f, k))
    ensures WordsSame(f, s, t', k + 1)
  {
    forall w {:trigger WordAt(f, w)} | k + 1 <= w < f.numwords ensures SameAt(s, t', WordAt(f, w), f.wordsize) {
      WordInside(f, w);
      WordsApart(f, k, w);
      var base := WordAt(f, w);
      assert t[base..base + f.wordsize] == t'[base..base + f.wordsize];
    }
  }

  // The words below k have been inverted.
  ghost predicate WordsInverted(f: Format, s: seq<Byte>, t: seq<Byte>, k: nat, carry: nat)
    requires ValidFormat(f) && Bufsize(f) == |s| == |t| && k <= f.numwords
  {
    && Inverted(Data(f, t, k), carry, Data(f, s, k), 1, WordWeight(f, k))
    && Clean(f, t, k) && WordsSame(f, s, t, k)
  }

  lemma InvertedNext(f: Format, s: seq<Byte>, t: seq<Byte>, t': seq<Byte>, k: nat, carry: nat, carry': nat)
    requires ValidFormat(f) && Bufsize(f) == |s| == |t| && k < f.numwords && WordsInverted(f, s, t, k, carry)
    requires OnlyWord(f, t, t', WordAt(f, k)) && WordAt(f, k) + f.wordsize <= |s| && CleanWord(f, t', WordAt(f, k))
    requires Inverted(Word(f, t', WordAt(f, k)), carry', Word(f, t, WordAt(f, k)), carry, Pow2(Wordbits(f)))
    ensures WordsInverted(f, s, t', k + 1, carry')
  {
    var base := WordAt(f, k);
    SameData(f, t, t', k, k);
    CleanSplit(f, t', k);
    NextWord(f, k);
    WordsSameNext(f, s, t, t', k);
    assert SameAt(s, t, base, f.wordsize);
    SameWord(f, s, t, base, Cells(f));
    hide Word, WordAt, Clean, CleanWord, WordWeight, WordsSame;
    InvertedJoin(Data(f, t, k), carry, Data(f, s, k), 1, WordWeight(f, k),
                 Word(f, t', base), carry', Word(f, s, base), Pow2(Wordbits(f)));
  }

  // -d modulo p
  function Negated(d: int, p: nat): nat
    requires 0 < p
  {
    (0 - d) % p
  }

  lemma NegatedIs(now: int, carry: int, was: int, p: nat)
    requires 0 <= now < p && now + carry * p == p - was
    ensures now == Negated(was, p)
  {
    assert p * (carry - 1) == carry * p - p && p * (1 - carry) == p - carry * p;
    DivUnique(0 - was, p, carry - 1, now);
  }

  // The complement of the whole buffer
  method InvertWords(f: Format, buf: array<Byte>)
    requires ValidFormat(f) && 0 < f.numwords && buf.Length == Bufsize(f) && Clean(f, buf[..], f.numwords)
    modifies buf
    ensures Clean(f, buf[..], f.numwords)
    ensures Data(f, buf[..], f.numwords) == Negated(Data(f, old(buf[..]), f.numwords), WordWeight(f, f.numwords))
  {
    hide WordsInverted, Word, Inverted, Clean, CleanWord, Data, WordWeight, OnlyWord, WordAt, Negated, Bufsize;
    ghost var s := buf[..];
    var wordp, last := FirstAndLast(f);
    var carry := 1;
    ghost var k := 0;
    assert WordsInverted(f, s, s, 0, 1) by { NothingYet(f, s); }
    while true
      invariant k < f.numwords && wordp == WordAt(f, k) && carry <= 1
      invariant WordsInverted(f, s, buf[..], k, carry)
      decreases f.numwords - k
    {
      ghost var t, carry1 := buf[..], carry;
      WordInside(f, k);
      StillClean(f, s, t, k, carry);
      carry := InvertWord(f, buf, wordp, carry);
      InvertedNext(f, s, t, buf[..], k, carry1, carry);
      LastWord(f, k);
      k := k + 1;
      CarryBit(f, s, buf[..], k, carry);
      if wordp == last {
        break;
      }
      wordp := NextWordAt(f, k - 1, wordp);
    }
    AllInverted(f, s, buf[..], carry);
  }

  lemma NothingYet(f: Format, s: seq<Byte>)
    requires ValidFormat(f) && Bufsize(f) == |s|
    ensures WordsInverted(f, s, s, 0, 1)
  {
    NextWord(f, 0);
    forall w {:trigger WordAt(f, w)} | 0 <= w < f.numwords ensures SameAt(s, s, WordAt(f, w), f.wordsize) {
      WordInside(f, w);
    }
  }

  lemma StillClean(f: Format, s: seq<Byte>, t: seq<Byte>, k: nat, carry: nat)
    requires ValidFormat(f) && Bufsize(f) == |s| == |t| && k < f.numwords && WordsInverted(f, s, t, k, carry)
    requires Clean(f, s, f.numwords) && WordAt(f, k) + f.wordsize <= |s|
    ensures CleanWord(f, t, WordAt(f, k))
  {
    SameWord(f, s, t, WordAt(f, k), Cells(f));
  }

  lemma CarryBit(f: Format, s: seq<Byte>, t: seq<Byte>, k: nat, carry: nat)
    requires ValidFormat(f) && Bufsize(f) == |s| == |t| && k <= f.numwords && WordsInverted(f, s, t, k, carry)
    ensures carry <= 1
  {
  }

  lemma AllInverted(f: Format, s: seq<Byte>, t: seq<Byte>, carry: nat)
    requires ValidFormat(f) && Bufsize(f) == |s| == |t| && WordsInverted(f, s, t, f.numwords, carry)
    ensures Clean(f, t, f.numwords)
    ensures Data(f, t, f.numwords) == Negated(Data(f, s, f.numwords), WordWeight(f, f.numwords))
  {
    DataBound(f, t, f.numwords);
    hide WordWeight, Data;
    NegatedIs(Data(f, t, f.numwords), carry, Data(f, s, f.numwords), WordWeight(f, f.numwords));
  }

  // ---- bary_pack ----

  // The documented return values for a number v and n bits
  function PackCode(v: int, n: nat, twoComp: bool): int
  {
    if v == 0 then 0
    else if v > 0 then if v < Pow2(n) then 1 else 2
    else if twoComp then if -(Pow2(n) as int) <= v then -1 else -2
    else if -(Pow2(n) as int) < v then -1 else -2
  }

  lemma {:induction false} ZeroWord(f: Format, s: seq<Byte>, base: nat, j: nat)
    requires ValidFormat(f) && base + f.wordsize <= |s| && j <= Cells(f) && forall i :: 0 <= i < |s| ==> s[i] == 0
    ensures WordUpTo(f, s, base, j) == 0 && CleanWord(f, s, base)
  {
    ModSmall(0, Pow2(Partialbits(f)));
    if j != 0 {
      ZeroWord(f, s, base, j - 1);
    }
  }

  lemma {:induction false} ZeroData(f: Format, s: seq<Byte>, k: nat)
    requires ValidFormat(f) && Bufsize(f) == |s| && k <= f.numwords && forall i :: 0 <= i < |s| ==> s[i] == 0
    ensures Data(f, s, k) == 0 && Clean(f, s, k)
  {
    if k != 0 {
      ZeroData(f, s, k - 1);
      WordInside(f, k - 1);
      ZeroWord(f, s, WordAt(f, k - 1), Cells(f));
      CleanSplit(f, s, k - 1);
    }
  }

  // The overflow test sees whether at least two, exactly one or no bit weights are left.
  lemma LeftOver(s: seq<Digit>, dp: nat, de: nat, dd: nat, nb: nat)
    requires Streams(s, dp, de, dd, nb) && W <= nb && 0 < de && s[de - 1] != 0
    ensures dp != de || 1 < dd <==> 2 <= Rest(s, dp, de, dd, nb)
    ensures dp == de ==> dd == Rest(s, dp, de, dd, nb)
  {
    if dp != de {
      VPositive(s, dp, de - dp, de - dp - 1);
      Pow2Mono(1, nb);
      assert Pow2(1) == 2 * Pow2(0);
      LeMul(Pow2(nb), 1, V(s, dp, de - dp));
    } else {
      assert V(s, dp, 0) == 0;
    }
  }

  // ---- a power of two has one digit that is not zero, and that is a power of two ----

  lemma PowerOfTwo(d: nat, j: nat)
    requires d == Pow2(j)
    ensures Pow2P(d)
  {
    BitLengthBounds(d);
    Pow2Less(j, BitLength(d));
    Pow2Less(BitLength(d) - 1, j + 1);
  }

  lemma OneDigitPower(s: seq<Digit>, o: nat, n: nat, e: nat)
    requires 0 < n && o + n <= |s| && s[o + n - 1] != 0
    requires Pow2(e) <= V(s, o, n) < 2 * Pow2(e)
    ensures V(s, o, n) == Pow2(e) <==> V(s, o, n - 1) == 0 && Pow2P(s[o + n - 1])
  {
    var d, k := s[o + n - 1], n - 1;
    PowIsPow2(k);
    VBound(s, o, k);
    LeMul(W, 0, k);
    assert V(s, o, n) == V(s, o, k) + d * Pow(k);
    hide V, Pow;
    if V(s, o, n) == Pow2(e) {
      PowerDigit(V(s, o, k), d, k * W, e);
    }
    if V(s, o, k) == 0 && Pow2P(d) {
      var j := BitLength(d) - 1;
      assert d == Pow2(j);
      hide Pow2P, BitLength;
      DigitPower(d, j, k * W, e);
    }
  }

  // low + d * 2^k is 2^e: then d is a power of two and low is zero.
  lemma PowerDigit(low: nat, d: nat, k: nat, e: nat)
    requires 0 < d && low < Pow2(k) && low + d * Pow2(k) == Pow2(e)
    ensures low == 0 && Pow2P(d)
  {
    LeMul(Pow2(k), 1, d);
    Pow2Less(k, e + 1);
    Pow2Add(k, e - k);
    QuotientUnique(Pow2(k), d, low, Pow2(e - k), 0);
    PowerOfTwo(d, e - k);
  }

  lemma DigitPower(d: nat, j: nat, k: nat, e: nat)
    requires d == Pow2(j) && Pow2(e) <= d * Pow2(k) < 2 * Pow2(e)
    ensures d * Pow2(k) == Pow2(e)
  {
    hide Pow2;
    Pow2Add(j, k);
    SamePower(j + k, e);
  }

  lemma SamePower(j: nat, e: nat)
    requires Pow2(e) <= Pow2(j) < 2 * Pow2(e)
    ensures j == e
  {
    Pow2Less(j, e + 1);
    Pow2Less(e, j + 1);
  }

  // Whether a number of n + 1 bits is 2^n: one digit that is not zero, with one bit set
  method IsPowerOfTwo(m: Memory, ds: nat, de: nat, ghost e: nat) returns (yes: bool)
    requires ds < de <= |m.cells| && m.cells[de - 1] != 0
    requires Pow2(e) <= V(m.cells, ds, de - ds) < 2 * Pow2(e)
    ensures yes <==> V(m.cells, ds, de - ds) == Pow2(e)
  {
    OneDigitPower(m.cells, ds, de - ds, e);
    var dp := ds;
    while dp < de && m.cells[dp] == 0
      invariant ds <= dp < de && V(m.cells, ds, dp - ds) == 0
    {
      dp := dp + 1;
    }
    if dp != de - 1 {
      VPositive(m.cells, ds, de - 1 - ds, dp - ds);
    }
    yes := de - dp == 1 && Pow2P(m.cells[dp]);
  }

  // The sign with the overflow class, from what is left of the number above the buffer
  method Overflow(m: Memory, ds: nat, de: nat, dp0: nat, dd0: nat, nb0: nat, sign: int, twoComp: bool, ghost n: nat)
    returns (code: int)
    requires ds < de && Streams(m.cells, dp0, de, dd0, nb0) && m.cells[de - 1] != 0 && (sign == 1 || sign == -1)
    requires Rest(m.cells, dp0, de, dd0, nb0) == V(m.cells, ds, de - ds) / Pow2(n)
    ensures code == PackCode(sign * V(m.cells, ds, de - ds), n, twoComp)
  {
    ghost var a, p := V(m.cells, ds, de - ds), Pow2(n);
    VPositive(m.cells, ds, de - ds, de - ds - 1);
    var dp, dd, nb := FillDd(m, dp0, de, dd0, nb0);
    LeftOver(m.cells, dp, de, dd, nb);
    Weights(a, p);
    code := sign;
    if dp != de || 1 < dd {
      code := sign * 2;
    } else if dd == 1 {
      if !twoComp || 0 <= sign {
        code := sign * 2;
      } else {
        var boundary := IsPowerOfTwo(m, ds, de, n);
        code := if boundary then -1 else -2;
      }
    }
  }

  lemma Weights(a: nat, p: nat)
    requires 0 < p
    ensures 2 <= a / p <==> 2 * p <= a
    ensures a / p == 1 <==> p <= a < 2 * p
  {
    DivMod(a, p);
    if 2 <= a / p {
      LeMul(p, 2, a / p);
    } else if a / p == 0 {
    }
  }

  // Without words only zero fits, and -1 in two's complement.
  method NoWords(m: Memory, ds: nat, de: nat, sign: int, twoComp: bool) returns (code: int)
    requires ds <= de <= |m.cells| && (ds < de ==> m.cells[de - 1] != 0 && (sign == 1 || sign == -1)) && (ds == de ==> sign == 0)
    ensures code == PackCode(sign * V(m.cells, ds, de - ds), 0, twoComp)
  {
    assert Pow2(0) == 1;
    if ds < de {
      VFirst(m.cells, ds, de - ds);
      VPositive(m.cells, ds, de - ds, de - ds - 1);
      if 1 < de - ds {
        VPositive(m.cells, ds + 1, de - ds - 1, de - ds - 2);
        LeMul(B, 1, V(m.cells, ds + 1, de - ds - 1));
        BLarge();
      } else {
        assert V(m.cells, ds + 1, 0) == 0;
      }
    }
    if !twoComp || 0 <= sign {
      code := sign * 2;
    } else if de - ds == 1 && m.cells[ds] == 1 {
      code := -1;
    } else {
      code := -2;
    }
  }

  lemma NegatedMod(a: int, p: nat)
    requires 0 < p
    ensures Negated(a % p, p) == (0 - a) % p
  {
    DivMod(a, p);
    DivMod(0 - a % p, p);
    var q, r := (0 - a % p) / p, (0 - a % p) % p;
    assert p * (q - a / p) == p * q - p * (a / p);
    DivUnique(0 - a, p, q - a / p, r);
  }

  lemma EmptyBuffer(f: Format)
    requires ValidFormat(f) && Bufsize(f) == 0
    ensures f.numwords == 0
  {
    if f.numwords != 0 {
      LeMul(f.wordsize, 1, f.numwords);
    }
  }

  // Byte i of the packed v: word i / wordsize counted from either end, and in it byte i % wordsize counted from
  // either end, holds the bits of the residue of v modulo 2^bits that belong there.
  ghost predicate Holds(f: Format, v: int, i: nat, b: Byte)
    requires ValidFormat(f)
  {
    var k := if f.mswordFirst then f.numwords - 1 - i / f.wordsize else i / f.wordsize;
    var j := if f.msbyteFirst then f.wordsize - 1 - i % f.wordsize else i % f.wordsize;
    var bits := 8 * f.wordsize - f.nails;
    var d := if bits <= 8 * j then 0 else if bits < 8 * j + 8 then bits - 8 * j else 8;
    && 0 <= k && 0 <= j && 0 <= d && 0 <= bits * k && 0 <= bits * f.numwords
    && b == v % Pow2(bits * f.numwords) / Pow2(bits * k + 8 * j) % Pow2(d)
  }

  lemma WrittenByte(f: Format, s: seq<Byte>, v: int, i: nat)
    requires ValidFormat(f) && |s| == Bufsize(f) && i < |s| && Clean(f, s, f.numwords)
    requires Data(f, s, f.numwords) == v % WordWeight(f, f.numwords)
    ensures Holds(f, v, i, s[i])
  {
    ByteHolds(f, s, i);
    LeMul(Wordbits(f), 0, f.numwords);
    hide Data, Clean, Pow2, Bufsize;
  }

  // Without nails, in the two orders that agree
  lemma PlainBytes(f: Format, v: int, i: nat, b: Byte)
    requires ValidFormat(f) && f.nails == 0 && i < f.numwords * f.wordsize && Holds(f, v, i, b)
    ensures !f.mswordFirst && !f.msbyteFirst ==> b == v % Pow2(8 * (f.numwords * f.wordsize)) / Pow2(8 * i) % 256
    ensures f.mswordFirst && f.msbyteFirst ==>
              b == v % Pow2(8 * (f.numwords * f.wordsize)) / Pow2(8 * (f.numwords * f.wordsize - 1 - i)) % 256
  {
    Places(f, i);
    Pow256();
    FromTheStart(f.wordsize, i / f.wordsize, i % f.wordsize);
    FromTheEnd(f.numwords, f.wordsize, i / f.wordsize, i % f.wordsize);
    FromTheStart(f.wordsize, f.numwords, 0);
    hide Pow2;
  }

  // `sign0` is the sign of the number; the code tells its sign and whether it fits.  The last clause is the
  // contents of the buffer, byte by byte.
  method Pack(m: Memory, sign0: int, ds: nat, n0: nat, f: Format, buf: array<Byte>, twoComp: bool) returns (code: int)
    requires ValidFormat(f) && buf.Length == Bufsize(f) && ds + n0 <= |m.cells| && (sign0 == 1 || sign0 == -1)
    modifies buf
    ensures code == PackCode(sign0 * V(m.cells, ds, n0), Wordbits(f) * f.numwords, twoComp)
    ensures Data(f, buf[..], f.numwords)
         == (if twoComp then sign0 * V(m.cells, ds, n0) else V(m.cells, ds, n0)) % WordWeight(f, f.numwords)
    ensures Clean(f, buf[..], f.numwords)
    ensures forall i :: 0 <= i < buf.Length ==>
              Holds(f, if twoComp then sign0 * V(m.cells, ds, n0) else V(m.cells, ds, n0), i, buf[i])
  {
    code := PackData(m, sign0, ds, n0, f, buf, twoComp);
    ghost var v := if twoComp then sign0 * V(m.cells, ds, n0) else V(m.cells, ds, n0);
    hide V, Data, Clean, Pow2, PackCode, WordWeight, Wordbits, Holds;
    forall i | 0 <= i < buf.Length ensures Holds(f, v, i, buf[i]) {
      WrittenByte(f, buf[..], v, i);
    }
  }

  // The classes of the code
  lemma PackClasses(v: int, n: nat, twoComp: bool)
    ensures PackCode(v, n, twoComp) == 0 <==> v == 0
    ensures PackCode(v, n, twoComp) == 1 <==> 0 < v < Pow2(n)
    ensures PackCode(v, n, twoComp) == 2 <==> Pow2(n) <= v
    ensures PackCode(v, n, true) == -1 <==> 0 - Pow2(n) <= v < 0
    ensures PackCode(v, n, true) == -2 <==> v < 0 - Pow2(n)
    ensures PackCode(v, n, false) == -1 <==> 0 - Pow2(n) < v < 0
    ensures PackCode(v, n, false) == -2 <==> v <= 0 - Pow2(n)
  {
  }

  method PackData(m: Memory, sign0: int, ds: nat, n0: nat, f: Format, buf: array<Byte>, twoComp: bool) returns (code: int)
    requires ValidFormat(f) && buf.Length == Bufsize(f) && ds + n0 <= |m.cells| && (sign0 == 1 || sign0 == -1)
    modifies buf
    ensures code == PackCode(sign0 * V(m.cells, ds, n0), Wordbits(f) * f.numwords, twoComp)
    ensures Data(f, buf[..], f.numwords)
         == (if twoComp then sign0 * V(m.cells, ds, n0) else V(m.cells, ds, n0)) % WordWeight(f, f.numwords)
    ensures Clean(f, buf[..], f.numwords)
  {
    ghost var a := V(m.cells, ds, n0);
    var n := Trunc(m, ds, n0);
    var de := ds + n;
    var sign := if n == 0 then 0 else sign0;
    if buf.Length == 0 {
      EmptyBuffer(f);
      NextWord(f, 0);
      code := NoWords(m, ds, de, sign, twoComp);
    } else if ds == de {
      forall i | 0 <= i < buf.Length {
        buf[i] := 0;
      }
      ZeroData(f, buf[..], f.numwords);
      ModSmall(0, WordWeight(f, f.numwords));
      code := sign;
    } else {
      LeMul(f.wordsize, 0, f.numwords);
      var dp, dd, nb := PackWords(m, f, buf, ds, de);
      code := Overflow(m, ds, de, dp, dd, nb, sign, twoComp, Wordbits(f) * f.numwords);
    }
    if twoComp && code < 0 && f.numwords != 0 {
      InvertWords(f, buf);
      NegatedMod(a, WordWeight(f, f.numwords));
    }
  }
}
