/**
 Big2str of bignum.c: printing a number by dividing it by the largest squared power of
 the base that fits, quotient first, remainder after, each half padded once output has
 begun.  All divisions are done in place in one shrinking workspace.
 */
module Print {
  import opened Digits
  import opened Kernel
  import opened MulKernel
  import opened Division
  import opened MulCommon
  import opened Radix
  import opened PowerCache

  // struct big2str_struct; `begun` says that ptr is not NULL.
  // Padded if output has begun, otherwise starting with the first digit, if there is one, and then in a
  // string of the right length for it and `taillen` more characters (and one more).
  ghost predicate Grown(sign: string, base: Base, begun0: bool, text0: string, len0: nat,
                        x: nat, n: nat, taillen: nat, begun: bool, text: string, len: nat)
  {
    if begun0 then begun && text == text0 + Padded(x, n, base) && len == len0
    else if x == 0 then !begun
    else begun && text == sign + Numeral(x, base) && len == |Numeral(x, base)| + taillen + 1
  }

  // Quotient and remainder one after the other
  lemma GrownHalves(sign: string, base: Base, begun0: bool, text0: string, len0: nat, q: nat, r: nat, n: nat, taillen: nat,
                    begun1: bool, text1: string, len1: nat, begun2: bool, text2: string, len2: nat)
    requires Grown(sign, base, begun0, text0, len0, q, n, n + taillen, begun1, text1, len1)
    requires Grown(sign, base, begun1, text1, len1, r, n, taillen, begun2, text2, len2)
    requires 0 < q && r < Exp(base, n)
    ensures Grown(sign, base, begun0, text0, len0, q * Exp(base, n) + r, 2 * n, taillen, begun2, text2, len2)
  {
    hide Exp, Numeral, Padded;
    PaddedSplit(q, r, n, n, base);
    NumeralSplit(q, r, n, base);
    assert n + n == 2 * n;
    LeMul(Exp(base, n), 1, q);
  }

  // After the quotient there is room for the remainder.
  lemma StillFits(sign: string, base: Base, begun0: bool, text0: string, len0: nat, q: nat, n: nat, taillen: nat,
                  begun1: bool, text1: string, len1: nat)
    requires 0 < q && |sign| <= 1 && (begun0 ==> |text0| + 2 * n <= len0)
    requires Grown(sign, base, begun0, text0, len0, q, n, n + taillen, begun1, text1, len1)
    ensures begun1 && |text1| + n <= len1
  {
  }

  // Zeros first, if output has begun
  lemma GrownWider(sign: string, base: Base, begun0: bool, text0: string, len0: nat, x: nat, m: nat, n: nat, taillen: nat,
                   text1: string, begun2: bool, text2: string, len2: nat)
    requires text1 == if begun0 then text0 + Zeros(m) else text0
    requires Grown(sign, base, begun0, text1, len0, x, n, taillen, begun2, text2, len2)
    requires x < Exp(base, n)
    ensures Grown(sign, base, begun0, text0, len0, x, m + n, taillen, begun2, text2, len2)
  {
    PaddedWider(x, m, n, base);
  }

  class Big2Str {
    const negative: bool
    const base: Base
    const hbase2: nat
    const hbase2Numdigits: nat
    var result: array<char>
    var ptr: nat
    var begun: bool

    constructor (negative: bool, cache: Cache)
      requires cache.Based()
      ensures this.negative == negative && base == cache.base && !begun && fresh(result)
      ensures hbase2 == cache.hbase2 && hbase2Numdigits == cache.hbase2Numdigits
    {
      this.negative, base := negative, cache.base;
      hbase2, hbase2Numdigits := cache.hbase2, cache.hbase2Numdigits;
      result, ptr, begun := new char[0], 0, false;
    }

    function Sign(): string
    {
      if negative then "-" else ""
    }

    ghost predicate Sized()
    {
      0 < hbase2Numdigits && hbase2 == Exp(base, hbase2Numdigits) && B <= hbase2 < B * B
    }

    // Room for n more characters, if output has begun
    ghost predicate Fits(n: nat)
      reads this, result
    {
      begun ==> ptr + n <= result.Length
    }

    // What has been written
    ghost function Text(): string
      reads this, result
    {
      if ptr <= result.Length then result[..ptr] else []
    }

    // big2str_alloc: the sign, room for `len` characters, and one more
    method Alloc(len: nat)
      modifies this
      ensures begun && fresh(result) && result.Length == len + 1 && ptr == |Sign()| && Text() == Sign()
    {
      result := new char[len + 1];
      ptr := 0;
      begun := true;
      if negative {
        result[0] := '-';
        ptr := 1;
      }
    }

    // MEMCPY to ptr, and ptr moved on
    method Append(s: string)
      requires ptr + |s| <= result.Length
      modifies this`ptr, result
      ensures ptr == old(ptr) + |s| && Text() == old(Text()) + s
    {
      forall i | 0 <= i < |s| {
        result[ptr + i] := s[i];
      }
      ptr := ptr + |s|;
      assert result[..ptr] == old(result[..ptr]) + s;
    }

    // memset of zeros at ptr, and ptr moved on
    method AppendZeros(len: nat)
      requires ptr + len <= result.Length
      modifies this`ptr, result
      ensures ptr == old(ptr) + len && Text() == old(Text()) + Zeros(len)
    {
      forall i | 0 <= i < len {
        result[ptr + i] := '0';
      }
      ptr := ptr + len;
      assert result[..ptr] == old(result[..ptr]) + Zeros(len);
    }

    // Writing x in a field of n characters
    twostate predicate Wrote(x: nat, n: nat, taillen: nat)
      reads this, result
    {
      && Grown(Sign(), base, old(begun), old(Text()), old(result).Length, x, n, taillen, begun, Text(), result.Length)
      && (old(begun) ==> result == old(result)) && (!old(begun) && begun ==> fresh(result))
      && (begun ==> ptr <= result.Length)
    }

    // ---- numbers of at most two digits ----

    // big2str_2bdigits
    method TwoDigits(m: Memory, xo: nat, xn: nat, taillen: nat)
      requires Sized() && xn <= 2 && xo + xn <= |m.cells| && V(m.cells, xo, xn) < hbase2 && Fits(hbase2Numdigits)
      modifies this, result
      ensures Wrote(V(m.cells, xo, xn), hbase2Numdigits, taillen)
    {
      // assert(xn <= 2)
      assert xn <= 2;
      var num := BdigitDbl(m, xo, xn);
      if !begun {
        if num == 0 {
          return;
        }
        var s := DigitsOf(num, base);
        var len := |s|;
        Alloc(len + taillen);
        Append(s);
      } else {
        FixedDigits(num);
      }
    }

    // The padded digits, written from the last to the first
    method FixedDigits(num0: nat)
      requires 0 < hbase2Numdigits && ptr + hbase2Numdigits <= result.Length
      modifies this`ptr, result
      ensures ptr == old(ptr) + hbase2Numdigits
      ensures Text() == old(Text()) + Padded(num0, hbase2Numdigits, base)
    {
      FillDigits(result, ptr, hbase2Numdigits, num0, base);
      ptr := ptr + hbase2Numdigits;
      assert result[..ptr] == old(result[..ptr]) + Padded(num0, hbase2Numdigits, base);
    }

    // ---- divide and conquer ----

    ghost predicate Suits(cache: Cache)
    {
      cache.base == base && cache.hbase2 == hbase2 && cache.hbase2Numdigits == hbase2Numdigits
    }

    // x, in a buffer with wn digits of workspace behind it, apart from the powers
    ghost predicate Placed(cache: Cache, s: seq<Digit>, xo: nat, xn: nat, wn: nat)
      reads cache
    {
      && cache.Valid(s) && xo + xn + wn <= |s| && cache.Avoids(xo, xn + wn)
      && (xn == 0 || s[xo + xn - 1] != 0)
    }

    // Enough workspace to go down from this level
    ghost predicate Roomy(cache: Cache, wn: nat, level: nat)
      reads cache
    {
      level > 0 ==> level - 1 in cache.powers && level + cache.powers[level - 1].n <= wn
    }

    lemma RoomyBelow(cache: Cache, s: seq<Digit>, wn: nat, level: nat)
      requires cache.Valid(s) && level in cache.powers && level + cache.powers[level].n <= wn
      ensures Roomy(cache, wn, level)
    {
      if level > 0 {
        cache.LongerPowers(s, level - 1, level);
      }
    }

    // big2str_karatsuba: x < maxpow^(2^level) is written in a field of hbase2_numdigits * 2^level characters.
    method Karatsuba(m: Memory, cache: Cache, xo: nat, xn: nat, wn: nat, level: nat, taillen: nat)
      requires Sized() && Suits(cache) && Placed(cache, m.cells, xo, xn, wn) && Roomy(cache, wn, level)
      requires V(m.cells, xo, xn) < Exp(base, hbase2Numdigits * Pow2(level))
      requires begun ==> level in cache.powers && Fits(hbase2Numdigits * Pow2(level))
      modifies this, result, m, cache`powers
      ensures cache.powers == old(cache.powers) && cache.Valid(m.cells)
      ensures Keeps(old(m.cells), m.cells, xo, xn + wn)
      ensures Wrote(V(old(m.cells), xo, xn), hbase2Numdigits * Pow2(level), taillen)
      decreases level, 0
    {
      ghost var s0 := m.cells;
      ghost var x, n := V(s0, xo, xn), hbase2Numdigits * Pow2(level);
      KeepsIntro(s0, s0, xo, xn + wn);
      var zero := ZeroP(m, xo, xn);
      if xn == 0 || zero {
        if begun {
          var power := cache.GetPower(m, level);
          AppendZeros(power.numdigits);
          PaddedZero(n, base);
        }
        return;
      }
      if level == 0 {
        assert Pow2(0) == 1;
        Small(m, xo, xn, taillen);
        return;
      }
      Lowered(m, cache, xo, xn, wn, level, taillen);
    }

    // The largest power that is at most x, if there is one, divides x.
    method Lowered(m: Memory, cache: Cache, xo: nat, xn: nat, wn: nat, level: nat, taillen: nat)
      requires Sized() && Suits(cache) && Placed(cache, m.cells, xo, xn, wn) && Roomy(cache, wn, level) && 0 < level
      requires 0 < V(m.cells, xo, xn) < Exp(base, hbase2Numdigits * Pow2(level))
      requires begun ==> level in cache.powers && Fits(hbase2Numdigits * Pow2(level))
      modifies this, result, m, cache`powers
      ensures cache.powers == old(cache.powers) && cache.Valid(m.cells)
      ensures Keeps(old(m.cells), m.cells, xo, xn + wn)
      ensures Wrote(V(old(m.cells), xo, xn), hbase2Numdigits * Pow2(level), taillen)
      decreases level, 0, 0
    {
      hide Grown, Padded, Numeral;
      ghost var s0 := m.cells;
      var lower, b, halfNumdigits, less := FindPower(m, cache, xo, xn, level);
      if less {
        assert Pow2(0) == 1;
        ZerosThenSmall(m, xo, xn, halfNumdigits * 2 - b.numdigits, taillen);
        KeepsIntro(s0, s0, xo, xn + wn);
      } else {
        cache.LongerPowers(s0, lower, level - 1);
        hide Exp, V, Pow2;
        ZerosThenHalves(m, cache, xo, xn, wn, lower, b, (halfNumdigits - b.numdigits) * 2, lower != level - 1, taillen);
      }
    }

    method ZerosThenSmall(m: Memory, xo: nat, xn: nat, zeros: nat, taillen: nat)
      requires Sized() && xo + xn <= |m.cells| && (xn == 0 || m.cells[xo + xn - 1] != 0)
      requires V(m.cells, xo, xn) < hbase2 && Fits(zeros + hbase2Numdigits)
      modifies this, result
      ensures Wrote(V(m.cells, xo, xn), zeros + hbase2Numdigits, taillen)
    {
      ghost var x := V(m.cells, xo, xn);
      ghost var begun0, text0, len0 := begun, Text(), result.Length;
      hide Exp, Padded, Numeral, V, Grown;
      if begun {
        AppendZeros(zeros);
      }
      ghost var text1 := Text();
      Small(m, xo, xn, taillen);
      GrownWider(Sign(), base, begun0, text0, len0, x, zeros, hbase2Numdigits, taillen, text1, begun, Text(), result.Length);
    }

    // The zeros of the levels passed over, if any were, come first.
    method ZerosThenHalves(m: Memory, cache: Cache, xo: nat, xn: nat, wn: nat, lower: nat, b: Power, zeros: nat,
                           passed: bool, taillen: nat)
      requires Sized() && Suits(cache) && Placed(cache, m.cells, xo, xn, wn)
      requires lower in cache.powers && b == cache.powers[lower] && lower + 1 + b.n <= wn
      requires V(m.cells, b.o, b.n) <= V(m.cells, xo, xn) < Exp(base, 2 * b.numdigits)
      requires Fits(zeros + 2 * b.numdigits) && (!passed ==> zeros == 0) && (begun ==> lower in cache.powers)
      modifies this, result, m, cache`powers
      ensures cache.powers == old(cache.powers) && cache.Valid(m.cells)
      ensures Keeps(old(m.cells), m.cells, xo, xn + wn)
      ensures Wrote(V(old(m.cells), xo, xn), zeros + 2 * b.numdigits, taillen)
      decreases lower, 2
    {
      ghost var x := V(m.cells, xo, xn);
      ghost var begun0, text0, len0 := begun, Text(), result.Length;
      hide Exp, Padded, Numeral, V, Grown;
      if passed && begun {
        AppendZeros(zeros);
      }
      ghost var text1 := Text();
      assert text0 + Zeros(0) == text0;
      Halves(m, cache, xo, xn, wn, lower, b, taillen);
      GrownWider(Sign(), base, begun0, text0, len0, x, zeros, 2 * b.numdigits, taillen, text1, begun, Text(), result.Length);
    }

    // The highest level below `level` whose power is at most x, or else level 0.
    method FindPower(m: Memory, cache: Cache, xo: nat, xn: nat, level: nat)
      returns (lower: nat, b: Power, halfNumdigits: nat, less: bool)
      requires Sized() && Suits(cache) && cache.Valid(m.cells) && xo + xn <= |m.cells|
      requires xn == 0 || m.cells[xo + xn - 1] != 0
      requires 0 < level && level - 1 in cache.powers && V(m.cells, xo, xn) < Exp(base, hbase2Numdigits * Pow2(level))
      modifies m, cache`powers
      ensures m.cells == old(m.cells) && cache.powers == old(cache.powers)
      ensures lower < level && lower in cache.powers && b == cache.powers[lower]
      ensures b.numdigits <= halfNumdigits && 2 * halfNumdigits == hbase2Numdigits * Pow2(level)
      ensures lower == level - 1 ==> b.numdigits == halfNumdigits
      ensures V(m.cells, xo, xn) < Exp(base, 2 * b.numdigits)
      ensures if less then lower == 0 && V(m.cells, xo, xn) < V(m.cells, b.o, b.n)
              else V(m.cells, b.o, b.n) <= V(m.cells, xo, xn)
    {
      ghost var s0 := m.cells;
      ghost var x := V(s0, xo, xn);
      lower := level - 1;
      var top := cache.GetPower(m, lower);
      b := top;
      halfNumdigits := b.numdigits;
      Doubled(lower);
      less := Less(m, xo, xn, b);
      hide Exp, V, Pow2;
      while 0 < lower && less
        invariant lower < level && lower in cache.powers && b == cache.powers[lower] && m.cells == s0
        invariant cache.powers == old(cache.powers) && b.numdigits <= halfNumdigits
        invariant lower == level - 1 ==> b.numdigits == halfNumdigits
        invariant less <==> x < V(s0, b.o, b.n)
        invariant x < Exp(base, 2 * b.numdigits)
      {
        lower := lower - 1;
        var b' := cache.GetPower(m, lower);
        Doubled(lower);
        b := b';
        less := Less(m, xo, xn, b);
      }
    }

    lemma Doubled(level: nat)
      ensures hbase2Numdigits * Pow2(level + 1) == 2 * (hbase2Numdigits * Pow2(level))
    {
    }

    // x below maxpow
    method Small(m: Memory, xo: nat, xn: nat, taillen: nat)
      requires Sized() && xo + xn <= |m.cells| && (xn == 0 || m.cells[xo + xn - 1] != 0)
      requires V(m.cells, xo, xn) < hbase2 && Fits(hbase2Numdigits)
      modifies this, result
      ensures Wrote(V(m.cells, xo, xn), hbase2Numdigits, taillen)
    {
      AtMostTwo(m.cells, xo, xn, hbase2);
      TwoDigits(m, xo, xn, taillen);
    }

    // x is divided by the power b, and quotient and remainder are written one after the other.
    method Halves(m: Memory, cache: Cache, xo: nat, xn: nat, wn: nat, lower: nat, b: Power, taillen: nat)
      requires Sized() && Suits(cache) && Placed(cache, m.cells, xo, xn, wn)
      requires lower in cache.powers && b == cache.powers[lower] && lower + 1 + b.n <= wn
      requires V(m.cells, b.o, b.n) <= V(m.cells, xo, xn) < Exp(base, 2 * b.numdigits)
      requires Fits(2 * b.numdigits)
      modifies this, result, m, cache`powers
      ensures cache.powers == old(cache.powers) && cache.Valid(m.cells)
      ensures Keeps(old(m.cells), m.cells, xo, xn + wn)
      ensures Wrote(V(old(m.cells), xo, xn), 2 * b.numdigits, taillen)
      decreases lower, 1, 2
    {
      ghost var s0 := m.cells;
      var qo, qn := DivideBy(m, cache, xo, xn, wn, b, lower);
      ghost var s1 := m.cells;
      RoomyBelow(cache, s1, xn + wn - (b.n + qn), lower);
      assert |s1| == |s0| && cache.Avoids(xo, xn + wn);
      hide Exp, V, Pow, Pow2, Grown, Keeps, Roomy;
      WriteParts(m, cache, xo, xn + wn, qo, qn, lower, b, taillen, V(s0, xo, xn));
      KeepsThen(s0, s1, m.cells, xo, xn + wn, xo, xn + wn);
    }

    // The quotient and then the remainder, which are in `total` digits at xo
    method WriteParts(m: Memory, cache: Cache, xo: nat, total: nat, qo: nat, qn: nat, lower: nat, b: Power, taillen: nat,
                      ghost x: nat)
      requires Sized() && Suits(cache) && cache.Valid(m.cells) && cache.Avoids(xo, total) && xo + total <= |m.cells|
      requires lower in cache.powers && b == cache.powers[lower] && qo == xo + b.n && b.n + qn <= total && qn <= b.n
      requires Roomy(cache, total - (b.n + qn), lower)
      requires qn == 0 || m.cells[qo + qn - 1] != 0
      requires 0 < V(m.cells, qo, qn) < Exp(base, b.numdigits) && V(m.cells, xo, b.n) < Exp(base, b.numdigits)
      requires x == V(m.cells, qo, qn) * Exp(base, b.numdigits) + V(m.cells, xo, b.n) && Fits(2 * b.numdigits)
      modifies this, result, m, cache`powers
      ensures cache.powers == old(cache.powers) && cache.Valid(m.cells)
      ensures Keeps(old(m.cells), m.cells, xo, total)
      ensures Wrote(x, 2 * b.numdigits, taillen)
      decreases lower, 1, 1
    {
      ghost var s1, n := m.cells, b.numdigits;
      ghost var q, r := V(s1, qo, qn), V(s1, xo, b.n);
      ghost var begun0, text0, len0 := begun, Text(), result.Length;
      hide Exp, Padded, Numeral, DigitChar, V, Pow, Pow2, Grown, Roomy, Keeps;
      WriteQuotient(m, cache, xo, total, b, qn, lower, taillen);
      ghost var s2 := m.cells;
      ghost var begun1, text1, len1 := begun, Text(), result.Length;
      WriteRemainder(m, cache, xo, total, b.n, lower, taillen);
      GrownHalves(Sign(), base, begun0, text0, len0, q, r, n, taillen, begun1, text1, len1, begun, Text(), result.Length);
      KeepsThen(s1, s2, m.cells, xo, total, xo, total);
    }

    // The quotient, above the remainder
    method WriteQuotient(m: Memory, cache: Cache, xo: nat, total: nat, b: Power, qn: nat, lower: nat, taillen: nat)
      requires Sized() && Suits(cache) && cache.Valid(m.cells) && cache.Avoids(xo, total) && xo + total <= |m.cells|
      requires lower in cache.powers && b == cache.powers[lower] && b.n + qn <= total && qn <= b.n
      requires Roomy(cache, total - (b.n + qn), lower)
      requires qn == 0 || m.cells[xo + b.n + qn - 1] != 0
      requires 0 < V(m.cells, xo + b.n, qn) < Exp(base, b.numdigits) && Fits(2 * b.numdigits)
      modifies this, result, m, cache`powers
      ensures cache.powers == old(cache.powers) && cache.Valid(m.cells) && |m.cells| == |old(m.cells)|
      ensures Keeps(old(m.cells), m.cells, xo, total) && V(m.cells, xo, b.n) == V(old(m.cells), xo, b.n)
      ensures b.numdigits == hbase2Numdigits * Pow2(lower) && Roomy(cache, total - b.n, lower)
      ensures begun && Fits(b.numdigits)
      ensures Wrote(V(old(m.cells), xo + b.n, qn), b.numdigits, b.numdigits + taillen)
      decreases lower, 1, 0
    {
      ghost var s1, n := m.cells, b.numdigits;
      ghost var begun0, text0, len0 := begun, Text(), result.Length;
      hide Exp, Padded, Numeral, DigitChar, V, Pow, Pow2, Grown;
      Karatsuba(m, cache, xo + b.n, qn, total - (b.n + qn), lower, b.numdigits + taillen);
      StillFits(Sign(), base, begun0, text0, len0, V(s1, xo + b.n, qn), n, taillen, begun, Text(), result.Length);
      KeepsIntro(s1, m.cells, xo, total);
    }

    // The remainder, of n digits of which some at the top can be zero
    method WriteRemainder(m: Memory, cache: Cache, xo: nat, total: nat, n: nat, lower: nat, taillen: nat)
      requires Sized() && Suits(cache) && cache.Valid(m.cells) && cache.Avoids(xo, total) && xo + total <= |m.cells|
      requires n <= total && Roomy(cache, total - n, lower) && V(m.cells, xo, n) < Exp(base, hbase2Numdigits * Pow2(lower))
      requires begun ==> lower in cache.powers && Fits(hbase2Numdigits * Pow2(lower))
      modifies this, result, m, cache`powers
      ensures cache.powers == old(cache.powers) && cache.Valid(m.cells)
      ensures Keeps(old(m.cells), m.cells, xo, total)
      ensures Wrote(V(old(m.cells), xo, n), hbase2Numdigits * Pow2(lower), taillen)
      decreases lower, 1, 0
    {
      hide Exp, Padded, Numeral, V, Pow, Pow2, Grown, Keeps;
      var rn := Trunc(m, xo, n);
      Karatsuba(m, cache, xo, rn, total - rn, lower, taillen);
    }

    // Remainder and quotient, in the place of x; the quotient without leading zeros is no longer than b.
    method DivideBy(m: Memory, cache: Cache, xo: nat, xn: nat, wn: nat, b: Power, ghost lower: nat)
      returns (qo: nat, qn: nat)
      requires Suits(cache) && Placed(cache, m.cells, xo, xn, wn)
      requires lower in cache.powers && b == cache.powers[lower] && lower + 1 + b.n <= wn
      requires V(m.cells, b.o, b.n) <= V(m.cells, xo, xn) < Exp(base, 2 * b.numdigits)
      modifies m
      ensures cache.Valid(m.cells) && Keeps(old(m.cells), m.cells, xo, xn + wn)
      ensures b.n <= xn && qo == xo + b.n && qn <= b.n && qn <= xn + 1 - b.n
      ensures qn == 0 || m.cells[qo + qn - 1] != 0
      ensures V(old(m.cells), xo, xn) == V(m.cells, qo, qn) * Exp(base, b.numdigits) + V(m.cells, xo, b.n)
      ensures 0 < V(m.cells, qo, qn) < Exp(base, b.numdigits) && V(m.cells, xo, b.n) < Exp(base, b.numdigits)
    {
      ghost var s0 := m.cells;
      ghost var x, y := V(s0, xo, xn), V(s0, b.o, b.n);
      NotLonger(s0, xo, xn, b.o, b.n);
      DivideInPlace(m, xo, xn, wn, b.o, b.n);
      ghost var s1 := m.cells;
      cache.ValidKeeps(s0, s1, xo, xn + wn);
      QuotientFits(x, y, b.numdigits, base);
      qo := xo + b.n;
      qn := Trunc(m, qo, xn + 1 - b.n);
      // assert(qn <= bn)
      NotLonger(s1, b.o, b.n, qo, qn);
      assert qn <= b.n;
    }
  }

  method FillDigits(p: array<char>, at: nat, n: nat, num0: nat, base: Base)
    requires 0 < n && at + n <= p.Length
    modifies p
    ensures p[..at] == old(p[..at]) && p[at..at + n] == Padded(num0, n, base)
  {
    var num: nat, j := num0, n;
    ghost var tail := "";
    assert Padded(num, n, base) + tail == Padded(num, n, base);
    hide Padded;
    while true
      invariant 0 < j <= n && p[..at] == old(p[..at]) && p[at + j..at + n] == tail
      invariant Padded(num0, n, base) == Padded(num, j, base) + tail
      decreases j
    {
      var rest, idx := DivBase(num, base);
      OneDigitLess(num, rest, idx, j, base, tail);
      num := rest;
      j := j - 1;
      p[at + j] := DigitChar(idx);
      tail := [DigitChar(idx)] + tail;
      if j == 0 {
        break;
      }
    }
    assert Padded(num, 0, base) + tail == tail;
  }

  // num / base and num % base
  method DivBase(num: nat, base: Base) returns (q: nat, r: nat)
    ensures num == q * base + r && r < base
  {
    q, r := num / base, num % base;
    DivMod(num, base);
  }

  lemma OneDigitLess(num: nat, q: nat, r: nat, j: nat, base: Base, tail: string)
    requires 0 < j && num == q * base + r && r < base
    ensures Padded(num, j, base) + tail == Padded(q, j - 1, base) + ([DigitChar(r)] + tail)
  {
    PaddedStep(num, j, base);
    DivUnique(num, base, q, r);
  }

  // bary2bdigitdbl
  method BdigitDbl(m: Memory, xo: nat, xn: nat) returns (num: nat)
    requires xn <= 2 && xo + xn <= |m.cells|
    ensures num == V(m.cells, xo, xn)
  {
    if xn == 2 {
      VTwo(m.cells, xo);
      return m.cells[xo] + B * m.cells[xo + 1];
    }
    if xn == 1 {
      VOne(m.cells, xo);
      return m.cells[xo];
    }
    return 0;
  }

  // The digits of a number of two digits, in a buffer that is long enough for base 2
  method DigitsOf(num0: nat, base: Base) returns (s: string)
    requires 0 < num0 < B * B
    ensures s == Numeral(num0, base)
  {
    hide DigitChar, Conv;
    Pow2Add(W, W);
    var size := 2 * W;
    var buf := new char[size];
    var num, j := num0, size;
    assert num < Pow2(j);
    while true
      invariant 0 < j <= size && 0 < num < Pow2(j)
      invariant Numeral(num0, base) == Numeral(num, base) + buf[j..]
      decreases j
    {
      var idx := num % base;
      ghost var later, was := buf[j..], num;
      num := num / base;
      j := j - 1;
      HalfAtLeast(was, base, Pow2(j));
      buf[j] := DigitChar(idx);
      assert buf[j..] == [DigitChar(idx)] + later;
      if num == 0 {
        assert was < base && was % base == was by { DivMod(was, base); }
        assert Numeral(was, base) == [DigitChar(idx)];
        break;
      }
      assert base <= was by { DivMod(was, base); SmallHasNoQuotient(was, base); }
      NumeralStep(was, base);
      assert Numeral(num, base) + [DigitChar(idx)] + later == Numeral(num, base) + ([DigitChar(idx)] + later);
    }
    s := buf[j..];
  }

  lemma HalfAtLeast(x: nat, base: Base, p: nat)
    requires x < 2 * p
    ensures x / base < p
    ensures p == 1 ==> x / base == 0
  {
    DivMod(x, base);
    LeMul(x / base, 2, base);
  }

  lemma SmallHasNoQuotient(x: nat, base: Base)
    ensures x < base ==> x / base == 0
  {
    if x < base {
      DivUnique(x, base, 0, x);
    }
  }

  // ---- one division ----

  // x, with one more digit, is replaced by remainder and quotient; the divisor is normalised in the
  // workspace behind x unless it is normalised already.
  method DivideInPlace(m: Memory, xo: nat, xn: nat, wn: nat, bo: nat, bn: nat)
    requires xo + xn + wn <= |m.cells| && bo + bn <= |m.cells| && Apart(bo, bn, xo, xn + wn)
    requires 0 < bn <= xn && bn + 1 <= wn && m.cells[bo + bn - 1] != 0
    modifies m
    ensures 0 < V(old(m.cells), bo, bn)
    ensures Keeps(old(m.cells), m.cells, xo, xn + wn)
    ensures V(m.cells, xo, bn) == V(old(m.cells), xo, xn) % V(old(m.cells), bo, bn)
    ensures V(m.cells, xo + bn, xn + 1 - bn) == V(old(m.cells), xo, xn) / V(old(m.cells), bo, bn)
  {
    ghost var s0 := m.cells;
    VPositive(s0, bo, bn, bn - 1);
    var shift := Nlz(m.cells[bo + bn - 1]);
    hide V, Pow, Pow2;
    ghost var x, y, f := V(s0, xo, xn), V(s0, bo, bn), Pow2(shift);
    var qn := xn + 1;
    var td := if shift == 0 then bo else xo + qn;
    Scale(m, xo, xn, wn, bo, bn, td, shift);
    ghost var s1 := m.cells;
    Restoring(m, xo, qn, td, bn);
    QuotientOf(x, y, f, V(m.cells, xo + bn, qn - bn), V(m.cells, xo, bn));
    ghost var s2 := m.cells;
    if shift != 0 {
      SmallRshift(m, xo, xo, bn, shift, 0);
      ModSmall(0, f);
      ShiftedBack(V(m.cells, xo, bn), s2[xo], f, x % y);
    } else {
      KeepsIntro(s2, m.cells, xo, bn);
      NoShift(x % y);
    }
    KeepsThen(s0, s1, s2, xo, xn + wn, xo, qn);
    KeepsThen(s0, s2, m.cells, xo, xn + wn, xo, bn);
  }

  lemma NoShift(r: nat)
    ensures r * Pow2(0) == r
  {
  }

  method Scale(m: Memory, xo: nat, xn: nat, wn: nat, bo: nat, bn: nat, td: nat, shift: nat)
    requires xo + xn + wn <= |m.cells| && bo + bn <= |m.cells| && Apart(bo, bn, xo, xn + wn)
    requires 0 < bn <= xn && bn + 1 <= wn && m.cells[bo + bn - 1] != 0
    requires shift == Nlz(m.cells[bo + bn - 1]) && td == (if shift == 0 then bo else xo + (xn + 1))
    modifies m
    ensures Keeps(old(m.cells), m.cells, xo, xn + wn)
    ensures V(m.cells, xo, xn + 1) == V(old(m.cells), xo, xn) * Pow2(shift)
    ensures td + bn <= |m.cells| && Apart(td, bn, xo, xn + 1)
    ensures V(m.cells, td, bn) == V(old(m.cells), bo, bn) * Pow2(shift)
    ensures Msb(m.cells[td + bn - 1]) && m.cells[xo + xn] < m.cells[td + bn - 1]
  {
    ghost var s0 := m.cells;
    if shift == 0 {
      m.cells := m.cells[xo + xn := 0];
      KeepsIntro(s0, m.cells, xo, xn + wn);
      KeepsIntro(s0, m.cells, xo + xn, 1);
      assert V(m.cells, xo, xn + 1) == V(m.cells, xo, xn) + 0 * Pow(xn);
      assert Pow2(0) == 1;
    } else {
      // assert(qn + bn <= xn + wn)
      assert xn + 1 + bn <= xn + wn;
      Normalise(m, s0, xo, xo, xn, td, bo, bn, shift);
      KeepsIntro(s0, m.cells, xo, xn + wn);
    }
  }

  // ---- comparing with a power ----

  method Less(m: Memory, xo: nat, xn: nat, b: Power) returns (less: bool)
    requires xo + xn <= |m.cells| && b.o + b.n <= |m.cells| && 0 < b.n && m.cells[b.o + b.n - 1] != 0
    requires xn == 0 || m.cells[xo + xn - 1] != 0
    ensures less <==> V(m.cells, xo, xn) < V(m.cells, b.o, b.n)
  {
    if xn < b.n {
      Longer(m.cells, xo, xn, b.o, b.n);
      return true;
    }
    if xn == b.n {
      var c := Cmp(m, xo, xn, b.o, b.n);
      return c < 0;
    }
    Longer(m.cells, b.o, b.n, xo, xn);
    return false;
  }

  // A number without leading zeros is no longer than one that is no smaller.
  lemma NotLonger(s: seq<Digit>, xo: nat, xn: nat, yo: nat, yn: nat)
    requires xo + xn <= |s| && yo + yn <= |s| && V(s, yo, yn) <= V(s, xo, xn)
    requires yn == 0 || s[yo + yn - 1] != 0
    ensures yn <= xn
  {
    if xn < yn {
      Longer(s, xo, xn, yo, yn);
    }
  }

  lemma AtMostTwo(s: seq<Digit>, xo: nat, xn: nat, p: nat)
    requires xo + xn <= |s| && (xn == 0 || s[xo + xn - 1] != 0) && V(s, xo, xn) < p <= B * B
    ensures xn <= 2
  {
    if 2 < xn {
      VPositive(s, xo, xn, xn - 1);
      PowMono(2, xn - 1);
      Pow1();
    }
  }

  lemma QuotientFits(x: nat, y: nat, n: nat, base: Base)
    requires y == Exp(base, n) && y <= x < Exp(base, 2 * n)
    ensures 0 < x / y < Exp(base, n) && x % y < Exp(base, n) && x == (x / y) * Exp(base, n) + x % y
  {
    ExpAdd(base, n, n);
    DivMod(x, y);
    QuotientBelow(x, y, y);
    SomeQuotient(x, y, x / y, x % y);
  }

  lemma SomeQuotient(x: nat, y: nat, q: nat, r: nat)
    requires x == q * y + r && r < y <= x
    ensures 0 < q
  {
  }

  // ---- the whole number ----

  lemma SquareAbove(a: nat, b: nat)
    requires a <= b
    ensures a * a <= b * b
  {
    LeMul(a, a, b);
    LeMul(b, a, b);
  }

  lemma DoubleExponent(cache: Cache, p: Power, level: nat)
    requires p.numdigits == cache.hbase2Numdigits * Pow2(level)
    ensures Exp(cache.base, cache.hbase2Numdigits * Pow2(level + 1)) == Exp(cache.base, p.numdigits) * Exp(cache.base, p.numdigits)
  {
    ExpAdd(cache.base, p.numdigits, p.numdigits);
    assert cache.hbase2Numdigits * Pow2(level + 1) == p.numdigits + p.numdigits;
  }

  // The first level whose power has more than half the digits of x, or the one after it, has a power above x.
  lemma LevelSuffices(cache: Cache, s: seq<Digit>, xo: nat, xn: nat, level: nat)
    requires cache.Valid(s) && level in cache.powers && xo + xn <= |s| && (xn + 1) / 2 < cache.powers[level].n
    ensures cache.powers[level].n <= xn ==>
              V(s, xo, xn) < Exp(cache.base, cache.hbase2Numdigits * Pow2(level + 1))
    ensures xn < cache.powers[level].n ==>
              V(s, xo, xn) < Exp(cache.base, cache.hbase2Numdigits * Pow2(level))
  {
    var p := cache.powers[level];
    var k := p.n - 1;
    assert cache.Holds(s, p, level);
    VBound(s, xo, xn);
    VPositive(s, p.o, p.n, k);
    DoubleExponent(cache, p, level);
    hide V, Exp, Pow, Pow2;
    if p.n <= xn {
      assert xn <= 2 * k;
      PowMono(xn, 2 * k);
      PowAdd(k, k);
      assert k + k == 2 * k;
      SquareAbove(Pow(k), V(s, p.o, p.n));
    } else {
      PowMono(xn, k);
    }
  }

  // The level to start from, with the power whose length measures the workspace
  method StartLevel(m: Memory, cache: Cache, xo: nat, xn: nat) returns (level: nat, power: Power)
    requires cache.Valid(m.cells) && xo + xn <= |m.cells|
    modifies m, cache`powers
    ensures old(m.cells) <= m.cells && cache.Valid(m.cells)
    ensures V(m.cells, xo, xn) < Exp(cache.base, cache.hbase2Numdigits * Pow2(level))
    ensures level == 0 ==> xn <= 2
    ensures level > 0 ==> level - 1 in cache.powers && cache.powers[level - 1].n <= power.n
  {
    ghost var s0 := m.cells;
    level := 0;
    power := cache.GetPower(m, level);
    while power.n <= (xn + 1) / 2
      invariant s0 <= m.cells && cache.Valid(m.cells) && level in cache.powers && power == cache.powers[level]
      decreases (xn + 1) / 2 - level
    {
      level := level + 1;
      power := cache.GetPower(m, level);
    }
    LevelSuffices(cache, m.cells, xo, xn, level);
    if power.n <= xn {
      level := level + 1;
    } else if level > 0 {
      cache.LongerPowers(m.cells, level - 1, level);
    } else {
      assert Pow2(0) == 1;
      AtMostTwo(m.cells, power.o, power.n, B * B);
    }
  }

  // What is printed for a number and its sign
  function Printed(negative: bool, x: nat, base: Base): string
  {
    if negative && x != 0 then "-" + Numeral(x, base) else Numeral(x, base)
  }

  // The characters of the digits: the first of them is not zero unless it is the only one.
  ghost predicate WrittenOut(t: string, x: nat, base: Base)
  {
    && 0 < |t| && (x == 0 ==> t == "0") && (x != 0 ==> Exp(base, |t| - 1) <= x < Exp(base, |t|))
    && forall k :: 0 <= k < |t| ==> DigitAt(t, x, base, k)
  }

  // Character k from the right is the digit of x at place k.
  ghost predicate DigitAt(t: string, x: nat, base: Base, k: nat)
    requires k < |t|
  {
    0 <= x / Exp(base, k) % base < base && t[|t| - 1 - k] == DigitChar(x / Exp(base, k) % base)
  }

  // What is printed: a minus sign for a negative number, and then the digits
  lemma PrintedOut(negative: bool, x: nat, base: Base)
    ensures var s := Printed(negative, x, base);
            if negative && x != 0 then s != [] && s[0] == '-' && WrittenOut(s[1..], x, base) else WrittenOut(s, x, base)
  {
    NumeralOut(x, base);
    assert ("-" + Numeral(x, base))[1..] == Numeral(x, base);
    hide WrittenOut, Numeral;
  }

  lemma NumeralOut(x: nat, base: Base)
    ensures WrittenOut(Numeral(x, base), x, base)
  {
    var t := Numeral(x, base);
    if x != 0 {
      NumeralLength(x, base);
    }
    assert x == 0 ==> t == "0";
    hide DigitAt;
    forall k | 0 <= k < |t| ensures DigitAt(t, x, base, k) {
      DigitOut(x, base, k);
    }
  }

  lemma DigitOut(x: nat, base: Base, k: nat)
    requires k < |Numeral(x, base)|
    ensures DigitAt(Numeral(x, base), x, base, k)
  {
    hide Numeral, DigitChar, Exp;
    NumeralAt(x, base, k);
  }

  // big2str_generic
  method Big2strGeneric(m: Memory, cache: Cache, xo: nat, xn0: nat, negative: bool) returns (s: string)
    requires cache.Valid(m.cells) && xo + xn0 <= |m.cells|
    modifies m, cache`powers
    ensures s == Printed(negative, V(old(m.cells), xo, xn0), cache.base)
    ensures var x := V(old(m.cells), xo, xn0);
            if negative && x != 0 then s != [] && s[0] == '-' && WrittenOut(s[1..], x, cache.base)
            else WrittenOut(s, x, cache.base)
    ensures old(m.cells) <= m.cells && cache.Valid(m.cells)
  {
    PrintedOut(negative, V(m.cells, xo, xn0), cache.base);
    hide WrittenOut;
    ghost var s0 := m.cells;
    ghost var x := V(s0, xo, xn0);
    var xn := Trunc(m, xo, xn0);
    if xn == 0 {
      assert DigitChar(0) == '0';
      return "0";
    }
    VPositive(s0, xo, xn, xn - 1);
    var level, power := StartLevel(m, cache, xo, xn);
    VPrefix(s0, m.cells, xo, xn);
    s := PrintFrom(m, cache, xo, xn, negative, level, power);
  }

  method PrintFrom(m: Memory, cache: Cache, xo: nat, xn: nat, negative: bool, level: nat, power: Power) returns (s: string)
    requires cache.Valid(m.cells) && xo + xn <= |m.cells| && 0 < xn && m.cells[xo + xn - 1] != 0 && 0 < V(m.cells, xo, xn)
    requires V(m.cells, xo, xn) < Exp(cache.base, cache.hbase2Numdigits * Pow2(level))
    requires level == 0 ==> xn <= 2
    requires level > 0 ==> level - 1 in cache.powers && cache.powers[level - 1].n <= power.n
    modifies m, cache`powers
    ensures s == Printed(negative, V(old(m.cells), xo, xn), cache.base)
    ensures m.cells == old(m.cells) && cache.powers == old(cache.powers)
  {
    var b2s := new Big2Str(negative, cache);
    if level == 0 {
      assert Pow2(0) == 1;
      b2s.TwoDigits(m, xo, xn, 0);
    } else {
      InWorkspace(b2s, m, cache, xo, xn, level, power);
    }
    s := b2s.result[..b2s.ptr];
  }

  // The number is copied to a block with room to divide it, printed there, and the block released.
  method InWorkspace(b2s: Big2Str, m: Memory, cache: Cache, xo: nat, xn: nat, level: nat, power: Power)
    requires b2s.Sized() && b2s.Suits(cache) && cache.Valid(m.cells) && xo + xn <= |m.cells| && !b2s.begun
    requires 0 < xn && m.cells[xo + xn - 1] != 0 && 0 < level
    requires V(m.cells, xo, xn) < Exp(cache.base, cache.hbase2Numdigits * Pow2(level))
    requires level - 1 in cache.powers && cache.powers[level - 1].n <= power.n
    modifies b2s, b2s.result, m, cache`powers
    ensures m.cells == old(m.cells) && cache.powers == old(cache.powers)
    ensures b2s.Wrote(V(m.cells, xo, xn), b2s.hbase2Numdigits * Pow2(level), 0)
  {
    ghost var s0 := m.cells;
    var wn := level * EXTRA_WORDS + power.n;
    var wo := m.Alloc(xn + wn);
    ghost var s1 := m.cells;
    VPrefix(s0, s1, xo, xn);
    Move(m, wo, xo, xn);
    KeepsPrefix(s0, s1, m.cells, wo, xn);
    cache.ValidGrows(s0, m.cells);
    assert m.cells[wo..wo + xn][xn - 1] == s1[xo..xo + xn][xn - 1];
    ghost var s2 := m.cells;
    b2s.Karatsuba(m, cache, wo, xn, wn, level, 0);
    KeepsPrefix(s0, s2, m.cells, wo, xn + wn);
    m.Free(wo);
  }

  // BIGDIVREM_EXTRA_WORDS
  const EXTRA_WORDS: nat := 1
}
