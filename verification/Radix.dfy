/**
 Numbers written in a radix of 2 to 36: the digit characters, the numeral of a number,
 the numeral padded with zeros, and the number a string of digits stands for.
 */
module Radix {
  import opened Kernel

  // valid_radix_p
  type Base = b: nat | 2 <= b <= 36 witness 2

  // ruby_digitmap
  const DIGITMAP: string := "0123456789abcdefghijklmnopqrstuvwxyz"

  function DigitChar(d: nat): (c: char)
    requires d < 36
    ensures Conv(c) == d
  {
    DIGITMAP[d]
  }

  // conv_digit: letters of either case are digits, anything else is not
  function Conv(c: char): (d: int)
    ensures -1 <= d < 36
  {
    if '0' <= c <= '9' then c as int - '0' as int
    else if 'a' <= c <= 'z' then c as int - 'a' as int + 10
    else if 'A' <= c <= 'Z' then c as int - 'A' as int + 10
    else -1
  }

  function Exp(b: nat, n: nat): (p: nat)
    ensures 0 < b ==> 0 < p
  {
    if n == 0 then 1 else b * Exp(b, n - 1)
  }

  // The numeral of x: its digits, the first of them not zero unless x is.
  function Numeral(x: nat, base: Base): (s: string)
    ensures 0 < |s|
  {
    if x < base then [DigitChar(x)] else Numeral(x / base, base) + [DigitChar(x % base)]
  }

  // The last n digits of x, zeros in front.
  function Padded(x: nat, n: nat, base: Base): (s: string)
    ensures |s| == n
  {
    if n == 0 then [] else Padded(x / base, n - 1, base) + [DigitChar(x % base)]
  }

  function Zeros(n: nat): (s: string)
    ensures |s| == n
  {
    seq(n, _ => '0')
  }

  // The number written by s.  Characters that are not digits (underscores) are passed over.
  function Value(s: string, base: Base): nat
  {
    if s == [] then 0
    else
      var c := Conv(s[|s| - 1]);
      if c < 0 then Value(s[..|s| - 1], base) else Value(s[..|s| - 1], base) * base + c
  }

  // How many digits there are in s.
  function Count(s: string): (n: nat)
    ensures n <= |s|
  {
    if s == [] then 0 else Count(s[..|s| - 1]) + (if Conv(s[|s| - 1]) < 0 then 0 else 1)
  }

  // ---- powers ----

  lemma ExpAdd(b: nat, m: nat, n: nat)
    ensures Exp(b, m + n) == Exp(b, m) * Exp(b, n)
  {
    if m != 0 {
      ExpAdd(b, m - 1, n);
      assert b * (Exp(b, m - 1) * Exp(b, n)) == (b * Exp(b, m - 1)) * Exp(b, n);
    }
  }

  lemma ExpMono(b: nat, m: nat, n: nat)
    requires m <= n && 0 < b
    ensures Exp(b, m) <= Exp(b, n)
    decreases n
  {
    if m < n {
      ExpMono(b, m, n - 1);
      assert Exp(b, n - 1) <= b * Exp(b, n - 1);
    }
  }

  lemma ExpLess(b: nat, m: nat, n: nat)
    requires m < n && 1 < b
    ensures Exp(b, m) < Exp(b, n)
  {
    ExpMono(b, m + 1, n);
    assert Exp(b, m + 1) == b * Exp(b, m);
  }

  // ---- splitting numerals ----

  lemma PaddedStep(x: nat, n: nat, base: Base)
    requires 0 < n
    ensures Padded(x, n, base) == Padded(x / base, n - 1, base) + [DigitChar(x % base)]
  {
  }

  lemma NumeralStep(x: nat, base: Base)
    requires base <= x
    ensures Numeral(x, base) == Numeral(x / base, base) + [DigitChar(x % base)]
  {
  }

  lemma Snoc(s: string, t: string, c: char)
    ensures s + (t + [c]) == (s + t) + [c]
  {
  }

  // The same for a quotient and remainder found otherwise
  lemma {:induction false} PaddedDigits(x: nat, q: nat, d: nat, n: nat, base: Base)
    requires 0 < n && x == q * base + d && d < base
    ensures Padded(x, n, base) == Padded(q, n - 1, base) + [DigitChar(d)]
  {
    DivUnique(x, base, q, d);
    PaddedStep(x, n, base);
  }

  lemma {:induction false} NumeralDigits(x: nat, q: nat, d: nat, base: Base)
    requires base <= x && x == q * base + d && d < base
    ensures Numeral(x, base) == Numeral(q, base) + [DigitChar(d)]
  {
    DivUnique(x, base, q, d);
    NumeralStep(x, base);
  }

  lemma SplitParts(q: nat, p: nat, r: nat, d: nat, base: nat)
    requires d < base && r * base + d < base * p
    ensures q * (base * p) + (r * base + d) == (q * p + r) * base + d
    ensures r < p
  {
    assert (q * p + r) * base == q * (base * p) + r * base;
    if p <= r {
      LeMul(base, p, r);
    }
  }

  lemma {:induction false} PaddedNone(q: nat, r: nat, m: nat, base: Base)
    requires r < Exp(base, 0)
    ensures Padded(q * Exp(base, 0) + r, m + 0, base) == Padded(q, m, base) + Padded(r, 0, base)
  {
    assert Exp(base, 0) == 1 && r == 0 && Padded(r, 0, base) == [];
    hide Exp, Padded;
    assert q * Exp(base, 0) + r == q;
    assert Padded(q, m, base) + [] == Padded(q, m, base);
  }

  // The digits of q * base^n + r are those of q followed by n digits of r.
  lemma {:induction false} PaddedSplit(q: nat, r: nat, m: nat, n: nat, base: Base)
    requires r < Exp(base, n)
    ensures Padded(q * Exp(base, n) + r, m + n, base) == Padded(q, m, base) + Padded(r, n, base)
    decreases n
  {
    hide Exp, Padded;
    if n == 0 {
      PaddedNone(q, r, m, base);
    } else {
      var r', d := SplitOff(q, r, n, base);
      PaddedSplit(q, r', m, n - 1, base);
      PaddedOneMore(q * Exp(base, n) + r, q * Exp(base, n - 1) + r', q, m, r, r', d, n, base);
    }
  }

  lemma {:induction false} NumeralNone(q: nat, r: nat, base: Base)
    requires r < Exp(base, 0)
    ensures Numeral(q * Exp(base, 0) + r, base) == Numeral(q, base) + Padded(r, 0, base)
  {
    assert Exp(base, 0) == 1 && r == 0 && Padded(r, 0, base) == [];
    hide Exp, Padded, Numeral;
    assert q * Exp(base, 0) + r == q;
    assert Numeral(q, base) + [] == Numeral(q, base);
  }

  lemma {:induction false} NumeralSplit(q: nat, r: nat, n: nat, base: Base)
    requires 0 < q && r < Exp(base, n)
    ensures Numeral(q * Exp(base, n) + r, base) == Numeral(q, base) + Padded(r, n, base)
    decreases n
  {
    hide Exp, Padded, Numeral, DigitChar;
    if n == 0 {
      NumeralNone(q, r, base);
    } else {
      var r', d := SplitOff(q, r, n, base);
      NumeralSplit(q, r', n - 1, base);
      NumeralOneMore(q * Exp(base, n) + r, q * Exp(base, n - 1) + r', q, r, r', d, n, base);
    }
  }

  // The last digit of r is the last digit of the whole.
  lemma {:induction false} SplitOff(q: nat, r: nat, n: nat, base: Base) returns (r': nat, d: nat)
    requires 0 < n && r < Exp(base, n)
    ensures d < base && r == r' * base + d && r' < Exp(base, n - 1)
    ensures q * Exp(base, n) + r == (q * Exp(base, n - 1) + r') * base + d
    ensures 0 < q ==> base <= q * Exp(base, n) + r
  {
    var e, p := Exp(base, n), Exp(base, n - 1);
    assert e == base * p;
    hide Exp;
    r', d := Parts(r, base);
    SplitParts(q, p, r', d, base);
    if 0 < q {
      AtLeastBase(q, p, r, base);
    }
  }

  lemma {:induction false} PaddedOneMore(x: nat, y: nat, q: nat, m: nat, r: nat, r': nat, d: nat, n: nat, base: Base)
    requires 0 < n && d < base && x == y * base + d && r == r' * base + d
    requires Padded(y, m + (n - 1), base) == Padded(q, m, base) + Padded(r', n - 1, base)
    ensures Padded(x, m + n, base) == Padded(q, m, base) + Padded(r, n, base)
  {
    PaddedDigits(x, y, d, m + n, base);
    PaddedDigits(r, r', d, n, base);
    Snoc(Padded(q, m, base), Padded(r', n - 1, base), DigitChar(d));
  }

  lemma {:induction false} NumeralOneMore(x: nat, y: nat, q: nat, r: nat, r': nat, d: nat, n: nat, base: Base)
    requires 0 < n && d < base <= x && x == y * base + d && r == r' * base + d
    requires Numeral(y, base) == Numeral(q, base) + Padded(r', n - 1, base)
    ensures Numeral(x, base) == Numeral(q, base) + Padded(r, n, base)
  {
    NumeralDigits(x, y, d, base);
    PaddedDigits(r, r', d, n, base);
    Snoc(Numeral(q, base), Padded(r', n - 1, base), DigitChar(d));
  }

  lemma AtLeastBase(q: nat, p: nat, r: nat, base: nat)
    requires 0 < q && 0 < p
    ensures base <= q * (base * p) + r
  {
    LeMul(base, 1, q * p);
    assert q * (base * p) == base * (q * p);
  }

  lemma {:induction false} PaddedZero(n: nat, base: Base)
    ensures Padded(0, n, base) == Zeros(n)
  {
    if n != 0 {
      PaddedZero(n - 1, base);
      assert DigitChar(0) == '0' && 0 / base == 0 && 0 % base == 0;
      assert Zeros(n) == Zeros(n - 1) + ['0'];
    }
  }

  // A number below base^n, padded further.
  lemma PaddedWider(x: nat, m: nat, n: nat, base: Base)
    requires x < Exp(base, n)
    ensures Padded(x, m + n, base) == Zeros(m) + Padded(x, n, base)
  {
    PaddedSplit(0, x, m, n, base);
    assert 0 * Exp(base, n) + x == x;
    PaddedZero(m, base);
  }

  // ---- reading undoes writing ----

  lemma {:induction false} ValueOfNumeral(x: nat, base: Base)
    ensures Value(Numeral(x, base), base) == x
  {
    if x < base {
      assert [] + [DigitChar(x)] == [DigitChar(x)];
      ValueSnoc([], x, base);
    } else {
      NumeralStep(x, base);
      hide Numeral, Value;
      var q, r := Parts(x, base);
      ValueOfNumeral(q, base);
      ValueSnoc(Numeral(q, base), r, base);
    }
  }

  // Quotient and remainder by the base.
  lemma Parts(x: nat, base: Base) returns (q: nat, r: nat)
    ensures q == x / base && r == x % base && r < base && x == q * base + r
    ensures base <= x ==> 0 < q < x
  {
    q, r := x / base, x % base;
    DivMod(x, base);
    assert base <= x ==> 0 < q;
    assert q <= x;
    if q == x && 0 < q {
      LeMul(q, 2, base);
    }
  }

  lemma ValueSnoc(s: string, d: nat, base: Base)
    requires d < base
    ensures Value(s + [DigitChar(d)], base) == Value(s, base) * base + d
  {
    assert (s + [DigitChar(d)])[..|s|] == s;
  }

  lemma {:induction false} CountNumeral(x: nat, base: Base)
    ensures Count(Numeral(x, base)) == |Numeral(x, base)|
    ensures Conforms(Numeral(x, base), base)
  {
    hide DigitChar, Conv, Conforms, Count;
    if x >= base {
      NumeralStep(x, base);
      hide Numeral;
      var q, d := Parts(x, base);
      CountNumeral(q, base);
      CountSnoc(Numeral(q, base), d);
      ConformsSnoc(Numeral(q, base), d, base);
    } else {
      assert Numeral(x, base) == [DigitChar(x)] == [] + [DigitChar(x)];
      hide Numeral;
      CountSnoc([], x);
      ConformsSnoc([], x, base);
      NoDigits(base);
    }
  }

  lemma NoDigits(base: Base)
    ensures Count([]) == 0 && Conforms([], base)
  {
  }

  lemma ConformsSnoc(s: string, d: nat, base: Base)
    requires d < base && (s == [] || Conforms(s, base))
    ensures Conforms(s + [DigitChar(d)], base)
  {
    hide DigitChar, Conv;
  }

  lemma {:induction false} CountSnoc(s: string, d: nat)
    requires d < 36
    ensures Count(s + [DigitChar(d)]) == Count(s) + 1
  {
    assert (s + [DigitChar(d)])[..|s|] == s;
  }

  // What the digit scanner lets through: digits below the base, and characters that are not digits.
  ghost predicate Conforms(s: string, base: Base)
  {
    forall i :: 0 <= i < |s| ==> Conv(s[i]) < base
  }

  lemma {:induction false} ValueBound(s: string, base: Base)
    requires Conforms(s, base)
    ensures Value(s, base) < Exp(base, Count(s))
  {
    if s != [] {
      var init := s[..|s| - 1];
      ValueBound(init, base);
      var c := Conv(s[|s| - 1]);
      if c >= 0 {
        OneMoreDigit(Value(init, base), Exp(base, Count(init)), c, base);
      }
    }
  }

  lemma OneMoreDigit(v: nat, p: nat, c: nat, base: nat)
    requires v < p && c < base
    ensures v * base + c < base * p
  {
    LeMul(base, v + 1, p);
  }

  // A numeral is as short as it can be.
  lemma {:induction false} NumeralLength(x: nat, base: Base)
    requires 0 < x
    ensures Exp(base, |Numeral(x, base)| - 1) <= x < Exp(base, |Numeral(x, base)|)
  {
    if x < base {
      assert Numeral(x, base) == [DigitChar(x)] && Exp(base, 0) == 1 && Exp(base, 1) == base * Exp(base, 0);
    } else {
      NumeralStep(x, base);
      hide Numeral;
      var q, r := Parts(x, base);
      var n := |Numeral(q, base)|;
      NumeralLength(q, base);
      LengthStep(q, r, Exp(base, n - 1), Exp(base, n), base);
    }
  }

  lemma LengthStep(q: nat, r: nat, low: nat, high: nat, base: nat)
    requires low <= q < high && r < base
    ensures base * low <= q * base + r < base * high
  {
    LeMul(base, low, q);
    LeMul(base, q + 1, high);
  }

  // ---- writing undoes reading ----

  // The digits in s, letters in lower case
  function Standard(s: string): string
  {
    if s == [] then []
    else
      var d := Conv(s[|s| - 1]);
      Standard(s[..|s| - 1]) + if d < 0 then [] else [DigitChar(d)]
  }

  // The number read, written with as many digits as were read, is what was read.
  lemma {:induction false} PaddedOfValue(s: string, base: Base)
    requires Conforms(s, base)
    ensures |Standard(s)| == Count(s) && Padded(Value(s, base), Count(s), base) == Standard(s)
  {
    if s != [] {
      var init, d := s[..|s| - 1], Conv(s[|s| - 1]);
      PaddedOfValue(init, base);
      if d >= 0 {
        PaddedDigits(Value(s, base), Value(init, base), d, Count(s), base);
      }
    }
  }

  // Without underscores and capital letters, what was read is the string itself.
  lemma {:induction false} StandardIsItself(s: string)
    requires forall i :: 0 <= i < |s| ==> 0 <= Conv(s[i]) && DigitChar(Conv(s[i])) == s[i]
    ensures Standard(s) == s
  {
    if s != [] {
      hide Conv, DigitChar;
      StandardIsItself(s[..|s| - 1]);
      assert s == s[..|s| - 1] + [s[|s| - 1]];
    }
  }

  // ---- the characters themselves ----

  // Character k from the right is the digit of x at place k.
  lemma {:induction false} NumeralAt(x: nat, base: Base, k: nat)
    requires k < |Numeral(x, base)|
    ensures 0 <= x / Exp(base, k) % base < base
    ensures Numeral(x, base)[|Numeral(x, base)| - 1 - k] == DigitChar(x / Exp(base, k) % base)
  {
    ModLess(x / Exp(base, k), base);
    ModOfSmall(x, base);
    if k == 0 {
      assert Exp(base, 0) == 1;
      hide DigitChar;
    } else {
      var p := Exp(base, k - 1);
      assert Exp(base, k) == base * p;
      var q, r := Parts(x, base);
      NumeralStep(x, base) by { assert base <= x; }
      hide DigitChar, Numeral, Exp;
      NumeralAt(q, base, k - 1);
      QuotientTwice(x, base, p);
    }
  }

  // The characters for digits
  lemma DigitCharIs(d: nat)
    requires d < 36
    ensures DigitChar(d) == "0123456789abcdefghijklmnopqrstuvwxyz"[d]
  {
  }

  lemma ModOfSmall(x: nat, base: nat)
    requires 0 < base
    ensures x / 1 == x && (x < base ==> x % base == x)
  {
    if x < base {
      DivUnique(x, base, 0, x);
    }
  }

  lemma QuotientTwice(x: nat, a: nat, b: nat)
    requires 0 < a && 0 < b
    ensures 0 < a * b && x / (a * b) == x / a / b
  {
    LeMul(a, 1, b);
    DivMod(x, a);
    DivMod(x / a, b);
    var q, r := x / a / b, x / a % b;
    LeMul(a, r + 1, b);
    assert x == (a * b) * q + (a * r + x % a);
    DivUnique(x, a * b, q, a * r + x % a);
  }

  // What a character means when it is read: letters of either case, and nothing else
  lemma ConvTable(c: char, d: nat)
    requires d < 36
    ensures Conv(c) == d
       <==> c == "0123456789abcdefghijklmnopqrstuvwxyz"[d] || c == "0123456789ABCDEFGHIJKLMNOPQRSTUVWXYZ"[d]
  {
    LowerCase(d);
    UpperCase(d);
  }

  lemma LowerCase(d: nat)
    requires d < 36
    ensures "0123456789abcdefghijklmnopqrstuvwxyz"[d] as int == d + if d < 10 then 48 else 87
  {
  }

  lemma UpperCase(d: nat)
    requires d < 36
    ensures "0123456789ABCDEFGHIJKLMNOPQRSTUVWXYZ"[d] as int == d + if d < 10 then 48 else 55
  {
  }
}
