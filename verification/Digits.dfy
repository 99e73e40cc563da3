/**
 Little-endian numbers written in base B = 2^W, and the address space in which
 the digit routines of bignum.c work.

 A C pointer to a digit buffer is an index into `Memory.cells`; a buffer is such
 an index together with a length.  Two buffers may therefore overlap, coincide
 or be pieces of a third, exactly as in the original.
 */
module Digits {

  // BITSPERDIG.  Every width of at least 16 bits is covered.
  type Width = w: nat | 16 <= w witness 16
  const W: Width

  function Pow2(n: nat): (p: nat)
    ensures 0 < p
  {
    if n == 0 then 1 else 2 * Pow2(n - 1)
  }

  // BIGRAD
  const B: nat := Pow2(W)

  // BDIGIT
  type Digit = d: nat | d < B witness 0

  // B^n
  ghost function Pow(n: nat): (p: nat)
    ensures 0 < p
  {
    if n == 0 then 1 else B * Pow(n - 1)
  }

  // The number stored in the n digits starting at index o.
  ghost function V(s: seq<Digit>, o: nat, n: nat): nat
    requires o + n <= |s|
  {
    if n == 0 then 0 else V(s, o, n - 1) + s[o + n - 1] * Pow(n - 1)
  }

  // ---- powers ----

  lemma Pow2Add(m: nat, n: nat)
    ensures Pow2(m + n) == Pow2(m) * Pow2(n)
  {
    if m != 0 {
      Pow2Add(m - 1, n);
    }
  }

  lemma Pow2Mono(m: nat, n: nat)
    requires m <= n
    ensures Pow2(m) <= Pow2(n)
    decreases n
  {
    if m < n {
      Pow2Mono(m, n - 1);
    }
  }

  lemma Pow2Less(m: nat, n: nat)
    requires Pow2(m) < Pow2(n)
    ensures m < n
  {
    if n <= m {
      Pow2Mono(n, m);
    }
  }

  lemma BLarge()
    ensures 65536 <= B
  {
    Pow2Mono(16, W);
    assert Pow2(4) == 16;
    assert Pow2(8) == 256 by { Pow2Add(4, 4); }
    assert Pow2(16) == 65536 by { Pow2Add(8, 8); }
  }

  lemma PowAdd(m: nat, n: nat)
    ensures Pow(m + n) == Pow(m) * Pow(n)
  {
    if m != 0 {
      PowAdd(m - 1, n);
      assert B * (Pow(m - 1) * Pow(n)) == (B * Pow(m - 1)) * Pow(n);
    }
  }

  lemma {:induction false} PowIsPow2(n: nat)
    ensures Pow(n) == Pow2(n * W)
  {
    if n == 0 {
      assert n * W == 0;
    } else {
      PowIsPow2(n - 1);
      assert n * W == W + (n - 1) * W;
      Pow2Add(W, (n - 1) * W);
    }
  }

  lemma PowMono(m: nat, n: nat)
    requires m <= n
    ensures Pow(m) <= Pow(n)
    decreases n
  {
    if m < n {
      PowMono(m, n - 1);
      BLarge();
      MulLe(1, B, Pow(n - 1));
    }
  }

  lemma Pow1()
    ensures Pow(0) == 1
    ensures Pow(1) == B
    ensures Pow(2) == B * B
  {
    assert Pow(1) == B * Pow(0);
    assert Pow(2) == B * Pow(1);
  }

  // ---- products ----

  lemma MulLe(a: nat, b: nat, c: nat)
    requires a <= b
    ensures a * c <= b * c
  {
  }

  lemma MulLt(a: nat, b: nat, c: nat)
    requires a < b && 0 < c
    ensures a * c < b * c
    ensures a * c + c <= b * c
  {
    MulLe(a + 1, b, c);
    assert (a + 1) * c == a * c + c;
  }

  // ---- values ----

  lemma {:induction false} VBound(s: seq<Digit>, o: nat, n: nat)
    requires o + n <= |s|
    ensures V(s, o, n) < Pow(n)
  {
    if n != 0 {
      VBound(s, o, n - 1);
      MulLt(s[o + n - 1], B, Pow(n - 1));
    }
  }

  lemma {:induction false} VSame(s: seq<Digit>, t: seq<Digit>, o: nat, p: nat, n: nat)
    requires o + n <= |s| && p + n <= |t|
    requires s[o..o + n] == t[p..p + n]
    ensures V(s, o, n) == V(t, p, n)
  {
    if n != 0 {
      assert s[o..o + n][..n - 1] == s[o..o + (n - 1)];
      assert t[p..p + n][..n - 1] == t[p..p + (n - 1)];
      VSame(s, t, o, p, n - 1);
      assert s[o..o + n][n - 1] == t[p..p + n][n - 1];
    }
  }

  lemma {:induction false} VZero(s: seq<Digit>, o: nat, n: nat)
    requires o + n <= |s|
    requires forall i :: o <= i < o + n ==> s[i] == 0
    ensures V(s, o, n) == 0
  {
    if n != 0 {
      VZero(s, o, n - 1);
      assert s[o + n - 1] == 0;
    }
  }

  // Splitting a buffer in two: low part plus B^n times high part.
  lemma {:induction false} VSplit(s: seq<Digit>, o: nat, n: nat, k: nat)
    requires o + n + k <= |s|
    ensures V(s, o, n + k) == V(s, o, n) + Pow(n) * V(s, o + n, k)
    decreases k
  {
    if k != 0 {
      VSplit(s, o, n, k - 1);
      PowAdd(n, k - 1);
      var d := s[o + n + k - 1];
      assert V(s, o, n + k) == V(s, o, n + (k - 1)) + d * Pow(n + (k - 1));
      assert V(s, o + n, k) == V(s, o + n, k - 1) + d * Pow(k - 1);
      Dist3(Pow(n), V(s, o + n, k - 1), d, Pow(k - 1));
    }
  }

  // The same with the second part at p and the whole length t named by the caller.
  lemma VJoin(s: seq<Digit>, o: nat, n: nat, p: nat, k: nat, t: nat)
    requires p == o + n && t == n + k && p + k <= |s|
    ensures V(s, o, t) == V(s, o, n) + Pow(n) * V(s, p, k)
  {
    VSplit(s, o, n, k);
  }

  lemma Dist3(p: int, a: int, d: int, q: int)
    ensures p * (a + d * q) == p * a + d * (p * q)
  {
    assert p * (d * q) == d * (p * q);
  }

  // ---- frames ----

  predicate Apart(o: nat, n: nat, zo: nat, zn: nat)
  {
    o + n <= zo || zo + zn <= o
  }

  // Only the digits of [zo, zo+zn) may differ between s and t.
  ghost predicate KeepsCells(s: seq<Digit>, t: seq<Digit>, zo: nat, zn: nat)
  {
    && |t| == |s|
    && forall i {:trigger t[i]} :: 0 <= i < |s| && (i < zo || zo + zn <= i) ==> t[i] == s[i]
  }

  // ... and so every buffer apart from it holds the same number.
  ghost predicate Keeps(s: seq<Digit>, t: seq<Digit>, zo: nat, zn: nat)
  {
    && KeepsCells(s, t, zo, zn)
    && forall o: nat, n: nat {:trigger V(t, o, n)} ::
         o + n <= |s| && Apart(o, n, zo, zn) ==> V(t, o, n) == V(s, o, n)
  }

  lemma KeepsIntro(s: seq<Digit>, t: seq<Digit>, zo: nat, zn: nat)
    requires KeepsCells(s, t, zo, zn)
    ensures Keeps(s, t, zo, zn)
  {
    forall o: nat, n: nat | o + n <= |s| && Apart(o, n, zo, zn)
      ensures V(t, o, n) == V(s, o, n)
    {
      assert s[o..o + n] == t[o..o + n];
      VSame(s, t, o, o, n);
    }
  }

  // A change to a buffer and then to a part of it
  lemma KeepsThen(s: seq<Digit>, t: seq<Digit>, t': seq<Digit>, o: nat, n: nat, zo: nat, zn: nat)
    requires Keeps(s, t, o, n) && Keeps(t, t', zo, zn) && o <= zo && zo + zn <= o + n
    ensures Keeps(s, t', o, n)
  {
    hide V;
    assert forall i {:trigger t'[i]} :: 0 <= i < |s| && (i < o || o + n <= i) ==> t'[i] == s[i];
    KeepsIntro(s, t', o, n);
  }

  // The same for two buffers: a result and a workspace.
  ghost predicate Keeps2(s: seq<Digit>, t: seq<Digit>, zo: nat, zn: nat, wo: nat, wn: nat)
  {
    && |t| == |s|
    && (forall i {:trigger t[i]} ::
          0 <= i < |s| && (i < zo || zo + zn <= i) && (i < wo || wo + wn <= i) ==> t[i] == s[i])
    && forall o: nat, n: nat {:trigger V(t, o, n)} ::
         o + n <= |s| && Apart(o, n, zo, zn) && Apart(o, n, wo, wn) ==> V(t, o, n) == V(s, o, n)
  }

  lemma Keeps2Intro(s: seq<Digit>, t: seq<Digit>, zo: nat, zn: nat, wo: nat, wn: nat)
    requires |t| == |s|
    requires forall i {:trigger t[i]} ::
               0 <= i < |s| && (i < zo || zo + zn <= i) && (i < wo || wo + wn <= i) ==> t[i] == s[i]
    ensures Keeps2(s, t, zo, zn, wo, wn)
  {
    forall o: nat, n: nat | o + n <= |s| && Apart(o, n, zo, zn) && Apart(o, n, wo, wn)
      ensures V(t, o, n) == V(s, o, n)
    {
      assert s[o..o + n] == t[o..o + n];
      VSame(s, t, o, o, n);
    }
  }

  lemma Keeps2Then(s: seq<Digit>, t: seq<Digit>, t': seq<Digit>, zo: nat, zn: nat, wo: nat, wn: nat)
    requires Keeps2(s, t, zo, zn, wo, wn) && Keeps2(t, t', zo, zn, wo, wn)
    ensures Keeps2(s, t', zo, zn, wo, wn)
  {
    hide V;
    Keeps2Intro(s, t', zo, zn, wo, wn);
  }

  // ---- the address space ----

  class Memory {
    var cells: seq<Digit>

    constructor (initial: seq<Digit>)
      ensures cells == initial
    {
      cells := initial;
    }

    // ALLOCV_N: a block of n digits beyond everything in use; its contents are arbitrary.
    method Alloc(n: nat) returns (o: nat)
      modifies this
      ensures o == |old(cells)| && |cells| == o + n && cells[..o] == old(cells)
    {
      o := |cells|;
      var block: seq<Digit> :| |block| == n by { assert |seq(n, _ => 0 as Digit)| == n; }
      cells := cells + block;
    }

    // ALLOCV_END: drops the blocks from o on.
    method Free(o: nat)
      requires o <= |cells|
      modifies this
      ensures cells == old(cells)[..o]
    {
      cells := cells[..o];
    }
  }
}
