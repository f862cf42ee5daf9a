/**
 Positional values of runs of 32-bit digits, least significant digit first.

 Everything is stated through `Shl(x, n)`, which is x * 2^(32n), and
 `Val(s, o, n)`, the number spelled by the n digits of s that start at index o.
 */
module Digits {

  /** mp_digit: one 32-bit digit */
  type digit = d: int | 0 <= d < 0x1_0000_0000

  /** mp_word: the 64-bit accumulator of the inner loops */
  type word = w: int | 0 <= w < 0x1_0000_0000_0000_0000

  /** LOWER_HALF */
  function Lo(w: int): int {
    w % 0x1_0000_0000
  }

  /** UPPER_HALF */
  function Hi(w: int): int {
    w / 0x1_0000_0000
  }

  /** x * B^n for the radix B = 2^32 */
  function Shl(x: int, n: nat): int {
    if n == 0 then x else 0x1_0000_0000 * Shl(x, n - 1)
  }

  /** The number whose digits are s[o], s[o + 1], ..., s[o + n - 1] */
  function Val(s: seq<digit>, o: nat, n: nat): int
    requires o + n <= |s|
  {
    if n == 0 then 0 else Val(s, o, n - 1) + Shl(s[o + n - 1], n - 1)
  }

  /** s and t agree outside the window [lo, hi) */
  ghost predicate SameOutside(s: seq<digit>, t: seq<digit>, lo: int, hi: int) {
    |s| == |t| && forall i :: 0 <= i < |s| && (i < lo || hi <= i) ==> s[i] == t[i]
  }

  ghost predicate SameOn(s: seq<digit>, t: seq<digit>, lo: int, hi: int) {
    forall i :: 0 <= i < |s| && i < |t| && lo <= i < hi ==> s[i] == t[i]
  }

  ghost predicate ZeroOn(s: seq<digit>, lo: int, hi: int) {
    forall i :: 0 <= i < |s| && lo <= i < hi ==> s[i] == 0
  }

  // ---------------------------------------------------------------- Shl

  lemma {:induction false} ShlAdd(x: int, y: int, n: nat)
    ensures Shl(x + y, n) == Shl(x, n) + Shl(y, n)
  {
    if n != 0 { ShlAdd(x, y, n - 1); }
  }

  lemma ShlSub(x: int, y: int, n: nat)
    ensures Shl(x - y, n) == Shl(x, n) - Shl(y, n)
  {
    ShlAdd(x - y, y, n);
  }

  lemma ShlAdd3(x: int, y: int, z: int, n: nat)
    ensures Shl(x + y + z, n) == Shl(x, n) + Shl(y, n) + Shl(z, n)
  {
    ShlAdd(x + y, z, n);
    ShlAdd(x, y, n);
  }

  lemma {:induction false} ShlIn(x: int, n: nat)
    ensures Shl(0x1_0000_0000 * x, n) == Shl(x, n + 1)
  {
    if n != 0 { ShlIn(x, n - 1); }
  }

  lemma {:induction false} ShlShl(x: int, m: nat, n: nat)
    ensures Shl(Shl(x, m), n) == Shl(x, m + n)
  {
    if n != 0 { ShlShl(x, m, n - 1); }
  }

  lemma {:induction false} ShlMul(x: int, y: int, n: nat)
    ensures x * Shl(y, n) == Shl(x * y, n)
  {
    if n != 0 {
      ShlMul(x, y, n - 1);
      MulAssoc(x, Shl(y, n - 1));
    }
  }

  lemma MulAssoc(x: int, z: int)
    ensures x * (0x1_0000_0000 * z) == 0x1_0000_0000 * (x * z)
  {}

  lemma {:induction false} ShlMono(x: int, y: int, n: nat)
    requires x <= y
    ensures Shl(x, n) <= Shl(y, n)
  {
    if n != 0 { ShlMono(x, y, n - 1); }
  }

  lemma {:induction false} ShlStrict(x: int, y: int, n: nat)
    requires x < y
    ensures Shl(x, n) < Shl(y, n)
  {
    if n != 0 { ShlStrict(x, y, n - 1); }
  }

  lemma {:induction false} ShlZero(n: nat)
    ensures Shl(0, n) == 0
  {
    if n != 0 { ShlZero(n - 1); }
  }

  lemma ShlPos(n: nat)
    ensures Shl(1, n) >= 1
  {
    ShlZero(n);
    ShlStrict(0, 1, n);
  }

  /** A carry step: the low half stays at position n, the high half moves up */
  lemma Carry(w: int, n: nat)
    ensures Shl(w, n) == Shl(Lo(w), n) + Shl(Hi(w), n + 1)
  {
    ShlIn(Hi(w), n);
    ShlAdd(Lo(w), 0x1_0000_0000 * Hi(w), n);
  }

  // ---------------------------------------------------------------- Val

  lemma {:induction false} ValFrame(s: seq<digit>, t: seq<digit>, o: nat, n: nat)
    requires o + n <= |s| && o + n <= |t|
    requires SameOn(s, t, o, o + n)
    ensures Val(s, o, n) == Val(t, o, n)
  {
    if n != 0 { ValFrame(s, t, o, n - 1); }
  }

  /** The same digits at another offset of another buffer */
  lemma {:induction false} ValMove(s: seq<digit>, o: nat, t: seq<digit>, p: nat, n: nat)
    requires o + n <= |s| && p + n <= |t|
    requires s[o..o + n] == t[p..p + n]
    ensures Val(s, o, n) == Val(t, p, n)
  {
    if n != 0 {
      assert s[o..o + n][n - 1] == s[o + n - 1] && t[p..p + n][n - 1] == t[p + n - 1];
      assert s[o..o + n][..n - 1] == s[o..o + (n - 1)] && t[p..p + n][..n - 1] == t[p..p + (n - 1)];
      ValMove(s, o, t, p, n - 1);
    }
  }

  lemma {:induction false} ValZero(s: seq<digit>, o: nat, n: nat)
    requires o + n <= |s|
    requires ZeroOn(s, o, o + n)
    ensures Val(s, o, n) == 0
  {
    if n != 0 {
      ValZero(s, o, n - 1);
      ShlZero(n - 1);
    }
  }

  /** A run of digits cut in two */
  lemma {:induction false} ValSplit(s: seq<digit>, o: nat, n: nat, m: nat)
    requires o + n + m <= |s|
    ensures Val(s, o, n + m) == Val(s, o, n) + Shl(Val(s, o + n, m), n)
  {
    if m == 0 {
      ShlZero(n);
    } else {
      ValSplit(s, o, n, m - 1);
      ShlShl(s[o + n + m - 1], m - 1, n);
      ShlAdd(Val(s, o + n, m - 1), Shl(s[o + n + m - 1], m - 1), n);
    }
  }

  /** The lowest digit apart */
  lemma ValHead(s: seq<digit>, o: nat, n: nat)
    requires n >= 1 && o + n <= |s|
    ensures Val(s, o, n) == s[o] + Shl(Val(s, o + 1, n - 1), 1)
  {
    ValSplit(s, o, 1, n - 1);
    assert Val(s, o, 1) == Val(s, o, 0) + Shl(s[o], 0);
  }

  lemma {:induction false} ValBound(s: seq<digit>, o: nat, n: nat)
    requires o + n <= |s|
    ensures 0 <= Val(s, o, n) < Shl(1, n)
  {
    if n != 0 {
      ValBound(s, o, n - 1);
      var d: int := s[o + n - 1];
      ShlZero(n - 1);
      ShlMono(0, d, n - 1);
      ShlMono(d + 1, 0x1_0000_0000, n - 1);
      ShlAdd(d, 1, n - 1);
      ShlIn(1, n - 1);
    }
  }

  /** Low and high parts of a number are determined by the number */
  lemma SplitUnique(x: int, y: int, x': int, y': int, n: nat)
    requires 0 <= x < Shl(1, n) && 0 <= x' < Shl(1, n)
    requires x + Shl(y, n) == x' + Shl(y', n)
    ensures x == x' && y == y'
  {
    if y < y' {
      ShlMono(y + 1, y', n);
      ShlAdd(y, 1, n);
    } else if y' < y {
      ShlMono(y' + 1, y, n);
      ShlAdd(y', 1, n);
    }
  }

  /** Digits are determined by the value they spell */
  lemma {:induction false} ValUnique(s: seq<digit>, t: seq<digit>, o: nat, n: nat)
    requires o + n <= |s| && o + n <= |t|
    requires Val(s, o, n) == Val(t, o, n)
    ensures SameOn(s, t, o, o + n)
  {
    if n != 0 {
      ValBound(s, o, n - 1);
      ValBound(t, o, n - 1);
      SplitUnique(Val(s, o, n - 1), s[o + n - 1], Val(t, o, n - 1), t[o + n - 1], n - 1);
      ValUnique(s, t, o, n - 1);
    }
  }

}
