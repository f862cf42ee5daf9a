/**
 Shifts by bits: s_qdiv, s_qmod, s_qmul, s_qsub. Shifting left is `Lsh`, shifting
 right `Rsh` and masking `LowBits`; the OR of two digits without common bits is
 written as their sum.
 */
module Shifts {
  import opened Common
  import opened Digits
  import opened Kernels
  import opened Karatsuba
  import opened Magnitude
  import opened Integers

  /** x * 2^n */
  function Lsh(x: int, n: nat): int {
    if n == 0 then x else 2 * Lsh(x, n - 1)
  }

  /** x / 2^n, rounded down */
  function Rsh(x: int, n: nat): int
    decreases n
  {
    if n == 0 then x else Rsh(x / 2, n - 1)
  }

  /** x mod 2^n */
  function LowBits(x: int, n: nat): int {
    x - Lsh(Rsh(x, n), n)
  }

  lemma {:induction false} LshAdd(x: int, y: int, n: nat)
    ensures Lsh(x + y, n) == Lsh(x, n) + Lsh(y, n)
  {
    if n != 0 { LshAdd(x, y, n - 1); }
  }

  lemma LshSub(x: int, y: int, n: nat)
    ensures Lsh(x - y, n) == Lsh(x, n) - Lsh(y, n)
  {
    LshAdd(x - y, y, n);
  }

  lemma {:induction false} LshLsh(x: int, m: nat, n: nat)
    ensures Lsh(Lsh(x, m), n) == Lsh(x, m + n)
  {
    if n != 0 { LshLsh(x, m, n - 1); }
  }

  lemma {:induction false} LshIn(x: int, n: nat)
    ensures Lsh(2 * x, n) == 2 * Lsh(x, n)
  {
    if n != 0 { LshIn(x, n - 1); }
  }

  lemma {:induction false} LshMono(x: int, y: int, n: nat)
    requires x <= y
    ensures Lsh(x, n) <= Lsh(y, n)
  {
    if n != 0 { LshMono(x, y, n - 1); }
  }

  lemma {:induction false} LshZero(n: nat)
    ensures Lsh(0, n) == 0
  {
    if n != 0 { LshZero(n - 1); }
  }

  lemma {:induction false} LshGrows(x: int, n: nat)
    requires x >= 0
    ensures Lsh(x, n) >= x
  {
    if n != 0 { LshGrows(x, n - 1); }
  }

  lemma {:induction false} LshMul(x: int, y: int, n: nat)
    ensures x * Lsh(y, n) == Lsh(x * y, n)
  {
    if n != 0 {
      LshMul(x, y, n - 1);
      MulDouble(x, Lsh(y, n - 1));
    }
  }

  lemma MulDouble(x: int, z: int)
    ensures x * (2 * z) == 2 * (x * z)
  {}

  lemma LshPos(n: nat)
    ensures Lsh(1, n) >= 1
    decreases n
  {
    if n != 0 { LshPos(n - 1); }
  }

  lemma Lsh32(x: int)
    ensures Lsh(x, 32) == 0x1_0000_0000 * x
  {
    Lsh8(x);
    Lsh8(Lsh(x, 8));
    LshLsh(x, 8, 8);
    Lsh8(Lsh(x, 16));
    LshLsh(x, 16, 8);
    Lsh8(Lsh(x, 24));
    LshLsh(x, 24, 8);
  }

  lemma Lsh8(x: int)
    ensures Lsh(x, 8) == 256 * x
  {
    Lsh2(x);
    Lsh2(Lsh(x, 2));
    LshLsh(x, 2, 2);
    Lsh2(Lsh(x, 4));
    LshLsh(x, 4, 2);
    Lsh2(Lsh(x, 6));
    LshLsh(x, 6, 2);
  }

  lemma Lsh2(x: int)
    ensures Lsh(x, 2) == 4 * x
  {
    assert Lsh(x, 1) == 2 * Lsh(x, 0);
  }

  /** Whole digits of a shift count */
  lemma {:induction false} LshDigits(x: int, n: nat)
    ensures Lsh(x, 32 * n) == Shl(x, n)
  {
    if n != 0 {
      LshDigits(x, n - 1);
      LshLsh(x, 32 * (n - 1), 32);
      Lsh32(Lsh(x, 32 * (n - 1)));
    }
  }

  /** Shl and Lsh commute */
  lemma LshShl(x: int, m: nat, n: nat)
    ensures Lsh(Shl(x, n), m) == Shl(Lsh(x, m), n) == Lsh(x, 32 * n + m)
  {
    LshDigits(x, n);
    LshDigits(Lsh(x, m), n);
    LshLsh(x, 32 * n, m);
    LshLsh(x, m, 32 * n);
  }

  lemma {:induction false} LowBitsRange(x: int, n: nat)
    ensures 0 <= LowBits(x, n) < Lsh(1, n)
    decreases n
  {
    if n != 0 {
      LowBitsRange(x / 2, n - 1);
      LshIn(1, n - 1);
    }
  }

  /** The quotient and remainder by 2^n are determined by their sum */
  lemma RshUnique(x: int, n: nat, q: int, r: int)
    requires x == Lsh(q, n) + r && 0 <= r < Lsh(1, n)
    ensures Rsh(x, n) == q && LowBits(x, n) == r
  {
    LowBitsRange(x, n);
    var q' := Rsh(x, n);
    if q' < q {
      LshMono(q' + 1, q, n);
      LshAdd(q', 1, n);
    } else if q < q' {
      LshMono(q + 1, q', n);
      LshAdd(q, 1, n);
    }
  }

  /** Rsh and LowBits are the integer division and remainder by 2^n */
  lemma RshIsDiv(x: int, n: nat)
    ensures Lsh(1, n) >= 1 && Rsh(x, n) == x / Lsh(1, n) && LowBits(x, n) == x % Lsh(1, n)
  {
    LshPos(n);
    LowBitsRange(x, n);
    LshMul(Rsh(x, n), 1, n);
    DivModUnique(x, Lsh(1, n), Rsh(x, n), LowBits(x, n));
  }

  // ---------------------------------------------------------------- right shift

  /** What a digit s becomes under a right shift by n bits, with the digit d above it */
  function ShrDigit(s: digit, d: digit, n: nat): int
    requires n <= 32
  {
    Rsh(s, n) + Lsh(LowBits(d, n), 32 - n)
  }

  lemma ShrDigitFits(s: digit, d: digit, n: nat)
    requires n <= 32
    ensures 0 <= ShrDigit(s, d, n) < 0x1_0000_0000
    ensures Lsh(ShrDigit(s, d, n), n) + LowBits(s, n) == s + 0x1_0000_0000 * LowBits(d, n)
  {
    var x, e := ShrDigit(s, d, n), LowBits(d, n);
    LowBitsRange(s, n);
    LowBitsRange(d, n);
    LshAdd(Rsh(s, n), Lsh(e, 32 - n), n);
    LshLsh(e, 32 - n, n);
    Lsh32(e);
    LshZero(n);
    if x < 0 { LshMono(x, -1, n); LshSub(0, 1, n); }
    if x >= 0x1_0000_0000 {
      LshMono(0x1_0000_0000, x, n);
      LshDigits(1, 1);
      LshLsh(1, 32, n);
      LshLsh(1, n, 32);
      Lsh32(Lsh(1, n));
    }
  }

  lemma ShrStep(r: seq<digit>, s: seq<digit>, i: nat, x: digit, low: int, above: int, n: nat)
    requires i < |s| == |r|
    requires Lsh(x, n) + low == s[i] + 0x1_0000_0000 * above
    requires Lsh(Val(r, i + 1, |s| - i - 1), n) + above == Val(s, i + 1, |s| - i - 1)
    ensures Lsh(Val(r[i := x], i, |s| - i), n) + low == Val(s, i, |s| - i)
  {
    var r' := r[i := x];
    ValHead(r', i, |s| - i);
    ValHead(s, i, |s| - i);
    ValFrame(r, r', i + 1, |s| - i - 1);
    ShrAlgebra(x, Val(r, i + 1, |s| - i - 1), n, low, above, s[i], Val(s, i + 1, |s| - i - 1));
  }

  lemma ShrAlgebra(x: int, v: int, n: nat, low: int, above: int, s: int, vs: int)
    requires Lsh(x, n) + low == s + 0x1_0000_0000 * above
    requires Lsh(v, n) + above == vs
    ensures Lsh(x + Shl(v, 1), n) + low == s + Shl(vs, 1)
  {
    LshAdd(x, Shl(v, 1), n);
    LshShl(v, n, 1);
    ShlAdd(Lsh(v, n), above, 1);
  }

  /** The bit loop of s_qdiv, from the top digit down */
  method ShrBits(s: seq<digit>, n: nat) returns (r: seq<digit>)
    requires |s| >= 1 && n <= 32
    ensures |r| == |s| && Num(r) == Rsh(Num(s), n)
  {
    var i := |s|;
    var d: digit := 0;
    r := s;
    LshZero(n);
    LowBitsRange(0, n);
    RshUnique(0, n, 0, 0);
    while i > 0
      invariant 0 <= i <= |s| == |r|
      invariant SameOn(r, s, 0, i)
      invariant Lsh(Val(r, i, |s| - i), n) + LowBits(d, n) == Val(s, i, |s| - i)
    {
      i := i - 1;
      ShrDigitFits(r[i], d, n);
      ShrStep(r, s, i, ShrDigit(r[i], d, n), LowBits(s[i], n), LowBits(d, n), n);
      d, r := r[i], r[i := ShrDigit(r[i], d, n)];
    }
    LowBitsRange(d, n);
    RshUnique(Num(s), n, Num(r), LowBits(d, n));
  }

  /** Shifting by n digits and m bits: the n low digits only matter for the remainder */
  lemma RshDigits(s: seq<digit>, n: nat, m: nat)
    requires n <= |s|
    ensures Rsh(Num(s), 32 * n + m) == Rsh(Num(s[n..]), m)
    ensures LowBits(Num(s), 32 * n + m) == Num(s[..n]) + Shl(LowBits(Num(s[n..]), m), n)
  {
    var lo, v := Num(s[..n]), Num(s[n..]);
    NumSplit(s, n);
    NumBound(s[..n]);
    RshSplit(lo, Rsh(v, m), LowBits(v, m), n, m);
    LowBitsRange(v, m);
    ShlAdd(Lsh(Rsh(v, m), m), LowBits(v, m), n);
    CombineLow(lo, LowBits(v, m), n, m);
    RshUnique(Num(s), 32 * n + m, Rsh(v, m), lo + Shl(LowBits(v, m), n));
  }

  lemma RshSplit(lo: int, q: int, e: int, n: nat, m: nat)
    ensures lo + Shl(Lsh(q, m), n) + Shl(e, n) == Lsh(q, 32 * n + m) + (lo + Shl(e, n))
  {
    LshShl(q, m, n);
  }

  lemma CombineLow(lo: int, e: int, n: nat, m: nat)
    requires 0 <= lo < Shl(1, n) && 0 <= e < Lsh(1, m)
    ensures 0 <= lo + Shl(e, n) < Lsh(1, 32 * n + m)
  {
    ShlNat(e, n);
    ShlMono(e + 1, Lsh(1, m), n);
    ShlAdd(e, 1, n);
    LshShl(1, m, n);
  }

  /** A number with at most n digits shifted by n digits or more */
  lemma RshAll(s: seq<digit>, n: nat, m: nat)
    requires |s| <= n
    ensures Rsh(Num(s), 32 * n + m) == 0 && LowBits(Num(s), 32 * n + m) == Num(s)
  {
    NumBound(s);
    ShlGrow(|s|, n);
    LshPos(m);
    ShlMono(1, Lsh(1, m), n);
    LshShl(1, m, n);
    LshZero(32 * n + m);
    RshUnique(Num(s), 32 * n + m, 0, Num(s));
  }

  /** s_qdiv: divide the magnitude by 2^p2, rounding down; a zero result is positive */
  method QDiv(z: MpInt, p2: nat)
    requires z.Valid()
    modifies z
    ensures z.Valid() && z.Mag() == Rsh(old(z.Mag()), p2)
    ensures z.neg == (old(z.neg) && z.Mag() != 0)
  {
    var ndig, nbits := p2 / 32, p2 % 32;
    if ndig >= |z.digits| {
      RshAll(z.digits, ndig, nbits);
      SetZero(z);
      return;
    }
    z.digits := Shifted(z.digits, ndig, nbits);
    ZeroIff(z.digits);
    if |z.digits| == 1 && z.digits[0] == 0 { z.neg := false; }
  }

  /** Whole digits dropped, then the bits shifted out and clamped */
  method Shifted(s: seq<digit>, ndig: nat, nbits: nat) returns (r: seq<digit>)
    requires Normal(s) && ndig < |s| && nbits < 32
    ensures Normal(r) && Num(r) == Rsh(Num(s), 32 * ndig + nbits)
  {
    RshDigits(s, ndig, nbits);
    r := s[ndig..];
    if nbits != 0 {
      r := ShrBits(r, nbits);
      r := Clamp(r);
    }
  }

  // ---------------------------------------------------------------- remainder by a power of two

  /** At most 32 low bits of a number are low bits of its lowest digit */
  lemma LowDigitBits(d: int, hi: int, m: nat)
    requires m <= 32
    ensures LowBits(d + Shl(hi, 1), m) == LowBits(d, m)
  {
    var q, e := Rsh(d, m), LowBits(d, m);
    LowBitsRange(d, m);
    LshDigits(hi, 1);
    LshLsh(hi, 32 - m, m);
    LshAdd(q, Lsh(hi, 32 - m), m);
    RshUnique(d + Shl(hi, 1), m, q + Lsh(hi, 32 - m), e);
  }

  lemma LowBitsDigit(d: digit, m: nat)
    requires m <= 32
    ensures 0 <= LowBits(d, m) < 0x1_0000_0000
  {
    LowBitsRange(d, m);
    LshPos(32 - m);
    LshMono(1, Lsh(1, 32 - m), m);
    LshLsh(1, 32 - m, m);
    Lsh32(1);
  }

  /** Cutting a number off above n digits and m bits is taking its remainder */
  lemma CutOff(s: seq<digit>, n: nat, m: nat)
    requires n < |s| && m <= 32
    ensures 0 <= LowBits(s[n], m) < 0x1_0000_0000
    ensures Num(s[..n] + [LowBits(s[n], m)]) == LowBits(Num(s), 32 * n + m)
  {
    LowBitsDigit(s[n], m);
    RshDigits(s, n, m);
    var t := s[n..];
    ValHead(t, 0, |t|);
    LowDigitBits(t[0], Val(t, 1, |t| - 1), m);
    NumAppend(s[..n], LowBits(s[n], m));
  }

  /** s_qmod: the remainder of the magnitude by 2^p2; the sign stays */
  method QMod(z: MpInt, p2: nat)
    requires z.Valid()
    modifies z
    ensures z.Valid() && z.neg == old(z.neg) && z.Mag() == LowBits(old(z.Mag()), p2)
  {
    var n, rest := p2 / 32, p2 % 32;
    if n + 1 <= |z.digits| {
      CutOff(z.digits, n, rest);
      z.digits := Clamp(z.digits[..n] + [LowBits(z.digits[n], rest)]);
    } else {
      RshAll(z.digits, n, rest);
    }
  }

  // ---------------------------------------------------------------- left shift

  /** What a digit s becomes under a left shift by n bits, with the digit d below it */
  function ShlDigit(s: digit, d: digit, n: nat): int
    requires n <= 32
  {
    Lsh(LowBits(s, 32 - n), n) + Rsh(d, 32 - n)
  }

  lemma TopBits(d: digit, n: nat)
    requires n <= 32
    ensures 0 <= Rsh(d, 32 - n) < Lsh(1, n) <= 0x1_0000_0000
  {
    var q := Rsh(d, 32 - n);
    LowBitsRange(d, 32 - n);
    LshLsh(1, n, 32 - n);
    Lsh32(1);
    LshZero(32 - n);
    if q < 0 { LshMono(q, -1, 32 - n); LshSub(0, 1, 32 - n); }
    if q >= Lsh(1, n) { LshMono(Lsh(1, n), q, 32 - n); }
    LshPos(32 - n);
    LshMono(1, Lsh(1, 32 - n), n);
    LshLsh(1, 32 - n, n);
  }

  lemma ShlDigitFits(s: digit, d: digit, n: nat)
    requires n <= 32
    ensures 0 <= ShlDigit(s, d, n) < 0x1_0000_0000
    ensures ShlDigit(s, d, n) + 0x1_0000_0000 * Rsh(s, 32 - n) == Lsh(s, n) + Rsh(d, 32 - n)
  {
    var q, e := Rsh(s, 32 - n), LowBits(s, 32 - n);
    TopBits(d, n);
    LowBitsRange(s, 32 - n);
    LshAdd(Lsh(q, 32 - n), e, n);
    LshLsh(q, 32 - n, n);
    Lsh32(q);
    LshMono(e + 1, Lsh(1, 32 - n), n);
    LshAdd(e, 1, n);
    LshLsh(1, 32 - n, n);
    Lsh32(1);
    LshZero(n);
    LshMono(0, e, n);
  }

  lemma ShlStep(s: seq<digit>, r: seq<digit>, i: nat, x: digit, up: int, below: int, n: nat)
    requires i < |s| && |r| == i
    requires x + 0x1_0000_0000 * up == Lsh(s[i], n) + below
    requires Num(r) + Shl(below, i) == Lsh(Val(s, 0, i), n)
    ensures Num(r + [x]) + Shl(up, i + 1) == Lsh(Val(s, 0, i + 1), n)
  {
    NumAppend(r, x);
    ShlIn(up, i);
    ShlAdd(x, 0x1_0000_0000 * up, i);
    ShlAdd(Lsh(s[i], n), below, i);
    LshAdd(Val(s, 0, i), Shl(s[i], i), n);
    LshShl(s[i], n, i);
  }

  /** The bit loop of s_qmul, from the low digit up, with the bits shifted out as a new digit */
  method ShlBits(s: seq<digit>, n: nat) returns (r: seq<digit>)
    requires |s| >= 1 && n <= 32
    ensures |s| <= |r| <= |s| + 1 && Num(r) == Lsh(Num(s), n)
  {
    var d: digit := 0;
    var i := 0;
    r := [];
    LshZero(n);
    LshZero(32 - n);
    LshPos(32 - n);
    RshUnique(0, 32 - n, 0, 0);
    while i < |s|
      invariant 0 <= i <= |s| && |r| == i
      invariant Num(r) + Shl(Rsh(d, 32 - n), i) == Lsh(Val(s, 0, i), n)
    {
      ShlDigitFits(s[i], d, n);
      ShlStep(s, r, i, ShlDigit(s[i], d, n), Rsh(s[i], 32 - n), Rsh(d, 32 - n), n);
      r := r + [ShlDigit(s[i], d, n)];
      d := s[i];
      i := i + 1;
    }
    TopBits(d, n);
    var top: digit := Rsh(d, 32 - n);
    if top != 0 {
      NumAppend(r, top);
      r := r + [top];
    } else {
      ShlZero(|s|);
    }
  }

  /** n zero digits below s */
  lemma NumZeros(s: seq<digit>, n: nat)
    ensures Num(seq(n, i => 0) + s) == Shl(Num(s), n)
  {
    var z: seq<digit> := seq(n, i => 0);
    NumSplit(z + s, n);
    assert (z + s)[..n] == z && (z + s)[n..] == s;
    ValZero(z, 0, n);
  }

  /** s_qmul: multiply the magnitude by 2^p2; the sign stays */
  method QMul(z: MpInt, p2: nat)
    requires z.Valid()
    modifies z
    ensures z.Valid() && z.neg == old(z.neg) && z.Mag() == Lsh(old(z.Mag()), p2)
  {
    if p2 == 0 { return; }
    var need, rest := p2 / 32, p2 % 32;
    var r := ShlBits(z.digits, rest);
    NumZeros(r, need);
    LshShl(z.Mag(), rest, need);
    z.digits := Clamp(seq(need, i => 0) + r);
  }

  /** A positive number that stays below 2^32 was shifted by fewer than 32 bits */
  lemma ShiftCount(top: int, k: nat)
    requires top >= 1 && Lsh(top, k) < 0x1_0000_0000
    ensures k < 32
  {
    if k >= 32 {
      LshPos(k - 32);
      LshMono(1, top, k - 32);
      LshLsh(top, k - 32, 32);
      Lsh32(Lsh(top, k - 32));
    }
  }

  // ---------------------------------------------------------------- subtraction from a power of two

  lemma ComplementStep(out: seq<digit>, z: seq<digit>, pos: nat, w: int, w': int, x: int)
    requires pos < |z| && |out| == pos && 0 <= w <= 1
    requires Num(out) + Val(z, 0, pos) == Shl(w, pos)
    requires x == 0x1_0000_0000 - w - z[pos] && w' == if Hi(x) != 0 then 0 else 1
    ensures Num(out + [Lo(x)]) + Val(z, 0, pos + 1) == Shl(w', pos + 1)
  {
    NumAppend(out, Lo(x));
    assert Lo(x) + z[pos] + w == 0x1_0000_0000 * w';
    ShlIn(w', pos);
    ShlAdd3(Lo(x), z[pos], w, pos);
  }

  /** The digits of 2^(32 * t) - z below digit t, with the borrow out */
  method Complement(z: seq<digit>, t: nat) returns (out: seq<digit>, w: digit)
    requires t <= |z|
    ensures |out| == t && w <= 1 && Num(out) + Val(z, 0, t) == Shl(w, t)
  {
    out, w := [], 0;
    var pos := 0;
    while pos < t
      invariant 0 <= pos <= t && |out| == pos && w <= 1
      invariant Num(out) + Val(z, 0, pos) == Shl(w, pos)
    {
      var x: word := 0x1_0000_0000 - w - z[pos];
      ComplementStep(out, z, pos, w, if Hi(x) != 0 then 0 else 1, x);
      out := out + [Lo(x)];
      w := if Hi(x) != 0 then 0 else 1;
      pos := pos + 1;
    }
  }

  lemma NoMoreDigits(z: seq<digit>, t: nat, m: nat)
    requires Normal(z) && |z| > t && m < 32 && Num(z) < Lsh(1, 32 * t + m)
    ensures |z| == t + 1
  {
    if |z| > t + 1 {
      NormalIff(z);
      ShlGrow(t + 1, |z| - 1);
      TopBits(0, m);
      LshShl(1, m, t);
      ShlIn(1, t);
      ShlMono(Lsh(1, m), 0x1_0000_0000, t);
    }
  }

  lemma TopDigit(z: seq<digit>, out: seq<digit>, t: nat, m: nat, w: digit)
    requires |z| == t + 1 && |out| == t && m < 32 && w <= 1
    requires Num(out) + Val(z, 0, t) == Shl(w, t) && Num(z) < Lsh(1, 32 * t + m)
    ensures w + z[t] <= Lsh(1, m) < 0x1_0000_0000
    ensures var x := 0x1_0000_0000 + Lsh(1, m) - w - z[t];
      Hi(x) == 1 && Num(out + [Lo(x)]) == Lsh(1, 32 * t + m) - Num(z)
  {
    var g := Lsh(1, m);
    LshShl(1, m, t);
    TopBits(0, m + 1);
    LshPos(m);
    NumBound(out);
    if w + z[t] > g {
      ShlMono(g + 1, w + z[t], t);
      ShlAdd(g, 1, t);
      ShlAdd(w, z[t], t);
    }
    NumAppend(out, g - w - z[t]);
    ShlSub(g - w, z[t], t);
    ShlSub(g, w, t);
  }

  lemma BorrowOut(z: seq<digit>, out: seq<digit>, w: digit)
    requires |z| == |out| && w <= 1 && Num(z) > 0
    requires Num(out) + Num(z) == Shl(w, |z|)
    ensures w == 1 && |z| >= 1 && Lsh(1, 32 * |z|) == Shl(1, |z|)
  {
    NumBound(out);
    ShlZero(|z|);
    LshDigits(1, |z|);
  }

  /**
   s_qsub: 2^p2 - |z|, positive. The number of used digits is never raised, so z
   must already have the digits the difference needs.
   */
  method QSub(z: MpInt, p2: nat)
    requires z.Valid() && z.Mag() < Lsh(1, p2)
    requires |z.digits| > p2 / 32 || (|z.digits| == p2 / 32 && p2 % 32 == 0 && z.Mag() > 0)
    modifies z
    ensures z.Valid() && !z.neg && z.Mag() == Lsh(1, p2) - old(z.Mag())
  {
    var t := p2 / 32;
    var out, w := Complement(z.digits, t);
    if |z.digits| > t {
      NoMoreDigits(z.digits, t, p2 % 32);
      TopDigit(z.digits, out, t, p2 % 32, w);
      var x: word := 0x1_0000_0000 + Lsh(1, p2 % 32) - w - z.digits[t];
      z.digits := Clamp(out + [Lo(x)]);
    } else {
      BorrowOut(z.digits, out, w);
      z.digits := Clamp(out);
    }
    z.neg := false;
  }
}
