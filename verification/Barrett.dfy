/**
 s_reduce: Barrett reduction of x modulo m with the precomputed constant
 mu = floor(B^2k / m), k being the number of digits of m.
 */
module Barrett {
  import opened Common
  import opened Digits
  import opened Kernels
  import opened Karatsuba
  import opened Magnitude
  import opened Integers
  import opened Shifts

  /** mu is the reduction constant of m */
  ghost predicate IsMu(mu: int, m: int, k: nat) {
    0 <= Shl(1, 2 * k) - mu * m < m
  }

  // ---------------------------------------------------------------- the quotient guess

  /** The error of the guess q3, scaled by d: c = B^(k - 1), d = B^(k + 1), N = c * d */
  lemma GuessError(x: int, m: int, mu: int, c: int, d: int, N: int, q1: int, r1: int, q3: int, r3: int, r2: int)
    requires x == q1 * c + r1 && N == mu * m + r2 && q1 * mu == q3 * d + r3 && N == c * d
    ensures (x - q3 * m) * d == r1 * d + q1 * r2 + m * r3
  {
    calc {
      x * d;
    ==  { assert (q1 * c + r1) * d == q1 * (c * d) + r1 * d; }
      q1 * N + r1 * d;
    ==  { assert q1 * (mu * m + r2) == (q1 * mu) * m + q1 * r2; }
      (q1 * mu) * m + q1 * r2 + r1 * d;
    ==  { assert (q3 * d + r3) * m == (q3 * m) * d + m * r3; }
      (q3 * m) * d + m * r3 + q1 * r2 + r1 * d;
    }
    assert (x - q3 * m) * d == x * d - (q3 * m) * d;
  }

  /** Each of the three error terms is less than m * d */
  lemma ErrorTerms(m: int, c: int, d: int, q1: int, r1: int, r2: int, r3: int)
    requires 0 <= r1 < c <= m && 0 <= q1 < d && 0 <= r2 < m && 0 <= r3 < d
    ensures 0 <= r1 * d + q1 * r2 + m * r3 < 3 * (m * d)
  {
    MulMono(0, r1, d);
    MulMono(r1 + 1, m, d);
    assert (r1 + 1) * d == r1 * d + d;
    MulMono(0, q1, r2);
    MulMono(q1, d, r2);
    MulMono(r2, m, d);
    MulMono(0, r3, m);
    MulMono(r3, d, m);
  }

  lemma ScaledBounds(e: int, m: int, d: int)
    requires d > 0 && 0 <= e * d < 3 * (m * d)
    ensures 0 <= e < 3 * m
  {
    if e < 0 { MulMono(e, -1, d); }
    assert (3 * m) * d == 3 * (m * d);
    if e >= 3 * m { MulMono(3 * m, e, d); }
  }

  /** The guess is at most the quotient and at least two less */
  lemma GuessBounds(x: int, m: int, mu: int, k: nat, q1: int, r1: int, q3: int, r3: int)
    requires k >= 1 && Shl(1, k - 1) <= m && IsMu(mu, m, k)
    requires 0 <= x < Shl(1, 2 * k)
    requires x == Shl(q1, k - 1) + r1 && 0 <= r1 < Shl(1, k - 1)
    requires q1 * mu == Shl(q3, k + 1) + r3 && 0 <= r3 < Shl(1, k + 1)
    ensures 0 <= x - q3 * m < 3 * m
  {
    var c, d, N := Shl(1, k - 1), Shl(1, k + 1), Shl(1, 2 * k);
    ShlMul(q1, 1, k - 1);
    ShlMul(q3, 1, k + 1);
    ShlTimesShl(1, k - 1, 1, k + 1);
    ShlPos(k + 1);
    FirstPart(x, q1, r1, k);
    GuessError(x, m, mu, c, d, N, q1, r1, q3, r3, N - mu * m);
    ErrorTerms(m, c, d, q1, r1, N - mu * m, r3);
    ScaledBounds(x - q3 * m, m, d);
  }

  lemma FirstPart(x: int, q1: int, r1: int, k: nat)
    requires k >= 1 && 0 <= x < Shl(1, 2 * k) && x == Shl(q1, k - 1) + r1 && 0 <= r1 < Shl(1, k - 1)
    ensures 0 <= q1 < Shl(1, k + 1)
  {
    ShlZero(k - 1);
    if q1 < 0 {
      ShlMono(q1, -1, k - 1);
      ShlSub(0, 1, k - 1);
    }
    if q1 >= Shl(1, k + 1) {
      ShlMono(Shl(1, k + 1), q1, k - 1);
      ShlShl(1, k + 1, k - 1);
    }
  }

  /** UMUL: only the digits of z change */
  method UMulInto(th: nat, x: MpInt, y: MpInt, z: MpInt)
    requires th == 0 || th >= 4
    requires x.Valid() && y.Valid()
    modifies z
    ensures z.Valid() && z.neg == old(z.neg) && z.Mag() == old(x.Mag() * y.Mag())
  {
    z.digits := MulMag(th, x.digits, y.digits);
  }

  /** q2 := floor(floor(x / B^(k - 1)) * mu / B^(k + 1)) */
  method Guess(th: nat, x: MpInt, mu: MpInt, k: nat, q1: MpInt, q2: MpInt)
    requires th == 0 || th >= 4
    requires x.Valid() && mu.Valid() && !x.neg && k >= 1
    requires q1 !in {x, mu, q2} && q2 !in {x, mu}
    modifies q1, q2
    ensures q1.Valid() && q2.Valid() && !q1.neg
    ensures q2.Mag() == Rsh(Rsh(x.Mag(), 32 * (k - 1)) * mu.Mag(), 32 * (k + 1))
  {
    Copy(x, q1);
    QDiv(q1, (k - 1) * 32);
    UMulInto(th, q1, mu, q2);
    QDiv(q2, (k + 1) * 32);
  }

  /** The shifts of `Guess` satisfy the hypotheses of `GuessBounds` */
  lemma GuessIsClose(x: int, m: int, mu: int, k: nat)
    requires k >= 1 && Shl(1, k - 1) <= m && IsMu(mu, m, k)
    requires 0 <= x < Shl(1, 2 * k)
    ensures 0 <= x - Rsh(Rsh(x, 32 * (k - 1)) * mu, 32 * (k + 1)) * m < 3 * m
  {
    var q1 := Rsh(x, 32 * (k - 1));
    var q3 := Rsh(q1 * mu, 32 * (k + 1));
    LowBitsRange(x, 32 * (k - 1));
    LowBitsRange(q1 * mu, 32 * (k + 1));
    LshDigits(q1, k - 1);
    LshDigits(1, k - 1);
    LshDigits(q3, k + 1);
    LshDigits(1, k + 1);
    GuessBounds(x, m, mu, k, q1, LowBits(x, 32 * (k - 1)), q3, LowBits(q1 * mu, 32 * (k + 1)));
  }

  // ---------------------------------------------------------------- the residue

  /** Two numbers are compared modulo 2^n; the residue lies in [0, 2^n) */
  lemma Wraparound(x: int, y: int, n: nat)
    requires 0 <= x - y < Lsh(1, n)
    ensures var e := LowBits(x, n) - LowBits(y, n);
      && -Lsh(1, n) < e < Lsh(1, n)
      && x - y == if e < 0 then e + Lsh(1, n) else e
  {
    LowBitsRange(x, n);
    LowBitsRange(y, n);
    var p := Rsh(x, n) - Rsh(y, n);
    LshSub(Rsh(x, n), Rsh(y, n), n);
    LshZero(n);
    if p >= 2 { LshMono(2, p, n); LshAdd(1, 1, n); }
    if p <= -1 { LshMono(p, -1, n); LshSub(0, 1, n); }
  }

  /** x := x - q2 * m, computed modulo B^(k + 1) */
  method Residue(th: nat, x: MpInt, m: MpInt, k: nat, q1: MpInt, q2: MpInt)
    requires th == 0 || th >= 4
    requires x.Valid() && m.Valid() && q2.Valid() && !x.neg && !q1.neg && k == |m.digits|
    requires x !in {m, q1, q2} && q1 !in {m, q2}
    requires 0 <= x.Mag() - q2.Mag() * m.Mag() < 3 * m.Mag()
    modifies x, q1
    ensures x.Valid() && !x.neg && x.Mag() == old(x.Mag() - q2.Mag() * m.Mag())
  {
    var n := (k + 1) * 32;
    ghost var y := q2.Mag() * m.Mag();
    Room(m.digits, x.Mag() - y);
    Wraparound(x.Mag(), y, n);
    QMod(x, n);
    UMulInto(th, q2, m, q1);
    QMod(q1, n);
    Fold(x, q1, k);
  }

  /** x := x - q1, plus B^(k + 1) if that is negative */
  method Fold(x: MpInt, q1: MpInt, k: nat)
    requires x.Valid() && q1.Valid() && !x.neg && !q1.neg && x != q1
    requires x.Mag() - q1.Mag() >= 0 || Shl(1, k) <= q1.Mag() - x.Mag() < Lsh(1, (k + 1) * 32)
    modifies x
    ensures x.Valid() && !x.neg
    ensures x.Mag() == old(if x.Mag() >= q1.Mag() then x.Mag() - q1.Mag() else x.Mag() - q1.Mag() + Lsh(1, (k + 1) * 32))
  {
    Sub(x, q1, x);
    NumBound(x.digits);
    var c := CmpZero(x);
    if c < 0 {
      LongEnough(x.digits, k);
      ShlPos(k);
      QSub(x, (k + 1) * 32);
    }
  }

  /** 3m is far below B^(k + 1) */
  lemma Room(m: seq<digit>, r: int)
    requires 0 <= r < 3 * Num(m)
    ensures r < Lsh(1, (|m| + 1) * 32) && Shl(1, |m|) <= Lsh(1, (|m| + 1) * 32) - r
  {
    var k := |m|;
    LshDigits(1, k + 1);
    NumBound(m);
    ShlMul(3, 1, k);
    ShlIn(1, k);
    ShlMono(4, 0x1_0000_0000, k);
    ShlAdd(3, 1, k);
    ShlPos(k);
  }

  /** A number of at least B^k has k + 1 digits */
  lemma LongEnough(s: seq<digit>, k: nat)
    requires Shl(1, k) <= Num(s)
    ensures |s| >= k + 1
  {
    NumBound(s);
    if |s| <= k { ShlGrow(|s|, k); }
  }

  /** Back x off by m if it is not below m */
  method BackOff(x: MpInt, m: MpInt)
    requires x.Valid() && m.Valid() && !x.neg && !m.neg && x != m
    modifies x
    ensures x.Valid() && !x.neg
    ensures x.Mag() == old(if x.Mag() >= m.Mag() then x.Mag() - m.Mag() else x.Mag())
  {
    var c := Compare(x, m);
    if c >= 0 { Sub(x, m, x); }
    NumBound(x.digits);
  }

  /** s_reduce: x := x mod m, with the guess low by at most two */
  method Reduce(th: nat, x: MpInt, m: MpInt, mu: MpInt, q1: MpInt, q2: MpInt)
    requires th == 0 || th >= 4
    requires x.Valid() && m.Valid() && mu.Valid() && !x.neg && !m.neg
    requires x !in {m, mu, q1, q2} && q1 !in {m, mu, q2} && q2 !in {m, mu}
    requires m.Mag() >= 1 && IsMu(mu.Mag(), m.Mag(), |m.digits|)
    requires x.Mag() < Shl(1, 2 * |m.digits|)
    modifies x, q1, q2
    ensures x.Valid() && !x.neg && x.Mag() == old(x.Mag()) % m.Mag()
  {
    var k := |m.digits|;
    NormalIff(m.digits);
    NumBound(x.digits);
    GuessIsClose(x.Mag(), m.Mag(), mu.Mag(), k);
    Guess(th, x, mu, k, q1, q2);
    ghost var q, x0 := q2.Mag(), x.Mag();
    Residue(th, x, m, k, q1, q2);
    Remainder(x0, m.Mag(), q, x.Mag());
    BackOff(x, m);
    BackOff(x, m);
  }

  lemma Remainder(x: int, m: int, q: int, r: int)
    requires m > 0 && x == q * m + r && 0 <= r < 3 * m
    ensures x % m == if r < m then r else if r < 2 * m then r - m else r - 2 * m
  {
    var e := if r < m then 0 else if r < 2 * m then 1 else 2;
    assert (q + e) * m == q * m + e * m;
    DivModUnique(x, m, q + e, r - e * m);
  }
}
