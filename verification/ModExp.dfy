/**
 s_embar: modular exponentiation, scanning the exponent from its low bit up and
 reducing every product with Barrett's method.
 */
module ModExp {
  import opened Common
  import opened Digits
  import opened Kernels
  import opened Karatsuba
  import opened Magnitude
  import opened Integers
  import opened Shifts
  import opened Barrett

  /** x^n */
  function Pow(x: int, n: nat): int {
    if n == 0 then 1 else x * Pow(x, n - 1)
  }

  lemma ModPlusMultiple(z: int, k: int, m: int)
    requires m > 0
    ensures (z + k * m) % m == z % m
  {
    var q, r := z / m, z % m;
    assert z == m * q + r;
    assert (q + k) * m == m * q + k * m;
    DivModUnique(z + k * m, m, q + k, r);
  }

  /** Reducing a factor first does not change a product modulo m */
  lemma ModMul(x: int, y: int, m: int)
    requires m > 0
    ensures ((x % m) * y) % m == (x * y) % m
  {
    var q, r := x / m, x % m;
    assert x == m * q + r;
    assert (m * q + r) * y == r * y + (q * y) * m;
    ModPlusMultiple(r * y, q * y, m);
  }

  lemma {:induction false} PowMod(x: int, n: nat, m: int)
    requires m > 0
    ensures Pow(x % m, n) % m == Pow(x, n) % m
  {
    if n != 0 {
      PowMod(x, n - 1, m);
      ModMul(x, Pow(x % m, n - 1), m);
      ModMul(Pow(x % m, n - 1), x, m);
      ModMul(Pow(x, n - 1), x, m);
    }
  }

  lemma {:induction false} PowSquare(x: int, n: nat)
    ensures Pow(x * x, n) == Pow(x, 2 * n)
  {
    if n != 0 {
      PowSquare(x, n - 1);
      assert Pow(x, 2 * n) == x * (x * Pow(x, 2 * n - 2));
      assert (x * x) * Pow(x, 2 * n - 2) == x * (x * Pow(x, 2 * n - 2));
    }
  }

  /** What is still to be computed: c times the remaining power of a, modulo m */
  function Pending(c: int, a: int, e: nat, m: int): int
    requires m > 0
  {
    (c * Pow(a, e)) % m
  }

  lemma PendingReduced(c: int, a: int, e: nat, m: int)
    requires m > 0
    ensures Pending(c % m, a, e, m) == Pending(c, a, e, m)
    ensures Pending(c, a % m, e, m) == Pending(c, a, e, m)
  {
    ModMul(c, Pow(a, e), m);
    PowMod(a, e, m);
    ModCongruent(c, Pow(a % m, e), Pow(a, e), m);
  }

  lemma ModCongruent(c: int, p: int, q: int, m: int)
    requires m > 0 && p % m == q % m
    ensures (c * p) % m == (c * q) % m
  {
    ModMul(p, c, m);
    ModMul(q, c, m);
    assert p * c == c * p && q * c == c * q;
  }

  /** One bit of the exponent: multiply if it is set, then square */
  lemma BitStep(c: int, a: int, e: nat, m: int)
    requires m > 0
    ensures Pending(c, a, 2 * e, m) == Pending(c, (a * a) % m, e, m)
    ensures Pending(c, a, 2 * e + 1, m) == Pending((c * a) % m, (a * a) % m, e, m)
  {
    PowSquare(a, e);
    PendingReduced(c, a * a, e, m);
    PendingReduced(c * a, (a * a) % m, e, m);
    PendingReduced(c * a, a * a, e, m);
    assert Pow(a, 2 * e + 1) == a * Pow(a, 2 * e);
    assert c * (a * Pow(a, 2 * e)) == (c * a) * Pow(a, 2 * e);
  }

  /** The last bit: multiply only */
  lemma LastBit(c: int, a: int, m: int)
    requires m > 0
    ensures Pending(c, a, 0, m) == c % m
    ensures Pending(c, a, 1, m) == (c * a) % m
  {
    assert Pow(a, 1) == a * Pow(a, 0);
  }

  // ---------------------------------------------------------------- the loops

  /** The modulus with its constant, and the three temporaries */
  class Context {
    const th: nat
    const m: MpInt
    const mu: MpInt
    const t0: MpInt
    const t1: MpInt
    const t2: MpInt

    constructor (th: nat, m: MpInt, mu: MpInt)
      ensures this.th == th && this.m == m && this.mu == mu
      ensures fresh({t0, t1, t2}) && t0 != t1 && t0 != t2 && t1 != t2
      ensures !t0.neg
    {
      this.th, this.m, this.mu := th, m, mu;
      t0 := new MpInt();
      t1 := new MpInt();
      t2 := new MpInt();
    }

    ghost predicate Valid()
      reads m, mu, t0
    {
      && (th == 0 || th >= 4)
      && t0 !in {m, mu, t1, t2} && t1 !in {m, mu, t2} && t2 !in {m, mu}
      && m.Valid() && mu.Valid() && !m.neg && m.Mag() >= 1 && IsMu(mu.Mag(), m.Mag(), |m.digits|)
      && !t0.neg
    }

    ghost predicate Apart(x: MpInt) {
      x !in {m, mu, t0, t1, t2}
    }

    /** c := c * a mod m */
    method MulMod(c: MpInt, a: MpInt)
      requires Valid() && Apart(c) && Apart(a)
      requires c.Valid() && a.Valid() && !c.neg && c.Mag() <= m.Mag() && a.Mag() < m.Mag()
      modifies c, t0, t1, t2
      ensures Valid() && c.Valid() && !c.neg && c.Mag() == old(c.Mag() * a.Mag()) % m.Mag()
      ensures c.Mag() < m.Mag()
    {
      ProductFits(c.digits, a.digits, m.digits);
      UMulInto(th, c, a, t0);
      Reduce(th, t0, m, mu, t1, t2);
      Copy(t0, c);
      ModRange(old(c.Mag() * a.Mag()), m.Mag());
    }

    /** a := a * a mod m */
    method SqrMod(a: MpInt)
      requires Valid() && Apart(a) && a.Valid() && a.Mag() < m.Mag()
      modifies a, t0, t1, t2
      ensures Valid() && a.Valid() && !a.neg && a.Mag() == old(a.Mag() * a.Mag()) % m.Mag()
      ensures a.Mag() < m.Mag()
    {
      ProductFits(a.digits, a.digits, m.digits);
      t0.digits := SqrMag(th, a.digits);
      Reduce(th, t0, m, mu, t1, t2);
      Copy(t0, a);
      ModRange(old(a.Mag() * a.Mag()), m.Mag());
    }
  }

  lemma ProductFits(x: seq<digit>, y: seq<digit>, m: seq<digit>)
    requires Num(x) <= Num(m) && Num(y) < Num(m)
    ensures 0 <= Num(x) * Num(y) < Shl(1, 2 * |m|)
  {
    NumBound(x);
    NumBound(y);
    ProductBelow(m, 0, |m|, m, 0, |m|);
    MulMono(0, Num(x), Num(y));
    MulMono(Num(x), Num(m), Num(y));
    MulMono(Num(y), Num(m), Num(m));
  }

  /** The state between two bits: both numbers are reduced */
  ghost predicate Reduced(ctx: Context, a: MpInt, c: MpInt)
    reads ctx.m, ctx.mu, ctx.t0, a, c
  {
    && ctx.Valid() && ctx.Apart(a) && ctx.Apart(c) && a != c
    && a.Valid() && c.Valid() && !c.neg
    && a.Mag() < ctx.m.Mag() && c.Mag() <= ctx.m.Mag()
  }

  lemma ModRange(x: int, m: int)
    requires m > 0
    ensures 0 <= x % m < m
  {}

  /** One bit of the exponent below its top digit */
  method LowBit(ctx: Context, a: MpInt, c: MpInt, bit: bool, ghost e: nat)
    requires Reduced(ctx, a, c)
    modifies a, c, ctx.t0, ctx.t1, ctx.t2
    ensures Reduced(ctx, a, c)
    ensures Pending(c.Mag(), a.Mag(), e, ctx.m.Mag())
         == old(Pending(c.Mag(), a.Mag(), 2 * e + (if bit then 1 else 0), ctx.m.Mag()))
  {
    BitStep(c.Mag(), a.Mag(), e, ctx.m.Mag());
    if bit { ctx.MulMod(c, a); }
    ctx.SqrMod(a);
  }

  /** The 32 bits of a digit below the top one */
  method LowDigit(ctx: Context, a: MpInt, c: MpInt, digit: digit, ghost rest: nat)
    requires Reduced(ctx, a, c)
    modifies a, c, ctx.t0, ctx.t1, ctx.t2
    ensures Reduced(ctx, a, c)
    ensures Pending(c.Mag(), a.Mag(), rest, ctx.m.Mag())
         == old(Pending(c.Mag(), a.Mag(), digit + 0x1_0000_0000 * rest, ctx.m.Mag()))
  {
    var d: int, i := digit, 32;
    Lsh32(rest);
    Lsh32(1);
    ghost var p := Pending(c.Mag(), a.Mag(), digit + 0x1_0000_0000 * rest, ctx.m.Mag());
    while i > 0
      invariant 0 <= i <= 32 && 0 <= d < Lsh(1, i) && Lsh(rest, i) >= 0
      invariant Reduced(ctx, a, c)
      invariant Pending(c.Mag(), a.Mag(), d + Lsh(rest, i), ctx.m.Mag()) == p
    {
      LshNat(rest, i - 1);
      LowBit(ctx, a, c, d % 2 == 1, d / 2 + Lsh(rest, i - 1));
      d := d / 2;
      i := i - 1;
    }
  }

  lemma LshNat(x: nat, n: nat)
    ensures Lsh(x, n) >= 0
  {
    LshZero(n);
    LshMono(0, x, n);
  }

  /** The top digit, down to its highest set bit */
  method TopDigitBits(ctx: Context, a: MpInt, c: MpInt, digit: digit)
    requires Reduced(ctx, a, c)
    modifies a, c, ctx.t0, ctx.t1, ctx.t2
    ensures Reduced(ctx, a, c)
    ensures c.Mag() == if digit == 0 then old(c.Mag()) else old(Pending(c.Mag(), a.Mag(), digit, ctx.m.Mag()))
  {
    var d: int := digit;
    ghost var p := Pending(c.Mag(), a.Mag(), d, ctx.m.Mag());
    while d > 1
      invariant d >= 0 && (digit == 0 ==> d == 0 && c.Mag() == old(c.Mag())) && (digit > 0 ==> d > 0)
      invariant Reduced(ctx, a, c)
      invariant Pending(c.Mag(), a.Mag(), d, ctx.m.Mag()) == p
    {
      LowBit(ctx, a, c, d % 2 == 1, d / 2);
      d := d / 2;
    }
    LastBit(c.Mag(), a.Mag(), ctx.m.Mag());
    if d == 1 { ctx.MulMod(c, a); }
  }

  /**
   s_embar: c := a^b mod m for a < m; a is used up. The result starts at 1 and is
   reduced only when it is multiplied, so the one miss is 1^0 modulo 1.
   */
  method Embar(th: nat, a: MpInt, b: MpInt, m: MpInt, mu: MpInt, c: MpInt)
    requires th == 0 || th >= 4
    requires a.Valid() && b.Valid() && m.Valid() && mu.Valid() && !m.neg
    requires a !in {b, m, mu, c} && c !in {b, m, mu}
    requires m.Mag() >= 1 && a.Mag() < m.Mag() && IsMu(mu.Mag(), m.Mag(), |m.digits|)
    modifies a, c
    ensures c.Valid() && !c.neg
    ensures b.Mag() >= 0
    ensures c.Mag() == old(Pow(a.Mag(), b.Mag())) % m.Mag() <==> !(m.Mag() == 1 && b.Mag() == 0)
  {
    var ctx := new Context(th, m, mu);
    NumBound(b.digits);
    c.digits, c.neg := [1], false;
    assert Num([1]) == Val([1], 0, 0) + Shl(1, 0);
    var n := |b.digits|;
    LowDigits(ctx, a, b, c);
    ValHead(b.digits, n - 1, 1);
    ZeroIff(b.digits);
    OneMod(m.Mag());
    TopDigitBits(ctx, a, c, b.digits[n - 1]);
  }

  /** All digits of the exponent below the top one */
  method LowDigits(ctx: Context, a: MpInt, b: MpInt, c: MpInt)
    requires Reduced(ctx, a, c) && b.Valid() && b !in {a, c, ctx.t0, ctx.t1, ctx.t2} && b.Mag() >= 0
    modifies a, c, ctx.t0, ctx.t1, ctx.t2
    ensures Reduced(ctx, a, c) && (|b.digits| == 1 ==> c.Mag() == old(c.Mag()))
    ensures Val(b.digits, |b.digits| - 1, 1) >= 0
    ensures Pending(c.Mag(), a.Mag(), Val(b.digits, |b.digits| - 1, 1), ctx.m.Mag())
         == old(Pending(c.Mag(), a.Mag(), b.Mag(), ctx.m.Mag()))
  {
    var i, n := 0, |b.digits|;
    while i < n - 1
      invariant 0 <= i <= n - 1
      invariant Reduced(ctx, a, c) && Val(b.digits, i, n - i) >= 0
      invariant n == 1 ==> c.Mag() == old(c.Mag())
      invariant Pending(c.Mag(), a.Mag(), Val(b.digits, i, n - i), ctx.m.Mag())
             == old(Pending(c.Mag(), a.Mag(), b.Mag(), ctx.m.Mag()))
    {
      ValHead(b.digits, i, n - i);
      ValBound(b.digits, i + 1, n - i - 1);
      LowDigit(ctx, a, c, b.digits[i], Val(b.digits, i + 1, n - i - 1));
      i := i + 1;
    }
  }

  lemma OneMod(m: int)
    requires m >= 1
    ensures 1 % m == 1 <==> m != 1
  {}
}
