/**
 Signed division and what is built on it: mp_int_div, mp_int_mod, mp_int_invmod,
 s_brmu and mp_int_exptmod.
 */
module Modular {
  import opened Common
  import opened Digits
  import opened Kernels
  import opened Magnitude
  import opened Integers
  import opened Shifts
  import opened Barrett
  import opened ModExp
  import opened Division
  import opened Gcd

  // ---------------------------------------------------------------- powers of two

  ghost predicate IsPow2(x: int) {
    exists k: nat :: PowerIs(x, k)
  }

  ghost predicate PowerIs(x: int, k: nat) {
    x == Lsh(1, k)
  }

  /** An odd factor and a power of two are determined by their product */
  lemma OddUnique(x: int, m: nat, y: int, n: nat)
    requires x % 2 == 1 && y % 2 == 1 && Lsh(x, m) == Lsh(y, n)
    ensures x == y
  {
    if m < n {
      LshLsh(y, n - m, m);
      LshInjective(x, Lsh(y, n - m), m);
    } else if n < m {
      LshLsh(x, m - n, n);
      LshInjective(y, Lsh(x, m - n), n);
    } else {
      LshInjective(x, y, m);
    }
  }

  lemma LshInjective(x: int, y: int, n: nat)
    requires Lsh(x, n) == Lsh(y, n)
    ensures x == y
  {
    LshPos(n);
    if x < y {
      LshMono(x + 1, y, n);
      LshAdd(x, 1, n);
    } else if y < x {
      LshMono(y + 1, x, n);
      LshAdd(y, 1, n);
    }
  }

  lemma NotPow2(x: int, odd: int, m: nat)
    requires x == Lsh(odd, m) && odd % 2 == 1 && odd != 1
    ensures !IsPow2(x)
  {
    if IsPow2(x) {
      var k: nat :| PowerIs(x, k);
      OddUnique(odd, m, 1, k);
    }
  }

  /** A positive number as an odd factor times a power of two */
  lemma {:induction false} OddFactor(x: int) returns (d: int, j: nat)
    requires x > 0
    ensures d > 0 && d % 2 == 1 && x == Lsh(d, j)
    decreases x
  {
    if x % 2 == 1 {
      d, j := x, 0;
    } else {
      d, j := OddFactor(x / 2);
      j := j + 1;
    }
  }

  /** A nonzero digit below the top one rules a power of two out */
  lemma LowDigitSet(s: seq<digit>, i: nat)
    requires Normal(s) && i < |s| - 1 && ZeroOn(s, 0, i) && s[i] != 0
    ensures !IsPow2(Num(s))
  {
    var d, j := OddFactor(s[i]);
    var odd := OddPart(s, i, d, j);
    ValHead(s, i, |s| - i);
    var hi := Val(s, i + 1, |s| - i - 1);
    ValSplit(s, 0, i, |s| - i);
    ValZero(s, 0, i);
    HighPositive(s, i + 1);
    if odd == 1 {
      LshShl(1, j, i);
      assert Shl(s[i] + Shl(hi, 1), i) == Shl(Lsh(1, j), i);
      if s[i] + Shl(hi, 1) < Lsh(1, j) { ShlStrict(s[i] + Shl(hi, 1), Lsh(1, j), i); }
      if s[i] + Shl(hi, 1) > Lsh(1, j) { ShlStrict(Lsh(1, j), s[i] + Shl(hi, 1), i); }
      LshMono(1, d, j);
    }
    NotPow2(Num(s), odd, 32 * i + j);
  }

  lemma HighPositive(s: seq<digit>, i: nat)
    requires Normal(s) && 1 <= i < |s|
    ensures Val(s, i, |s| - i) >= 1
  {
    ValBound(s, i, |s| - i - 1);
    ShlPos(|s| - i - 1);
    ShlMono(1, s[|s| - 1], |s| - i - 1);
  }

  /** s_isp2: k if z = 2^k, otherwise -1 */
  method IsP2(z: MpInt) returns (k: int)
    requires z.Valid() && z.Mag() > 0
    ensures k >= -1 && (k == -1 <==> !IsPow2(z.Mag()))
    ensures k >= 0 ==> z.Mag() == Lsh(1, k)
  {
    var n := |z.digits| - 1;
    var i := 0;
    k := 0;
    while i < n
      invariant 0 <= i <= n && k == 32 * i
      invariant ZeroOn(z.digits, 0, i)
    {
      if z.digits[i] != 0 {
        LowDigitSet(z.digits, i);
        return -1;
      }
      i, k := i + 1, k + 32;
    }
    ZeroIff(z.digits);
    ValZero(z.digits, 0, n);
    var d: int := z.digits[n];
    ghost var j := 0;
    while d > 1
      invariant d >= 1 && z.digits[n] == Lsh(d, j) && k == 32 * n + j
    {
      if d % 2 == 1 {
        LshShl(d, j, n);
        NotPow2(z.Mag(), d, 32 * n + j);
        return -1;
      }
      LshIn(d / 2, j);
      k := k + 1;
      d, j := d / 2, j + 1;
    }
    LshShl(1, j, n);
    assert PowerIs(z.Mag(), k);
  }

  // ---------------------------------------------------------------- signed division

  /** The divisions of magnitudes whose quotient comes out too large */
  ghost predicate QuotientOff(a: int, b: int) {
    a > b && !IsPow2(b) && DivisionStalls(a, b)
  }

  /** The part of mp_int_div for |a| > |b| > 0: shifts for a power of two, s_udiv otherwise */
  method DivMag(a: MpInt, b: MpInt) returns (q: MpInt, r: MpInt)
    requires a.Valid() && b.Valid() && 0 < b.Mag() < a.Mag()
    ensures fresh({q, r}) && q != r && q.Valid() && r.Valid()
    ensures r.Mag() == a.Mag() % b.Mag()
    ensures Tracks(QuotientOff(a.Mag(), b.Mag()), q.Mag(), a.Mag() / b.Mag())
  {
    var lg := IsP2(b);
    q := new MpInt.Copied(a);
    if lg < 0 {
      r := new MpInt.Copied(b);
      UDiv(q, r);
    } else {
      r := new MpInt.Copied(a);
      RshIsDiv(a.Mag(), lg);
      QDiv(q, lg);
      QMod(r, lg);
    }
  }

  /** mp_int_div: q rounds towards zero and r takes the sign of a */
  method Div(a: MpInt, b: MpInt, q: MpInt?, r: MpInt?) returns (res: MpResult)
    requires a.Valid() && b.Valid() && q != r
    modifies q, r
    ensures res == if old(b.Mag()) == 0 then Undef else Ok
    ensures res == Ok && r != null ==>
      r.Valid() && r.Mag() == old(a.Mag() % b.Mag()) && (r.Mag() != 0 ==> r.neg == old(a.neg))
    ensures res == Ok && q != null ==>
      q.Valid() && q.neg == (q.Mag() != 0 && old(a.neg != b.neg)) &&
      Tracks(QuotientOff(old(a.Mag()), old(b.Mag())), q.Mag(), old(a.Mag() / b.Mag()))
  {
    var sa, sb := a.neg, b.neg;
    ghost var av, bv := a.Mag(), b.Mag();
    NumBound(a.digits);
    NumBound(b.digits);
    var cb := CmpZero(b);
    if cb == 0 {
      return Undef;
    }
    var cmp := UCmp(a.digits, b.digits);
    if cmp < 0 {
      DivModUnique(av, bv, 0, av);
      if r != null { Copy(a, r); }
      if q != null { SetZero(q); }
    } else if cmp == 0 {
      DivModUnique(av, bv, 1, 0);
      if r != null { SetZero(r); }
      if q != null {
        SetOne(q);
        q.neg := sa != sb;
      }
    } else {
      var qt, rt := DivMag(a, b);
      rt.neg := sa;
      FixZero(rt);
      qt.neg := sa != sb;
      FixZero(qt);
      if q != null { Copy(qt, q); }
      if r != null { Copy(rt, r); }
    }
    return Ok;
  }

  /** A zero is positive */
  method FixZero(z: MpInt)
    requires z.Valid()
    modifies z
    ensures z.Valid() && z.digits == old(z.digits) && z.neg == (old(z.neg) && z.Mag() != 0)
  {
    var c := CmpZero(z);
    if c == 0 { z.neg := false; }
  }

  function Signed(neg: bool, mag: int): int {
    if neg then -mag else mag
  }

  /** A negative remainder is moved by the modulus */
  function MovedBy(r: int, m: int): int {
    if r < 0 then r + m else r
  }

  /**
   mp_int_mod: the remainder with the sign of a, moved by the modulus if negative.
   For a positive modulus that is a mod m, between 0 and m - 1; for a negative one
   a negative remainder is moved further down.
   */
  method Mod(a: MpInt, m: MpInt, c: MpInt) returns (res: MpResult)
    requires a.Valid() && m.Valid()
    modifies c
    ensures res == if old(m.Mag()) == 0 then Undef else Ok
    ensures res == Ok ==> c.Valid() && c.Value() == MovedBy(Signed(old(a.neg), old(a.Mag() % m.Mag())), old(m.Value()))
    ensures res == Ok && old(m.Value()) > 0 ==> c.Value() == old(a.Value() % m.Value()) && (c.Value() > 0 ==> !c.neg)
  {
    var out := new MpInt();
    ghost var av, mv := a.Value(), m.Value();
    NumBound(a.digits);
    NumBound(m.digits);
    res := Div(a, m, null, out);
    if res != Ok { return; }
    if mv > 0 { ModFromMag(a.Mag(), a.neg, mv); }
    ToResidue(out, m, c);
  }

  /** The last step of mp_int_mod */
  method ToResidue(out: MpInt, m: MpInt, c: MpInt)
    requires out.Valid() && m.Valid() && out != c && (m.Value() > 0 ==> out.Mag() < m.Value())
    modifies c
    ensures c.Valid() && c.Value() == old(MovedBy(out.Value(), m.Value()))
    ensures old(m.Value()) > 0 && c.Value() > 0 ==> !c.neg
  {
    NumBound(out.digits);
    var s := CmpZero(out);
    if s < 0 {
      Add(out, m, c);
    } else {
      Copy(out, c);
    }
    NumBound(c.digits);
  }

  /** The residue of a signed number from the remainder of its magnitude */
  lemma ModFromMag(mag: int, neg: bool, m: int)
    requires m > 0
    ensures 0 <= mag % m < m
    ensures (if neg then -mag else mag) % m == if neg && mag % m != 0 then m - mag % m else mag % m
  {
    if neg {
      var q, r := mag / m, mag % m;
      assert mag == m * q + r;
      if r == 0 {
        NegProduct(q, m, 0);
        DivModUnique(-mag, m, -q, 0);
      } else {
        NegProduct(q, m, 1);
        DivModUnique(-mag, m, -q - 1, m - r);
      }
    }
  }

  lemma NegProduct(q: int, m: int, c: int)
    ensures (-q - c) * m == -(m * q) - c * m
  {}

  // ---------------------------------------------------------------- modular inverse

  /** mp_int_compare_value(z, 1) == 0 */
  method EqualsOne(z: MpInt) returns (r: bool)
    requires z.Valid() && !z.neg
    ensures r <==> z.Value() == 1
  {
    r := z.digits == [1];
    ghost var one: seq<digit> := [1];
    assert Num(one) == Val(one, 0, 0) + Shl(1, 0);
    if z.Value() == 1 { NormalUnique(z.digits, one); }
  }

  /** A Bezout coefficient of a, reduced modulo m, is an inverse of a */
  lemma InverseFromBezout(x: int, a: int, y: int, m: int)
    requires m > 0 && x * a + y * m == 1
    ensures (a * (x % m)) % m == 1 % m
    ensures ((-a) * (m - x % m)) % m == 1 % m
  {
    var q, t := x / m, x % m;
    assert x == m * q + t;
    BezoutAlgebra(q, t, a, y, m);
    ModPlusMultiple(1, -(y + a * q), m);
    ModPlusMultiple(1, -(y + a * q) - a, m);
  }

  lemma BezoutAlgebra(q: int, t: int, a: int, y: int, m: int)
    requires (m * q + t) * a + y * m == 1
    ensures a * t == 1 + (-(y + a * q)) * m
    ensures (-a) * (m - t) == 1 + (-(y + a * q) - a) * m
  {}

  /**
   mp_int_invmod: succeeds exactly when a is not zero, m is positive and the two
   have no common divisor; then a * c = 1 modulo m, also for negative a.
   */
  method InvMod(a: MpInt, m: MpInt, c: MpInt) returns (res: MpResult)
    requires a.Valid() && m.Valid()
    modifies c
    ensures res == if old(a.Value() == 0 || m.Value() <= 0) then Range
                   else if IsGcd(1, old(a.Mag()), old(m.Mag())) then Ok else Undef
    ensures res == Ok ==>
      c.Valid() && (old(a.Value()) * c.Value()) % old(m.Value()) == 1 % old(m.Value())
    ensures res == Ok ==> 0 <= c.Value() <= old(m.Value()) && (c.Value() == old(m.Value()) ==> c.Value() == 1)
  {
    var ca := CmpZero(a);
    var cm := CmpZero(m);
    if ca == 0 || cm <= 0 {
      return Range;
    }
    NumBound(a.digits);
    NumBound(m.digits);
    var sa := a.neg;
    var t0 := new MpInt();
    var t1 := new MpInt();
    ghost var xv, yv;
    res, xv, yv := Egcd(a, m, t0, t1, null);
    var one := EqualsOne(t0);
    if IsGcd(1, a.Mag(), m.Mag()) { GcdUnique(t0.Value(), 1, a.Mag(), m.Mag()); }
    if !one {
      return Undef;
    }
    InverseFromBezout(xv, a.Mag(), yv, m.Value());
    FinishInverse(a, m, c, t1, sa, xv);
    return Ok;
  }

  /** The coefficient is reduced, and taken from the modulus if a was negative */
  method FinishInverse(a: MpInt, m: MpInt, c: MpInt, t1: MpInt, sa: bool, ghost x: int)
    requires a.Valid() && m.Valid() && t1.Valid() && t1 !in {a, m, c} && m.Value() > 0
    requires sa == a.neg && t1.Value() == x
    requires (a.Mag() * (x % m.Value())) % m.Value() == 1 % m.Value()
    requires ((-a.Mag()) * (m.Value() - x % m.Value())) % m.Value() == 1 % m.Value()
    modifies c, t1
    ensures c.Valid() && (old(a.Value()) * c.Value()) % old(m.Value()) == 1 % old(m.Value())
    ensures 0 <= c.Value() <= old(m.Value()) && (c.Value() == old(m.Value()) ==> c.Value() == 1)
  {
    ghost var mv, t := m.Value(), x % m.Value();
    ModFromMag(t1.Mag(), t1.neg, mv);
    if t == 0 { ZeroInverse(a.Mag(), mv); }
    var r := Mod(t1, m, t1);
    if sa {
      Sub(m, t1, c);
    } else {
      Copy(t1, c);
    }
  }

  /** 0 is an inverse only modulo 1 */
  lemma ZeroInverse(a: int, m: int)
    requires m > 0 && (a * 0) % m == 1 % m
    ensures m == 1
  {
    if m > 1 { DivModUnique(1, m, 0, 1); DivModUnique(0, m, 0, 0); }
  }

  // ---------------------------------------------------------------- modular exponentiation

  /** s_2expt and s_brmu: mu := B^2k / m, exact unless that division stalls */
  method BrMu(z: MpInt, m: MpInt) returns (res: MpResult)
    requires m.Valid() && m.Mag() > 0 && z != m
    modifies z
    ensures res == Ok && z.Valid()
    ensures IsMu(z.Mag(), m.Mag(), |m.digits|) <==> !QuotientOff(Shl(1, 2 * |m.digits|), m.Mag())
  {
    var k := |m.digits|;
    z.digits, z.neg := seq(2 * k, i => 0) + [1], false;
    NumZeros([1], 2 * k);
    assert Num([1]) == Val([1], 0, 0) + Shl(1, 0);
    res := Div(z, m, z, null);
    MuIff(z.Mag(), m.Mag(), k);
  }

  /** The modulus B^2 - B + 1 is one whose constant comes out wrong: the last digit of B^4 stalls */
  lemma MuExample()
    ensures QuotientOff(Shl(1, 4), 0xFFFF_FFFF_0000_0001)
  {
    MuStalls();
    NotPow2(0xFFFF_FFFF_0000_0001, 0xFFFF_FFFF_0000_0001, 0);
  }

  lemma MuOperands(x: seq<digit>, y: seq<digit>)
    requires x == [0, 0, 0, 0, 1] && y == [1, 0xFFFF_FFFF]
    ensures Num(x) == Shl(1, 4) == 0x1_0000_0000_0000_0000_0000_0000_0000_0000 && Num(y) == 0xFFFF_FFFF_0000_0001
  {
    assert Shl(1, 1) == 0x1_0000_0000 && Shl(1, 2) == 0x1_0000_0000_0000_0000;
    assert Shl(1, 3) == 0x1_0000_0000_0000_0000_0000_0000;
    ValZero(x, 0, 4);
    ValHead(y, 0, 2);
    ValHead(y, 1, 1);
  }

  lemma RunningNext(x: seq<digit>, bv: int, p: nat, q: int, r: int)
    requires p < |x| && 0 <= r < bv && Pair(Running(x, bv, p + 1), x[p]) == q * bv + r
    ensures Running(x, bv, p) == r
  {
    DivModUnique(Extended(x, bv, p), bv, q, r);
  }

  lemma MuRunning(x: seq<digit>)
    requires x == [0, 0, 0, 0, 1]
    ensures Running(x, 0xFFFF_FFFF_0000_0001, 1) == 0xFFFF_FFFF_0000_0000
  {
    var m := 0xFFFF_FFFF_0000_0001;
    RunningNext(x, m, 4, 0, 1);
    RunningNext(x, m, 3, 0, 0x1_0000_0000);
    RunningNext(x, m, 2, 1, 0xFFFF_FFFF);
    RunningNext(x, m, 1, 0, 0xFFFF_FFFF_0000_0000);
  }

  lemma MuStalls()
    ensures Shl(1, 4) > 0xFFFF_FFFF_0000_0001 && DivisionStalls(Shl(1, 4), 0xFFFF_FFFF_0000_0001)
  {
    var x: seq<digit>, y: seq<digit> := [0, 0, 0, 0, 1], [1, 0xFFFF_FFFF];
    MuOperands(x, y);
    assert ShiftedBy(Shl(1, 4), 0xFFFF_FFFF_0000_0001, x, y, 0);
    MuRunning(x);
    assert Shl(0xFFFF_FFFF, 2) == 0xFFFF_FFFF_0000_0000_0000_0000 by { ShlIn(0xFFFF_FFFF, 1); }
    assert Stalls(x, y, 0);
    assert NormalizedPair(Shl(1, 4), 0xFFFF_FFFF_0000_0001, x, y) && StallsFrom(x, y, 0);
  }

  lemma MuIff(mu: int, m: int, k: nat)
    requires m > 0
    ensures IsMu(mu, m, k) <==> mu == Shl(1, 2 * k) / m
  {
    var N := Shl(1, 2 * k);
    if IsMu(mu, m, k) { DivModUnique(N, m, mu, N - mu * m); }
    var q, r := N / m, N % m;
    assert N == m * q + r;
    if mu == q { assert N - mu * m == r; }
  }

  /**
   mp_int_exptmod for a positive modulus whose reduction constant is exact:
   c := a^b mod m, except that 1 comes out for b = 0 and m = 1.
   */
  method ExptMod(th: nat, a: MpInt, b: MpInt, m: MpInt, c: MpInt) returns (res: MpResult)
    requires th == 0 || th >= 4
    requires a.Valid() && b.Valid() && m.Valid() && m.Value() >= 0
    requires m.Value() > 0 ==> !QuotientOff(Shl(1, 2 * |m.digits|), m.Mag())
    modifies c
    ensures res == if old(m.Value()) == 0 then Undef else if old(b.Value()) < 0 then Range else Ok
    ensures res == Ok ==> c.Valid() && old(b.Mag()) >= 0
    ensures res == Ok ==>
      (c.Value() == old(Pow(a.Value(), b.Mag())) % old(m.Value()) <==> !old(m.Value() == 1 && b.Value() == 0))
  {
    NumBound(m.digits);
    NumBound(b.digits);
    var cm := CmpZero(m);
    if cm == 0 {
      return Undef;
    }
    var cb := CmpZero(b);
    if cb < 0 {
      return Range;
    }
    var s := ExptModPositive(th, a, b, m);
    Copy(s, c);
    return Ok;
  }

  /** The working part of mp_int_exptmod */
  method ExptModPositive(th: nat, a: MpInt, b: MpInt, m: MpInt) returns (s: MpInt)
    requires th == 0 || th >= 4
    requires a.Valid() && b.Valid() && m.Valid() && m.Value() > 0 && !m.neg && b.Mag() >= 0
    requires !QuotientOff(Shl(1, 2 * |m.digits|), m.Mag())
    ensures fresh(s) && s.Valid()
    ensures s.Value() == Pow(a.Value(), b.Mag()) % m.Value() <==> !(m.Value() == 1 && b.Mag() == 0)
  {
    var t0 := new MpInt();
    var mu := new MpInt();
    s := new MpInt();
    ModFromMag(a.Mag(), a.neg, m.Value());
    var r := Mod(a, m, t0);
    r := BrMu(mu, m);
    PowMod(a.Value(), b.Mag(), m.Value());
    Embar(th, t0, b, m, mu, s);
  }
}
