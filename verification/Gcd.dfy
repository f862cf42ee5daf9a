/**
 Stein's binary GCD with and without Bezout coefficients: mp_int_gcd and
 mp_int_egcd, with s_dp2k for the powers of two.
 */
module Gcd {
  import opened Common
  import opened Digits
  import opened Kernels
  import opened Magnitude
  import opened Integers
  import opened Shifts

  ghost predicate Divides(d: int, x: int) {
    exists k: int :: Multiple(x, d, k)
  }

  ghost predicate Multiple(x: int, d: int, k: int) {
    x == d * k
  }

  /** g is the greatest common divisor: every common divisor divides it */
  ghost predicate IsGcd(g: int, a: int, b: int) {
    g > 0 && Divides(g, a) && Divides(g, b) && forall d :: Divides(d, a) && Divides(d, b) ==> Divides(d, g)
  }

  /** A positive common divisor that is a combination of a and b is their gcd */
  lemma BezoutIsGcd(g: int, a: int, b: int, x: int, y: int, ka: int, kb: int)
    requires g > 0 && g == x * a + y * b && a == g * ka && b == g * kb
    ensures IsGcd(g, a, b)
  {
    assert Multiple(a, g, ka) && Multiple(b, g, kb);
    forall d | Divides(d, a) && Divides(d, b)
      ensures Divides(d, g)
    {
      var m: int :| Multiple(a, d, m);
      var n: int :| Multiple(b, d, n);
      CombinationMultiple(d, m, n, x, y);
      assert Multiple(g, d, x * m + y * n);
    }
  }

  lemma CombinationMultiple(d: int, m: int, n: int, x: int, y: int)
    ensures x * (d * m) + y * (d * n) == d * (x * m + y * n)
  {}

  lemma GcdUnique(g: int, h: int, a: int, b: int)
    requires IsGcd(g, a, b) && IsGcd(h, a, b)
    ensures g == h
  {
    DividesBelow(g, h);
    DividesBelow(h, g);
  }

  lemma DividesBelow(d: int, x: int)
    requires Divides(d, x) && d > 0 && x > 0
    ensures d <= x
  {
    var k: int :| Multiple(x, d, k);
    if k <= 0 { MulMono(k, 0, d); }
    MulMono(1, k, d);
  }

  // ---------------------------------------------------------------- parity

  lemma LowDigitParity(s: seq<digit>)
    requires |s| >= 1
    ensures Num(s) % 2 == s[0] % 2
  {
    ValHead(s, 0, |s|);
    LowParity(s[0], Val(s, 1, |s| - 1));
  }

  lemma LowParity(d: int, v: int)
    ensures (d + Shl(v, 1)) % 2 == d % 2
  {
    assert Shl(v, 1) == 0x1_0000_0000 * Shl(v, 0);
    assert d + 0x1_0000_0000 * v == d + 2 * (0x8000_0000 * v);
  }

  /** mp_int_is_odd */
  method IsOdd(z: MpInt) returns (r: bool)
    requires z.Valid()
    ensures r <==> z.Value() % 2 == 1
  {
    LowDigitParity(z.digits);
    r := z.digits[0] % 2 == 1;
  }

  /** s_qdiv by one bit is exact on an even number of either sign */
  method HalveExact(z: MpInt)
    requires z.Valid() && z.Value() % 2 == 0
    modifies z
    ensures z.Valid() && 2 * z.Value() == old(z.Value())
    ensures old(!z.neg) ==> !z.neg
  {
    RshOne(z.Mag());
    QDiv(z, 1);
  }

  lemma RshOne(x: int)
    ensures Rsh(x, 1) == x / 2
  {
    assert Rsh(x / 2, 0) == x / 2;
  }

  // ---------------------------------------------------------------- the rows of the extended algorithm

  /** If A * p + B * q is even and p, q are not both even, then A, B or A + q, B - p are both even */
  lemma ParityRule(A: int, B: int, p: int, q: int)
    requires p % 2 == 1 || q % 2 == 1
    requires (A * p + B * q) % 2 == 0
    ensures A % 2 == 1 || B % 2 == 1 ==> (A + q) % 2 == 0 && (B - p) % 2 == 0
  {
    ParityMul(A, p);
    ParityMul(B, q);
    ParityCases(A, B, p, q, A * p, B * q);
  }

  lemma ParityCases(A: int, B: int, p: int, q: int, x: int, y: int)
    requires p % 2 == 1 || q % 2 == 1
    requires (x % 2 == 1 <==> A % 2 == 1 && p % 2 == 1) && (y % 2 == 1 <==> B % 2 == 1 && q % 2 == 1)
    requires (x + y) % 2 == 0
    ensures A % 2 == 1 || B % 2 == 1 ==> (A + q) % 2 == 0 && (B - p) % 2 == 0
  {}

  lemma ParityMul(x: int, y: int)
    ensures (x * y) % 2 == 1 <==> x % 2 == 1 && y % 2 == 1
  {
    var m, n := x / 2, y / 2;
    var i, j := x % 2, y % 2;
    assert x == 2 * m + i && y == 2 * n + j;
    ParityExpand(m, i, n, j);
    if i == 0 { assert i * j == 0; } else { assert i * j == j; }
  }

  lemma ParityExpand(m: int, i: int, n: int, j: int)
    ensures (2 * m + i) * (2 * n + j) == 2 * (2 * (m * n) + m * j + i * n) + i * j
  {}

  lemma RowShift(A: int, B: int, p: int, q: int)
    ensures (A + q) * p + (B - p) * q == A * p + B * q
  {}

  lemma RowHalf(A: int, B: int, p: int, q: int)
    ensures (2 * A) * p + (2 * B) * q == 2 * (A * p + B * q)
  {}

  /** Halve u and keep A * ou + B * ov == u, making A and B even first if they are not */
  method HalveRow(u: MpInt, A: MpInt, B: MpInt, ou: MpInt, ov: MpInt)
    requires u !in {A, B, ou, ov} && A !in {B, ou, ov} && B !in {ou, ov}
    requires u.Valid() && A.Valid() && B.Valid() && ou.Valid() && ov.Valid() && !u.neg
    requires A.Value() * ou.Value() + B.Value() * ov.Value() == u.Value()
    requires u.Value() % 2 == 0 && (ou.Value() % 2 == 1 || ov.Value() % 2 == 1)
    modifies u, A, B
    ensures u.Valid() && A.Valid() && B.Valid() && !u.neg
    ensures 2 * u.Value() == old(u.Value())
    ensures A.Value() * ou.Value() + B.Value() * ov.Value() == u.Value()
  {
    ghost var p, q := ou.Value(), ov.Value();
    ParityRule(A.Value(), B.Value(), p, q);
    RowShift(A.Value(), B.Value(), p, q);
    HalveExact(u);
    var oa := IsOdd(A);
    var ob := IsOdd(B);
    if oa || ob {
      Add(A, ov, A);
      Sub(B, ou, B);
    }
    HalveExact(A);
    HalveExact(B);
    RowHalf(A.Value(), B.Value(), p, q);
  }

  /** Halve u until it is odd */
  method StripTwos(u: MpInt, A: MpInt, B: MpInt, ou: MpInt, ov: MpInt) returns (ghost f: int)
    requires u !in {A, B, ou, ov} && A !in {B, ou, ov} && B !in {ou, ov}
    requires u.Valid() && A.Valid() && B.Valid() && ou.Valid() && ov.Valid() && !u.neg && u.Value() > 0
    requires A.Value() * ou.Value() + B.Value() * ov.Value() == u.Value()
    requires ou.Value() % 2 == 1 || ov.Value() % 2 == 1
    modifies u, A, B
    ensures u.Valid() && A.Valid() && B.Valid() && !u.neg && u.Value() % 2 == 1
    ensures 0 < u.Value() <= old(u.Value()) == f * u.Value()
    ensures A.Value() * ou.Value() + B.Value() * ov.Value() == u.Value()
  {
    f := 1;
    var odd := IsOdd(u);
    while !odd
      invariant u.Valid() && A.Valid() && B.Valid() && !u.neg
      invariant 0 < u.Value() <= old(u.Value()) == f * u.Value()
      invariant odd <==> u.Value() % 2 == 1
      invariant A.Value() * ou.Value() + B.Value() * ov.Value() == u.Value()
      decreases u.Value()
    {
      HalveRow(u, A, B, ou, ov);
      TwiceFactor(f, u.Value());
      f := 2 * f;
      odd := IsOdd(u);
    }
  }

  lemma TwiceFactor(f: int, u: int)
    ensures f * (2 * u) == (2 * f) * u
  {}

  // ---------------------------------------------------------------- common powers of two

  /** s_dp2k: the exponent of two in z, and 1 for zero */
  method Dp2k(z: MpInt) returns (k: nat, ghost odd: int)
    requires z.Valid()
    ensures z.Mag() == 0 ==> k == 1
    ensures z.Mag() != 0 ==> z.Mag() == Lsh(odd, k) && odd % 2 == 1
  {
    ZeroIff(z.digits);
    if |z.digits| == 1 && z.digits[0] == 0 {
      return 1, 0;
    }
    var i := 0;
    k := 0;
    while z.digits[i] == 0
      invariant 0 <= i < |z.digits| && k == 32 * i
      invariant ZeroOn(z.digits, 0, i)
      decreases |z.digits| - i
    {
      i, k := i + 1, k + 32;
    }
    var d: int, j := z.digits[i], 0;
    while d % 2 == 0
      invariant d > 0 && Lsh(d, j) == z.digits[i] && k == 32 * i + j
      decreases d
    {
      LshIn(d / 2, j);
      d, j, k := d / 2, j + 1, k + 1;
    }
    odd := OddPart(z.digits, i, d, j);
  }

  lemma OddPart(s: seq<digit>, i: nat, d: int, j: nat) returns (odd: int)
    requires i < |s| && ZeroOn(s, 0, i) && d > 0 && d % 2 == 1 && Lsh(d, j) == s[i]
    ensures odd % 2 == 1 && Num(s) == Lsh(odd, 32 * i + j)
  {
    var hi := Val(s, i + 1, |s| - i - 1);
    ShiftCount(d, j);
    var h := Lsh(hi, 31 - j);
    odd := d + 2 * h;
    ValSplit(s, 0, i, |s| - i);
    ValZero(s, 0, i);
    ValHead(s, i, |s| - i);
    LshDigits(hi, 1);
    LshIn(h, j);
    LshLsh(hi, 31 - j, j);
    LshAdd(d, 2 * h, j);
    LshShl(odd, j, i);
  }

  /** Dividing out at most the exponent of two is exact */
  lemma TwosOut(x: int, odd: int, m: nat, k: nat)
    requires x == Lsh(odd, m) && odd % 2 == 1 && k <= m
    ensures x == Lsh(Rsh(x, k), k) && (k == m ==> Rsh(x, k) % 2 == 1)
    ensures x > 0 ==> Rsh(x, k) > 0
  {
    LshLsh(odd, m - k, k);
    LshPos(k);
    RshUnique(x, k, Lsh(odd, m - k), 0);
    LshZero(k);
    if Rsh(x, k) <= 0 { LshMono(Rsh(x, k), 0, k); }
  }

  /** Divide the common factors of two out of u and v */
  method CommonTwos(u: MpInt, v: MpInt) returns (k: nat)
    requires u.Valid() && v.Valid() && u != v && !u.neg && !v.neg && u.Mag() > 0 && v.Mag() > 0
    modifies u, v
    ensures u.Valid() && v.Valid() && !u.neg && !v.neg && u.Mag() > 0 && v.Mag() > 0
    ensures old(u.Mag()) == Lsh(u.Mag(), k) && old(v.Mag()) == Lsh(v.Mag(), k)
    ensures u.Mag() % 2 == 1 || v.Mag() % 2 == 1
  {
    ghost var ou, ov;
    var ku, kv;
    ku, ou := Dp2k(u);
    kv, ov := Dp2k(v);
    k := if ku < kv then ku else kv;
    TwosOut(u.Mag(), ou, ku, k);
    TwosOut(v.Mag(), ov, kv, k);
    QDiv(u, k);
    QDiv(v, k);
  }

  // ---------------------------------------------------------------- the extended algorithm

  lemma RowMinus(A: int, B: int, C: int, D: int, p: int, q: int)
    ensures (A - C) * p + (B - D) * q == (A * p + B * q) - (C * p + D * q)
  {}

  /** u, A, B := u - v, A - C, B - D */
  method SubtractRow(u: MpInt, A: MpInt, B: MpInt, v: MpInt, C: MpInt, D: MpInt, ghost p: int, ghost q: int)
    requires u !in {A, B, v, C, D} && A !in {B, v, C, D} && B !in {v, C, D}
    requires u.Valid() && A.Valid() && B.Valid() && v.Valid() && C.Valid() && D.Valid()
    requires !u.neg && !v.neg && v.Mag() <= u.Mag()
    requires A.Value() * p + B.Value() * q == u.Value() && C.Value() * p + D.Value() * q == v.Value()
    modifies u, A, B
    ensures u.Valid() && A.Valid() && B.Valid() && !u.neg && u.Value() == old(u.Value() - v.Value())
    ensures A.Value() * p + B.Value() * q == u.Value()
  {
    RowMinus(A.Value(), B.Value(), C.Value(), D.Value(), p, q);
    Sub(u, v, u);
    Sub(A, C, A);
    Sub(B, D, B);
    NumBound(u.digits);
  }

  /** The eight temporaries are different objects */
  ghost predicate Temps(u: MpInt, A: MpInt, B: MpInt, v: MpInt, C: MpInt, D: MpInt, ou: MpInt, ov: MpInt) {
    && u !in {A, B, v, C, D, ou, ov} && A !in {B, v, C, D, ou, ov} && B !in {v, C, D, ou, ov}
    && v !in {C, D, ou, ov} && C !in {D, ou, ov} && D !in {ou, ov}
  }

  /** Both rows hold, and u and v are positive unless u just became zero */
  ghost predicate Rows(u: MpInt, A: MpInt, B: MpInt, v: MpInt, C: MpInt, D: MpInt, ou: MpInt, ov: MpInt)
    reads u, A, B, v, C, D, ou, ov
  {
    && u.Valid() && A.Valid() && B.Valid() && v.Valid() && C.Valid() && D.Valid() && ou.Valid() && ov.Valid()
    && !u.neg && !v.neg && v.Mag() > 0
    && (ou.Value() % 2 == 1 || ov.Value() % 2 == 1)
    && A.Value() * ou.Value() + B.Value() * ov.Value() == u.Value()
    && C.Value() * ou.Value() + D.Value() * ov.Value() == v.Value()
  }

  /** p and q as combinations of u and v: every common divisor of u and v divides both */
  datatype Back = Back(pu: int, pv: int, qu: int, qv: int)

  ghost predicate Spans(k: Back, u: int, v: int, p: int, q: int) {
    p == k.pu * u + k.pv * v && q == k.qu * u + k.qv * v
  }

  lemma SpansScaled(k: Back, f: int, u: int, h: int, v: int, p: int, q: int)
    requires Spans(k, f * u, h * v, p, q)
    ensures Spans(Back(k.pu * f, k.pv * h, k.qu * f, k.qv * h), u, v, p, q)
  {
    ScaleTerm(k.pu, f, u);
    ScaleTerm(k.pv, h, v);
    ScaleTerm(k.qu, f, u);
    ScaleTerm(k.qv, h, v);
  }

  lemma ScaleTerm(c: int, f: int, u: int)
    ensures c * (f * u) == (c * f) * u
  {}

  lemma SpansMinus(k: Back, u: int, v: int, p: int, q: int)
    requires Spans(k, u, v, p, q)
    ensures Spans(Back(k.pu, k.pu + k.pv, k.qu, k.qu + k.qv), u - v, v, p, q)
    ensures Spans(Back(k.pu + k.pv, k.pv, k.qu + k.qv, k.qv), u, v - u, p, q)
  {
    MinusTerm(k.pu, k.pv, u, v);
    MinusTerm(k.qu, k.qv, u, v);
  }

  lemma MinusTerm(x: int, y: int, u: int, v: int)
    ensures x * (u - v) + (x + y) * v == x * u + y * v
    ensures (x + y) * u + y * (v - u) == x * u + y * v
  {}

  /** One turn of the loop of mp_int_egcd: make u and v odd, subtract the smaller from the larger */
  method EgcdTurn(u: MpInt, A: MpInt, B: MpInt, v: MpInt, C: MpInt, D: MpInt, ou: MpInt, ov: MpInt, ghost k: Back)
    returns (ghost k': Back)
    requires Temps(u, A, B, v, C, D, ou, ov) && Rows(u, A, B, v, C, D, ou, ov) && u.Mag() > 0
    requires Spans(k, u.Value(), v.Value(), ou.Value(), ov.Value())
    modifies u, A, B, v, C, D
    ensures Rows(u, A, B, v, C, D, ou, ov)
    ensures Spans(k', u.Value(), v.Value(), ou.Value(), ov.Value())
    ensures 0 <= u.Value() && u.Value() + v.Value() < old(u.Value() + v.Value())
  {
    ghost var p, q := ou.Value(), ov.Value();
    ghost var f := StripTwos(u, A, B, ou, ov);
    ghost var h := StripTwos(v, C, D, ou, ov);
    SpansScaled(k, f, u.Value(), h, v.Value(), p, q);
    ghost var k1 := Back(k.pu * f, k.pv * h, k.qu * f, k.qv * h);
    SpansMinus(k1, u.Value(), v.Value(), p, q);
    var c := Compare(u, v);
    if c >= 0 {
      SubtractRow(u, A, B, v, C, D, p, q);
      k' := Back(k1.pu, k1.pu + k1.pv, k1.qu, k1.qu + k1.qv);
    } else {
      SubtractRow(v, C, D, u, A, B, p, q);
      k' := Back(k1.pu + k1.pv, k1.pv, k1.qu + k1.qv, k1.qv);
    }
  }

  /** The loop of mp_int_egcd: ends with u zero, and v the gcd of ou and ov with its coefficients in C, D */
  method EgcdLoop(u: MpInt, A: MpInt, B: MpInt, v: MpInt, C: MpInt, D: MpInt, ou: MpInt, ov: MpInt)
    requires Temps(u, A, B, v, C, D, ou, ov) && Rows(u, A, B, v, C, D, ou, ov) && u.Mag() > 0
    requires u.Value() == ou.Value() && v.Value() == ov.Value()
    modifies u, A, B, v, C, D
    ensures v.Valid() && C.Valid() && D.Valid() && !v.neg
    ensures v.Value() == C.Value() * ou.Value() + D.Value() * ov.Value()
    ensures IsGcd(v.Value(), ou.Value(), ov.Value())
  {
    ghost var k := Back(1, 0, 0, 1);
    var c := 1;
    while c != 0
      invariant Rows(u, A, B, v, C, D, ou, ov)
      invariant Spans(k, u.Value(), v.Value(), ou.Value(), ov.Value())
      invariant u.Value() >= 0 && (c == 0 <==> u.Value() == 0)
      decreases u.Value() + v.Value()
    {
      k := EgcdTurn(u, A, B, v, C, D, ou, ov, k);
      c := CmpZero(u);
    }
    Finished(k, v.Value(), ou.Value(), ov.Value(), C.Value(), D.Value());
  }

  lemma Finished(k: Back, v: int, p: int, q: int, C: int, D: int)
    requires v > 0 && Spans(k, 0, v, p, q) && v == C * p + D * q
    ensures IsGcd(v, p, q)
  {
    assert p == v * k.pv && q == v * k.qv;
    BezoutIsGcd(v, p, q, C, D, k.pv, k.qv);
  }

  /** The codes MP_OK, MP_RANGE and MP_UNDEF */
  datatype MpResult = Ok | Range | Undef

  /** Common factors of two put back */
  lemma GcdShifted(g: int, a: int, b: int, x: int, y: int, k: nat)
    requires IsGcd(g, a, b) && g == x * a + y * b
    ensures IsGcd(Lsh(g, k), Lsh(a, k), Lsh(b, k))
    ensures Lsh(g, k) == x * Lsh(a, k) + y * Lsh(b, k)
  {
    var m: int :| Multiple(a, g, m);
    var n: int :| Multiple(b, g, n);
    ShiftedSpan(a, b, x, y, k);
    ShiftedMultiple(g, m, k);
    ShiftedMultiple(g, n, k);
    LshPos(k);
    LshMono(1, g, k);
    BezoutIsGcd(Lsh(g, k), Lsh(a, k), Lsh(b, k), x, y, m, n);
  }

  lemma ShiftedSpan(a: int, b: int, x: int, y: int, k: nat)
    ensures Lsh(x * a + y * b, k) == x * Lsh(a, k) + y * Lsh(b, k)
  {
    LshAdd(x * a, y * b, k);
    LshMul(x, a, k);
    LshMul(y, b, k);
  }

  lemma ShiftedMultiple(g: int, m: int, k: nat)
    ensures Lsh(g * m, k) == Lsh(g, k) * m
  {
    assert g * m == m * g;
    LshMul(m, g, k);
  }

  lemma GcdWithZero(a: int, b: int)
    requires a >= 0 && b >= 0
    ensures b > 0 ==> IsGcd(b, 0, b)
    ensures a > 0 ==> IsGcd(a, a, 0)
  {
    if b > 0 { BezoutIsGcd(b, 0, b, 0, 1, 0, 1); }
    if a > 0 { BezoutIsGcd(a, a, 0, 1, 0, 1, 0); }
  }

  /** mp_int_set_value for the values the library uses it with */
  method SetOne(z: MpInt)
    modifies z
    ensures z.Valid() && z.Value() == 1 && !z.neg
  {
    z.digits, z.neg := [1], false;
    assert Num([1]) == Val([1], 0, 0) + Shl(1, 0);
  }

  /** The working part of mp_int_egcd, for a and b not zero */
  method EgcdNonzero(a: MpInt, b: MpInt) returns (v: MpInt, C: MpInt, D: MpInt)
    requires a.Valid() && b.Valid() && a.Mag() > 0 && b.Mag() > 0
    ensures fresh({v, C, D}) && C != D && v !in {C, D}
    ensures v.Valid() && C.Valid() && D.Valid() && !v.neg
    ensures IsGcd(v.Value(), a.Mag(), b.Mag())
    ensures v.Value() == C.Value() * a.Mag() + D.Value() * b.Mag()
  {
    var u := new MpInt.Copied(a);
    v := new MpInt.Copied(b);
    u.neg, v.neg := false, false;
    var k := CommonTwos(u, v);
    ghost var p, q := u.Value(), v.Value();
    C, D := EgcdNotBothEven(u, v);
    GcdShifted(v.Value(), p, q, C.Value(), D.Value(), k);
    QMul(v, k);
  }

  /** With u and v not both even: v becomes their gcd */
  method EgcdNotBothEven(u: MpInt, v: MpInt) returns (C: MpInt, D: MpInt)
    requires u.Valid() && v.Valid() && u != v && !u.neg && !v.neg && u.Mag() > 0 && v.Mag() > 0
    requires u.Mag() % 2 == 1 || v.Mag() % 2 == 1
    modifies u, v
    ensures fresh({C, D}) && C != D
    ensures v.Valid() && C.Valid() && D.Valid() && !v.neg
    ensures IsGcd(v.Value(), old(u.Value()), old(v.Value()))
    ensures v.Value() == C.Value() * old(u.Value()) + D.Value() * old(v.Value())
  {
    var A := new MpInt();
    var B := new MpInt();
    C := new MpInt();
    D := new MpInt();
    SetOne(A);
    SetOne(D);
    var ou := new MpInt.Copied(u);
    var ov := new MpInt.Copied(v);
    UnitRow(A.Value(), B.Value(), ou.Value(), ov.Value());
    UnitRow(D.Value(), C.Value(), ov.Value(), ou.Value());
    EgcdLoop(u, A, B, v, C, D, ou, ov);
  }

  lemma UnitRow(A: int, B: int, p: int, q: int)
    requires A == 1 && B == 0
    ensures A * p + B * q == p
  {}

  /**
   mp_int_egcd: c is the gcd of a and b, and c = x * |a| + y * |b|. The
   coefficients belong to the absolute values, also for negative arguments.
   */
  method Egcd(a: MpInt, b: MpInt, c: MpInt, x: MpInt?, y: MpInt?) returns (res: MpResult, ghost xv: int, ghost yv: int)
    requires a.Valid() && b.Valid() && c !in {x, y}
    requires x == y ==> x == null
    requires a.Mag() == 0 || b.Mag() == 0 ==> x != null && y != null
    modifies c, x, y
    ensures res == if old(a.Mag() == 0 && b.Mag() == 0) then Undef else Ok
    ensures res == Ok ==>
      && c.Valid() && !c.neg && IsGcd(c.Value(), old(a.Mag()), old(b.Mag()))
      && c.Value() == xv * old(a.Mag()) + yv * old(b.Mag())
      && (x != null ==> x.Valid() && x.Value() == xv)
      && (y != null ==> y.Valid() && y.Value() == yv)
  {
    var ca := CmpZero(a);
    var cb := CmpZero(b);
    NumBound(a.digits);
    NumBound(b.digits);
    GcdWithZero(a.Mag(), b.Mag());
    if ca == 0 && cb == 0 {
      return Undef, 0, 0;
    } else if ca == 0 {
      Abs(b, c);
      SetZero(x);
      SetOne(y);
      return Ok, 0, 1;
    } else if cb == 0 {
      Abs(a, c);
      SetOne(x);
      SetZero(y);
      return Ok, 1, 0;
    }
    var v, C, D := EgcdNonzero(a, b);
    if x != null { Copy(C, x); }
    if y != null { Copy(D, y); }
    Copy(v, c);
    return Ok, C.Value(), D.Value();
  }
}
