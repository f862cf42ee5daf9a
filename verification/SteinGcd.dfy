/**
 mp_int_gcd: Stein's binary algorithm, which keeps only u, v and the signed
 difference t. The coefficients of the extended algorithm appear as ghosts.
 */
module SteinGcd {
  import opened Digits
  import opened Magnitude
  import opened Integers
  import opened Shifts
  import opened Gcd

  /** Coefficients of u and v over p and q, and of p and q over u and v */
  datatype Proof = Proof(A: int, B: int, C: int, D: int, back: Back)

  ghost predicate Certified(w: Proof, u: int, v: int, p: int, q: int) {
    && (p % 2 == 1 || q % 2 == 1) && u > 0 && v > 0
    && w.A * p + w.B * q == u && w.C * p + w.D * q == v
    && Spans(w.back, u, v, p, q)
  }

  /** A row that yields t * 2^j can be halved j times */
  lemma {:induction false} HalvedRow(E: int, F: int, p: int, q: int, t: int, j: nat) returns (E': int, F': int)
    requires (p % 2 == 1 || q % 2 == 1) && E * p + F * q == Lsh(t, j)
    ensures E' * p + F' * q == t
    decreases j
  {
    if j == 0 {
      return E, F;
    }
    ParityRule(E, F, p, q);
    RowShift(E, F, p, q);
    var odd := E % 2 == 1 || F % 2 == 1;
    var e, f := if odd then (E + q) / 2 else E / 2, if odd then (F - p) / 2 else F / 2;
    RowHalf(e, f, p, q);
    E', F' := HalvedRow(e, f, p, q, t, j - 1);
  }

  /** u is replaced by u' with u == u' * 2^j + cv * v */
  lemma ReplaceU(w: Proof, u: int, v: int, p: int, q: int, u': int, j: nat, cv: int) returns (w': Proof)
    requires Certified(w, u, v, p, q) && u == Lsh(u', j) + cv * v && u' > 0 && (cv == 0 || cv == 1)
    ensures Certified(w', u', v, p, q)
  {
    RowMinus(w.A, w.B, cv * w.C, cv * w.D, p, q);
    var A, B := HalvedRow(w.A - cv * w.C, w.B - cv * w.D, p, q, u', j);
    var k := w.back;
    LshMul(u', 1, j);
    var f := Lsh(1, j);
    SpanReplaced(k.pu, k.pv, f, u', cv, v);
    SpanReplaced(k.qu, k.qv, f, u', cv, v);
    w' := Proof(A, B, w.C, w.D, Back(k.pu * f, k.pu * cv + k.pv, k.qu * f, k.qu * cv + k.qv));
  }

  lemma SpanReplaced(x: int, y: int, f: int, u: int, c: int, v: int)
    ensures x * (u * f + c * v) + y * v == (x * f) * u + (x * c + y) * v
  {}

  /** The two sides change places */
  lemma Swapped(w: Proof, u: int, v: int, p: int, q: int) returns (w': Proof)
    requires Certified(w, u, v, p, q)
    ensures Certified(w', v, u, p, q)
  {
    w' := Proof(w.C, w.D, w.A, w.B, Back(w.back.pv, w.back.pu, w.back.qv, w.back.qu));
  }

  /** t is u - v, or in the first turn -v or u: t == cu * u - cv * v */
  ghost predicate Difference(t: int, u: int, v: int, cu: int, cv: int) {
    (cu == 1 || cu == 0) && (cv == 1 || cv == 0) && t == cu * u - cv * v && t != 0
  }

  /** One turn: take the twos out of t and let it replace u or, negated, v; then t := u - v */
  method Turn(u: MpInt, v: MpInt, t: MpInt, ghost w: Proof, ghost p: int, ghost q: int, ghost cu: int, ghost cv: int)
    returns (ghost w': Proof)
    requires u !in {v, t} && v != t && u.Valid() && v.Valid() && t.Valid() && !u.neg && !v.neg
    requires Certified(w, u.Value(), v.Value(), p, q) && Difference(t.Value(), u.Value(), v.Value(), cu, cv)
    modifies u, v, t
    ensures u.Valid() && v.Valid() && t.Valid() && !u.neg && !v.neg
    ensures Certified(w', u.Value(), v.Value(), p, q) && t.Value() == u.Value() - v.Value()
    ensures u.Value() + v.Value() <= old(u.Value() + v.Value())
    ensures cu == 1 && cv == 1 ==> u.Value() + v.Value() < old(u.Value() + v.Value())
  {
    ghost var j := TwosFromT(t);
    w' := Replaced(w, u.Value(), v.Value(), p, q, t.Value(), j, cu, cv);
    var c := CmpZero(t);
    NumBound(t.digits);
    if c > 0 {
      Copy(t, u);
    } else {
      Neg(t, v);
    }
    Sub(u, v, t);
  }

  /** The certificate after t took the place of u or v */
  lemma Replaced(w: Proof, u: int, v: int, p: int, q: int, t: int, j: nat, cu: int, cv: int) returns (w': Proof)
    requires Certified(w, u, v, p, q) && Difference(Lsh(t, j), u, v, cu, cv) && t != 0
    requires if Lsh(t, j) < 0 then Lsh(t, j) <= t < 0 else 0 < t <= Lsh(t, j)
    ensures if t > 0 then Certified(w', t, v, p, q) else Certified(w', u, -t, p, q)
    ensures if t > 0 then t <= u && (cv == 1 ==> t < u) else -t <= v && (cu == 1 ==> -t < v)
  {
    if t > 0 {
      w' := ReplaceU(w, u, v, p, q, t, j, cv);
    } else {
      LshSub(0, t, j);
      LshZero(j);
      var ws := Swapped(w, u, v, p, q);
      ws := ReplaceU(ws, v, u, p, q, -t, j, cu);
      w' := Swapped(ws, -t, u, p, q);
    }
  }

  /** s_qdiv(t, s_dp2k(t)) */
  method TwosFromT(t: MpInt) returns (ghost j: nat)
    requires t.Valid() && t.Value() != 0
    modifies t
    ensures t.Valid() && t.Value() != 0
    ensures old(t.Value()) == Lsh(t.Value(), j)
    ensures if old(t.Value()) < 0 then old(t.Value()) <= t.Value() < 0 else 0 < t.Value() <= old(t.Value())
  {
    var k, odd := Dp2k(t);
    NumBound(t.digits);
    TwosOut(t.Mag(), odd, k, k);
    QDiv(t, k);
    j := k;
    LshSub(0, t.Mag(), k);
    LshZero(k);
    LshGrows(t.Mag(), k);
  }

  /** The loop of mp_int_gcd, for u and v not both even: u becomes their gcd */
  method GcdLoop(u: MpInt, v: MpInt, t: MpInt) returns (ghost w: Proof)
    requires u !in {v, t} && v != t && u.Valid() && v.Valid() && !u.neg && !v.neg && u.Mag() > 0 && v.Mag() > 0
    requires u.Mag() % 2 == 1 || v.Mag() % 2 == 1
    modifies u, v, t
    ensures u.Valid() && !u.neg && IsGcd(u.Value(), old(u.Value()), old(v.Value()))
    ensures w.A * old(u.Value()) + w.B * old(v.Value()) == u.Value()
  {
    ghost var p, q := u.Value(), v.Value();
    ghost var cu, cv := 0, 1;
    var odd := IsOdd(u);
    if odd {
      Neg(v, t);
    } else {
      Copy(u, t);
      cu, cv := 1, 0;
    }
    w := Proof(1, 0, 0, 1, Back(1, 0, 0, 1));
    var c := 1;
    while c != 0
      invariant u.Valid() && v.Valid() && t.Valid() && !u.neg && !v.neg
      invariant Certified(w, u.Value(), v.Value(), p, q)
      invariant c == 0 ==> t.Value() == 0 && u.Value() == v.Value()
      invariant c != 0 ==> Difference(t.Value(), u.Value(), v.Value(), cu, cv)
      decreases c != 0, cu + cv != 2, u.Value() + v.Value()
    {
      w := Turn(u, v, t, w, p, q, cu, cv);
      cu, cv := 1, 1;
      c := CmpZero(t);
    }
    FoldSpan(w.back, u.Value(), p, q);
    BezoutIsGcd(u.Value(), p, q, w.A, w.B, w.back.pu + w.back.pv, w.back.qu + w.back.qv);
  }

  lemma FoldSpan(k: Back, u: int, p: int, q: int)
    requires Spans(k, u, u, p, q)
    ensures p == u * (k.pu + k.pv) && q == u * (k.qu + k.qv)
  {}

  /** mp_int_gcd */
  method GcdOf(a: MpInt, b: MpInt, c: MpInt) returns (res: MpResult)
    requires a.Valid() && b.Valid()
    modifies c
    ensures res == if old(a.Mag() == 0 && b.Mag() == 0) then Undef else Ok
    ensures res == Ok ==> c.Valid() && !c.neg && IsGcd(c.Value(), old(a.Mag()), old(b.Mag()))
  {
    var ca := CmpZero(a);
    var cb := CmpZero(b);
    NumBound(a.digits);
    NumBound(b.digits);
    GcdWithZero(a.Mag(), b.Mag());
    if ca == 0 && cb == 0 {
      return Undef;
    } else if ca == 0 {
      Abs(b, c);
      return Ok;
    } else if cb == 0 {
      Abs(a, c);
      return Ok;
    }
    var u := new MpInt.Copied(a);
    var v := new MpInt.Copied(b);
    var t := new MpInt();
    u.neg, v.neg := false, false;
    var k := CommonTwos(u, v);
    ghost var p, q := u.Value(), v.Value();
    ghost var w := GcdLoop(u, v, t);
    GcdShifted(u.Value(), p, q, w.A, w.B, k);
    Abs(u, c);
    QMul(c, k);
    return Ok;
  }

  /** Both algorithms compute the greatest common divisor, the same number, or both refuse */
  method BothWays(a: MpInt, b: MpInt) returns (res: MpResult, g: MpInt, h: MpInt, x: MpInt, y: MpInt)
    requires a.Valid() && b.Valid()
    ensures res == if a.Mag() == 0 && b.Mag() == 0 then Undef else Ok
    ensures res == Ok ==> g.Valid() && h.Valid() && g.Value() == h.Value() && IsGcd(g.Value(), a.Mag(), b.Mag())
    ensures res == Ok ==> x.Valid() && y.Valid() && g.Value() == x.Value() * a.Mag() + y.Value() * b.Mag()
  {
    g := new MpInt();
    h := new MpInt();
    x := new MpInt();
    y := new MpInt();
    res := GcdOf(a, b, g);
    ghost var xv, yv;
    res, xv, yv := Egcd(a, b, h, x, y);
    if res == Ok {
      GcdUnique(g.Value(), h.Value(), a.Mag(), b.Mag());
    }
  }
}
