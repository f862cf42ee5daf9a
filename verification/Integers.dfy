/**
 mp_int: a sign and the used digits. The `alloc` field has no counterpart: the
 digit sequence grows as needed, so s_pad always succeeds.
 */
module Integers {
  import opened Digits
  import opened Magnitude

  class MpInt {
    var digits: seq<digit>
    var neg: bool

    ghost predicate Valid()
      reads this
    {
      Normal(digits)
    }

    ghost function Mag(): int
      reads this
    {
      Num(digits)
    }

    ghost function Value(): int
      reads this
    {
      if neg then -Mag() else Mag()
    }

    /** mp_int_init */
    constructor ()
      ensures Valid() && Value() == 0 && !neg
    {
      digits, neg := [0], false;
      new;
      ZeroIff(digits);
    }

    /** mp_int_init_copy */
    constructor Copied(old': MpInt)
      requires old'.Valid()
      ensures Valid() && digits == old'.digits && neg == old'.neg
    {
      digits, neg := old'.digits, old'.neg;
    }
  }

  /** mp_int_copy */
  method Copy(a: MpInt, c: MpInt)
    requires a.Valid()
    modifies c
    ensures c.Valid() && c.digits == old(a.digits) && c.neg == old(a.neg)
  {
    c.digits, c.neg := a.digits, a.neg;
  }

  /** mp_int_zero */
  method SetZero(z: MpInt)
    modifies z
    ensures z.Valid() && z.Value() == 0 && z.digits == [0] && !z.neg
  {
    z.digits, z.neg := [0], false;
    ZeroIff(z.digits);
  }

  /** CMPZ */
  method CmpZero(z: MpInt) returns (r: int)
    requires z.Valid()
    ensures r == if z.Value() > 0 then 1 else if z.Value() < 0 then -1 else 0
  {
    ZeroIff(z.digits);
    NumBound(z.digits);
    r := if |z.digits| == 1 && z.digits[0] == 0 then 0 else if z.neg then -1 else 1;
  }

  /** mp_int_abs */
  method Abs(a: MpInt, c: MpInt)
    requires a.Valid()
    modifies c
    ensures c.Valid() && !c.neg && c.digits == old(a.digits)
  {
    Copy(a, c);
    c.neg := false;
  }

  /** mp_int_neg */
  method Neg(a: MpInt, c: MpInt)
    requires a.Valid()
    modifies c
    ensures c.Valid() && c.digits == old(a.digits)
    ensures c.Value() == -old(a.Value())
  {
    var s := a.neg;
    Copy(a, c);
    var z := CmpZero(c);
    if z != 0 { c.neg := !s; }
  }

  /**
   mp_int_add. The sign is that of the larger magnitude, so a sum of zero can
   carry a minus sign; its value is zero all the same.
   */
  method Add(a: MpInt, b: MpInt, c: MpInt)
    requires a.Valid() && b.Valid()
    modifies c
    ensures c.Valid() && c.Value() == old(a.Value() + b.Value())
    ensures c.neg == old(if a.neg == b.neg || a.Mag() >= b.Mag() then a.neg else b.neg)
  {
    if a.neg == b.neg {
      var s := a.neg;
      var z := AddMag(a.digits, b.digits);
      c.digits, c.neg := z, s;
    } else {
      var cmp := UCmp(a.digits, b.digits);
      var x, y := if cmp >= 0 then a else b, if cmp >= 0 then b else a;
      var s := x.neg;
      var z := SubMag(x.digits, y.digits);
      c.digits, c.neg := z, s;
    }
  }

  /** mp_int_sub; a difference of equal signed numbers that is zero is positive */
  method Sub(a: MpInt, b: MpInt, c: MpInt)
    requires a.Valid() && b.Valid()
    modifies c
    ensures c.Valid() && c.Value() == old(a.Value() - b.Value())
    ensures old(a.neg == b.neg) && c.Value() == 0 ==> !c.neg
  {
    if a.neg != b.neg {
      var s := a.neg;
      var z := AddMag(a.digits, b.digits);
      c.digits, c.neg := z, s;
    } else {
      var cmp := UCmp(a.digits, b.digits);
      var x, y := if cmp >= 0 then a else b, if cmp >= 0 then b else a;
      var osign := cmp < 0;
      if a.neg && cmp != 0 { osign := !osign; }
      var z := SubMag(x.digits, y.digits);
      c.digits, c.neg := z, osign;
    }
  }

  /**
   mp_int_compare. The answer is the order of the values, except for two zeros
   of different sign, which compare as different.
   */
  method Compare(a: MpInt, b: MpInt) returns (r: int)
    requires a.Valid() && b.Valid()
    ensures (r == if a.Value() > b.Value() then 1 else if a.Value() < b.Value() then -1 else 0)
       <==> !(a.neg != b.neg && a.Value() == b.Value())
  {
    NumBound(a.digits);
    NumBound(b.digits);
    if a.neg == b.neg {
      var cmp := UCmp(a.digits, b.digits);
      r := if a.neg then -cmp else cmp;
    } else {
      r := if a.neg then -1 else 1;
    }
  }

  /** mp_int_mul; th is the digit count from which s_kmul recurses */
  method Mul(th: nat, a: MpInt, b: MpInt, c: MpInt)
    requires th == 0 || th >= 4
    requires a.Valid() && b.Valid()
    modifies c
    ensures c.Valid() && c.Value() == old(a.Value() * b.Value())
    ensures c.Value() == 0 ==> !c.neg
  {
    var ca := CmpZero(a);
    var cb := CmpZero(b);
    if ca == 0 || cb == 0 {
      MulZero(a.Value(), b.Value());
      SetZero(c);
      return;
    }
    var osign := a.neg != b.neg;
    SignRule(a.Mag(), b.Mag());
    ProductNonzero(a.Mag(), b.Mag());
    var z := MulMag(th, a.digits, b.digits);
    c.digits, c.neg := z, osign;
  }

  lemma MulZero(x: int, y: int)
    requires x == 0 || y == 0
    ensures x * y == 0
  {}

  lemma ProductNonzero(x: int, y: int)
    requires x != 0 && y != 0
    ensures x * y != 0
  {}

  lemma SignRule(x: int, y: int)
    ensures (-x) * y == -(x * y) && x * (-y) == -(x * y) && (-x) * (-y) == x * y
  {}

  /** mp_int_sqr */
  method Sqr(th: nat, a: MpInt, c: MpInt)
    requires th == 0 || th >= 4
    requires a.Valid()
    modifies c
    ensures c.Valid() && !c.neg && c.Value() == old(a.Value() * a.Value())
  {
    SignRule(a.Mag(), a.Mag());
    var z := SqrMag(th, a.digits);
    c.digits, c.neg := z, false;
  }
}
