/**
 The digit loops of imath.c that work on raw buffers: a buffer argument is an
 array together with the offset of its first digit, as the C code passes a
 pointer into an allocation. An output may overlap an input only when both start
 at the same place, which is how the callers use them.
 */
module Kernels {
  import opened Common
  import opened Digits

  /** Reading n digits at a[ao..] while m digits are written at c[co..] is safe */
  ghost predicate Apart(a: array<digit>, ao: nat, n: nat, c: array<digit>, co: nat, m: nat) {
    a != c || ao == co || ao + n <= co || co + m <= ao
  }

  ghost predicate Disjoint(a: array<digit>, ao: nat, n: nat, c: array<digit>, co: nat, m: nat) {
    a != c || ao + n <= co || co + m <= ao
  }

  /** The step every loop ends with: store the low half of w at position pos, keep the high half */
  method Emit(c: array<digit>, co: nat, pos: nat, w: word) returns (hi: digit)
    requires co + pos < c.Length
    modifies c
    ensures hi == Hi(w)
    ensures c[..] == old(c[..])[co + pos := Lo(w)]
    ensures Val(c[..], co, pos + 1) + Shl(hi, pos + 1) == old(Val(c[..], co, pos)) + Shl(w, pos)
  {
    Carry(w, pos);
    c[co + pos] := Lo(w);
    ValFrame(old(c[..]), c[..], co, pos);
    hi := Hi(w);
  }

  lemma AddStep(a: seq<digit>, ao: nat, b: seq<digit>, bo: nat, pos: nat, w: int)
    requires ao + pos < |a| && bo + pos < |b|
    ensures Shl(w + a[ao + pos] + b[bo + pos], pos) - Val(a, ao, pos + 1) - Val(b, bo, pos + 1)
         == Shl(w, pos) - Val(a, ao, pos) - Val(b, bo, pos)
  {
    ShlAdd3(w, a[ao + pos], b[bo + pos], pos);
  }

  /** s_uadd */
  method UAdd(a: array<digit>, ao: nat, b: array<digit>, bo: nat, c: array<digit>, co: nat, sa: nat, sb: nat)
    returns (carry: digit)
    requires ao + sa <= a.Length && bo + sb <= b.Length
    requires co + sa <= c.Length && co + sb <= c.Length
    requires Apart(a, ao, sa, c, co, if sa < sb then sb else sa)
    requires Apart(b, bo, sb, c, co, if sa < sb then sb else sa)
    modifies c
    ensures carry <= 1
    ensures SameOutside(old(c[..]), c[..], co, co + if sa < sb then sb else sa)
    ensures var n := if sa < sb then sb else sa;
      Val(c[..], co, n) + Shl(carry, n) == old(Val(a[..], ao, sa) + Val(b[..], bo, sb))
  {
    if sb > sa {
      carry := UAddLonger(b, bo, a, ao, c, co, sb, sa);
    } else {
      carry := UAddLonger(a, ao, b, bo, c, co, sa, sb);
    }
  }

  method UAddLonger(a: array<digit>, ao: nat, b: array<digit>, bo: nat, c: array<digit>, co: nat, sa: nat, sb: nat)
    returns (carry: digit)
    requires sb <= sa
    requires ao + sa <= a.Length && bo + sb <= b.Length && co + sa <= c.Length
    requires Apart(a, ao, sa, c, co, sa) && Apart(b, bo, sb, c, co, sa)
    modifies c
    ensures carry <= 1
    ensures SameOutside(old(c[..]), c[..], co, co + sa)
    ensures Val(c[..], co, sa) + Shl(carry, sa) == old(Val(a[..], ao, sa) + Val(b[..], bo, sb))
  {
    ghost var a0, b0, c0 := a[..], b[..], c[..];
    var w: word := 0;
    var pos := 0;
    while pos < sb
      invariant 0 <= pos <= sb && w <= 1
      invariant SameOn(a[..], a0, ao + pos, ao + sa)
      invariant SameOn(b[..], b0, bo + pos, bo + sb)
      invariant SameOutside(c0, c[..], co, co + pos)
      invariant Val(c[..], co, pos) + Shl(w, pos) == Val(a0, ao, pos) + Val(b0, bo, pos)
    {
      var da, db := a[ao + pos], b[bo + pos];
      AddStep(a0, ao, b0, bo, pos, w);
      w := Emit(c, co, pos, w + da + db);
      pos := pos + 1;
    }
    carry := Ripple(a, ao, c, co, pos, sa, w, a0);
  }

  /** Propagate a carry w through the digits at positions [from, to); a0 is what a held before the addition */
  method Ripple(a: array<digit>, ao: nat, c: array<digit>, co: nat, from: nat, to: nat, w: digit, ghost a0: seq<digit>)
    returns (carry: digit)
    requires from <= to && ao + to <= a.Length == |a0| && co + to <= c.Length && w <= 1
    requires Apart(a, ao, to, c, co, to) && SameOn(a[..], a0, ao + from, ao + to)
    modifies c
    ensures carry <= 1
    ensures SameOutside(old(c[..]), c[..], co + from, co + to)
    ensures Val(c[..], co, to) + Shl(carry, to) - Val(a0, ao, to)
         == old(Val(c[..], co, from)) + Shl(w, from) - Val(a0, ao, from)
  {
    ghost var c0 := c[..];
    var pos := from;
    carry := w;
    while pos < to
      invariant from <= pos <= to && carry <= 1
      invariant SameOn(a[..], a0, ao + pos, ao + to)
      invariant SameOutside(c0, c[..], co + from, co + pos)
      invariant Val(c[..], co, pos) + Shl(carry, pos) - Val(a0, ao, pos)
             == Val(c0, co, from) + Shl(w, from) - Val(a0, ao, from)
    {
      ShlAdd(carry, a[ao + pos], pos);
      carry := Emit(c, co, pos, carry + a[ao + pos]);
      pos := pos + 1;
    }
  }

  // ---------------------------------------------------------------- subtraction

  lemma SubStep(a: seq<digit>, ao: nat, pos: nat, w: int, db: int)
    requires ao + pos < |a|
    ensures Shl(0x1_0000_0000 + a[ao + pos] - w - db, pos)
         == Shl(1, pos + 1) + Val(a, ao, pos + 1) - Val(a, ao, pos) - Shl(w, pos) - Shl(db, pos)
  {
    ShlIn(1, pos);
    ShlAdd3(0x1_0000_0000, a[ao + pos], -w - db, pos);
    ShlSub(-w, db, pos);
    ShlZero(pos);
    ShlSub(0, w, pos);
  }

  /** One step of s_usub: the borrow is the complement of the carry out of B + a - w - b */
  method SubDigit(a: array<digit>, ao: nat, c: array<digit>, co: nat, pos: nat, w: digit, db: digit, ghost a0: seq<digit>)
    returns (borrow: digit)
    requires ao + pos < a.Length == |a0| && co + pos < c.Length && w <= 1
    requires a[ao + pos] == a0[ao + pos]
    modifies c
    ensures borrow <= 1
    ensures SameOutside(old(c[..]), c[..], co + pos, co + pos + 1)
    ensures Val(c[..], co, pos + 1) - Shl(borrow, pos + 1) - Val(a0, ao, pos + 1)
         == old(Val(c[..], co, pos)) - Shl(w, pos) - Shl(db, pos) - Val(a0, ao, pos)
  {
    SubStep(a0, ao, pos, w, db);
    var x: word := 0x1_0000_0000 + a[ao + pos] - w - db;
    var hi := Emit(c, co, pos, x);
    borrow := if hi == 0 then 1 else 0;
    ShlZero(pos + 1);
  }

  /** s_usub, for a >= b; the borrow out at the end is then zero */
  method USub(a: array<digit>, ao: nat, b: array<digit>, bo: nat, c: array<digit>, co: nat, sa: nat, sb: nat)
    requires sb <= sa
    requires ao + sa <= a.Length && bo + sb <= b.Length && co + sa <= c.Length
    requires Apart(a, ao, sa, c, co, sa) && Apart(b, bo, sb, c, co, sa)
    requires Val(b[..], bo, sb) <= Val(a[..], ao, sa)
    modifies c
    ensures SameOutside(old(c[..]), c[..], co, co + sa)
    ensures Val(c[..], co, sa) == old(Val(a[..], ao, sa) - Val(b[..], bo, sb))
  {
    ghost var a0 := a[..];
    var w := SubLow(a, ao, b, bo, c, co, sa, sb);
    RippleBorrow(a, ao, c, co, sb, sa, w, a0);
  }

  /** The digits that both operands have */
  method SubLow(a: array<digit>, ao: nat, b: array<digit>, bo: nat, c: array<digit>, co: nat, sa: nat, sb: nat) returns (w: digit)
    requires sb <= sa
    requires ao + sa <= a.Length && bo + sb <= b.Length && co + sa <= c.Length
    requires Apart(a, ao, sa, c, co, sa) && Apart(b, bo, sb, c, co, sa)
    modifies c
    ensures w <= 1 && SameOn(a[..], old(a[..]), ao + sb, ao + sa)
    ensures SameOutside(old(c[..]), c[..], co, co + sb)
    ensures Val(c[..], co, sb) - Shl(w, sb) == old(Val(a[..], ao, sb)) - old(Val(b[..], bo, sb))
  {
    ghost var a0, b0, c0 := a[..], b[..], c[..];
    w := 0;
    var pos := 0;
    while pos < sb
      invariant 0 <= pos <= sb && w <= 1
      invariant SameOn(a[..], a0, ao + pos, ao + sa)
      invariant SameOn(b[..], b0, bo + pos, bo + sb)
      invariant SameOutside(c0, c[..], co, co + pos)
      invariant Val(c[..], co, pos) - Shl(w, pos) == Val(a0, ao, pos) - Val(b0, bo, pos)
    {
      w := SubDigit(a, ao, c, co, pos, w, b[bo + pos], a0);
      pos := pos + 1;
    }
  }

  method RippleBorrow(a: array<digit>, ao: nat, c: array<digit>, co: nat, from: nat, to: nat, w: digit, ghost a0: seq<digit>)
    requires from <= to && ao + to <= a.Length == |a0| && co + to <= c.Length && w <= 1
    requires Apart(a, ao, to, c, co, to) && SameOn(a[..], a0, ao + from, ao + to)
    requires Val(c[..], co, from) - Shl(w, from) - Val(a0, ao, from) >= -Val(a0, ao, to)
    modifies c
    ensures SameOutside(old(c[..]), c[..], co + from, co + to)
    ensures Val(c[..], co, to) - Val(a0, ao, to) == old(Val(c[..], co, from)) - Shl(w, from) - Val(a0, ao, from)
  {
    ghost var c0 := c[..];
    var pos := from;
    var borrow := w;
    while pos < to
      invariant from <= pos <= to && borrow <= 1
      invariant SameOn(a[..], a0, ao + pos, ao + to)
      invariant SameOutside(c0, c[..], co + from, co + pos)
      invariant Val(c[..], co, pos) - Shl(borrow, pos) - Val(a0, ao, pos)
             == Val(c0, co, from) - Shl(w, from) - Val(a0, ao, from)
    {
      ShlZero(pos);
      borrow := SubDigit(a, ao, c, co, pos, borrow, 0, a0);
      pos := pos + 1;
    }
    ValBound(c[..], co, to);
    ShlZero(to);
    assert borrow == 0;
  }

  // ---------------------------------------------------------------- multiplication

  /** d * e + w + c fits a 64-bit word */
  lemma MulStepFits(d: digit, e: digit, w: digit, c: digit)
    ensures 0 <= d * e + w + c < 0x1_0000_0000_0000_0000
  {
    MulMono(0, d, e);
    MulMono(d, 0xFFFF_FFFF, e);
  }

  lemma MulStep(d: digit, b: seq<digit>, bo: nat, pos: nat, w: int, e: int)
    requires bo + pos < |b|
    ensures Shl(d * b[bo + pos] + w + e, pos) == d * Val(b, bo, pos + 1) - d * Val(b, bo, pos) + Shl(w, pos) + Shl(e, pos)
  {
    ShlAdd3(d * b[bo + pos], w, e, pos);
    ShlMul(d, b[bo + pos], pos);
    assert d * (Val(b, bo, pos) + Shl(b[bo + pos], pos)) == d * Val(b, bo, pos) + d * Shl(b[bo + pos], pos);
  }

  /** The inner loop of s_umul: add d * b into c, the digit above being zero so far */
  method MulRow(d: digit, b: array<digit>, bo: nat, c: array<digit>, co: nat, sb: nat)
    requires bo + sb <= b.Length && co + sb < c.Length && c[co + sb] == 0
    requires Disjoint(b, bo, sb, c, co, sb + 1)
    modifies c
    ensures SameOutside(old(c[..]), c[..], co, co + sb + 1)
    ensures Val(c[..], co, sb + 1) == old(Val(c[..], co, sb + 1) + d * Val(b[..], bo, sb))
  {
    ghost var b0, c0 := b[..], c[..];
    var w: digit := 0;
    var pos := 0;
    while pos < sb
      invariant 0 <= pos <= sb
      invariant SameOn(b[..], b0, bo, bo + sb)
      invariant SameOutside(c0, c[..], co, co + pos)
      invariant Val(c[..], co, pos) + Shl(w, pos) == Val(c0, co, pos) + d * Val(b0, bo, pos)
    {
      MulStepFits(d, b[bo + pos], w, c[co + pos]);
      MulStep(d, b0, bo, pos, w, c[co + pos]);
      w := Emit(c, co, pos, d * b[bo + pos] + w + c[co + pos]);
      pos := pos + 1;
    }
    ghost var c1 := c[..];
    c[co + pos] := w;
    ValFrame(c1, c[..], co, sb);
    ShlZero(sb);
  }

  /** s_umul: schoolbook multiplication into zeroed digits */
  method UMul(a: array<digit>, ao: nat, b: array<digit>, bo: nat, c: array<digit>, co: nat, sa: nat, sb: nat)
    requires ao + sa <= a.Length && bo + sb <= b.Length && co + sa + sb <= c.Length
    requires Disjoint(a, ao, sa, c, co, sa + sb) && Disjoint(b, bo, sb, c, co, sa + sb)
    requires ZeroOn(c[..], co, co + sa + sb)
    modifies c
    ensures SameOutside(old(c[..]), c[..], co, co + sa + sb)
    ensures Val(c[..], co, sa + sb) == old(Val(a[..], ao, sa) * Val(b[..], bo, sb))
  {
    ghost var a0, b0, c0 := a[..], b[..], c[..];
    var i := 0;
    ValZero(c[..], co, sb);
    while i < sa
      invariant 0 <= i <= sa
      invariant SameOn(a[..], a0, ao, ao + sa) && SameOn(b[..], b0, bo, bo + sb)
      invariant SameOutside(c0, c[..], co, co + i + sb)
      invariant Val(c[..], co, i + sb) == Val(a0, ao, i) * Val(b0, bo, sb)
    {
      UMulStep(a, ao, i, b, bo, c, co, sb, a0, b0);
      i := i + 1;
    }
  }

  /** One pass of the outer loop of s_umul */
  method UMulStep(a: array<digit>, ao: nat, i: nat, b: array<digit>, bo: nat, c: array<digit>, co: nat, sb: nat,
                  ghost a0: seq<digit>, ghost b0: seq<digit>)
    requires ao + i < a.Length == |a0| && bo + sb <= b.Length == |b0| && co + i + sb < c.Length
    requires a[ao + i] == a0[ao + i] && SameOn(b[..], b0, bo, bo + sb) && c[co + i + sb] == 0
    requires Disjoint(b, bo, sb, c, co + i, sb + 1)
    requires Val(c[..], co, i + sb) == Val(a0, ao, i) * Val(b0, bo, sb)
    modifies c
    ensures SameOutside(old(c[..]), c[..], co + i, co + i + sb + 1)
    ensures Val(c[..], co, i + 1 + sb) == Val(a0, ao, i + 1) * Val(b0, bo, sb)
  {
    ghost var c1 := c[..];
    if a[ao + i] != 0 {
      ValFrame(b0, b[..], bo, sb);
      MulRow(a[ao + i], b, bo, c, co + i, sb);
    }
    RowStep(a0, ao, i, Val(b0, bo, sb), c1, c[..], co, sb);
  }

  /** Adding a row of d * b at digit i extends the product by one digit of a */
  lemma RowStep(a: seq<digit>, ao: nat, i: nat, vb: int, c: seq<digit>, c': seq<digit>, co: nat, sb: nat)
    requires ao + i < |a| && co + i + sb < |c| == |c'|
    requires SameOutside(c, c', co + i, co + i + sb + 1) && c[co + i + sb] == 0
    requires Val(c', co + i, sb + 1) == Val(c, co + i, sb + 1) + a[ao + i] * vb
    requires Val(c, co, i + sb) == Val(a, ao, i) * vb
    ensures Val(c', co, i + 1 + sb) == Val(a, ao, i + 1) * vb
  {
    ValSplit(c, co, i, sb + 1);
    ValSplit(c', co, i, sb + 1);
    ValFrame(c, c', co, i);
    ShlAdd(Val(c, co + i, sb + 1), a[ao + i] * vb, i);
    ShlZero(i + sb);
    ShlMul(vb, a[ao + i], i);
    assert (Val(a, ao, i) + Shl(a[ao + i], i)) * vb == Val(a, ao, i) * vb + Shl(a[ao + i], i) * vb;
  }
}
