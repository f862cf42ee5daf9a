/**
 s_usqr and s_ksqr: squaring on raw digit buffers. The schoolbook loop doubles
 its products in a 64-bit word and keeps the lost top bit in an overflow flag.
 */
module Squaring {
  import opened Common
  import opened Digits
  import opened Kernels
  import opened Karatsuba

  /** One doubled product with its addend, as the 64-bit code computes it */
  method DoubleAdd(t: word, u: word) returns (w: word, ov: bool)
    requires 2 * t + u < 0x2_0000_0000_0000_0000
    ensures 2 * t + u == w + (if ov then 0x1_0000_0000_0000_0000 else 0)
  {
    ov := t >= 0x8000_0000_0000_0000;
    w := (t + t) % 0x1_0000_0000_0000_0000;
    if 0xFFFF_FFFF_FFFF_FFFF - u < w { ov := true; }
    w := (w + u) % 0x1_0000_0000_0000_0000;
  }

  /** The product of two digits is at most (B - 1)^2 */
  lemma DigitProduct(d: digit, e: digit)
    ensures 0 <= d * e <= 0xFFFF_FFFE_0000_0001
  {
    MulMono(0, d, e);
    MulMono(d, 0xFFFF_FFFF, e);
  }

  /** The carry between two digits of a squaring row stays at or below 2B - 2 */
  lemma CarryBound(p: int, w: int, c: digit)
    requires 0 <= p <= 0xFFFF_FFFE_0000_0001
    requires 0 <= w <= 0x1_FFFF_FFFE
    ensures 0 <= Hi(2 * p + (w + c)) <= 0x1_FFFF_FFFE
    ensures 2 * p + (w + c) < 0x2_0000_0000_0000_0000
  {}

  /** Lower and upper half of a sum that overflowed a word once */
  lemma OverflowHalves(x: int, w: int, ov: bool)
    requires x == w + (if ov then 0x1_0000_0000_0000_0000 else 0)
    ensures Lo(x) == Lo(w)
    ensures Hi(x) == Hi(w) + (if ov then 0x1_0000_0000 else 0)
  {}

  /** The inner statement of s_usqr: c[pos] and the carry after 2 * d * e */
  method SqrDigit(d: digit, e: digit, c: array<digit>, o: nat, pos: nat, w: word) returns (w': word)
    requires o + pos < c.Length && w <= 0x1_FFFF_FFFE
    modifies c
    ensures w' <= 0x1_FFFF_FFFE
    ensures SameOutside(old(c[..]), c[..], o + pos, o + pos + 1)
    ensures Val(c[..], o, pos + 1) + Shl(w', pos + 1)
         == old(Val(c[..], o, pos + 1)) + Shl(w, pos) + Shl(2 * (d * e), pos)
  {
    DigitProduct(d, e);
    CarryBound(d * e, w, c[o + pos]);
    ghost var x := 2 * (d * e) + (w + c[o + pos]);
    ShlAdd(2 * (d * e), w + c[o + pos], pos);
    ShlAdd(w, c[o + pos], pos);
    var t: word := d * e;
    var u: word := w + c[o + pos];
    var s, ov := DoubleAdd(t, u);
    OverflowHalves(x, s, ov);
    Carry(x, pos);
    c[o + pos] := Lo(s);
    ValFrame(old(c[..]), c[..], o, pos);
    w' := Hi(s);
    if ov { w' := w' + 0xFFFF_FFFF + 1; }
  }

  /** Carry w into the window of m digits at o, from digit pos on, until it is used up */
  method RippleUp(c: array<digit>, o: nat, pos: nat, m: nat, w: word)
    requires pos < m && o + m <= c.Length && w <= 0x1_FFFF_FFFE
    requires Val(c[..], o, m) + Shl(w, pos) < Shl(1, m)
    modifies c
    ensures SameOutside(old(c[..]), c[..], o, o + m)
    ensures Val(c[..], o, m) == old(Val(c[..], o, m)) + Shl(w, pos)
  {
    var p := pos;
    var x: word := w;
    x := RippleDigit(c, o, p, m, x);
    while x != 0
      invariant pos <= p < m && x <= 0x1_FFFF_FFFE
      invariant SameOutside(old(c[..]), c[..], o, o + m)
      invariant Val(c[..], o, m) + Shl(x, p + 1) == old(Val(c[..], o, m)) + Shl(w, pos)
      decreases m - p
    {
      StillInside(c[..], o, m, p + 1, x);
      p := p + 1;
      x := RippleDigit(c, o, p, m, x);
    }
    ShlZero(p + 1);
  }

  method RippleDigit(c: array<digit>, o: nat, pos: nat, m: nat, w: word) returns (hi: word)
    requires pos < m && o + m <= c.Length && w <= 0x1_FFFF_FFFE
    modifies c
    ensures hi <= 2 && SameOutside(old(c[..]), c[..], o + pos, o + pos + 1)
    ensures Val(c[..], o, m) + Shl(hi, pos + 1) == old(Val(c[..], o, m)) + Shl(w, pos)
  {
    StoreLow(c[..], o, pos, m, w);
    var x: word := w + c[o + pos];
    c[o + pos] := Lo(x);
    hi := Hi(x);
  }

  /** A pending carry below the top of the window: otherwise the total would not fit */
  lemma StillInside(c: seq<digit>, o: nat, m: nat, p: nat, x: int)
    requires p <= m && o + m <= |c| && x >= 1
    requires Val(c, o, m) + Shl(x, p) < Shl(1, m)
    ensures p < m
  {
    ValBound(c, o, m);
    ShlMono(1, x, p);
  }

  /** Storing the low half of w + digit moves the rest of w up by one digit */
  lemma StoreLow(c: seq<digit>, o: nat, pos: nat, m: nat, w: int)
    requires pos < m && o + m <= |c| && 0 <= w
    ensures Val(c[o + pos := Lo(w + c[o + pos])], o, m) + Shl(Hi(w + c[o + pos]), pos + 1) == Val(c, o, m) + Shl(w, pos)
  {
    var x := w + c[o + pos];
    var c' := c[o + pos := Lo(x)];
    ShlAdd(w, c[o + pos], pos);
    Carry(x, pos);
    ValSplit(c, o, pos + 1, m - pos - 1);
    ValSplit(c', o, pos + 1, m - pos - 1);
    ValFrame(c, c', o, pos);
    ValFrame(c, c', o + pos + 1, m - pos - 1);
  }

  /** d * (d + 2 * B * (a[0] + ... + a[n - 2] * B^(n - 2))): what one row of the square contributes */
  function Row(d: int, rest: int): int {
    d * d + Shl(2 * (d * rest), 1)
  }

  /** One pass of the outer loop of s_usqr, for the n digits of a from ao on */
  method SqrRow(a: array<digit>, ao: nat, n: nat, c: array<digit>, o: nat)
    requires n >= 1 && ao + n <= a.Length && o + 2 * n <= c.Length
    requires Disjoint(a, ao, n, c, o, 2 * n)
    requires Val(c[..], o, 2 * n) + Row(a[ao], Val(a[..], ao + 1, n - 1)) < Shl(1, 2 * n)
    modifies c
    ensures SameOutside(old(c[..]), c[..], o, o + 2 * n)
    ensures Val(c[..], o, 2 * n) == old(Val(c[..], o, 2 * n) + Row(a[ao], Val(a[..], ao + 1, n - 1)))
  {
    ghost var c0 := c[..];
    var w := SqrRowDigits(a, ao, n, c, o);
    ValSplit(c0, o, n, n);
    ValSplit(c[..], o, n, n);
    ValFrame(c0, c[..], o + n, n);
    RippleUp(c, o, n, 2 * n, w);
  }

  /** The digits of a row below its carry out */
  method SqrRowDigits(a: array<digit>, ao: nat, n: nat, c: array<digit>, o: nat) returns (w: word)
    requires n >= 1 && ao + n <= a.Length && o + n <= c.Length
    requires Disjoint(a, ao, n, c, o, n)
    modifies c
    ensures w <= 0x1_FFFF_FFFE
    ensures SameOutside(old(c[..]), c[..], o, o + n)
    ensures Val(c[..], o, n) + Shl(w, n) == old(Val(c[..], o, n) + Row(a[ao], Val(a[..], ao + 1, n - 1)))
  {
    ghost var a0, c0 := a[..], c[..];
    var d := a[ao];
    w := SqrFirst(d, c, o);
    var pos := 1;
    while pos < n
      invariant 1 <= pos <= n && w <= 0x1_FFFF_FFFE
      invariant SameOn(a[..], a0, ao, ao + n)
      invariant SameOutside(c0, c[..], o, o + pos)
      invariant Val(c[..], o, pos) + Shl(w, pos) == Val(c0, o, pos) + Row(d, Val(a0, ao + 1, pos - 1))
    {
      RowGrows(d, a0, ao + 1, pos);
      w := SqrDigit(d, a[ao + pos], c, o, pos, w);
      pos := pos + 1;
    }
  }

  /** The first digit of a row takes the plain square */
  method SqrFirst(d: digit, c: array<digit>, o: nat) returns (w: digit)
    requires o < c.Length
    modifies c
    ensures SameOutside(old(c[..]), c[..], o, o + 1)
    ensures Val(c[..], o, 1) + Shl(w, 1) == old(Val(c[..], o, 1)) + Row(d, 0)
  {
    MulStepFits(d, d, 0, c[o]);
    w := Emit(c, o, 0, d * d + c[o]);
  }

  lemma RowGrows(d: digit, a: seq<digit>, ao: nat, pos: nat)
    requires 1 <= pos && ao + pos <= |a|
    ensures Row(d, Val(a, ao, pos)) == Row(d, Val(a, ao, pos - 1)) + Shl(2 * (d * a[ao + pos - 1]), pos)
  {
    var e: int, v := a[ao + pos - 1], Val(a, ao, pos - 1);
    ShlMul(d, e, pos - 1);
    assert d * (v + Shl(e, pos - 1)) == d * v + d * Shl(e, pos - 1);
    ShlAdd(2 * (d * v), 2 * Shl(d * e, pos - 1), 1);
    ShlMul(2, d * e, pos - 1);
    ShlShl(2 * (d * e), pos - 1, 1);
  }

  function Square(x: int): int {
    x * x
  }

  /** Stripping digit i from the not yet squared high part takes one row off its square */
  lemma HighSquare(a: seq<digit>, ao: nat, sa: nat, i: nat)
    requires i < sa && ao + sa <= |a|
    ensures Square(Shl(Val(a, ao + i, sa - i), i))
         == Square(Shl(Val(a, ao + i + 1, sa - i - 1), i + 1)) + Shl(Row(a[ao + i], Val(a, ao + i + 1, sa - i - 1)), 2 * i)
  {
    var d: int, r := a[ao + i], Val(a, ao + i + 1, sa - i - 1);
    ValSplit(a, ao + i, 1, sa - i - 1);
    ShlAdd(d, Shl(r, 1), i);
    ShlShl(r, 1, i);
    SquareOfSum(Shl(d, i), Shl(r, i + 1));
    ShlTimesShl(d, i, d, i);
    ShlTimesShl(d, i, r, i + 1);
    RowShifted(d, r, i);
  }

  lemma SquareOfSum(x: int, y: int)
    ensures Square(x + y) == x * x + 2 * (x * y) + Square(y)
  {}

  lemma RowShifted(d: int, r: int, i: nat)
    ensures Shl(Row(d, r), 2 * i) == Shl(d * d, 2 * i) + 2 * Shl(d * r, 2 * i + 1)
  {
    ShlAdd(d * d, Shl(2 * (d * r), 1), 2 * i);
    ShlShl(2 * (d * r), 1, 2 * i);
    ShlMul(2, d * r, 2 * i + 1);
  }

  /** Each row stays inside the 2 * sa digits of the output */
  lemma RowFits(a: seq<digit>, ao: nat, sa: nat, i: nat, c: seq<digit>, co: nat)
    requires i < sa && ao + sa <= |a| && co + 2 * sa <= |c|
    requires SquaredBelow(a, ao, sa, i, c, co)
    ensures Val(c, co + 2 * i, 2 * (sa - i)) + Row(a[ao + i], Val(a, ao + i + 1, sa - i - 1)) < Shl(1, 2 * (sa - i))
  {
    var w, row, m := Val(c, co + 2 * i, 2 * (sa - i)), Row(a[ao + i], Val(a, ao + i + 1, sa - i - 1)), 2 * (sa - i);
    HighSquare(a, ao, sa, i);
    ProductBelow(a, ao, sa, a, ao, sa);
    SquareNonNegative(Shl(Val(a, ao + i + 1, sa - i - 1), i + 1));
    ValSplit(c, co, 2 * i, m);
    ValBound(c, co, 2 * i);
    ShlAdd(w, row, 2 * i);
    ShlShl(1, m, 2 * i);
    if w + row >= Shl(1, m) { ShlMono(Shl(1, m), w + row, 2 * i); }
  }

  lemma SquareNonNegative(x: int)
    ensures Square(x) >= 0
  {}

  lemma RowDone(a: seq<digit>, ao: nat, sa: nat, i: nat, c: seq<digit>, c': seq<digit>, co: nat)
    requires i < sa && ao + sa <= |a| && co + 2 * sa <= |c|
    requires SquaredBelow(a, ao, sa, i, c, co)
    requires SameOutside(c, c', co + 2 * i, co + 2 * sa)
    requires Val(c', co + 2 * i, 2 * (sa - i))
          == Val(c, co + 2 * i, 2 * (sa - i)) + Row(a[ao + i], Val(a, ao + i + 1, sa - i - 1))
    ensures SquaredBelow(a, ao, sa, i + 1, c', co)
  {
    var row, m := Row(a[ao + i], Val(a, ao + i + 1, sa - i - 1)), 2 * (sa - i);
    HighSquare(a, ao, sa, i);
    ValSplit(c, co, 2 * i, m);
    ValSplit(c', co, 2 * i, m);
    ValFrame(c, c', co, 2 * i);
    ShlAdd(Val(c, co + 2 * i, m), row, 2 * i);
  }

  lemma EmptyRow(r: int)
    ensures Row(0, r) == 0
  {}

  /** s_usqr: squaring into zeroed digits */
  method USqr(a: array<digit>, ao: nat, c: array<digit>, co: nat, sa: nat)
    requires ao + sa <= a.Length && co + 2 * sa <= c.Length
    requires Disjoint(a, ao, sa, c, co, 2 * sa)
    requires ZeroOn(c[..], co, co + 2 * sa)
    modifies c
    ensures SameOutside(old(c[..]), c[..], co, co + 2 * sa)
    ensures Val(c[..], co, 2 * sa) == old(Val(a[..], ao, sa) * Val(a[..], ao, sa))
  {
    ghost var a0, c0 := a[..], c[..];
    ValZero(c0, co, 2 * sa);
    var i := 0;
    while i < sa
      invariant 0 <= i <= sa
      invariant SameOn(a[..], a0, ao, ao + sa)
      invariant SameOutside(c0, c[..], co, co + 2 * sa)
      invariant SquaredBelow(a0, ao, sa, i, c[..], co)
    {
      SqrStep(a, ao, sa, i, c, co, a0);
      i := i + 1;
    }
    ShlZero(sa);
  }

  /** All products with a factor among the first i digits are in c */
  ghost predicate SquaredBelow(a: seq<digit>, ao: nat, sa: nat, i: nat, c: seq<digit>, co: nat)
    requires i <= sa && ao + sa <= |a| && co + 2 * sa <= |c|
  {
    Val(c, co, 2 * sa) == Square(Val(a, ao, sa)) - Square(Shl(Val(a, ao + i, sa - i), i))
  }

  method SqrStep(a: array<digit>, ao: nat, sa: nat, i: nat, c: array<digit>, co: nat, ghost a0: seq<digit>)
    requires i < sa && ao + sa <= a.Length == |a0| && co + 2 * sa <= c.Length
    requires Disjoint(a, ao, sa, c, co, 2 * sa) && SameOn(a[..], a0, ao, ao + sa)
    requires SquaredBelow(a0, ao, sa, i, c[..], co)
    modifies c
    ensures SameOutside(old(c[..]), c[..], co + 2 * i, co + 2 * sa)
    ensures SquaredBelow(a0, ao, sa, i + 1, c[..], co)
  {
    ghost var c0 := c[..];
    if a[ao + i] != 0 {
      RowFits(a0, ao, sa, i, c0, co);
      ValFrame(a0, a[..], ao + i + 1, sa - i - 1);
      SqrRow(a, ao + i, sa - i, c, co + 2 * i);
    } else {
      EmptyRow(Val(a0, ao + i + 1, sa - i - 1));
    }
    RowDone(a0, ao, sa, i, c0, c[..], co);
  }

  // ---------------------------------------------------------------- recursive squaring

  /** How many digits of the output buffer s_ksqr reads and writes */
  function SqrReach(th: nat, n: nat): nat {
    if th != 0 && n > th then 4 * Half(n) else 2 * n
  }

  /** The same for s_ksqr: no split, an even length, or a default precision that is large enough by itself */
  lemma SqrRoomIff(th: nat, n: nat, precision: nat)
    ensures SqrReach(th, n) <= Provided(2 * n, precision)
      <==> th == 0 || n <= th || n % 2 == 0 || Half(n) <= precision / 4
  {
  }

  /** s_ksqr */
  method KSqr(th: nat, a: array<digit>, ao: nat, c: array<digit>, co: nat, sa: nat)
    requires th == 0 || th >= 4
    requires ao + sa <= a.Length && co + SqrReach(th, sa) <= c.Length
    requires Disjoint(a, ao, sa, c, co, SqrReach(th, sa))
    requires ZeroOn(c[..], co, co + 2 * sa)
    modifies c
    ensures co + 2 * sa <= c.Length
    ensures SameOutside(old(c[..]), c[..], co, co + 2 * sa)
    ensures Val(c[..], co, 2 * sa) == old(Val(a[..], ao, sa) * Val(a[..], ao, sa))
    decreases sa, 2
  {
    if th != 0 && sa > th {
      var h := Half(sa);
      var t := new digit[8 * h](i => 0);
      SqrParts(th, a, ao, t, h, sa);
      Product(a[..], ao, a[..], ao, h, sa, sa);
      Assemble(t, h, c, co, 2 * sa);
    } else {
      USqr(a, ao, c, co, sa);
    }
  }

  /** t1 := a0^2, t2 := a1^2 and t3 := 2 * a0 * a1 */
  method SqrParts(th: nat, a: array<digit>, ao: nat, t: array<digit>, h: nat, sa: nat)
    requires th >= 4 && sa > th && h == Half(sa)
    requires ao + sa <= a.Length && t.Length == 8 * h && a != t
    requires ZeroOn(t[..], 0, 8 * h)
    modifies t
    ensures var a0, a1 := Val(a[..], ao, h), Val(a[..], ao + h, sa - h);
      && Val(t[..], 0, 2 * h) == a0 * a0
      && Val(t[..], 2 * h, 2 * h) == a1 * a1
      && Val(t[..], 4 * h, 2 * h + 2) == a0 * a1 + a1 * a0
    decreases sa, 1
  {
    SqrOuter(th, a, ao, t, h, sa);
    ghost var t1 := t[..];
    SqrMiddle(th, a, ao, t, h, sa);
    ValFrame(t1, t[..], 0, 2 * h);
    ValFrame(t1, t[..], 2 * h, 2 * h);
  }

  method SqrMiddle(th: nat, a: array<digit>, ao: nat, t: array<digit>, h: nat, sa: nat)
    requires th >= 4 && sa > th && h == Half(sa)
    requires ao + sa <= a.Length && t.Length == 8 * h && a != t
    requires ZeroOn(t[..], 4 * h, 8 * h)
    modifies t
    ensures SameOutside(old(t[..]), t[..], 4 * h, 8 * h)
    ensures var a0, a1 := Val(a[..], ao, h), Val(a[..], ao + h, sa - h); Val(t[..], 4 * h, 2 * h + 2) == a0 * a1 + a1 * a0
  {
    ReachBound(th, h, sa - h);
    KMul(th, a, ao, a, ao + h, t, 4 * h, h, sa - h);
    Double(t, 4 * h, sa);
    ValPad(t[..], 4 * h, sa + 1, 2 * h + 2);
  }

  method SqrOuter(th: nat, a: array<digit>, ao: nat, t: array<digit>, h: nat, sa: nat)
    requires th >= 4 && sa > th && h == Half(sa)
    requires ao + sa <= a.Length && t.Length == 8 * h && a != t
    requires ZeroOn(t[..], 0, 8 * h)
    modifies t
    ensures ZeroOn(t[..], 4 * h, 8 * h)
    ensures Val(t[..], 0, 2 * h) == Val(a[..], ao, h) * Val(a[..], ao, h)
    ensures Val(t[..], 2 * h, 2 * h) == Val(a[..], ao + h, sa - h) * Val(a[..], ao + h, sa - h)
    decreases sa, 0
  {
    KSqr(th, a, ao, t, 0, h);
    ghost var t1 := t[..];
    KSqr(th, a, ao + h, t, 2 * h, sa - h);
    ValFrame(t1, t[..], 0, 2 * h);
    ValPad(t[..], 2 * h, 2 * (sa - h), 2 * h);
  }

  /** Shift n digits left by one bit, with the bit shifted out in the digit above */
  method Double(t: array<digit>, o: nat, n: nat)
    requires o + n < t.Length
    modifies t
    ensures SameOutside(old(t[..]), t[..], o, o + n + 1)
    ensures Val(t[..], o, n + 1) == 2 * old(Val(t[..], o, n))
  {
    ghost var t0 := t[..];
    var save: digit := 0;
    var i := 0;
    while i < n
      invariant 0 <= i <= n && save <= 1
      invariant SameOutside(t0, t[..], o, o + i)
      invariant Val(t[..], o, i) + Shl(save, i) == 2 * Val(t0, o, i)
    {
      DoubleStep(t0[o + i], save, i);
      save := Emit(t, o, i, 2 * t[o + i] + save);
      i := i + 1;
    }
    ghost var t1 := t[..];
    t[o + i] := save;
    ValFrame(t1, t[..], o, n);
  }

  lemma DoubleStep(d: int, save: int, i: nat)
    ensures Shl(2 * d + save, i) == 2 * Shl(d, i) + Shl(save, i)
  {
    ShlAdd(2 * d, save, i);
    ShlAdd(d, d, i);
  }
}
