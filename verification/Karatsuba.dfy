/**
 s_kmul: recursive multiplication on raw digit buffers, down to the schoolbook
 loop below the threshold.
 */
module Karatsuba {
  import opened Common
  import opened Digits
  import opened Kernels

  /** The larger half of a split number */
  function Half(n: nat): nat {
    (n + 1) / 2
  }

  /** Whether s_kmul splits operands of sa >= sb digits */
  predicate Splits(th: nat, sa: nat, sb: nat) {
    th != 0 && sa >= th && sb > Half(sa)
  }

  /** How many digits of the output buffer s_kmul reads and writes */
  function Reach(th: nat, sa: nat, sb: nat): nat {
    if sb > sa then (if Splits(th, sb, sa) then 4 * Half(sb) else sa + sb)
    else if Splits(th, sa, sb) then 4 * Half(sa) else sa + sb
  }

  lemma ReachBound(th: nat, sa: nat, sb: nat)
    requires sb <= sa
    ensures sa + sb <= Reach(th, sa, sb) <= 2 * sa + 2
    ensures Reach(th, sa, sb) == Reach(th, sb, sa)
  {}

  /** ROUND_PREC, and how many digits mp_int_mul and mp_int_sqr provide at least for an output of n */
  function RoundPrec(n: nat): nat {
    2 * ((n + 1) / 2)
  }

  function Provided(n: nat, precision: nat): nat {
    if RoundPrec(n) < precision then precision else RoundPrec(n)
  }

  /**
   The buffer provided is as long as s_kmul reaches exactly when there is no split,
   the longer operand has an even length and the other at most one digit less, or
   the default precision is large enough by itself.
   */
  lemma RoomIff(th: nat, sa: nat, sb: nat, precision: nat)
    requires sb <= sa
    ensures Reach(th, sa, sb) <= Provided(sa + sb, precision)
      <==> !Splits(th, sa, sb) || (sa % 2 == 0 && sb >= sa - 1) || Half(sa) <= precision / 4
  {
  }

  /** With the library's own settings two numbers of 33 digits reach two digits too far */
  lemma RoomExample()
    ensures Reach(32, 33, 33) == 68 && Provided(66, 64) == 66
  {
  }

  /** Splits with a threshold of at least 4 make every recursive call smaller */
  lemma SplitShrinks(th: nat, sa: nat, sb: nat)
    requires th >= 4 && sb <= sa && Splits(th, sa, sb)
    ensures var h := Half(sa);
      && 2 <= h < sb <= sa <= 2 * h
      && (h + 1) + (h + 1) < sa + sb && h + h < sa + sb
  {}

  /** Every recursive call of a splitting s_kmul is on smaller operands */
  ghost predicate AlwaysShrinks(th: nat) {
    forall sa: nat, sb: nat :: sb <= sa && Splits(th, sa, sb) ==> (Half(sa) + 1) + (Half(sa) + 1) < sa + sb
  }

  /** That is so exactly for no threshold, or one of at least 4; below it, 3 by 3 digits call for 3 by 3 digits again */
  lemma ShrinksIff(th: nat)
    ensures AlwaysShrinks(th) <==> th == 0 || th >= 4
  {
    if th >= 4 {
      forall sa: nat, sb: nat | sb <= sa && Splits(th, sa, sb)
        ensures (Half(sa) + 1) + (Half(sa) + 1) < sa + sb
      {
        SplitShrinks(th, sa, sb);
      }
    } else if th > 0 {
      assert Splits(th, 3, 3) && Half(3) == 2;
    }
  }

  /** s_kmul */
  method KMul(th: nat, a: array<digit>, ao: nat, b: array<digit>, bo: nat, c: array<digit>, co: nat, sa: nat, sb: nat)
    requires th == 0 || th >= 4
    requires ao + sa <= a.Length && bo + sb <= b.Length && co + Reach(th, sa, sb) <= c.Length
    requires Disjoint(a, ao, sa, c, co, Reach(th, sa, sb)) && Disjoint(b, bo, sb, c, co, Reach(th, sa, sb))
    requires ZeroOn(c[..], co, co + sa + sb)
    modifies c
    ensures co + sa + sb <= c.Length
    ensures SameOutside(old(c[..]), c[..], co, co + sa + sb)
    ensures Val(c[..], co, sa + sb) == old(Val(a[..], ao, sa) * Val(b[..], bo, sb))
    decreases sa + sb, 4
  {
    if sb > sa {
      ReachBound(th, sb, sa);
      KMulOrdered(th, b, bo, a, ao, c, co, sb, sa);
    } else {
      ReachBound(th, sa, sb);
      KMulOrdered(th, a, ao, b, bo, c, co, sa, sb);
    }
  }

  method KMulOrdered(th: nat, a: array<digit>, ao: nat, b: array<digit>, bo: nat, c: array<digit>, co: nat, sa: nat, sb: nat)
    requires th == 0 || th >= 4
    requires sb <= sa
    requires ao + sa <= a.Length && bo + sb <= b.Length && co + sa + sb <= co + Reach(th, sa, sb) <= c.Length
    requires Disjoint(a, ao, sa, c, co, Reach(th, sa, sb)) && Disjoint(b, bo, sb, c, co, Reach(th, sa, sb))
    requires ZeroOn(c[..], co, co + sa + sb)
    modifies c
    ensures SameOutside(old(c[..]), c[..], co, co + sa + sb)
    ensures Val(c[..], co, sa + sb) == old(Val(a[..], ao, sa) * Val(b[..], bo, sb))
    decreases sa + sb, 3
  {
    if Splits(th, sa, sb) {
      SplitShrinks(th, sa, sb);
      var h := Half(sa);
      var t := new digit[8 * h](i => 0);
      Parts(th, a, ao, b, bo, t, h, sa, sb);
      Product(a[..], ao, b[..], bo, h, sa, sb);
      Assemble(t, h, c, co, sa + sb);
    } else {
      UMul(a, ao, b, bo, c, co, sa, sb);
    }
  }

  /** The three partial products: a0 * b0 in t1, a1 * b1 in t2 and a1 * b0 + a0 * b1 in t3 */
  method Parts(th: nat, a: array<digit>, ao: nat, b: array<digit>, bo: nat, t: array<digit>, h: nat, sa: nat, sb: nat)
    requires th >= 4 && 2 <= h < sb <= sa <= 2 * h && 2 * (h + 1) < sa + sb
    requires ao + sa <= a.Length && bo + sb <= b.Length && t.Length == 8 * h && a != t && b != t
    requires ZeroOn(t[..], 0, 8 * h)
    modifies t
    ensures var a0, a1, b0, b1 := Val(a[..], ao, h), Val(a[..], ao + h, sa - h), Val(b[..], bo, h), Val(b[..], bo + h, sb - h);
      && Val(t[..], 0, 2 * h) == a0 * b0
      && Val(t[..], 2 * h, 2 * h) == a1 * b1
      && Val(t[..], 4 * h, 2 * h + 2) == a0 * b1 + a1 * b0
    decreases sa + sb, 2
  {
    ghost var a0, a1, b0, b1 := Val(a[..], ao, h), Val(a[..], ao + h, sa - h), Val(b[..], bo, h), Val(b[..], bo + h, sb - h);
    Middle(th, a, ao, b, bo, t, h, sa, sb);
    ghost var t1 := t[..];
    Outer(th, a, ao, b, bo, t, h, sa, sb);
    ValFrame(t1, t[..], 4 * h, 2 * h + 2);
    CrossTerms(a0, a1, b0, b1);
    Product(a[..], ao, b[..], bo, h, sa, sb);
    ghost var t2 := t[..];
    SubtractOut(t, h, a0 * b1 + a1 * b0);
    ValFrame(t2, t[..], 0, 2 * h);
    ValFrame(t2, t[..], 2 * h, 2 * h);
  }

  /** (a1 + a0)(b1 + b0) without its outer products is what the middle digits need */
  lemma CrossTerms(a0: int, a1: int, b0: int, b1: int)
    ensures (a0 + a1) * (b0 + b1) == a0 * b0 + a1 * b1 + (a0 * b1 + a1 * b0)
  {}

  /** t[to..] := low half + high half of a number, with its carry on top */
  method SumHalves(a: array<digit>, ao: nat, sa: nat, h: nat, t: array<digit>, to: nat)
    requires h <= sa <= 2 * h && ao + sa <= a.Length && to + h < t.Length && a != t
    modifies t
    ensures SameOutside(old(t[..]), t[..], to, to + h + 1)
    ensures Val(t[..], to, h + 1) == Val(a[..], ao, h) + Val(a[..], ao + h, sa - h)
  {
    var carry := UAdd(a, ao, a, ao + h, t, to, h, sa - h);
    ghost var t1 := t[..];
    t[to + h] := carry;
    ValFrame(t1, t[..], to, h);
  }

  /** t1 := a1 + a0 and t2 := b1 + b0 */
  method Sums(a: array<digit>, ao: nat, b: array<digit>, bo: nat, t: array<digit>, h: nat, sa: nat, sb: nat)
    requires 2 <= h < sb <= sa <= 2 * h
    requires ao + sa <= a.Length && bo + sb <= b.Length && t.Length == 8 * h && a != t && b != t
    requires ZeroOn(t[..], 0, 8 * h)
    modifies t
    ensures ZeroOn(t[..], h + 1, 2 * h) && ZeroOn(t[..], 3 * h + 1, 8 * h)
    ensures Val(t[..], 0, h + 1) == Val(a[..], ao, h) + Val(a[..], ao + h, sa - h)
    ensures Val(t[..], 2 * h, h + 1) == Val(b[..], bo, h) + Val(b[..], bo + h, sb - h)
  {
    SumHalves(a, ao, sa, h, t, 0);
    ghost var t1 := t[..];
    SumHalves(b, bo, sb, h, t, 2 * h);
    ValFrame(t1, t[..], 0, h + 1);
  }

  /** t3 := (a1 + a0) * (b1 + b0), by way of the sums in t1 and t2, which are cleared again */
  method Middle(th: nat, a: array<digit>, ao: nat, b: array<digit>, bo: nat, t: array<digit>, h: nat, sa: nat, sb: nat)
    requires th >= 4 && 2 <= h < sb <= sa <= 2 * h && 2 * (h + 1) < sa + sb
    requires ao + sa <= a.Length && bo + sb <= b.Length && t.Length == 8 * h && a != t && b != t
    requires ZeroOn(t[..], 0, 8 * h)
    modifies t
    ensures ZeroOn(t[..], 0, 4 * h) && ZeroOn(t[..], 6 * h + 2, 8 * h)
    ensures Val(t[..], 4 * h, 2 * h + 2)
         == (Val(a[..], ao, h) + Val(a[..], ao + h, sa - h)) * (Val(b[..], bo, h) + Val(b[..], bo + h, sb - h))
    decreases sa + sb, 1
  {
    Sums(a, ao, b, bo, t, h, sa, sb);
    ReachBound(th, h + 1, h + 1);
    KMul(th, t, 0, t, 2 * h, t, 4 * h, h + 1, h + 1);
    ghost var t2 := t[..];
    Clear(t, 0, h + 1);
    Clear(t, 2 * h, h + 1);
    ValFrame(t2, t[..], 4 * h, 2 * h + 2);
  }

  /** ZERO */
  method Clear(t: array<digit>, o: nat, n: nat)
    requires o + n <= t.Length
    modifies t
    ensures SameOutside(old(t[..]), t[..], o, o + n) && ZeroOn(t[..], o, o + n)
  {
    forall i | o <= i < o + n { t[i] := 0; }
  }

  /** t1 := a0 * b0 and t2 := a1 * b1 */
  method Outer(th: nat, a: array<digit>, ao: nat, b: array<digit>, bo: nat, t: array<digit>, h: nat, sa: nat, sb: nat)
    requires th >= 4 && 2 <= h < sb <= sa <= 2 * h
    requires ao + sa <= a.Length && bo + sb <= b.Length && t.Length == 8 * h && a != t && b != t
    requires ZeroOn(t[..], 0, 4 * h)
    modifies t
    ensures SameOutside(old(t[..]), t[..], 0, 4 * h)
    ensures Val(t[..], 0, 2 * h) == Val(a[..], ao, h) * Val(b[..], bo, h)
    ensures Val(t[..], 2 * h, 2 * h) == Val(a[..], ao + h, sa - h) * Val(b[..], bo + h, sb - h)
    decreases sa + sb, 1
  {
    ReachBound(th, h, h);
    MulInto(th, a, ao, b, bo, t, 0, h, h, 2 * h);
    ghost var t1 := t[..];
    ReachBound(th, sa - h, sb - h);
    MulInto(th, a, ao + h, b, bo + h, t, 2 * h, sa - h, sb - h, 2 * h);
    ValFrame(t1, t[..], 0, 2 * h);
  }

  /** A product in w clear digits of t, which s_kmul may reach past */
  method MulInto(th: nat, a: array<digit>, ao: nat, b: array<digit>, bo: nat, t: array<digit>, to: nat, m: nat, n: nat, w: nat)
    requires th >= 4 && ao + m <= a.Length && bo + n <= b.Length && a != t && b != t
    requires m + n <= w && to + w <= t.Length && to + Reach(th, m, n) <= t.Length && ZeroOn(t[..], to, to + w)
    modifies t
    ensures SameOutside(old(t[..]), t[..], to, to + w)
    ensures Val(t[..], to, w) == Val(a[..], ao, m) * Val(b[..], bo, n)
    decreases m + n, 5
  {
    KMul(th, a, ao, b, bo, t, to, m, n);
    ValPad(t[..], to, m + n, w);
  }

  /** Zero digits on top do not change a value */
  lemma ValPad(t: seq<digit>, o: nat, n: nat, m: nat)
    requires n <= m && o + m <= |t| && ZeroOn(t, o + n, o + m)
    ensures Val(t, o, m) == Val(t, o, n)
  {
    ValSplit(t, o, n, m - n);
    ValZero(t, o + n, m - n);
    ShlZero(n);
  }

  /** t3 := t3 - t1 - t2 */
  method SubtractOut(t: array<digit>, h: nat, ghost cross: nat)
    requires t.Length == 8 * h && h >= 2
    requires Val(t[..], 4 * h, 2 * h + 2) == Val(t[..], 0, 2 * h) + Val(t[..], 2 * h, 2 * h) + cross
    modifies t
    ensures SameOutside(old(t[..]), t[..], 4 * h, 6 * h + 2)
    ensures Val(t[..], 4 * h, 2 * h + 2) == cross
  {
    ghost var t0 := t[..];
    ValBound(t0, 2 * h, 2 * h);
    USub(t, 4 * h, t, 0, t, 4 * h, 2 * h + 2, 2 * h);
    ValFrame(t0, t[..], 2 * h, 2 * h);
    USub(t, 4 * h, t, 2 * h, t, 4 * h, 2 * h + 2, 2 * h);
  }

  /** The product of two split numbers, and the bounds on its parts */
  lemma Product(a: seq<digit>, ao: nat, b: seq<digit>, bo: nat, h: nat, sa: nat, sb: nat)
    requires ao + sa <= |a| && bo + sb <= |b| && h <= sb <= sa <= 2 * h
    ensures var a0, a1, b0, b1 := Val(a, ao, h), Val(a, ao + h, sa - h), Val(b, bo, h), Val(b, bo + h, sb - h);
      && Val(a, ao, sa) * Val(b, bo, sb) == a0 * b0 + Shl(a0 * b1 + a1 * b0, h) + Shl(a1 * b1, 2 * h)
      && 0 <= a0 * b1 + a1 * b0 <= Shl(2, 2 * h)
      && Val(a, ao, sa) * Val(b, bo, sb) < Shl(1, sa + sb)
  {
    var a0, a1, b0, b1 := Val(a, ao, h), Val(a, ao + h, sa - h), Val(b, bo, h), Val(b, bo + h, sb - h);
    ValSplit(a, ao, h, sa - h);
    ValSplit(b, bo, h, sb - h);
    ProductParts(a0, a1, b0, b1, h);
    ProductBelow(a, ao, sa, b, bo, sb);
    ProductBelow(a, ao, h, b, bo + h, sb - h);
    ProductBelow(a, ao + h, sa - h, b, bo, h);
    ShlGrow(sb, 2 * h);
    ShlGrow(sa, 2 * h);
    ShlAdd(1, 1, 2 * h);
  }

  lemma ProductParts(a0: int, a1: int, b0: int, b1: int, h: nat)
    ensures (a0 + Shl(a1, h)) * (b0 + Shl(b1, h)) == a0 * b0 + Shl(a0 * b1 + a1 * b0, h) + Shl(a1 * b1, 2 * h)
  {
    Distribute(a0, Shl(a1, h), b0, Shl(b1, h));
    ShlMul(a0, b1, h);
    ShlMul(b0, a1, h);
    ShlAdd(a0 * b1, a1 * b0, h);
    ShlTimesShl(a1, h, b1, h);
  }

  lemma ShlTimesShl(x: int, m: nat, y: int, n: nat)
    ensures Shl(x, m) * Shl(y, n) == Shl(x * y, m + n)
  {
    Commute(Shl(x, m), y);
    ShlMul(Shl(x, m), y, n);
    Commute(x, y);
    ShlMul(y, x, m);
    ShlShl(x * y, m, n);
  }

  lemma Commute(x: int, y: int)
    ensures x * y == y * x
  {}

  lemma Distribute(x: int, y: int, u: int, v: int)
    ensures (x + y) * (u + v) == x * u + x * v + u * y + y * v
  {}

  lemma ShlNat(x: int, n: nat)
    requires x >= 0
    ensures Shl(x, n) >= 0
  {
    ShlZero(n);
    ShlMono(0, x, n);
  }

  lemma {:induction false} ShlGrowBy(x: int, m: nat, n: nat)
    requires m <= n && x >= 0
    ensures Shl(x, m) <= Shl(x, n)
  {
    if m < n {
      ShlGrowBy(x, m, n - 1);
      ShlNat(x, n - 1);
    }
  }

  lemma ShlGrow(m: nat, n: nat)
    requires m <= n
    ensures Shl(1, m) <= Shl(1, n)
  {
    ShlGrowBy(1, m, n);
  }

  lemma ProductBelow(a: seq<digit>, ao: nat, n: nat, b: seq<digit>, bo: nat, m: nat)
    requires ao + n <= |a| && bo + m <= |b|
    ensures 0 <= Val(a, ao, n) * Val(b, bo, m) < Shl(1, n + m)
  {
    var x, y := Val(a, ao, n), Val(b, bo, m);
    ValBound(a, ao, n);
    ValBound(b, bo, m);
    ShlMul(x, 1, m);
    MulMono(0, x, y);
    ShlMono(x + 1, Shl(1, n), m);
    ShlShl(1, n, m);
    ShlStrict(x, x + 1, m);
    MulMono(y, Shl(1, m), x);
  }

  /** Copy t1 to the output, then add t3 at digit h and t2 at digit 2h */
  method Assemble(t: array<digit>, h: nat, c: array<digit>, co: nat, n: nat)
    requires h >= 2 && 3 * h <= n <= 4 * h && t.Length == 8 * h && co + 4 * h <= c.Length && c != t
    requires ZeroOn(c[..], co, co + n)
    requires Val(t[..], 4 * h, 2 * h + 2) <= Shl(2, 2 * h)
    requires Val(t[..], 0, 2 * h) + Shl(Val(t[..], 4 * h, 2 * h + 2), h) + Shl(Val(t[..], 2 * h, 2 * h), 2 * h) < Shl(1, n)
    modifies c
    ensures SameOutside(old(c[..]), c[..], co, co + n)
    ensures Val(c[..], co, n)
         == Val(t[..], 0, 2 * h) + Shl(Val(t[..], 4 * h, 2 * h + 2), h) + Shl(Val(t[..], 2 * h, 2 * h), 2 * h)
  {
    ghost var c0, t0 := c[..], t[..];
    TopDigitZero(t0, 4 * h, 2 * h + 1);
    CopyLow(t, h, c, co);
    ghost var c1 := c[..];
    assert t[..] == t0;
    var carry1 := UAdd(t, 4 * h, c, co + h, c, co + h, 2 * h + 1, 2 * h + 1);
    ghost var c2 := c[..];
    assert t[..] == t0;
    var carry2 := UAdd(t, 2 * h, c, co + 2 * h, c, co + 2 * h, 2 * h, 2 * h);
    assert t[..] == t0;
    Assembled(t0, h, c0, c1, c2, c[..], co, n, carry1, carry2);
  }

  method CopyLow(t: array<digit>, h: nat, c: array<digit>, co: nat)
    requires 2 * h <= t.Length && co + 2 * h <= c.Length && c != t
    modifies c
    ensures SameOutside(old(c[..]), c[..], co, co + 2 * h) && c[co..co + 2 * h] == t[0..2 * h]
  {
    forall i | co <= i < co + 2 * h { c[i] := t[i - co]; }
  }

  /** A value of at most 2 * B^(n - 1) leaves digit n empty */
  lemma TopDigitZero(t: seq<digit>, o: nat, n: nat)
    requires n >= 1 && o + n + 1 <= |t| && Val(t, o, n + 1) <= Shl(2, n - 1)
    ensures t[o + n] == 0 && Val(t, o, n + 1) == Val(t, o, n)
  {
    if t[o + n] > 0 {
      ShlMono(1, t[o + n], n);
      ValBound(t, o, n);
      ShlIn(1, n - 1);
      ShlStrict(2, 0x1_0000_0000, n - 1);
    }
    ShlZero(n);
  }

  /** Adding p at digit o of a window of N digits */
  lemma AddAt(c: seq<digit>, c': seq<digit>, co: nat, o: nat, m: nat, N: nat, p: int, carry: int)
    requires o + m <= N && co + N <= |c| == |c'|
    requires SameOutside(c, c', co + o, co + o + m)
    requires Val(c', co + o, m) + Shl(carry, m) == p + Val(c, co + o, m)
    ensures Val(c', co, N) + Shl(carry, o + m) == Val(c, co, N) + Shl(p, o)
  {
    ValSplit(c, co, o, N - o);
    ValSplit(c', co, o, N - o);
    ValSplit(c, co + o, m, N - o - m);
    ValSplit(c', co + o, m, N - o - m);
    ValFrame(c, c', co, o);
    ValFrame(c, c', co + o + m, N - o - m);
    ShlShl(carry, m, o);
    ShlAdd(Val(c', co + o, N - o), Shl(carry, m), o);
    ShlAdd(Val(c, co + o, N - o), p, o);
  }

  lemma Assembled(t: seq<digit>, h: nat, c0: seq<digit>, c1: seq<digit>, c2: seq<digit>, c3: seq<digit>,
                  co: nat, n: nat, carry1: digit, carry2: digit)
    requires h >= 2 && 3 * h <= n <= 4 * h && |t| == 8 * h && co + 4 * h <= |c0|
    requires ZeroOn(c0, co, co + n) && carry1 <= 1 && carry2 <= 1
    requires SameOutside(c0, c1, co, co + 2 * h) && c1[co..co + 2 * h] == t[0..2 * h]
    requires SameOutside(c1, c2, co + h, co + 3 * h + 1)
    requires Val(c2, co + h, 2 * h + 1) + Shl(carry1, 2 * h + 1) == Val(t, 4 * h, 2 * h + 1) + Val(c1, co + h, 2 * h + 1)
    requires SameOutside(c2, c3, co + 2 * h, co + 4 * h)
    requires Val(c3, co + 2 * h, 2 * h) + Shl(carry2, 2 * h) == Val(t, 2 * h, 2 * h) + Val(c2, co + 2 * h, 2 * h)
    requires Val(t, 4 * h, 2 * h + 1) <= Shl(2, 2 * h)
    requires Val(t, 0, 2 * h) + Shl(Val(t, 4 * h, 2 * h + 1), h) + Shl(Val(t, 2 * h, 2 * h), 2 * h) < Shl(1, n)
    ensures SameOutside(c0, c3, co, co + n)
    ensures Val(c3, co, n) == Val(t, 0, 2 * h) + Shl(Val(t, 4 * h, 2 * h + 1), h) + Shl(Val(t, 2 * h, 2 * h), 2 * h)
  {
    var p0, p1, p2 := Val(t, 0, 2 * h), Val(t, 4 * h, 2 * h + 1), Val(t, 2 * h, 2 * h);
    ValBound(t, 0, 2 * h);
    ValBound(t, 4 * h, 2 * h + 1);
    ValBound(t, 2 * h, 2 * h);
    ShlNat(p1, h);
    ShlNat(p2, 2 * h);
    MiddleAdded(t, h, c0, c1, c2, co, n, carry1);
    AddAt(c2, c3, co, 2 * h, 2 * h, 4 * h, p2, carry2);
    LastCarry(p0 + Shl(p1, h) + Shl(p2, 2 * h), c0, c3, co, n, 4 * h, carry2);
  }

  /** After the copy of t1 and the addition of t3 */
  lemma MiddleAdded(t: seq<digit>, h: nat, c0: seq<digit>, c1: seq<digit>, c2: seq<digit>, co: nat, n: nat, carry: digit)
    requires h >= 2 && 3 * h <= n <= 4 * h && |t| == 8 * h && co + 4 * h <= |c0|
    requires ZeroOn(c0, co, co + n)
    requires SameOutside(c0, c1, co, co + 2 * h) && c1[co..co + 2 * h] == t[0..2 * h]
    requires SameOutside(c1, c2, co + h, co + 3 * h + 1)
    requires Val(c2, co + h, 2 * h + 1) + Shl(carry, 2 * h + 1) == Val(t, 4 * h, 2 * h + 1) + Val(c1, co + h, 2 * h + 1)
    requires 0 <= Val(t, 4 * h, 2 * h + 1) <= Shl(2, 2 * h)
    requires Val(t, 0, 2 * h) + Shl(Val(t, 4 * h, 2 * h + 1), h) < Shl(1, n)
    ensures Val(c2, co, 4 * h)
         == Val(t, 0, 2 * h) + Shl(Val(t, 4 * h, 2 * h + 1), h) + Shl(Val(c0, co + n, 4 * h - n), n)
  {
    Copied(t, h, c0, c1, co, n);
    ValMove(c1, co, t, 0, 2 * h);
    FirstCarry(Val(t, 4 * h, 2 * h + 1), h, c1, c2, co, n, carry);
    ShlZero(3 * h + 1);
    AddAt(c1, c2, co, h, 2 * h + 1, 4 * h, Val(t, 4 * h, 2 * h + 1), carry);
  }

  lemma Copied(t: seq<digit>, h: nat, c0: seq<digit>, c1: seq<digit>, co: nat, n: nat)
    requires 2 * h <= n <= 4 * h && |t| == 8 * h && co + 4 * h <= |c0|
    requires ZeroOn(c0, co, co + n)
    requires SameOutside(c0, c1, co, co + 2 * h) && c1[co..co + 2 * h] == t[0..2 * h]
    ensures Val(c1, co, 4 * h) == Val(t, 0, 2 * h) + Shl(Val(c0, co + n, 4 * h - n), n)
    ensures Val(c1, co, n) == Val(t, 0, 2 * h)
  {
    ValMove(c1, co, t, 0, 2 * h);
    ValSplit(c1, co, n, 4 * h - n);
    ValPad(c1, co, 2 * h, n);
    ValFrame(c0, c1, co + n, 4 * h - n);
  }

  /** The addition at digit h never carries out of its 2h + 1 digits */
  lemma FirstCarry(p1: int, h: nat, c1: seq<digit>, c2: seq<digit>, co: nat, n: nat, carry: digit)
    requires 3 * h <= n && co + 4 * h <= |c1| && h >= 1
    requires SameOutside(c1, c2, co + h, co + 3 * h + 1)
    requires Val(c2, co + h, 2 * h + 1) + Shl(carry, 2 * h + 1) == p1 + Val(c1, co + h, 2 * h + 1)
    requires 0 <= p1 <= Shl(2, 2 * h)
    requires ZeroOn(c1, co + 2 * h, co + n)
    requires Val(c1, co, 2 * h) + Shl(p1, h) < Shl(1, n)
    ensures carry == 0
  {
    AddAt(c1, c2, co, h, 2 * h + 1, 3 * h + 1, p1, carry);
    ValBound(c2, co, 3 * h + 1);
    BelowCarry(p1, h, c1, co, n);
    if carry > 0 { ShlMono(1, carry, 3 * h + 1); }
  }

  lemma BelowCarry(p1: int, h: nat, c1: seq<digit>, co: nat, n: nat)
    requires 3 * h <= n && co + 4 * h <= |c1| && h >= 1
    requires 0 <= p1 <= Shl(2, 2 * h)
    requires ZeroOn(c1, co + 2 * h, co + n)
    requires Val(c1, co, 2 * h) + Shl(p1, h) < Shl(1, n)
    ensures Val(c1, co, 3 * h + 1) + Shl(p1, h) < Shl(1, 3 * h + 1)
  {
    var d: int := c1[co + 3 * h];
    ValPad(c1, co, 2 * h, 3 * h);
    ShlIn(1, 3 * h);
    if n == 3 * h {
      ShlAdd(1, d, 3 * h);
      ShlMono(1 + d, 0x1_0000_0000, 3 * h);
    } else {
      ValBound(c1, co, 2 * h);
      ShlGrow(2 * h, 3 * h);
      ShlMono(p1, Shl(2, 2 * h), h);
      ShlShl(2, 2 * h, h);
      ShlAdd(1, 2, 3 * h);
      ShlStrict(3, 0x1_0000_0000, 3 * h);
      ShlZero(3 * h);
    }
  }

  /** Nothing carries out of the whole window, and the digits above the product keep their values */
  lemma LastCarry(prod: int, c0: seq<digit>, c3: seq<digit>, co: nat, n: nat, N: nat, carry: digit)
    requires n <= N && co + N <= |c0| && 0 <= prod < Shl(1, n)
    requires SameOutside(c0, c3, co, co + N)
    requires Val(c3, co, N) + Shl(carry, N) == prod + Shl(Val(c0, co + n, N - n), n)
    ensures SameOutside(c0, c3, co, co + n)
    ensures Val(c3, co, n) == prod
  {
    var g := Val(c0, co + n, N - n);
    ValBound(c0, co + n, N - n);
    ShlMono(g + 1, Shl(1, N - n), n);
    ShlAdd(g, 1, n);
    ShlShl(1, N - n, n);
    ValBound(c3, co, N);
    if carry > 0 { ShlMono(1, carry, N); }
    ShlZero(N);
    ValSplit(c3, co, n, N - n);
    ValBound(c3, co, n);
    SplitUnique(Val(c3, co, n), Val(c3, co + n, N - n), prod, g, n);
    ValUnique(c0, c3, co + n, N - n);
  }
}
