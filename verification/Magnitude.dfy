/**
 Magnitudes: the used digits of an mp_int as a sequence. A normal magnitude has
 at least one digit and no leading zero unless it is the single digit 0.
 */
module Magnitude {
  import opened Digits
  import opened Kernels
  import opened Karatsuba
  import opened Squaring

  /** The number a digit sequence spells */
  function Num(s: seq<digit>): int {
    Val(s, 0, |s|)
  }

  predicate Normal(s: seq<digit>) {
    |s| >= 1 && (|s| == 1 || s[|s| - 1] != 0)
  }

  lemma NumBound(s: seq<digit>)
    ensures 0 <= Num(s) < Shl(1, |s|)
  {
    ValBound(s, 0, |s|);
  }

  lemma NumAppend(s: seq<digit>, d: digit)
    ensures Num(s + [d]) == Num(s) + Shl(d, |s|)
  {
    ValFrame(s, s + [d], 0, |s|);
  }

  lemma NumPrefix(s: seq<digit>, n: nat)
    requires n <= |s|
    ensures Num(s[..n]) == Val(s, 0, n)
  {
    ValFrame(s, s[..n], 0, n);
  }

  /** The digits from index n up */
  lemma NumSplit(s: seq<digit>, n: nat)
    requires n <= |s|
    ensures Num(s) == Num(s[..n]) + Shl(Num(s[n..]), n)
  {
    ValSplit(s, 0, n, |s| - n);
    NumPrefix(s, n);
    ValMove(s, n, s[n..], 0, |s| - n);
  }

  /** A leading digit is nonzero exactly when the number reaches its place value */
  lemma NormalIff(s: seq<digit>)
    requires |s| >= 1
    ensures s[|s| - 1] != 0 <==> Shl(1, |s| - 1) <= Num(s)
  {
    var n := |s| - 1;
    ValBound(s, 0, n);
    if s[n] != 0 {
      ShlMono(1, s[n], n);
    } else {
      ShlZero(n);
    }
  }

  /** More digits, larger number */
  lemma LongerIsLarger(x: seq<digit>, y: seq<digit>)
    requires Normal(x) && Normal(y) && |y| < |x|
    ensures Num(y) < Num(x)
  {
    NormalIff(x);
    NumBound(y);
    ShlGrow(|y|, |x| - 1);
  }

  /** Zero is spelled by the single digit 0 */
  lemma ZeroIff(s: seq<digit>)
    requires Normal(s)
    ensures Num(s) == 0 <==> s == [0]
  {
    NormalIff(s);
    ShlPos(|s| - 1);
    if |s| == 1 { assert Val(s, 0, 1) == Val(s, 0, 0) + Shl(s[0], 0); }
  }

  /** CLAMP: drop leading zeros, keep one digit */
  method Clamp(s: seq<digit>) returns (r: seq<digit>)
    requires |s| >= 1
    ensures Normal(r) && r <= s && Num(r) == Num(s)
  {
    var n := |s|;
    while n > 1 && s[n - 1] == 0
      invariant 1 <= n <= |s|
      invariant Val(s, 0, n) == Num(s)
    {
      ShlZero(n - 1);
      n := n - 1;
    }
    r := s[..n];
    NumPrefix(s, n);
  }

  /** s_ucmp on normal magnitudes, with s_cdig's loop for equal lengths */
  method UCmp(x: seq<digit>, y: seq<digit>) returns (r: int)
    requires Normal(x) && Normal(y)
    ensures r == if Num(x) > Num(y) then 1 else if Num(x) < Num(y) then -1 else 0
  {
    if |x| > |y| {
      LongerIsLarger(x, y);
      return 1;
    } else if |y| > |x| {
      LongerIsLarger(y, x);
      return -1;
    }
    r := CDig(x, y);
  }

  /** s_cdig: compare digit by digit from the top */
  method CDig(x: seq<digit>, y: seq<digit>) returns (r: int)
    requires |x| == |y|
    ensures r == if Num(x) > Num(y) then 1 else if Num(x) < Num(y) then -1 else 0
  {
    var n := |x|;
    while n != 0
      invariant 0 <= n <= |x|
      invariant Num(x) - Num(y) == Val(x, 0, n) - Val(y, 0, n)
    {
      DigitDecides(x, y, n);
      if x[n - 1] > y[n - 1] {
        return 1;
      } else if x[n - 1] < y[n - 1] {
        return -1;
      }
      n := n - 1;
    }
    return 0;
  }

  lemma DigitDecides(x: seq<digit>, y: seq<digit>, n: nat)
    requires 1 <= n <= |x| == |y|
    ensures x[n - 1] > y[n - 1] ==> Val(x, 0, n) > Val(y, 0, n)
    ensures x[n - 1] < y[n - 1] ==> Val(x, 0, n) < Val(y, 0, n)
  {
    ValBound(x, 0, n - 1);
    ValBound(y, 0, n - 1);
    var d: int, e: int := x[n - 1], y[n - 1];
    if d > e {
      ShlMono(e + 1, d, n - 1);
      ShlAdd(e, 1, n - 1);
    } else if d < e {
      ShlMono(d + 1, e, n - 1);
      ShlAdd(d, 1, n - 1);
    }
  }

  /** The digits in a buffer of their own */
  method Buffer(s: seq<digit>) returns (a: array<digit>)
    ensures fresh(a) && a[..] == s
  {
    a := new digit[|s|](i requires 0 <= i < |s| => s[i]);
  }

  /** The magnitude part of an addition: s_uadd, then the carry as a new top digit */
  method AddMag(x: seq<digit>, y: seq<digit>) returns (z: seq<digit>)
    requires Normal(x) && Normal(y)
    ensures Normal(z) && Num(z) == Num(x) + Num(y)
  {
    var a := Buffer(x);
    var b := Buffer(y);
    var n := if |x| < |y| then |y| else |x|;
    var c := new digit[n](i => 0);
    var carry := UAdd(a, 0, b, 0, c, 0, |x|, |y|);
    assert c[..] == c[..n];
    if carry != 0 {
      z := c[..] + [carry];
      NumAppend(c[..], carry);
    } else {
      z := c[..];
      ShlZero(n);
      SumNormal(x, y, z);
    }
  }

  lemma SumNormal(x: seq<digit>, y: seq<digit>, z: seq<digit>)
    requires Normal(x) && Normal(y) && |z| == (if |x| < |y| then |y| else |x|)
    requires Num(z) == Num(x) + Num(y)
    ensures Normal(z)
  {
    NumBound(x);
    NumBound(y);
    NormalIff(x);
    NormalIff(y);
    NormalIff(z);
  }

  /** The magnitude part of a subtraction: s_usub, then CLAMP */
  method SubMag(x: seq<digit>, y: seq<digit>) returns (z: seq<digit>)
    requires Normal(x) && Normal(y) && Num(y) <= Num(x)
    ensures Normal(z) && Num(z) == Num(x) - Num(y)
  {
    if |y| > |x| { LongerIsLarger(y, x); }
    var a := Buffer(x);
    var b := Buffer(y);
    var c := new digit[|x|](i => 0);
    USub(a, 0, b, 0, c, 0, |x|, |y|);
    z := Clamp(c[..]);
  }

  /** UMUL: s_kmul into a cleared buffer, then CLAMP */
  method MulMag(th: nat, x: seq<digit>, y: seq<digit>) returns (z: seq<digit>)
    requires th == 0 || th >= 4
    requires |x| >= 1 && |y| >= 1
    ensures Normal(z) && Num(z) == Num(x) * Num(y) && |z| <= |x| + |y|
  {
    var a := Buffer(x);
    var b := Buffer(y);
    var c := new digit[Reach(th, |x|, |y|)](i => 0);
    KMul(th, a, 0, b, 0, c, 0, |x|, |y|);
    NumPrefix(c[..], |x| + |y|);
    z := Clamp(c[..|x| + |y|]);
  }

  /** USQR: s_ksqr into a cleared buffer, then CLAMP */
  method SqrMag(th: nat, x: seq<digit>) returns (z: seq<digit>)
    requires th == 0 || th >= 4
    requires |x| >= 1
    ensures Normal(z) && Num(z) == Num(x) * Num(x) && |z| <= 2 * |x|
  {
    var a := Buffer(x);
    var c := new digit[SqrReach(th, |x|)](i => 0);
    KSqr(th, a, 0, c, 0, |x|);
    NumPrefix(c[..], 2 * |x|);
    z := Clamp(c[..2 * |x|]);
  }
}
