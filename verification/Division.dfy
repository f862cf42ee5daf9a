/**
 s_udiv: Knuth-style long division on normalized magnitudes.

 The quotient digits are pushed from the top down while the running remainder is
 reduced in place. The remainder is right for all inputs. The quotient is right
 exactly when the running remainder never grows to one digit more than b with
 the top digit of b on top: there the digit estimate falls back to 1 and several
 digits are pushed for one position.
 */
module Division {
  import opened Common
  import opened Digits
  import opened Kernels
  import opened Karatsuba
  import opened Magnitude
  import opened Integers
  import opened Shifts

  // ---------------------------------------------------------------- the digit estimate

  /** s_dbmul on buffers: the product with one digit, the carry on top if there is one */
  method DBMul(b: array<digit>, d: digit, c: array<digit>, n: nat)
    requires n <= b.Length && n < c.Length && b != c && c[n] == 0
    modifies c
    ensures Val(c[..], 0, n + 1) == d * Val(b[..], 0, n)
  {
    ghost var b0 := b[..];
    var w: digit := 0;
    var pos := 0;
    while pos < n
      invariant 0 <= pos <= n && b[..] == b0 && c[n] == 0
      invariant Val(c[..], 0, pos) + Shl(w, pos) == d * Val(b0, 0, pos)
    {
      MulStepFits(d, b[pos], w, 0);
      ShlZero(pos);
      MulStep(d, b0, 0, pos, w, 0);
      w := Emit(c, 0, pos, d * b[pos] + w);
      pos := pos + 1;
    }
    ghost var c1 := c[..];
    if w != 0 { c[n] := w; }
    ValFrame(c1, c[..], 0, n);
  }

  /** t := d * b, with leading zeros dropped */
  method MulDigit(b: seq<digit>, d: digit) returns (t: seq<digit>)
    requires |b| >= 1
    ensures Normal(t) && Num(t) == d * Num(b)
  {
    var bb := Buffer(b);
    var c := new digit[|b| + 1](i => 0);
    DBMul(bb, d, c, |b|);
    t := Clamp(c[..]);
  }

  /** The top digit of b */
  function Top(b: seq<digit>): digit
    requires |b| >= 1
  {
    b[|b| - 1]
  }

  /** b is normalized: its top digit has the high bit set */
  predicate Normalized(b: seq<digit>) {
    |b| >= 1 && b[|b| - 1] >= 0x8000_0000
  }

  /** A number lies between its top digit and the next one, at their place */
  lemma TopBounds(s: seq<digit>)
    requires |s| >= 1
    ensures Shl(Top(s), |s| - 1) <= Num(s) < Shl(Top(s) + 1, |s| - 1)
  {
    ValBound(s, 0, |s| - 1);
    ShlAdd(Top(s), 1, |s| - 1);
  }

  /** Two digits as one word */
  function Pair(hi: int, lo: int): int {
    0x1_0000_0000 * hi + lo
  }

  lemma TopTwoBounds(s: seq<digit>)
    requires |s| >= 2
    ensures Shl(Pair(s[|s| - 1], s[|s| - 2]), |s| - 2) <= Num(s) < Shl(Pair(s[|s| - 1], s[|s| - 2]) + 1, |s| - 2)
  {
    var n := |s| - 2;
    var hi: int, lo: int := s[n + 1], s[n];
    ValBound(s, 0, n);
    assert Val(s, 0, n + 1) == Val(s, 0, n) + Shl(lo, n);
    assert Val(s, 0, n + 2) == Val(s, 0, n + 1) + Shl(hi, n + 1);
    ShlIn(hi, n);
    ShlAdd(0x1_0000_0000 * hi, lo, n);
    ShlAdd(Pair(hi, lo), 1, n);
  }

  /** Dividing the top two digits by the top digit of b is never low */
  lemma NeverLow(r: int, b: int, x: int, top: int, n: nat, q: int)
    requires 1 <= top && Shl(top, n) <= b && r < Shl(x + 1, n) && 0 <= q && q * b <= r
    ensures q * top <= x
  {
    ShlMul(q, top, n);
    MulMono(Shl(top, n), b, q);
    if q * top >= x + 1 { ShlMono(x + 1, q * top, n); }
  }

  /** ... and at most two high, since top >= B / 2 */
  lemma AtMostTwoHigh(r: int, b: int, x: int, top: int, n: nat, q: int)
    requires 0x8000_0000 <= top && 2 <= q <= 0xFFFF_FFFF && q * top <= x
    requires 0 <= b < Shl(top + 1, n) && Shl(x, n) <= r
    ensures (q - 2) * b <= r
  {
    ShlMul(q - 2, top + 1, n);
    MulMono(b, Shl(top + 1, n), q - 2);
    assert (q - 2) * (top + 1) == q * top + q - 2 * top - 2;
    ShlMono((q - 2) * (top + 1), x, n);
  }

  /** The estimate at the head of the subtracting branch of s_udiv */
  method Estimate(r: seq<digit>, b: seq<digit>) returns (qdigit: digit)
    requires Normal(r) && Normalized(b)
    requires Num(b) <= Num(r) < 0x1_0000_0000 * Num(b)
    ensures qdigit >= 1
    ensures Num(r) >= Shl(Top(b), |b|) ==> qdigit == 1
    ensures Num(r) < Shl(Top(b), |b|) ==> Num(r) < (qdigit + 1) * Num(b)
    ensures qdigit >= 3 ==> (qdigit - 2) * Num(b) <= Num(r)
  {
    RemainderLength(r, b);
    var btop := Top(b);
    var pfx: word := r[|r| - 1];
    if |r| > 1 && (pfx < btop || r[|r| - 2] == 0) {
      pfx := Pair(pfx, r[|r| - 2]);
    }
    Quotients(pfx, btop);
    var qd: word := pfx / btop;
    if qd > 0xFFFF_FFFF { qd := 1; }
    qdigit := qd;
    if |r| == |b| {
      SameLength(r, b);
    } else {
      OneLonger(r, b, qd);
    }
  }

  /** A remainder as long as b: the digit is 1 */
  lemma SameLength(r: seq<digit>, b: seq<digit>)
    requires |r| == |b| && Normalized(b) && Num(b) <= Num(r)
    ensures Top(b) <= Top(r) < 2 * Top(b)
    ensures Num(r) < 2 * Num(b) && Num(r) < Shl(Top(b), |b|)
  {
    var n := |b| - 1;
    TopBounds(r);
    TopBounds(b);
    if Top(r) < Top(b) { ShlMono(Top(r) + 1, Top(b), n); }
    ShlMono(Top(r) + 1, 2 * Top(b), n);
    ShlAdd(Top(b), Top(b), n);
    ShlIn(Top(b), n);
    ShlMono(Top(r) + 1, 0x1_0000_0000 * Top(b), n);
  }

  /** A remainder one digit longer than b: the two-digit estimate, unless the tops are equal */
  lemma OneLonger(r: seq<digit>, b: seq<digit>, q: int)
    requires |r| == |b| + 1 && Normalized(b) && Num(r) < 0x1_0000_0000 * Num(b)
    ensures Top(r) <= Top(b)
    ensures Num(r) >= Shl(Top(b), |b|) <==> Top(r) == Top(b)
    ensures var x := Pair(Top(r), r[|r| - 2]);
      Top(r) < Top(b) && 0 <= q <= 0xFFFF_FFFF && q * Top(b) <= x < (q + 1) * Top(b) ==>
        Num(r) < (q + 1) * Num(b) && (q >= 3 ==> (q - 2) * Num(b) <= Num(r))
  {
    var n, x := |b| - 1, Pair(Top(r), r[|r| - 2]);
    TopBounds(r);
    TopBounds(b);
    ShlIn(Top(b) + 1, n);
    if Top(r) > Top(b) { ShlMono(Top(b) + 1, Top(r), n + 1); }
    if Top(r) < Top(b) { ShlMono(Top(r) + 1, Top(b), n + 1); }
    TopTwoBounds(r);
    if 0 <= q <= 0xFFFF_FFFF && q * Top(b) <= x < (q + 1) * Top(b) {
      if (q + 1) * Num(b) <= Num(r) { NeverLow(Num(r), Num(b), x, Top(b), n, q + 1); }
      NumBound(b);
      if q >= 3 { AtMostTwoHigh(Num(r), Num(b), x, Top(b), n, q); }
    }
  }

  /** A remainder below B * b has at most one digit more than b */
  lemma RemainderLength(r: seq<digit>, b: seq<digit>)
    requires Normal(r) && Normalized(b)
    requires Num(b) <= Num(r) < 0x1_0000_0000 * Num(b)
    ensures |b| <= |r| <= |b| + 1
  {
    if |r| < |b| { LongerIsLarger(b, r); }
    if |r| > |b| + 1 {
      NormalIff(r);
      NumBound(b);
      ShlGrow(|b| + 1, |r| - 1);
    }
  }

  lemma Quotients(pfx: int, btop: int)
    requires pfx >= 0 && btop >= 1
    ensures 0 <= pfx / btop <= pfx
    ensures pfx >= 0x1_0000_0000 * btop ==> pfx / btop > 0xFFFF_FFFF
    ensures pfx < 0x1_0000_0000 * btop ==> pfx / btop <= 0xFFFF_FFFF
    ensures btop <= pfx < 2 * btop ==> pfx / btop == 1
    ensures pfx / btop * btop <= pfx < (pfx / btop + 1) * btop
  {
    QuotientRange(pfx, btop, pfx / btop, pfx % btop);
  }

  lemma QuotientRange(pfx: int, btop: int, q: int, e: int)
    requires pfx >= 0 && btop >= 1 && pfx == btop * q + e && 0 <= e < btop
    ensures 0 <= q <= pfx
    ensures pfx >= 0x1_0000_0000 * btop ==> q > 0xFFFF_FFFF
    ensures pfx < 0x1_0000_0000 * btop ==> q <= 0xFFFF_FFFF
    ensures btop <= pfx < 2 * btop ==> q == 1
    ensures q * btop <= pfx < (q + 1) * btop
  {
    assert (q + 1) * btop == btop * q + btop;
    if q < 0 { MulMono(q + 1, 0, btop); }
    if q > pfx { MulMono(1, btop, q); }
    if pfx >= 0x1_0000_0000 * btop && q <= 0xFFFF_FFFF { MulMono(q + 1, 0x1_0000_0000, btop); }
    if pfx < 0x1_0000_0000 * btop && q > 0xFFFF_FFFF { MulMono(0x1_0000_0000, q, btop); }
    if btop <= pfx < 2 * btop {
      if q >= 2 { MulMono(2, q, btop); }
      if q <= 0 { MulMono(q + 1, 1, btop); }
    }
  }

  /** t := qdigit * b, then lower both until t fits under r; with the estimate at most two high, at most twice */
  method Correct(r: seq<digit>, b: seq<digit>, qhat: digit) returns (qdigit: digit, t: seq<digit>)
    requires Normal(r) && Normal(b) && Num(b) <= Num(r) && qhat >= 1
    requires qhat >= 3 ==> (qhat - 2) * Num(b) <= Num(r)
    ensures 1 <= qdigit <= qhat <= qdigit + 2
    ensures Normal(t) && Num(t) == qdigit * Num(b) <= Num(r)
    ensures qdigit < qhat ==> Num(r) < (qdigit + 1) * Num(b)
  {
    qdigit := qhat;
    t := MulDigit(b, qdigit);
    var c := UCmp(t, r);
    while c > 0
      invariant 1 <= qdigit <= qhat <= qdigit + 2
      invariant Normal(t) && Num(t) == qdigit * Num(b)
      invariant c == if Num(t) > Num(r) then 1 else if Num(t) < Num(r) then -1 else 0
      invariant qdigit < qhat ==> Num(r) < (qdigit + 1) * Num(b)
      decreases qdigit
    {
      NotYetTwo(qhat, qdigit, Num(b), Num(r));
      qdigit := qdigit - 1;
      t := SubMag(t, b);
      c := UCmp(t, r);
    }
  }

  lemma NotYetTwo(qhat: int, q: int, b: int, r: int)
    requires 1 <= q <= qhat <= q + 2 && 0 <= b <= r < q * b
    requires qhat >= 3 ==> (qhat - 2) * b <= r
    ensures 2 <= q && qhat <= q + 1
    ensures (q - 1) * b == q * b - b >= 0
  {
    MulMono(1, q, b);
  }

  /** One quotient digit for the remainder r */
  method QuotientDigit(r: seq<digit>, b: seq<digit>) returns (qdigit: digit, t: seq<digit>)
    requires Normal(r) && Normalized(b)
    requires Num(b) <= Num(r) < 0x1_0000_0000 * Num(b)
    ensures qdigit >= 1 && Normal(t) && Num(t) == qdigit * Num(b) <= Num(r)
    ensures if Num(r) >= Shl(Top(b), |b|) then qdigit == 1 else Num(r) - qdigit * Num(b) < Num(b)
  {
    var qhat := Estimate(r, b);
    qdigit, t := Correct(r, b, qhat);
    assert (qdigit + 1) * Num(b) == qdigit * Num(b) + Num(b);
  }

  // ---------------------------------------------------------------- the running remainder

  /** The remainder of the digits of a from p up, digit by digit */
  function Running(a: seq<digit>, bv: int, p: nat): int
    requires bv > 0
    decreases |a| - p
  {
    if p >= |a| then 0 else Extended(a, bv, p) % bv
  }

  /** The running remainder with digit p taken down, before anything is subtracted */
  function Extended(a: seq<digit>, bv: int, p: nat): int
    requires bv > 0 && p < |a|
    decreases |a| - p, 0
  {
    Pair(Running(a, bv, p + 1), a[p])
  }

  /** Digit p stalls: with it the remainder is one digit longer than b and has the top digit of b */
  predicate Stalls(a: seq<digit>, b: seq<digit>, p: nat)
    requires |b| >= 1 && Num(b) > 0 && p < |a|
  {
    Extended(a, Num(b), p) >= Shl(Top(b), |b|)
  }

  /** Some digit at or above p stalls */
  predicate StallsFrom(a: seq<digit>, b: seq<digit>, p: nat)
    requires |b| >= 1 && Num(b) > 0
    decreases |a| - p
  {
    p < |a| && (Stalls(a, b, p) || StallsFrom(a, b, p + 1))
  }

  lemma {:induction false} StallsFromIff(a: seq<digit>, b: seq<digit>, p: nat)
    requires |b| >= 1 && Num(b) > 0
    ensures StallsFrom(a, b, p) <==> exists i :: p <= i < |a| && Stalls(a, b, i)
    decreases |a| - p
  {
    if p < |a| { StallsFromIff(a, b, p + 1); }
  }

  lemma {:induction false} RunningIsMod(a: seq<digit>, bv: int, p: nat)
    requires bv > 0 && p <= |a|
    ensures Running(a, bv, p) == Val(a, p, |a| - p) % bv
    decreases |a| - p
  {
    if p < |a| {
      RunningIsMod(a, bv, p + 1);
      ValHead(a, p, |a| - p);
      PairMod(Val(a, p + 1, |a| - p - 1), a[p], bv);
    }
  }

  lemma PairMod(hi: int, lo: int, m: int)
    requires m > 0
    ensures Pair(hi % m, lo) % m == Pair(hi, lo) % m
  {
    var q, r := hi / m, hi % m;
    assert hi == m * q + r;
    var x := Pair(r, lo);
    var q', r' := x / m, x % m;
    assert x == m * q' + r';
    assert (0x1_0000_0000 * q + q') * m == 0x1_0000_0000 * (m * q) + m * q';
    DivModUnique(Pair(hi, lo), m, 0x1_0000_0000 * q + q', r');
  }

  /** The number spelled by the pushed digits, the most significant one first */
  function Pushed(q: seq<digit>): int {
    if q == [] then 0 else Pair(Pushed(q[..|q| - 1]), q[|q| - 1])
  }

  lemma PushedAppend(q: seq<digit>, d: digit)
    ensures Pushed(q + [d]) == Pair(Pushed(q), d)
  {
    assert (q + [d])[..|q|] == q;
  }

  lemma {:induction false} PushedNat(q: seq<digit>)
    ensures Pushed(q) >= 0
  {
    if q != [] { PushedNat(q[..|q| - 1]); }
  }

  /** The pushed digits against the true quotient g: equal until a digit stalls, larger from then on */
  ghost predicate Tracks(stalled: bool, pushed: int, g: int) {
    if stalled then pushed > g else pushed == g
  }

  /**
   Between two turns of the loop: the digits of a from ro up are g * b + r. While
   `pending`, nothing has been pushed for digit ro yet. After the last turn ro is -1.
   */
  ghost predicate Progress(a: seq<digit>, b: seq<digit>, ro: int, r: int, q: seq<digit>, skip: nat, g: int, pending: bool)
    requires |b| >= 1 && Num(b) > 0 && -1 <= ro < |a|
  {
    var bv, lo := Num(b), if ro < 0 then 0 else ro;
    && 0 <= r < 0x1_0000_0000 * bv && g >= 0 && Val(a, lo, |a| - lo) == g * bv + r
    && (ro < 0 ==> r < bv && Tracks(StallsFrom(a, b, 0), Pushed(q), g))
    && (ro >= 0 && pending ==>
          r == Extended(a, bv, ro) && (skip == 0 ==> q == []) && Tracks(StallsFrom(a, b, ro + 1), Pair(Pushed(q), 0), g))
    && (ro >= 0 && !pending ==>
          skip == 0 && if r < bv then Tracks(StallsFrom(a, b, ro), Pushed(q), g)
                       else Stalls(a, b, ro) && Pushed(q) >= g && Pushed(q) >= 1)
  }

  lemma Start(a: seq<digit>, b: seq<digit>)
    requires |a| >= 1 && |b| >= 1 && Num(b) > 0
    ensures Progress(a, b, |a| - 1, a[|a| - 1], [], 0, 0, true)
  {
    ValHead(a, |a| - 1, 1);
  }

  /** A remainder below b does not stall, and is the running remainder */
  lemma Below(a: seq<digit>, b: seq<digit>, ro: nat, r: int, g: int)
    requires |b| >= 1 && Normalized(b) && Num(b) > 0 && ro < |a|
    requires 0 <= r < Num(b) && Val(a, ro, |a| - ro) == g * Num(b) + r
    ensures r == Running(a, Num(b), ro)
    ensures r == Extended(a, Num(b), ro) ==> !Stalls(a, b, ro)
  {
    RunningIsMod(a, Num(b), ro);
    DivModUnique(Val(a, ro, |a| - ro), Num(b), g, r);
    NumBound(b);
    ShlMono(1, Top(b), |b|);
  }

  /** What is pushed when the next digit is taken down */
  function OnTakeDown(q: seq<digit>, skip: nat): seq<digit> {
    if skip + 1 > 1 then q + [0] else q
  }

  /** Once the remainder is below b, a digit stands pushed for every position down to ro */
  lemma Settled(a: seq<digit>, b: seq<digit>, ro: nat, r: int, q: seq<digit>, skip: nat, g: int, pending: bool)
    requires Normalized(b) && Num(b) > 0 && ro < |a| && r < Num(b)
    requires Progress(a, b, ro, r, q, skip, g, pending)
    ensures 0 <= r == Running(a, Num(b), ro) && g >= 0 && Val(a, ro, |a| - ro) == g * Num(b) + r
    ensures Tracks(StallsFrom(a, b, ro), Pushed(OnTakeDown(q, skip)), g)
  {
    Below(a, b, ro, r, g);
    PushedAppend(q, 0);
  }

  lemma TakeDown(a: seq<digit>, b: seq<digit>, ro: nat, r: int, q: seq<digit>, skip: nat, g: int, pending: bool)
    requires Normalized(b) && Num(b) > 0 && 1 <= ro < |a| && r < Num(b)
    requires Progress(a, b, ro, r, q, skip, g, pending)
    ensures Progress(a, b, ro - 1, Pair(r, a[ro - 1]), OnTakeDown(q, skip), skip + 1, 0x1_0000_0000 * g, true)
  {
    Settled(a, b, ro, r, q, skip, g, pending);
    NextPosition(a, b, ro, r, OnTakeDown(q, skip), skip, g);
  }

  lemma NextPosition(a: seq<digit>, b: seq<digit>, ro: nat, r: int, q: seq<digit>, skip: nat, g: int)
    requires Normalized(b) && Num(b) > 0 && 1 <= ro < |a| && 0 <= r < Num(b) && g >= 0
    requires r == Running(a, Num(b), ro) && Val(a, ro, |a| - ro) == g * Num(b) + r
    requires Tracks(StallsFrom(a, b, ro), Pushed(q), g)
    ensures Progress(a, b, ro - 1, Pair(r, a[ro - 1]), q, skip + 1, 0x1_0000_0000 * g, true)
  {
    ValHead(a, ro - 1, |a| - ro + 1);
    ScaleQuotient(g, Num(b));
  }

  lemma ScaleQuotient(g: int, bv: int)
    ensures (0x1_0000_0000 * g) * bv == 0x1_0000_0000 * (g * bv)
  {}

  lemma TakeDownLast(a: seq<digit>, b: seq<digit>, r: int, q: seq<digit>, skip: nat, g: int, pending: bool)
    requires Normalized(b) && Num(b) > 0 && |a| >= 1 && r < Num(b)
    requires Progress(a, b, 0, r, q, skip, g, pending)
    ensures Progress(a, b, -1, r, OnTakeDown(q, skip), skip + 1, g, true)
  {
    Settled(a, b, 0, r, q, skip, g, pending);
  }

  lemma Subtract(a: seq<digit>, b: seq<digit>, ro: nat, r: int, q: seq<digit>, skip: nat, g: int, pending: bool, d: digit)
    requires Normalized(b) && Num(b) > 0 && ro < |a| && Num(b) <= r
    requires Progress(a, b, ro, r, q, skip, g, pending)
    requires d >= 1 && d * Num(b) <= r
    requires if r >= Shl(Top(b), |b|) then d == 1 else r - d * Num(b) < Num(b)
    ensures Progress(a, b, ro, r - d * Num(b), q + [d], 0, g + d, false)
  {
    var r' := r - d * Num(b);
    SubtractParts(g, d, Num(b));
    PushedAppend(q, d);
    PushedNat(q);
    if pending {
      SubtractFirst(a, b, ro, r, r', q, skip, g, d);
    } else {
      SubtractAgain(a, b, ro, r, r', q, g, d);
    }
  }

  lemma SubtractParts(g: int, d: int, bv: int)
    requires d >= 1 && bv > 0
    ensures (g + d) * bv == g * bv + d * bv && d * bv >= bv
  {
    MulMono(1, d, bv);
  }

  /** The first digit pushed for a position: the right one, or 1 if the position stalls */
  lemma SubtractFirst(a: seq<digit>, b: seq<digit>, ro: nat, r: int, r': int, q: seq<digit>, skip: nat, g: int, d: digit)
    requires Normalized(b) && Num(b) > 0 && ro < |a| && Num(b) <= r && 0 <= r' < r
    requires Progress(a, b, ro, r, q, skip, g, true) && Pushed(q) >= 0
    requires Val(a, ro, |a| - ro) == (g + d) * Num(b) + r' && d >= 1 && Pushed(q + [d]) == Pair(Pushed(q), d)
    requires if r >= Shl(Top(b), |b|) then r' == r - Num(b) else r' < Num(b)
    ensures Progress(a, b, ro, r', q + [d], 0, g + d, false)
  {
    if r >= Shl(Top(b), |b|) { StillAbove(b, r); }
  }

  /** Any further digit for the same position makes the pushed number too large */
  lemma SubtractAgain(a: seq<digit>, b: seq<digit>, ro: nat, r: int, r': int, q: seq<digit>, g: int, d: digit)
    requires Normalized(b) && Num(b) > 0 && ro < |a| && Num(b) <= r && 0 <= r' < r
    requires Progress(a, b, ro, r, q, 0, g, false)
    requires Val(a, ro, |a| - ro) == (g + d) * Num(b) + r' && d >= 1 && Pushed(q + [d]) == Pair(Pushed(q), d)
    ensures Progress(a, b, ro, r', q + [d], 0, g + d, false)
  {}

  /** A stalled remainder is still at least b after b is subtracted once */
  lemma StillAbove(b: seq<digit>, r: int)
    requires Normalized(b) && r >= Shl(Top(b), |b|)
    ensures r - Num(b) >= Num(b)
  {
    TopBounds(b);
    ShlIn(Top(b), |b| - 1);
    ShlAdd(Top(b) + 1, Top(b) + 1, |b| - 1);
    ShlMono(2 * (Top(b) + 1), 0x1_0000_0000 * Top(b), |b| - 1);
  }

  // ---------------------------------------------------------------- the division loop

  /** The remainder occupies the rn digits at ro; above it d is clear, below it d still holds a */
  ghost predicate Window(d: seq<digit>, a: seq<digit>, ro: nat, rn: nat) {
    && |d| == |a| && 1 <= rn && ro + rn <= |d|
    && (rn == 1 || d[ro + rn - 1] != 0)
    && ZeroOn(d, ro + rn, |d|) && SameOn(d, a, 0, ro)
  }

  /** CLAMP of the remainder window */
  method ClampWindow(d: array<digit>, ro: nat, n: nat) returns (rn: nat)
    requires 1 <= n && ro + n <= d.Length && ZeroOn(d[..], ro + n, d.Length)
    ensures 1 <= rn <= n && (rn == 1 || d[ro + rn - 1] != 0) && ZeroOn(d[..], ro + rn, d.Length)
  {
    rn := n;
    while rn > 1 && d[ro + rn - 1] == 0
      invariant 1 <= rn <= n && ZeroOn(d[..], ro + rn, d.Length)
    {
      rn := rn - 1;
    }
  }

  /** The remainder as a number of its own */
  lemma WindowValue(d: seq<digit>, a: seq<digit>, ro: nat, rn: nat)
    requires Window(d, a, ro, rn)
    ensures Normal(d[ro..ro + rn]) && Num(d[ro..ro + rn]) == Val(d, ro, |d| - ro)
  {
    ValMove(d, ro, d[ro..ro + rn], 0, rn);
    ValPad(d, ro, rn, |d| - ro);
  }

  /** r := r - t in place */
  method SubtractInPlace(d: array<digit>, ro: nat, rn: nat, t: seq<digit>, ghost a: seq<digit>) returns (rn': nat)
    requires Window(d[..], a, ro, rn) && Normal(t) && Num(t) <= Val(d[..], ro, d.Length - ro)
    modifies d
    ensures Window(d[..], a, ro, rn')
    ensures Val(d[..], ro, d.Length - ro) == old(Val(d[..], ro, d.Length - ro)) - Num(t)
  {
    WindowValue(d[..], a, ro, rn);
    if |t| > rn { LongerIsLarger(t, d[ro..ro + rn]); }
    ValPad(d[..], ro, rn, d.Length - ro);
    var tb := Buffer(t);
    USub(d, ro, tb, 0, d, ro, rn, |t|);
    ValPad(d[..], ro, rn, d.Length - ro);
    rn' := ClampWindow(d, ro, rn);
  }

  /** What holds before and after every turn of the loop */
  ghost predicate LoopState(d: seq<digit>, a: seq<digit>, b: seq<digit>, ro: int, rn: nat, q: seq<digit>, skip: nat,
                            g: int, pending: bool)
  {
    && Normalized(b) && Num(b) > 0 && -1 <= ro < |d| == |a|
    && (ro >= 0 ==> Window(d, a, ro, rn))
    && Progress(a, b, ro, RemainderAt(d, ro), q, skip, g, pending)
  }

  ghost function RemainderAt(d: seq<digit>, ro: int): int
    requires -1 <= ro <= |d|
  {
    var lo := if ro < 0 then 0 else ro;
    Val(d, lo, |d| - lo)
  }

  /** The remainder window grows by the digit below it */
  method WidenWindow(d: array<digit>, ro: nat, rn: nat, ghost a: seq<digit>) returns (rn': nat)
    requires ro >= 1 && Window(d[..], a, ro, rn)
    ensures Window(d[..], a, ro - 1, rn')
    ensures RemainderAt(d[..], ro - 1) == Pair(RemainderAt(d[..], ro), a[ro - 1])
  {
    ValHead(d[..], ro - 1, d.Length - ro + 1);
    rn' := ClampWindow(d, ro - 1, rn + 1);
  }

  /** The branch that takes the next digit down into a remainder below b */
  method TurnDown(d: array<digit>, b: seq<digit>, ro: nat, rn: nat, q: seq<digit>, skip: nat,
                  ghost a: seq<digit>, ghost g: int, ghost pending: bool)
    returns (ro': int, rn': nat, q': seq<digit>, skip': nat, ghost g': int)
    requires LoopState(d[..], a, b, ro, rn, q, skip, g, pending) && RemainderAt(d[..], ro) < Num(b)
    ensures ro' == ro - 1 && LoopState(d[..], a, b, ro', rn', q', skip', g', true)
    ensures q' == OnTakeDown(q, skip)
  {
    ro', q', skip' := ro - 1, OnTakeDown(q, skip), skip + 1;
    if ro' >= 0 {
      rn', g' := TurnNext(d, b, ro, rn, q, skip, a, g, pending);
    } else {
      TurnLast(d[..], a, b, rn, q, skip, g, pending);
      rn', g' := rn, g;
    }
  }

  /** The next digit of the dividend is taken into the remainder */
  method TurnNext(d: array<digit>, b: seq<digit>, ro: nat, rn: nat, q: seq<digit>, skip: nat,
                  ghost a: seq<digit>, ghost g: int, ghost pending: bool)
    returns (rn': nat, ghost g': int)
    requires ro > 0 && LoopState(d[..], a, b, ro, rn, q, skip, g, pending) && RemainderAt(d[..], ro) < Num(b)
    ensures LoopState(d[..], a, b, ro - 1, rn', OnTakeDown(q, skip), skip + 1, g', true)
  {
    TakeDown(a, b, ro, RemainderAt(d[..], ro), q, skip, g, pending);
    rn' := WidenWindow(d, ro, rn, a);
    g' := 0x1_0000_0000 * g;
  }

  /** No digit of the dividend is left to take down */
  lemma TurnLast(d: seq<digit>, a: seq<digit>, b: seq<digit>, rn: nat, q: seq<digit>, skip: nat, g: int, pending: bool)
    requires LoopState(d, a, b, 0, rn, q, skip, g, pending) && RemainderAt(d, 0) < Num(b)
    ensures LoopState(d, a, b, -1, rn, OnTakeDown(q, skip), skip + 1, g, true)
  {
    TakeDownLast(a, b, RemainderAt(d, 0), q, skip, g, pending);
  }

  /** The branch that subtracts a multiple of b and pushes its digit */
  method TurnSubtract(d: array<digit>, b: seq<digit>, ro: nat, rn: nat, q: seq<digit>, skip: nat,
                      ghost a: seq<digit>, ghost g: int, ghost pending: bool)
    returns (rn': nat, q': seq<digit>, ghost g': int)
    requires LoopState(d[..], a, b, ro, rn, q, skip, g, pending) && RemainderAt(d[..], ro) >= Num(b)
    modifies d
    ensures LoopState(d[..], a, b, ro, rn', q', 0, g', false)
    ensures 0 <= RemainderAt(d[..], ro) < old(RemainderAt(d[..], ro)) && |q'| == |q| + 1
  {
    ghost var r := RemainderAt(d[..], ro);
    WindowValue(d[..], a, ro, rn);
    var qdigit, t := QuotientDigit(d[ro..ro + rn], b);
    SubtractParts(g, qdigit, Num(b));
    Subtract(a, b, ro, r, q, skip, g, pending, qdigit);
    rn' := SubtractInPlace(d, ro, rn, t, a);
    q', g' := q + [qdigit], g + qdigit;
  }

  /** As long as no digit stalls, at most one of the n digits was pushed for each position done */
  ghost predicate OneEach(a: seq<digit>, b: seq<digit>, ro: int, n: nat, pending: bool)
    requires |b| >= 1 && Num(b) > 0 && -1 <= ro < |a|
  {
    && (pending || ro >= 0)
    && (!StallsFrom(a, b, if pending then ro + 1 else ro) ==> n + (if pending then 1 else 0) <= |a| - ro)
  }

  /** Either branch of the loop keeps that */
  lemma OneEachNext(d: seq<digit>, a: seq<digit>, b: seq<digit>, ro: nat, rn: nat, q: seq<digit>, skip: nat, g: int, pending: bool)
    requires LoopState(d, a, b, ro, rn, q, skip, g, pending) && OneEach(a, b, ro, |q|, pending)
    ensures RemainderAt(d, ro) < Num(b) ==> OneEach(a, b, ro - 1, |OnTakeDown(q, skip)|, true)
    ensures RemainderAt(d, ro) >= Num(b) ==> OneEach(a, b, ro, |q| + 1, false)
  {
    assert StallsFrom(a, b, ro) <==> Stalls(a, b, ro) || StallsFrom(a, b, ro + 1);
  }

  /** One turn of the loop */
  method Turn(d: array<digit>, b: seq<digit>, ro: nat, rn: nat, q: seq<digit>, skip: nat,
              ghost a: seq<digit>, ghost g: int, ghost pending: bool)
    returns (ro': int, rn': nat, q': seq<digit>, skip': nat, ghost g': int, ghost pending': bool)
    requires LoopState(d[..], a, b, ro, rn, q, skip, g, pending) && OneEach(a, b, ro, |q|, pending)
    modifies d
    ensures LoopState(d[..], a, b, ro', rn', q', skip', g', pending') && OneEach(a, b, ro', |q'|, pending')
    ensures ro' == ro - 1 || (ro' == ro && 0 <= RemainderAt(d[..], ro) < old(RemainderAt(d[..], ro)))
  {
    WindowValue(d[..], a, ro, rn);
    var c := UCmp(b, d[ro..ro + rn]);
    OneEachNext(d[..], a, b, ro, rn, q, skip, g, pending);
    if c > 0 {
      ro', rn', q', skip', g' := TurnDown(d, b, ro, rn, q, skip, a, g, pending);
      pending' := true;
    } else {
      rn', q', g' := TurnSubtract(d, b, ro, rn, q, skip, a, g, pending);
      ro', skip', pending' := ro, 0, false;
    }
  }

  /** The loop of s_udiv: d becomes the remainder, q the digits pushed */
  method DivideLoop(d: array<digit>, b: seq<digit>) returns (q: seq<digit>)
    requires d.Length >= 1 && Normalized(b) && Num(b) > 0
    modifies d
    ensures Num(d[..]) == old(Num(d[..])) % Num(b)
    ensures Tracks(StallsFrom(old(d[..]), b, 0), Pushed(q), old(Num(d[..])) / Num(b))
    ensures !StallsFrom(old(d[..]), b, 0) ==> |q| <= d.Length
  {
    ghost var a := d[..];
    var ro: int := d.Length - 1;
    var rn: nat, skip: nat := 1, 0;
    ghost var g, pending := 0, true;
    q := [];
    Start(a, b);
    ValHead(a, ro, 1);
    while ro >= 0
      invariant LoopState(d[..], a, b, ro, rn, q, skip, g, pending) && OneEach(a, b, ro, |q|, pending)
      decreases ro, RemainderAt(d[..], ro)
    {
      ro, rn, q, skip, g, pending := Turn(d, b, ro, rn, q, skip, a, g, pending);
    }
    DivModUnique(Num(a), Num(b), g, Num(d[..]));
  }

  // ---------------------------------------------------------------- normalization and the whole division

  /** s_norm: shift a and b left until the top bit of b is set */
  method Norm(a: MpInt, b: MpInt) returns (k: nat)
    requires a.Valid() && b.Valid() && a != b && b.Mag() > 0
    modifies a, b
    ensures a.Valid() && b.Valid() && a.neg == old(a.neg) && b.neg == old(b.neg)
    ensures k < 32 && Normalized(b.digits)
    ensures a.Mag() == Lsh(old(a.Mag()), k) && b.Mag() == Lsh(old(b.Mag()), k)
  {
    var top := b.digits[|b.digits| - 1];
    ghost var n := |b.digits|;
    ZeroIff(b.digits);
    var d: int := top;
    k := 0;
    while d < 0x8000_0000
      invariant 1 <= d < 0x1_0000_0000 && d == Lsh(top, k)
      decreases 0x8000_0000 - d
    {
      d := 2 * d;
      k := k + 1;
    }
    ShiftCount(top, k);
    TopAfterShift(b.digits, k);
    if k != 0 {
      QMul(a, k);
      QMul(b, k);
    }
    TopBitSet(b.digits, n);
  }

  /** Shifting a number whose top digit stays below the radix */
  lemma TopAfterShift(s: seq<digit>, k: nat)
    requires |s| >= 1 && k < 32 && 0x8000_0000 <= Lsh(Top(s), k) < 0x1_0000_0000
    ensures Shl(0x8000_0000, |s| - 1) <= Lsh(Num(s), k) < Shl(1, |s|)
  {
    var n: nat, t: int := |s| - 1, Top(s);
    TopBounds(s);
    LshMono(Shl(t, n), Num(s), k);
    LshShl(t, k, n);
    ShlMono(0x8000_0000, Lsh(t, k), n);
    LshMono(Num(s) + 1, Shl(t + 1, n), k);
    LshAdd(Num(s), 1, k);
    LshPos(k);
    LshShl(t + 1, k, n);
    NextMultiple(t, k);
    ShlMono(Lsh(t + 1, k), 0x1_0000_0000, n);
    ShlIn(1, n);
  }

  /** A multiple of 2^k below 2^32 leaves room for one more */
  lemma NextMultiple(t: int, k: nat)
    requires 0 <= Lsh(t, k) < 0x1_0000_0000
    requires k <= 32
    ensures Lsh(t + 1, k) <= 0x1_0000_0000
  {
    LshLsh(1, 32 - k, k);
    Lsh32(1);
    if t + 1 > Lsh(1, 32 - k) { LshMono(Lsh(1, 32 - k), t, k); }
    LshMono(t + 1, Lsh(1, 32 - k), k);
  }

  lemma TopBitSet(s: seq<digit>, n: nat)
    requires Normal(s) && n >= 1 && Shl(0x8000_0000, n - 1) <= Num(s) < Shl(1, n)
    ensures |s| == n && s[n - 1] >= 0x8000_0000
  {
    NumBound(s);
    NormalIff(s);
    ShlMono(1, 0x8000_0000, n - 1);
    if |s| < n { ShlGrow(|s|, n - 1); }
    ShlZero(|s| - 1);
    if |s| > n { ShlGrow(n, |s| - 1); }
    TopBounds(s);
    if Top(s) < 0x8000_0000 { ShlMono(Top(s) + 1, 0x8000_0000, n - 1); }
  }

  /** REV: the pushed digits in order */
  lemma {:induction false} RevPushed(q: seq<digit>)
    ensures Num(Rev(q)) == Pushed(q)
  {
    if q != [] {
      var d, t := q[|q| - 1], Rev(q[..|q| - 1]);
      RevPushed(q[..|q| - 1]);
      ValHead([d] + t, 0, |t| + 1);
      assert ([d] + t)[1..] == t;
      ValMove([d] + t, 1, t, 0, |t|);
    }
  }

  /** Dividing a * 2^k by b * 2^k */
  lemma ShiftedDivision(a: int, b: int, k: nat)
    requires b > 0
    ensures Lsh(b, k) > 0
    ensures Lsh(a, k) / Lsh(b, k) == a / b && Lsh(a, k) % Lsh(b, k) == Lsh(a % b, k)
  {
    var q, r := a / b, a % b;
    assert a == b * q + r;
    LshAdd(q * b, r, k);
    LshMul(q, b, k);
    LshZero(k);
    LshMono(0, r, k);
    LshMono(r + 1, b, k);
    LshAdd(r, 1, k);
    LshPos(k);
    DivModUnique(Lsh(a, k), Lsh(b, k), q, Lsh(r, k));
  }

  /** x and y are the digits of a and b, normalized: what the loop of s_udiv works on */
  ghost predicate NormalizedPair(a: int, b: int, x: seq<digit>, y: seq<digit>) {
    Normal(x) && Normalized(y) && Num(y) > 0 && exists k: nat :: ShiftedBy(a, b, x, y, k)
  }

  ghost predicate ShiftedBy(a: int, b: int, x: seq<digit>, y: seq<digit>, k: nat) {
    k < 32 && Num(x) == Lsh(a, k) && Num(y) == Lsh(b, k)
  }

  /** Some digit stalls in the division of a by b */
  ghost predicate DivisionStalls(a: int, b: int) {
    exists x: seq<digit>, y: seq<digit> :: NormalizedPair(a, b, x, y) && StallsFrom(x, y, 0)
  }

  lemma NormalUnique(x: seq<digit>, y: seq<digit>)
    requires Normal(x) && Normal(y) && Num(x) == Num(y)
    ensures x == y
  {
    if |x| > |y| { LongerIsLarger(x, y); }
    if |y| > |x| { LongerIsLarger(y, x); }
    ValUnique(x, y, 0, |x|);
  }

  /** Only one shift below 32 normalizes */
  lemma ShiftUnique(y: seq<digit>, y': seq<digit>, j: nat)
    requires Normalized(y) && Normalized(y') && j < 32 && Num(y') == Lsh(Num(y), j)
    ensures j == 0
  {
    if j != 0 {
      ShiftedRange(y, j);
      TooSmallTop(y', |y|, Lsh(1, j));
    }
  }

  /** A normalized number shifted by 1 to 31 bits has one digit more, without its top bit */
  lemma ShiftedRange(y: seq<digit>, j: nat)
    requires Normalized(y) && 1 <= j < 32
    ensures Shl(1, |y|) <= Lsh(Num(y), j) < Shl(Lsh(1, j), |y|) && Lsh(1, j) <= 0x8000_0000
  {
    ShiftedLow(y, j);
    NumBound(y);
    LshMono(Num(y) + 1, Shl(1, |y|), j);
    LshAdd(Num(y), 1, j);
    LshPos(j);
    LshShl(1, j, |y|);
    TopBits(0, j + 1);
  }

  lemma ShiftedLow(y: seq<digit>, j: nat)
    requires Normalized(y) && j >= 1
    ensures Shl(1, |y|) <= Lsh(Num(y), j)
  {
    var n := |y|;
    TopBounds(y);
    ShlMono(0x8000_0000, Top(y), n - 1);
    ShlAdd(0x8000_0000, 0x8000_0000, n - 1);
    ShlIn(1, n - 1);
    NumBound(y);
    LshIn(Num(y), j - 1);
    LshGrows(2 * Num(y), j - 1);
  }

  lemma TooSmallTop(s: seq<digit>, n: nat, g: int)
    requires |s| >= 1 && Shl(1, n) <= Num(s) < Shl(g, n) && g <= 0x8000_0000
    ensures s[|s| - 1] < 0x8000_0000
  {
    NumBound(s);
    if |s| <= n { ShlGrow(|s|, n); }
    TopBounds(s);
    if Top(s) >= 0x8000_0000 {
      ShlMono(0x8000_0000, Top(s), |s| - 1);
      ShlMono(g, 0x8000_0000, n);
      ShlGrowBy(0x8000_0000, n, |s| - 1);
    }
  }

  lemma PairUnique(a: int, b: int, x: seq<digit>, y: seq<digit>, x': seq<digit>, y': seq<digit>)
    requires NormalizedPair(a, b, x, y) && NormalizedPair(a, b, x', y')
    ensures x == x' && y == y'
  {
    var k: nat :| ShiftedBy(a, b, x, y, k);
    var k': nat :| ShiftedBy(a, b, x', y', k');
    if k <= k' {
      LshLsh(b, k, k' - k);
      ShiftUnique(y, y', k' - k);
    } else {
      LshLsh(b, k', k - k');
      ShiftUnique(y', y, k - k');
    }
    NormalUnique(x, x');
    NormalUnique(y, y');
  }

  /** Which divisions stall, digit by digit of the normalized operands */
  lemma StallsIff(a: int, b: int, x: seq<digit>, y: seq<digit>)
    requires NormalizedPair(a, b, x, y)
    ensures DivisionStalls(a, b) <==>
      exists p :: 0 <= p < |x| && Pair(Val(x, p + 1, |x| - p - 1) % Num(y), x[p]) >= Shl(Top(y), |y|)
  {
    StallsFromIff(x, y, 0);
    forall p | 0 <= p < |x|
      ensures Stalls(x, y, p) <==> Pair(Val(x, p + 1, |x| - p - 1) % Num(y), x[p]) >= Shl(Top(y), |y|)
    {
      RunningIsMod(x, Num(y), p + 1);
    }
    if DivisionStalls(a, b) {
      var x', y' :| NormalizedPair(a, b, x', y') && StallsFrom(x', y', 0);
      PairUnique(a, b, x, y, x', y');
    }
  }

  /**
   s_udiv for |a| >= |b| > 0: a becomes the quotient and b the remainder. The
   quotient is right if and only if no digit of the normalized dividend stalls;
   otherwise it is too large.
   */
  method UDiv(a: MpInt, b: MpInt)
    requires a.Valid() && b.Valid() && a != b && 0 < b.Mag() <= a.Mag()
    modifies a, b
    ensures a.Valid() && b.Valid() && !a.neg && !b.neg
    ensures b.Mag() == old(a.Mag() % b.Mag())
    ensures Tracks(DivisionStalls(old(a.Mag()), old(b.Mag())), a.Mag(), old(a.Mag() / b.Mag()))
  {
    ghost var av, bv := a.Mag(), b.Mag();
    a.neg, b.neg := false, false;
    var k := Norm(a, b);
    ghost var x, y := a.digits, b.digits;
    ShiftedDivision(av, bv, k);
    assert ShiftedBy(av, bv, x, y, k);
    StallsHere(av, bv, x, y);
    var d := Buffer(a.digits);
    var q := DivideLoop(d, b.digits);
    QuotientPositive(av, bv);
    RevPushed(q);
    var q' := Clamp(Rev(q));
    a.digits := Clamp(d[..]);
    LshPos(k);
    if k != 0 { QDiv(a, k); }
    RshUnique(Lsh(av % bv, k), k, av % bv, 0);
    Copy(a, b);
    a.digits, a.neg := q', false;
  }

  lemma StallsHere(a: int, b: int, x: seq<digit>, y: seq<digit>)
    requires NormalizedPair(a, b, x, y)
    ensures DivisionStalls(a, b) <==> StallsFrom(x, y, 0)
  {
    if DivisionStalls(a, b) {
      var x', y' :| NormalizedPair(a, b, x', y') && StallsFrom(x', y', 0);
      PairUnique(a, b, x, y, x', y');
    }
  }

  lemma QuotientPositive(a: int, b: int)
    requires 0 < b <= a
    ensures a / b >= 1
  {
    var q, r := a / b, a % b;
    assert a == b * q + r;
    if q <= 0 { MulMono(q, 0, b); }
  }

  /** 2^31 * B^2 divided by 2^31 * B + 1 stalls: the quotient is not B - 1 */
  lemma StallExample()
    ensures DivisionStalls(0x8000_0000_0000_0000_0000_0000, 0x8000_0000_0000_0001)
  {
    var x: seq<digit>, y: seq<digit> := [0, 0, 0x8000_0000], [1, 0x8000_0000];
    ValHead(x, 0, 3);
    ValHead(x, 1, 2);
    ValHead(x, 2, 1);
    ValHead(y, 0, 2);
    ValHead(y, 1, 1);
    assert ShiftedBy(0x8000_0000_0000_0000_0000_0000, 0x8000_0000_0000_0001, x, y, 0);
    assert Running(x, Num(y), 3) == 0;
    assert Running(x, Num(y), 2) == 0x8000_0000;
    assert Running(x, Num(y), 1) == 0x8000_0000_0000_0000;
    ShlIn(0x8000_0000, 1);
    assert Stalls(x, y, 0);
    assert NormalizedPair(0x8000_0000_0000_0000_0000_0000, 0x8000_0000_0000_0001, x, y) && StallsFrom(x, y, 0);
  }
}
