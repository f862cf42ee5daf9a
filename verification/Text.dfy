/** Numbers as text in radix 2 to 36: mp_int_to_string and mp_int_read_cstring. */
module Text {

  import opened Common
  import opened Digits
  import opened Kernels
  import opened Magnitude
  import opened Integers
  import opened Shifts

  // ---------------------------------------------------------------- one digit at a time

  /** w is below the divisor, so the next quotient digit is a digit */
  lemma QuotientFits(w: int, d: int, b: int)
    requires 0 <= w < b && 0 <= d < 0x1_0000_0000
    ensures var v := 0x1_0000_0000 * w + d; 0 <= v / b < 0x1_0000_0000 && 0 <= v % b < b && v == (v / b) * b + v % b
  {
    var v := 0x1_0000_0000 * w + d;
    var q := v / b;
    assert v == q * b + v % b;
    Below(q, b);
  }

  lemma Below(q: int, b: int)
    requires b > 0 && q * b < 0x1_0000_0000 * b
    ensures q < 0x1_0000_0000
  {
  }

  lemma Assemble(q: int, b: int, w: int, d: int, t: int, r: int)
    requires 0x1_0000_0000 * w + d == t * b + r
    ensures 0x1_0000_0000 * (q * b + w) + d == (0x1_0000_0000 * q + t) * b + r
  {
  }

  /** s_ddiv: quotient and remainder by one digit, from the top down */
  method DDiv(s: seq<digit>, b: digit) returns (q: seq<digit>, r: digit)
    requires |s| >= 1 && b > 0
    ensures Normal(q) && Num(s) == Num(q) * b + r && 0 <= r < b
  {
    var w: int := 0;
    var quot: seq<digit> := [];
    var k := |s|;
    while k > 0
      invariant 0 <= k <= |s| && |quot| == |s| - k && 0 <= w < b
      invariant Val(s, k, |s| - k) == Num(quot) * b + w
    {
      k := k - 1;
      ValHead(s, k, |s| - k);
      QuotientFits(w, s[k], b);
      var v := 0x1_0000_0000 * w + s[k];
      Prepend(v / b, quot);
      Assemble(Num(quot), b, w, s[k], v / b, v % b);
      quot, w := [v / b] + quot, v % b;
    }
    q := Clamp(quot);
    r := w;
  }

  lemma Prepend(d: digit, s: seq<digit>)
    ensures Num([d] + s) == d + 0x1_0000_0000 * Num(s)
  {
    var t := [d] + s;
    ValHead(t, 0, |t|);
    ValMove(t, 1, s, 0, |s|);
  }

  /** s_dmul: times one digit, from the bottom up */
  method DMul(s: seq<digit>, b: digit) returns (p: seq<digit>)
    requires |s| >= 1
    ensures |p| >= 1 && Num(p) == b * Num(s)
  {
    var w: digit := 0;
    p := [];
    var k := 0;
    while k < |s|
      invariant k <= |s| && |p| == k && Num(p) + Shl(w, k) == b * Val(s, 0, k)
    {
      MulStepFits(b, s[k], w, 0);
      MulStep(b, s, 0, k, w, 0);
      ShlZero(k);
      var v: int := b * s[k] + w;
      Carry(v, k);
      NumAppend(p, Lo(v));
      p, w := p + [Lo(v)], Hi(v);
      k := k + 1;
    }
    if w != 0 {
      NumAppend(p, w);
      p := p + [w];
    } else {
      ShlZero(k);
    }
  }

  /** s_dadd: plus one digit */
  method DAdd(s: seq<digit>, b: digit) returns (p: seq<digit>)
    requires |s| >= 1
    ensures |p| >= 1 && Num(p) == Num(s) + b
  {
    var w: digit := b;
    p := [];
    var k := 0;
    while k < |s|
      invariant k <= |s| && |p| == k && Num(p) + Shl(w, k) == Val(s, 0, k) + b
    {
      var v: int := s[k] + w;
      ShlAdd(s[k], w, k);
      Carry(v, k);
      NumAppend(p, Lo(v));
      p, w := p + [Lo(v)], Hi(v);
      k := k + 1;
    }
    if w != 0 {
      NumAppend(p, w);
      p := p + [w];
    } else {
      ShlZero(k);
    }
  }

  // ---------------------------------------------------------------- digit characters

  /** s_val2ch */
  function ValueChar(v: nat, caps: bool): char
    requires v < 36
  {
    if v < 10 then '0' + v as char else (if caps then 'A' else 'a') + (v - 10) as char
  }

  /** s_ch2val; -1 for a character that is no digit of the radix */
  function CharValue(c: char, r: nat): (v: int)
    ensures -1 <= v && (v >= 0 ==> v < r)
  {
    var out :=
      if '0' <= c <= '9' then c as int - '0' as int
      else if r > 10 && 'a' <= c <= 'z' then c as int - 'a' as int + 10
      else if r > 10 && 'A' <= c <= 'Z' then c as int - 'A' as int + 10
      else -1;
    if out >= r then -1 else out
  }

  lemma CharRoundTrip(v: nat, caps: bool, r: nat)
    requires v < r <= 36
    ensures CharValue(ValueChar(v, caps), r) == v
  {
  }

  /** A character has value v in a radix above v exactly when it is one of the two characters written for v */
  lemma CharIff(c: char, r: nat, v: nat)
    requires v < r <= 36
    ensures CharValue(c, r) == v <==> c == ValueChar(v, true) || c == ValueChar(v, false)
  {
  }

  /** A digit character of the case asked for */
  predicate InCase(c: char, caps: bool) {
    '0' <= c <= '9' || (if caps then 'A' <= c <= 'Z' else 'a' <= c <= 'z')
  }

  // ---------------------------------------------------------------- what a text means

  /** The digits of a positive number, highest first; nothing for 0 */
  function Spell(v: nat, r: nat, caps: bool): string
    requires 2 <= r <= 36
    decreases v
  {
    if v == 0 then "" else
      Smaller(v, r);
      Spell(v / r, r, caps) + [ValueChar(v % r, caps)]
  }

  lemma Smaller(v: nat, r: nat)
    requires v > 0 && r >= 2
    ensures 0 <= v / r < v && 0 <= v % r < r && v == (v / r) * r + v % r
  {
    var q := v / r;
    assert v == q * r + v % r;
    Twice(q, r, v);
  }

  lemma Twice(q: int, r: int, v: int)
    requires r >= 2 && 0 <= q && 0 < v && q * r <= v
    ensures q < v
  {
    MulMono(2, r, q);
  }

  predicate AllDigits(t: string, r: nat) {
    forall i :: 0 <= i < |t| ==> CharValue(t[i], r) >= 0
  }

  function TextValue(t: string, r: nat): int {
    if t == "" then 0 else TextValue(t[..|t| - 1], r) * r + CharValue(t[|t| - 1], r)
  }

  /** The digits of a number spell that number */
  lemma {:induction false} SpellValue(v: nat, r: nat, caps: bool)
    requires 2 <= r <= 36
    ensures AllDigits(Spell(v, r, caps), r) && TextValue(Spell(v, r, caps), r) == v
  {
    if v > 0 {
      Smaller(v, r);
      SpellValue(v / r, r, caps);
      CharRoundTrip(v % r, caps, r);
      var t := Spell(v / r, r, caps);
      assert (t + [ValueChar(v % r, caps)])[..|t|] == t;
    }
  }

  /** The whole text of a number: sign and digits, or a single 0 */
  function TextOf(v: int, r: nat, caps: bool): string
    requires 2 <= r <= 36
  {
    if v == 0 then "0" else (if v < 0 then "-" else "") + Spell(if v < 0 then -v else v, r, caps)
  }

  /** The digits of a positive number do not start with 0 */
  lemma {:induction false} NoLeadingZero(v: nat, r: nat, caps: bool)
    requires v > 0 && 2 <= r <= 36
    ensures Spell(v, r, caps) != "" && Spell(v, r, caps)[0] != '0'
    decreases v
  {
    Smaller(v, r);
    if v / r > 0 {
      NoLeadingZero(v / r, r, caps);
    } else {
      assert Spell(v, r, caps) == [ValueChar(v, caps)];
    }
  }

  /** All letters of a text are of the case asked for, and nothing but a leading minus is no digit */
  lemma TextCase(v: int, r: nat, caps: bool, i: nat)
    requires 2 <= r <= 36 && i < |TextOf(v, r, caps)|
    ensures var c := TextOf(v, r, caps)[i]; InCase(c, caps) || (c == '-' && i == 0 && v < 0)
  {
    if v > 0 {
      SpellCase(v, r, caps, i);
    } else if v < 0 && i > 0 {
      SpellCase(-v, r, caps, i - 1);
    }
  }

  lemma {:induction false} SpellCase(v: nat, r: nat, caps: bool, i: nat)
    requires 2 <= r <= 36 && i < |Spell(v, r, caps)|
    ensures InCase(Spell(v, r, caps)[i], caps)
    decreases v
  {
    Smaller(v, r);
    if i < |Spell(v / r, r, caps)| {
      SpellCase(v / r, r, caps, i);
    }
  }

  // ---------------------------------------------------------------- writing

  datatype TextResult = Ok | Range | Trunc

  /** The two-pointer loop that puts the digits in order */
  method InOrder(g: string) returns (t: string)
    ensures t == Rev(g)
  {
    var a := new char[|g|](i requires 0 <= i < |g| => g[i]);
    var lo, hi := 0, |g| - 1;
    while lo < hi
      invariant 0 <= lo && lo + hi == |g| - 1 && lo <= hi + 1
      invariant forall i {:trigger a[i]} :: 0 <= i < lo || hi < i < |g| ==> a[i] == g[|g| - 1 - i]
      invariant forall i {:trigger a[i]} :: lo <= i <= hi ==> a[i] == g[i]
    {
      a[lo], a[hi] := a[hi], a[lo];
      lo, hi := lo + 1, hi - 1;
    }
    t := a[..];
    assert forall i {:trigger t[i]} :: 0 <= i < |g| ==> t[i] == g[|g| - 1 - i];
  }

  lemma NextChar(v: nat, r: nat, caps: bool, g: string)
    requires v > 0 && 2 <= r <= 36
    ensures 0 <= v % r < 36 && 0 <= v / r && Spell(v / r, r, caps) + Rev(g + [ValueChar(v % r, caps)]) == Spell(v, r, caps) + Rev(g)
  {
    Smaller(v, r);
    RevSnoc(g, ValueChar(v % r, caps));
  }

  /** The loop of mp_int_to_string: digits in reverse order, until done or the limit is reached */
  method Generate(m: seq<digit>, radix: nat, caps: bool, limit: nat) returns (done: bool, g: string)
    requires Normal(m) && Num(m) > 0 && 2 <= radix <= 36 && limit > 0
    ensures done <==> |Spell(Num(m), radix, caps)| < limit
    ensures done ==> Rev(g) == Spell(Num(m), radix, caps)
  {
    var tmp, left := m, limit;
    g := "";
    while left > 0
      invariant left <= limit && |g| == limit - left && Normal(tmp) && Num(tmp) >= 0
      invariant Spell(Num(tmp), radix, caps) + Rev(g) == Spell(Num(m), radix, caps)
    {
      ZeroIff(tmp);
      if |tmp| == 1 && tmp[0] == 0 {
        return true, g;
      }
      var q, d := DDiv(tmp, radix);
      NumBound(q);
      DivModUnique(Num(tmp), radix, Num(q), d);
      NextChar(Num(tmp), radix, caps, g);
      g := g + [ValueChar(d, caps)];
      tmp := q;
      left := left - 1;
    }
    done := false;
  }

  /** mp_int_to_string; with MP_OK the text is the number's, and that needs room for the terminator too */
  method ToString(z: MpInt, radix: nat, limit: nat, caps: bool) returns (res: TextResult, str: string)
    requires z.Valid() && limit >= 2
    ensures res.Range? <==> !(2 <= radix <= 36)
    ensures !res.Range? ==> (res.Ok? <==> |TextOf(z.Value(), radix, caps)| < limit)
    ensures res.Ok? ==> str == TextOf(z.Value(), radix, caps)
  {
    if radix < 2 || radix > 36 {
      return Range, "";
    }
    var c := CmpZero(z);
    if c == 0 {
      return Ok, [ValueChar(0, caps)];
    }
    NumBound(z.digits);
    var done, g := Generate(z.digits, radix, caps, if z.neg then limit - 1 else limit);
    var t := InOrder(g);
    str := (if z.neg then "-" else "") + t;
    res := if done then Ok else Trunc;
  }

  // ---------------------------------------------------------------- reading

  predicate IsSpace(c: char) {
    c == ' ' || '\t' <= c <= '\r'
  }

  function AfterSpaces(s: string): string {
    if s != "" && IsSpace(s[0]) then AfterSpaces(s[1..]) else s
  }

  predicate Minus(s: string) {
    s != "" && s[0] == '-'
  }

  function AfterSign(s: string): string {
    if s != "" && (s[0] == '-' || s[0] == '+') then s[1..] else s
  }

  /** How many characters at the front are digits */
  function DigitRun(s: string, r: nat): (n: nat)
    ensures n <= |s| && AllDigits(s[..n], r) && (n < |s| ==> CharValue(s[n], r) < 0)
  {
    if s == "" || CharValue(s[0], r) < 0 then 0 else
      var n := DigitRun(s[1..], r);
      assert s[..n + 1] == [s[0]] + s[1..][..n];
      n + 1
  }

  lemma RunIs(s: string, r: nat, n: nat)
    requires n <= |s| && AllDigits(s[..n], r) && (n < |s| ==> CharValue(s[n], r) < 0)
    ensures DigitRun(s, r) == n
  {
    var m := DigitRun(s, r);
    assert forall i :: 0 <= i < n ==> CharValue(s[..n][i], r) == CharValue(s[i], r);
    assert forall i :: 0 <= i < m ==> CharValue(s[..m][i], r) == CharValue(s[i], r);
  }

  /** What a text is read as: the sign and the leading run of digits after spaces */
  function ReadValue(s: string, r: nat): int {
    var t := AfterSpaces(s);
    var u := AfterSign(t);
    var v := TextValue(u[..DigitRun(u, r)], r);
    if Minus(t) then -v else v
  }

  /** The whole text was digits after spaces and sign */
  predicate ReadsAll(s: string, r: nat) {
    var u := AfterSign(AfterSpaces(s)); DigitRun(u, r) == |u|
  }

  lemma TextValueNext(t: string, k: nat, r: nat)
    requires k < |t|
    ensures TextValue(t[..k + 1], r) == TextValue(t[..k], r) * r + CharValue(t[k], r)
  {
    assert t[..k + 1][..k] == t[..k];
  }

  /** The two loops of mp_int_read_cstring over zeros and digits */
  method ReadDigits(s: string, radix: nat) returns (m: seq<digit>, n: nat)
    requires 2 <= radix <= 36
    ensures Normal(m) && n == DigitRun(s, radix) && Num(m) == TextValue(s[..n], radix)
  {
    n := 0;
    while n < |s| && CharValue(s[n], radix) == 0
      invariant n <= |s| && AllDigits(s[..n], radix) && TextValue(s[..n], radix) == 0
    {
      TextValueNext(s, n, radix);
      n := n + 1;
    }
    var d: seq<digit> := [0];
    ZeroIff(d);
    while n < |s| && CharValue(s[n], radix) >= 0
      invariant n <= |s| && |d| >= 1 && AllDigits(s[..n], radix) && Num(d) == TextValue(s[..n], radix)
    {
      TextValueNext(s, n, radix);
      d := DMul(d, radix);
      d := DAdd(d, CharValue(s[n], radix));
      n := n + 1;
    }
    RunIs(s, radix, n);
    m := Clamp(d);
  }

  /** mp_int_read_cstring; a zero is never negative */
  method ReadString(z: MpInt, radix: nat, str: string) returns (res: TextResult)
    modifies z
    ensures res.Range? <==> !(2 <= radix <= 36)
    ensures !res.Range? ==> z.Valid() && z.Value() == ReadValue(str, radix) && (z.Value() == 0 ==> !z.neg)
    ensures !res.Range? ==> (res.Ok? <==> ReadsAll(str, radix))
  {
    if radix < 2 || radix > 36 {
      return Range;
    }
    var k := 0;
    while k < |str| && IsSpace(str[k])
      invariant k <= |str| && AfterSpaces(str[k..]) == AfterSpaces(str)
    {
      assert str[k..][1..] == str[k + 1..];
      k := k + 1;
    }
    var t := str[k..];
    var negative := Minus(t);
    var u := AfterSign(t);
    var m, n := ReadDigits(u, radix);
    z.digits, z.neg := m, negative;
    var c := CmpZero(z);
    if c == 0 {
      z.neg := false;
    }
    res := if n < |u| then Trunc else Ok;
  }

  // ---------------------------------------------------------------- there and back

  lemma FirstChar(v: nat, r: nat, caps: bool)
    requires v > 0 && 2 <= r <= 36
    ensures var t := Spell(v, r, caps); t != "" && !IsSpace(t[0]) && t[0] != '-' && t[0] != '+'
  {
    SpellValue(v, r, caps);
    var t := Spell(v, r, caps);
    Smaller(v, r);
    assert t != "";
    assert CharValue(t[0], r) >= 0;
  }

  /** Reading the text of any number gives that number, and all of the text is read */
  lemma TextRoundTrip(v: int, r: nat, caps: bool)
    requires 2 <= r <= 36
    ensures ReadValue(TextOf(v, r, caps), r) == v && ReadsAll(TextOf(v, r, caps), r)
  {
    if v == 0 {
      ZeroText(r);
    } else {
      var m := if v < 0 then -v else v;
      var t, sign := Spell(m, r, caps), if v < 0 then "-" else "";
      SpellValue(m, r, caps);
      FirstChar(m, r, caps);
      ReadSigned(sign, t, r);
    }
  }

  lemma ReadSigned(sign: string, t: string, r: nat)
    requires sign == "" || sign == "-"
    requires AllDigits(t, r) && t != "" && !IsSpace(t[0]) && t[0] != '-' && t[0] != '+'
    ensures ReadsAll(sign + t, r) && ReadValue(sign + t, r) == if sign == "-" then -TextValue(t, r) else TextValue(t, r)
  {
    var s := sign + t;
    assert s[0] == if sign == "-" then '-' else t[0];
    assert AfterSpaces(s) == s;
    assert AfterSign(s) == t by {
      assert sign == "" ==> s == t;
    }
    assert t[..|t|] == t;
    RunIs(t, r, |t|);
  }

  /** A plus before a run of digits changes nothing, and is read with it */
  lemma PlusIgnored(t: string, r: nat)
    requires AllDigits(t, r) && t != "" && !IsSpace(t[0]) && t[0] != '-' && t[0] != '+'
    ensures ReadValue("+" + t, r) == ReadValue(t, r) == TextValue(t, r) && ReadsAll("+" + t, r) && ReadsAll(t, r)
  {
    var s := "+" + t;
    assert s[0] == '+' && s[1..] == t;
    assert AfterSpaces(s) == s && AfterSign(s) == t;
    ReadSigned("", t, r);
    assert "" + t == t && t[..|t|] == t;
    RunIs(t, r, |t|);
  }

  /** Blanks, tabs, line feeds, vertical tabs, form feeds and carriage returns in front are skipped */
  lemma SpaceIgnored(c: char, t: string, r: nat)
    requires c == ' ' || 9 <= c as int <= 13
    ensures ReadValue([c] + t, r) == ReadValue(t, r) && (ReadsAll([c] + t, r) <==> ReadsAll(t, r))
  {
    var s := [c] + t;
    assert s[0] == c && s[1..] == t;
    assert AfterSpaces(s) == AfterSpaces(t);
  }

  /** A character that is no digit ends the number, and shows in the result */
  lemma TrailingNoticed(t: string, c: char, u: string, r: nat)
    requires AllDigits(t, r) && t != "" && !IsSpace(t[0]) && t[0] != '-' && t[0] != '+' && CharValue(c, r) < 0
    ensures ReadValue(t + [c] + u, r) == TextValue(t, r) && !ReadsAll(t + [c] + u, r)
  {
    var s := t + [c] + u;
    assert s[0] == t[0] && s[..|t|] == t && s[|t|] == c;
    assert AfterSpaces(s) == s && AfterSign(s) == s;
    RunIs(s, r, |t|);
  }

  lemma ZeroText(r: nat)
    requires 2 <= r <= 36
    ensures ReadValue("0", r) == 0 && ReadsAll("0", r)
  {
    assert "0"[..1] == "0";
    RunIs("0", r, 1);
    assert TextValue("0"[..0], r) == 0;
  }

  /** What mp_int_to_string writes, mp_int_read_cstring reads back as the same number */
  method Reread(z: MpInt, y: MpInt, radix: nat, limit: nat, caps: bool) returns (ok: bool)
    requires z.Valid() && y != z && 2 <= radix <= 36 && limit >= 2
    modifies y
    ensures ok <==> |TextOf(z.Value(), radix, caps)| < limit
    ensures ok ==> y.Valid() && y.Value() == z.Value()
  {
    TextRoundTrip(z.Value(), radix, caps);
    var res, str := ToString(z, radix, limit, caps);
    ok := res.Ok?;
    if ok {
      res := ReadString(y, radix, str);
    }
  }
}
